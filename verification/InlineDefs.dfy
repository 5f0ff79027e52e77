/** Inlining of local references: the guarded walk of jsonschema/refs.go and the plain
    unfolding it must agree with. */
module InlineDefs {
  import opened Wrappers
  import opened JsonValue
  import opened DefRefs

  /** The names a reference can be inlined from: definitions that are objects. */
  function Resolvable(defs: Object): (r: set<string>) {
    set n | n in defs && defs[n].Obj?
  }

  /** inlineDefs with the set of definitions being inlined as a value. */
  function Inline(j: Value, defs: Object, active: set<string>): (r: Value)
    ensures j.Obj? ==> r.Obj?
    decreases |defs.Keys - active|, j
  {
    match j
    case Obj(m) =>
      if "$ref" in m && m["$ref"].Str? then
        var own := OwnRef(m);
        if own.Some? && own.value !in active && own.value in Resolvable(defs) then
          assert defs.Keys - (active + {own.value}) == (defs.Keys - active) - {own.value};
          var resolved := Inline(defs[own.value], defs, active + {own.value});
          Obj(resolved.fields + map k | k in m && k != "$ref" :: Inline(m[k], defs, active))
        else
          Obj(map k | k in m :: if k == "$ref" then m[k] else Inline(m[k], defs, active))
      else
        Obj(map k | k in m :: Inline(m[k], defs, active))
    case Arr(a) => Arr(seq(|a|, i requires 0 <= i < |a| => Inline(a[i], defs, active)))
    case _ => j
  }

  /** Plain recursive unfolding: siblings of a reference are laid over its definition. */
  ghost function Unfold(j: Value, defs: Object): (r: Value)
    requires Acyclic(defs)
    ensures j.Obj? ==> r.Obj?
    decreases |Closure(defs, Refs(j))|, j
  {
    match j
    case Obj(m) =>
      assert forall k :: k in m ==> |Closure(defs, Refs(m[k]))| <= |Closure(defs, Refs(j))| by {
        forall k | k in m { ClosureMonotone(defs, Refs(m[k]), Refs(j)); }
      }
      var kids := map k | k in m :: Unfold(m[k], defs);
      if OwnRef(m).Some? && OwnRef(m).value in Resolvable(defs) then
        ClosureDrops(defs, OwnRef(m).value, Refs(j));
        Obj(Unfold(defs[OwnRef(m).value], defs).fields + (kids - {"$ref"}))
      else
        Obj(kids)
    case Arr(a) =>
      assert forall i :: 0 <= i < |a| ==> |Closure(defs, Refs(a[i]))| <= |Closure(defs, Refs(j))| by {
        forall i | 0 <= i < |a| { ClosureMonotone(defs, Refs(a[i]), Refs(j)); }
      }
      Arr(seq(|a|, i requires 0 <= i < |a| => Unfold(a[i], defs)))
    case _ => j
  }

  lemma SmallerCard(a: set<string>, b: set<string>)
    requires a <= b
    ensures |a| <= |b|
    ensures a != b ==> |a| < |b|
  {
    assert b == a + (b - a);
  }

  lemma ClosureMonotone(defs: Object, a: set<string>, b: set<string>)
    requires a <= b
    ensures Closure(defs, a) <= Closure(defs, b)
    ensures |Closure(defs, a)| <= |Closure(defs, b)|
  {
    SmallerCard(Closure(defs, a), Closure(defs, b));
  }

  lemma InClosure(defs: Object, seeds: set<string>, s: string, n: string)
    requires s in seeds && Reaches(defs, s, n)
    ensures n in Closure(defs, seeds)
  {
    ClosureHolds(defs, seeds, n);
  }

  lemma SeedInClosure(defs: Object, seeds: set<string>, s: string)
    requires s in seeds
    ensures s in Closure(defs, seeds)
  {
    ClosureIsClosed(defs, seeds);
  }

  /** Following a reference of an acyclic graph leaves the followed name behind for good. */
  lemma ClosureDrops(defs: Object, name: string, seeds: set<string>)
    requires Acyclic(defs) && name in defs && name in seeds
    ensures Closure(defs, Refs(defs[name])) <= Closure(defs, seeds)
    ensures name !in Closure(defs, Refs(defs[name]))
    ensures |Closure(defs, Refs(defs[name]))| < |Closure(defs, seeds)|
  {
    var inner, outer := Closure(defs, Refs(defs[name])), Closure(defs, seeds);
    forall n | n in inner
      ensures n in outer && n != name
    {
      var s :| s in Refs(defs[name]) && Reaches(defs, s, n);
      assert Edge(defs, name, s);
      StepReaches(defs, name, s, n);
      InClosure(defs, seeds, name, n);
    }
    SeedInClosure(defs, seeds, name);
    SmallerCard(inner, outer);
  }

  /** On acyclic definitions the active guard never fires: inlining is the plain unfolding. */
  lemma {:induction false} InlineIsUnfold(j: Value, defs: Object, active: set<string>)
    requires Acyclic(defs) && active !! Closure(defs, Refs(j))
    ensures Inline(j, defs, active) == Unfold(j, defs)
    decreases |Closure(defs, Refs(j))|, j
  {
    match j
    case Obj(m) =>
      forall k | k in m
        ensures Inline(m[k], defs, active) == Unfold(m[k], defs)
      {
        ClosureMonotone(defs, Refs(m[k]), Refs(j));
        InlineIsUnfold(m[k], defs, active);
      }
      var own := OwnRef(m);
      if own.Some? && own.value in Resolvable(defs) {
        SeedInClosure(defs, Refs(j), own.value);
        ClosureDrops(defs, own.value, Refs(j));
        InlineIsUnfold(defs[own.value], defs, active + {own.value});
      }
      InlineIsUnfoldAt(m, defs, active);
    case Arr(a) =>
      forall i | 0 <= i < |a|
        ensures Inline(a[i], defs, active) == Unfold(a[i], defs)
      {
        ClosureMonotone(defs, Refs(a[i]), Refs(j));
        InlineIsUnfold(a[i], defs, active);
      }
      InlineIsUnfoldAll(a, defs, active);
    case _ =>
  }

  lemma InlineIsUnfoldAll(a: seq<Value>, defs: Object, active: set<string>)
    requires Acyclic(defs)
    requires forall i :: 0 <= i < |a| ==> Inline(a[i], defs, active) == Unfold(a[i], defs)
    ensures Inline(Arr(a), defs, active) == Unfold(Arr(a), defs)
  {
  }

  lemma InlineIsUnfoldAt(m: Object, defs: Object, active: set<string>)
    requires Acyclic(defs)
    requires forall k :: k in m ==> Inline(m[k], defs, active) == Unfold(m[k], defs)
    requires OwnRef(m).Some? && OwnRef(m).value in Resolvable(defs) ==>
               var n := OwnRef(m).value;
               n !in active && Inline(defs[n], defs, active + {n}) == Unfold(defs[n], defs)
    ensures Inline(Obj(m), defs, active) == Unfold(Obj(m), defs)
  {
    InlineKids(m, defs, active);
    InlineNode(m, defs, active);
    UnfoldNode(m, defs);
  }

  lemma InlineKids(m: Object, defs: Object, active: set<string>)
    requires Acyclic(defs)
    ensures (forall k :: k in m ==> Inline(m[k], defs, active) == Unfold(m[k], defs)) ==>
              (map k | k in m :: Inline(m[k], defs, active)) == (map k | k in m :: Unfold(m[k], defs))
  {
  }

  /** A string keeps its place, so the three branches of the walk come down to two. */
  lemma InlineNode(m: Object, defs: Object, active: set<string>)
    ensures var kids := map k | k in m :: Inline(m[k], defs, active);
            var own := OwnRef(m);
            Inline(Obj(m), defs, active) ==
            if own.Some? && own.value !in active && own.value in Resolvable(defs) then
              Obj(Inline(defs[own.value], defs, active + {own.value}).fields + (kids - {"$ref"}))
            else
              Obj(kids)
  {
    InlineSiblings(m, defs, active);
  }

  lemma UnfoldNode(m: Object, defs: Object)
    requires Acyclic(defs)
    ensures var kids := map k | k in m :: Unfold(m[k], defs);
            var own := OwnRef(m);
            Unfold(Obj(m), defs) ==
            if own.Some? && own.value in Resolvable(defs) then
              Obj(Unfold(defs[own.value], defs).fields + (kids - {"$ref"}))
            else
              Obj(kids)
  {
  }

  lemma InlineSiblings(m: Object, defs: Object, active: set<string>)
    ensures var kids := map k | k in m :: Inline(m[k], defs, active);
            && (map k | k in m && k != "$ref" :: Inline(m[k], defs, active)) == kids - {"$ref"}
            && ("$ref" in m && m["$ref"].Str? ==>
                  (map k | k in m :: if k == "$ref" then m[k] else Inline(m[k], defs, active)) == kids)
  {
  }

  /** Nothing that could be inlined is left. */
  lemma {:induction false} UnfoldLeavesNoRef(j: Value, defs: Object)
    requires Acyclic(defs)
    ensures Refs(Unfold(j, defs)) !! Resolvable(defs)
    decreases |Closure(defs, Refs(j))|, j
  {
    match j
    case Obj(m) =>
      forall k | k in m
        ensures Refs(Unfold(m[k], defs)) !! Resolvable(defs)
      {
        ClosureMonotone(defs, Refs(m[k]), Refs(j));
        UnfoldLeavesNoRef(m[k], defs);
      }
      var own := OwnRef(m);
      if own.Some? && own.value in Resolvable(defs) {
        ClosureDrops(defs, own.value, Refs(j));
        UnfoldLeavesNoRef(defs[own.value], defs);
      }
      UnfoldLeavesNoRefAt(m, defs);
    case Arr(a) =>
      forall i | 0 <= i < |a|
        ensures Refs(Unfold(a[i], defs)) !! Resolvable(defs)
      {
        ClosureMonotone(defs, Refs(a[i]), Refs(j));
        UnfoldLeavesNoRef(a[i], defs);
      }
    case _ =>
  }

  lemma UnfoldLeavesNoRefAt(m: Object, defs: Object)
    requires Acyclic(defs)
    requires forall k :: k in m ==> Refs(Unfold(m[k], defs)) !! Resolvable(defs)
    requires OwnRef(m).Some? && OwnRef(m).value in Resolvable(defs) ==>
               Refs(Unfold(defs[OwnRef(m).value], defs)) !! Resolvable(defs)
    ensures Refs(Unfold(Obj(m), defs)) !! Resolvable(defs)
  {
    var r := Unfold(Obj(m), defs).fields;
    if OwnRef(m).Some? && OwnRef(m).value in Resolvable(defs) {
      var target := Unfold(defs[OwnRef(m).value], defs);
      assert OwnRef(r) == OwnRef(target.fields);
      forall k | k in r
        ensures Refs(r[k]) !! Resolvable(defs)
      {
        if k in m && k != "$ref" {
        } else {
          assert r[k] == target.fields[k] && Refs(r[k]) <= Refs(target);
        }
      }
    } else {
      assert OwnRef(r) == OwnRef(m);
    }
  }
}
