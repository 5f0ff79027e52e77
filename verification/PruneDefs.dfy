/** Removal of unreachable definitions (jsonschema/transform.go, pruneUnusedDefs). */
module PruneDefs {
  import opened Wrappers
  import opened JsonValue
  import opened DefRefs
  import opened InlineDefs

  /** The definitions section, empty when it is absent or not an object. */
  function DefsOf(doc: Object): (r: Object) {
    if "$defs" in doc && doc["$defs"].Obj? then doc["$defs"].fields else map[]
  }

  /** The document without its definitions. */
  function Body(doc: Object): (r: Object) {
    doc - {"$defs"}
  }

  /** The names the loop is seeded with: references inside the values of the document. */
  function SeedRefs(doc: Object): (r: set<string>) {
    set k, n | k in doc && k != "$defs" && n in Refs(doc[k]) :: n
  }

  ghost function Kept(doc: Object): (r: Object) {
    Restrict(DefsOf(doc), Closure(DefsOf(doc), SeedRefs(doc)))
  }

  function Restrict(defs: Object, names: set<string>): (r: Object) {
    map n | n in defs && n in names :: defs[n]
  }

  /** The document after pruneUnusedDefs. */
  ghost function Pruned(doc: Object): (r: Object) {
    if !("$defs" in doc && doc["$defs"].Obj?) then doc
    else if Kept(doc) == map[] then Body(doc)
    else doc["$defs" := Obj(Kept(doc))]
  }

  /** The names reachable from the rest of the document. */
  method ReachableDefs(doc: Object, defs: Object) returns (reachable: set<string>)
    ensures reachable == Closure(defs, SeedRefs(doc))
  {
    reachable := CollectSeeds(doc);
    ClosureIsClosed(defs, SeedRefs(doc));
    reachable := Saturate(defs, reachable, Closure(defs, SeedRefs(doc)));
    ClosureIsLeast(defs, SeedRefs(doc), reachable);
  }

  /** Passes over the reachable definitions until one adds nothing. */
  method Saturate(defs: Object, seeds: set<string>, ghost all: set<string>) returns (reachable: set<string>)
    requires seeds <= all && Closed(defs, all)
    ensures seeds <= reachable <= all && Closed(defs, reachable)
  {
    reachable := seeds;
    var added := true;
    while added
      invariant seeds <= reachable <= all
      invariant !added ==> Closed(defs, reachable)
      decreases added, |all - reachable|
    {
      ghost var before := reachable;
      reachable, added := Pass(defs, reachable, all);
      Grows(all, before, reachable);
    }
  }

  lemma Grows(all: set<string>, a: set<string>, b: set<string>)
    requires a <= b <= all
    ensures a != b ==> |all - b| < |all - a|
  {
    if a != b {
      assert all - b != all - a;
      SmallerCard(all - b, all - a);
    }
  }

  /** One pass ranges over a map that grows under it, so names added during the pass may or may
      not be visited by it.  It adds nothing only when the names are already closed. */
  method Pass(defs: Object, reachable: set<string>, ghost all: set<string>)
    returns (out: set<string>, added: bool)
    requires reachable <= all && Closed(defs, all)
    ensures reachable <= out <= all
    ensures added <==> out != reachable
    ensures !added ==> Closed(defs, reachable)
  {
    out, added := reachable, false;
    var visited, todo := {}, reachable;
    while todo != {}
      invariant reachable <= out <= all
      invariant visited <= out && todo <= out - visited
      invariant forall n :: n in reachable ==> n in visited || n in todo
      invariant added <==> out != reachable
      invariant !added ==> forall a, b :: a in visited && Edge(defs, a, b) ==> b in out
      decreases |all - visited|
    {
      var name :| name in todo;
      Grows(all, visited, visited + {name});
      visited, todo := visited + {name}, todo - {name};
      var grew;
      out, grew := Visit(defs, name, out);
      added := added || grew;
      if grew {
        var picked: set<string> :| todo <= picked <= out - visited;
        todo := picked;
      }
    }
  }

  /** Adds the references of one definition; a longer map is the sign that some were new. */
  method Visit(defs: Object, name: string, reachable: set<string>) returns (out: set<string>, grew: bool)
    ensures reachable <= out
    ensures forall b :: b in out <==> b in reachable || Edge(defs, name, b)
    ensures grew <==> out != reachable
  {
    out := reachable;
    if name in defs {
      out := CollectDefRefs(defs[name], out);
      SmallerCard(reachable, out);
    }
    grew := |out| != |reachable|;
  }

  method CollectSeeds(doc: Object) returns (seeds: set<string>)
    ensures seeds == SeedRefs(doc)
  {
    seeds := {};
    var todo := doc.Keys;
    while todo != {}
      invariant todo <= doc.Keys
      invariant forall n :: n in seeds <==> exists k :: k in doc && k !in todo && k != "$defs" && n in Refs(doc[k])
    {
      var k :| k in todo;
      todo := todo - {k};
      if k != "$defs" {
        seeds := CollectDefRefs(doc[k], seeds);
      }
    }
  }

  // ---- What pruning keeps ----

  /** Every name used anywhere in the document outside its definitions, the root's own included. */
  function DocRefs(doc: Object): (r: set<string>) {
    Refs(Obj(Body(doc)))
  }

  lemma DocRefsSplit(doc: Object)
    ensures DocRefs(doc) == SeedRefs(doc) + OwnRefs(doc)
  {
    var b := Body(doc);
    assert OwnRef(b) == OwnRef(doc);
    forall n
      ensures n in DocRefs(doc) <==> n in SeedRefs(doc) || n in OwnRefs(doc)
    {
      if k :| k in b && n in Refs(b[k]) {
        assert k in doc && k != "$defs" && n in Refs(doc[k]);
      }
      if k :| k in doc && k != "$defs" && n in Refs(doc[k]) {
        assert k in b && n in Refs(b[k]);
      }
    }
  }

  /** The seed misses the root's own "$ref"; it does no harm exactly when this holds. */
  ghost predicate RootRefCovered(doc: Object, names: set<string>) {
    OwnRef(doc).Some? && OwnRef(doc).value in names ==>
      OwnRef(doc).value in Closure(DefsOf(doc), SeedRefs(doc))
  }

  lemma DefsOfPruned(doc: Object)
    ensures DefsOf(Pruned(doc)) == Kept(doc)
    ensures Body(Pruned(doc)) == Body(doc)
    ensures "$defs" in Pruned(doc) && Pruned(doc)["$defs"].Obj? ==> DefsOf(Pruned(doc)) != map[]
  {
  }

  /** Pruning keeps exactly the definitions reachable from the document, the root's own reference
      counted, if and only if that reference is absent, dangling or reached some other way. */
  lemma KeptIsReachableIff(doc: Object)
    ensures DefsOf(Pruned(doc)) == Restrict(DefsOf(doc), Closure(DefsOf(doc), DocRefs(doc)))
       <==> RootRefCovered(doc, DefsOf(doc).Keys)
  {
    var defs := DefsOf(doc);
    var small, big := Closure(defs, SeedRefs(doc)), Closure(defs, DocRefs(doc));
    DefsOfPruned(doc);
    if RootRefCovered(doc, defs.Keys) {
      forall n | n in defs
        ensures n in small <==> n in big
      {
        CoveredClosure(doc, n);
      }
    } else {
      var own := OwnRef(doc).value;
      DocRefsSplit(doc);
      SeedInClosure(defs, DocRefs(doc), own);
      assert own in Restrict(defs, big) && own !in Restrict(defs, small);
    }
  }

  lemma CoveredClosure(doc: Object, n: string)
    requires RootRefCovered(doc, DefsOf(doc).Keys)
    requires n in DefsOf(doc)
    ensures n in Closure(DefsOf(doc), SeedRefs(doc)) <==> n in Closure(DefsOf(doc), DocRefs(doc))
  {
    var defs := DefsOf(doc);
    DocRefsSplit(doc);
    ClosureMonotone(defs, SeedRefs(doc), DocRefs(doc));
    if n in Closure(defs, DocRefs(doc)) {
      var s :| s in DocRefs(doc) && Reaches(defs, s, n);
      ClosureIsClosed(defs, SeedRefs(doc));
      if s !in SeedRefs(doc) && s !in defs {
        DanglingReachesNothing(defs, s, n);
      } else {
        ClosedHoldsReached(defs, Closure(defs, SeedRefs(doc)), s, n);
      }
    }
  }

  lemma DanglingReachesNothing(defs: Object, s: string, n: string)
    requires s !in defs && Reaches(defs, s, n)
    ensures n == s
  {
    assert Closed(defs, {s});
    ClosedHoldsReached(defs, {s}, s, n);
  }

  // ---- Pruning and meaning ----

  /** Unfolding to a bounded depth, for definitions of any shape, cyclic ones included: at depth 0
      a reference that could be followed shows only its siblings. */
  function UnfoldTo(j: Value, defs: Object, depth: nat): (r: Value)
    ensures j.Obj? ==> r.Obj?
    decreases depth, j
  {
    match j
    case Obj(m) =>
      var kids := map k | k in m :: UnfoldTo(m[k], defs, depth);
      if !(OwnRef(m).Some? && OwnRef(m).value in Resolvable(defs)) then
        Obj(kids)
      else if depth == 0 then
        Obj(kids - {"$ref"})
      else
        Obj(UnfoldTo(defs[OwnRef(m).value], defs, depth - 1).fields + (kids - {"$ref"}))
    case Arr(a) => Arr(seq(|a|, i requires 0 <= i < |a| => UnfoldTo(a[i], defs, depth)))
    case _ => j
  }

  /** The node's own reference, when it can be followed, is unfolded alike at the depth below. */
  ghost predicate TargetAlike(m: Object, d: Object, e: Object, depth: nat) {
    match OwnRef(m)
    case None => true
    case Some(n) =>
      && (n in Resolvable(d) <==> n in Resolvable(e))
      && (n in Resolvable(d) && depth > 0 ==> UnfoldTo(e[n], e, depth - 1) == UnfoldTo(d[n], d, depth - 1))
  }

  /** A closed set of definitions that holds a value's references unfolds it like all of them. */
  lemma {:induction false} UnfoldToRestrict(j: Value, defs: Object, names: set<string>, depth: nat)
    requires Refs(j) <= names && Closed(defs, names)
    ensures UnfoldTo(j, Restrict(defs, names), depth) == UnfoldTo(j, defs, depth)
    decreases depth, j, 1
  {
    match j
    case Obj(m) =>
      forall k | k in m
        ensures UnfoldTo(m[k], Restrict(defs, names), depth) == UnfoldTo(m[k], defs, depth)
      {
        UnfoldToRestrict(m[k], defs, names, depth);
      }
      TargetRestrict(m, defs, names, depth);
      UnfoldToSame(m, defs, Restrict(defs, names), depth);
    case Arr(a) =>
      forall i | 0 <= i < |a|
        ensures UnfoldTo(a[i], Restrict(defs, names), depth) == UnfoldTo(a[i], defs, depth)
      {
        UnfoldToRestrict(a[i], defs, names, depth);
      }
      UnfoldToSameAll(a, defs, Restrict(defs, names), depth);
    case _ =>
  }

  lemma {:induction false} TargetRestrict(m: Object, defs: Object, names: set<string>, depth: nat)
    requires OwnRefs(m) <= names && Closed(defs, names)
    ensures TargetAlike(m, defs, Restrict(defs, names), depth)
    decreases depth, Obj(m), 0
  {
    var own := OwnRef(m);
    if own.Some? && own.value in Resolvable(defs) && depth > 0 {
      assert forall x :: x in Refs(defs[own.value]) ==> Edge(defs, own.value, x);
      UnfoldToRestrict(defs[own.value], defs, names, depth - 1);
    }
  }

  lemma UnfoldToSameAll(a: seq<Value>, d: Object, e: Object, depth: nat)
    requires forall i :: 0 <= i < |a| ==> UnfoldTo(a[i], e, depth) == UnfoldTo(a[i], d, depth)
    ensures UnfoldTo(Arr(a), e, depth) == UnfoldTo(Arr(a), d, depth)
  {
  }

  /** Two sets of definitions that agree on a node's children and on its own reference. */
  lemma UnfoldToSame(m: Object, d: Object, e: Object, depth: nat)
    requires forall k :: k in m ==> UnfoldTo(m[k], e, depth) == UnfoldTo(m[k], d, depth)
    requires TargetAlike(m, d, e, depth)
    ensures UnfoldTo(Obj(m), e, depth) == UnfoldTo(Obj(m), d, depth)
  {
    var x := map k | k in m :: UnfoldTo(m[k], e, depth);
    var y := map k | k in m :: UnfoldTo(m[k], d, depth);
    assert x == y;
  }

  /** Pruning leaves the unfolding of the document unchanged, at every depth, if and only if the
      root's own reference is absent, not inlinable or reached some other way. */
  lemma PruningKeepsMeaningIff(doc: Object)
    ensures (forall depth: nat ::
               UnfoldTo(Obj(Body(doc)), DefsOf(Pruned(doc)), depth) ==
               UnfoldTo(Obj(Body(doc)), DefsOf(doc), depth))
       <==> RootRefCovered(doc, Resolvable(DefsOf(doc)))
  {
    var defs, names := DefsOf(doc), Closure(DefsOf(doc), SeedRefs(doc));
    DefsOfPruned(doc);
    if RootRefCovered(doc, Resolvable(defs)) {
      forall depth: nat
        ensures UnfoldTo(Obj(Body(doc)), Kept(doc), depth) == UnfoldTo(Obj(Body(doc)), defs, depth)
      {
        RootUnfolds(doc, depth);
      }
    } else {
      RootLost(doc);
    }
  }

  lemma RootUnfolds(doc: Object, depth: nat)
    requires RootRefCovered(doc, Resolvable(DefsOf(doc)))
    ensures UnfoldTo(Obj(Body(doc)), Kept(doc), depth) == UnfoldTo(Obj(Body(doc)), DefsOf(doc), depth)
  {
    var b := Body(doc);
    forall k | k in b
      ensures UnfoldTo(b[k], Kept(doc), depth) == UnfoldTo(b[k], DefsOf(doc), depth)
    {
      BodyUnfolds(doc, k, depth);
    }
    RootRefUnfolds(doc, depth);
    UnfoldToSame(b, DefsOf(doc), Kept(doc), depth);
  }

  lemma RootRefUnfolds(doc: Object, depth: nat)
    requires RootRefCovered(doc, Resolvable(DefsOf(doc)))
    ensures TargetAlike(Body(doc), DefsOf(doc), Kept(doc), depth)
  {
    var b, names := Body(doc), Closure(DefsOf(doc), SeedRefs(doc));
    assert OwnRef(b) == OwnRef(doc);
    if OwnRefs(b) <= names {
      ClosureIsClosed(DefsOf(doc), SeedRefs(doc));
      TargetRestrict(b, DefsOf(doc), names, depth);
    } else {
      NotFollowed(b, DefsOf(doc), names, depth);
    }
  }

  lemma NotFollowed(m: Object, defs: Object, names: set<string>, depth: nat)
    requires OwnRef(m).Some? && OwnRef(m).value !in Resolvable(defs)
    ensures TargetAlike(m, defs, Restrict(defs, names), depth)
  {
  }

  lemma BodyUnfolds(doc: Object, k: string, depth: nat)
    requires k in Body(doc)
    ensures UnfoldTo(Body(doc)[k], Kept(doc), depth) == UnfoldTo(Body(doc)[k], DefsOf(doc), depth)
  {
    var defs, names := DefsOf(doc), Closure(DefsOf(doc), SeedRefs(doc));
    ClosureIsClosed(defs, SeedRefs(doc));
    assert Body(doc)[k] == doc[k] && Refs(doc[k]) <= SeedRefs(doc);
    UnfoldToRestrict(doc[k], defs, names, depth);
  }

  lemma RootLost(doc: Object)
    requires !RootRefCovered(doc, Resolvable(DefsOf(doc)))
    ensures UnfoldTo(Obj(Body(doc)), Kept(doc), 0) != UnfoldTo(Obj(Body(doc)), DefsOf(doc), 0)
  {
    var b := Body(doc);
    assert OwnRef(b) == OwnRef(doc);
    assert "$ref" in UnfoldTo(Obj(b), Kept(doc), 0).fields;
    assert "$ref" !in UnfoldTo(Obj(b), DefsOf(doc), 0).fields;
  }

  // ---- A root that loses its definition ----

  const REF_ROOT: Object := map["$ref" := Str("#/$defs/A"), "$defs" := Obj(map["A" := Obj(map[])])]

  lemma RefRootTarget()
    ensures OwnRef(REF_ROOT) == Some("A") && DefsOf(REF_ROOT) == map["A" := Obj(map[])]
  {
    assert PREFIX + "A" == "#/$defs/A";
  }

  /** The root's only reference is its own: "A" is dropped, and the reference dangles. */
  lemma RefRootLosesA()
    ensures DefsOf(Pruned(REF_ROOT)) == map[] && !RootRefCovered(REF_ROOT, Resolvable(DefsOf(REF_ROOT)))
    ensures UnfoldTo(Obj(Body(REF_ROOT)), DefsOf(Pruned(REF_ROOT)), 0) != UnfoldTo(Obj(Body(REF_ROOT)), DefsOf(REF_ROOT), 0)
  {
    RefRootTarget();
    assert SeedRefs(REF_ROOT) == {};
    assert Closure(DefsOf(REF_ROOT), {}) == {};
    DefsOfPruned(REF_ROOT);
    RootLost(REF_ROOT);
  }

  /** No run of references from the value is longer than depth. */
  ghost predicate Fits(j: Value, defs: Object, depth: nat)
    decreases depth, j
  {
    match j
    case Obj(m) =>
      && (forall k :: k in m ==> Fits(m[k], defs, depth))
      && (OwnRef(m).Some? && OwnRef(m).value in Resolvable(defs) ==>
            depth > 0 && Fits(defs[OwnRef(m).value], defs, depth - 1))
    case Arr(a) => forall i :: 0 <= i < |a| ==> Fits(a[i], defs, depth)
    case _ => true
  }

  lemma {:induction false} ClosureFits(j: Value, defs: Object, depth: nat)
    requires Acyclic(defs) && depth >= |Closure(defs, Refs(j))|
    ensures Fits(j, defs, depth)
    decreases depth, j
  {
    match j
    case Obj(m) =>
      forall k | k in m
        ensures Fits(m[k], defs, depth)
      {
        ClosureMonotone(defs, Refs(m[k]), Refs(j));
        ClosureFits(m[k], defs, depth);
      }
      if OwnRef(m).Some? && OwnRef(m).value in Resolvable(defs) {
        ClosureDrops(defs, OwnRef(m).value, Refs(j));
        ClosureFits(defs[OwnRef(m).value], defs, depth - 1);
      }
    case Arr(a) =>
      forall i | 0 <= i < |a|
        ensures Fits(a[i], defs, depth)
      {
        ClosureMonotone(defs, Refs(a[i]), Refs(j));
        ClosureFits(a[i], defs, depth);
      }
    case _ =>
  }

  /** The node's own reference, when it can be followed, has settled at the depth below. */
  ghost predicate TargetSettled(m: Object, defs: Object, depth: nat)
    requires Acyclic(defs)
  {
    match OwnRef(m)
    case None => true
    case Some(n) => n in Resolvable(defs) ==> depth > 0 && UnfoldTo(defs[n], defs, depth - 1) == Unfold(defs[n], defs)
  }

  lemma {:induction false} FitsSettles(j: Value, defs: Object, depth: nat)
    requires Acyclic(defs) && Fits(j, defs, depth)
    ensures UnfoldTo(j, defs, depth) == Unfold(j, defs)
    decreases depth, j, 1
  {
    match j
    case Obj(m) =>
      forall k | k in m
        ensures UnfoldTo(m[k], defs, depth) == Unfold(m[k], defs)
      {
        FitsSettles(m[k], defs, depth);
      }
      TargetSettles(m, defs, depth);
      SettlesAt(m, defs, depth);
    case Arr(a) =>
      forall i | 0 <= i < |a|
        ensures UnfoldTo(a[i], defs, depth) == Unfold(a[i], defs)
      {
        FitsSettles(a[i], defs, depth);
      }
    case _ =>
  }

  lemma {:induction false} TargetSettles(m: Object, defs: Object, depth: nat)
    requires Acyclic(defs) && Fits(Obj(m), defs, depth)
    ensures TargetSettled(m, defs, depth)
    decreases depth, Obj(m), 0
  {
    if OwnRef(m).Some? && OwnRef(m).value in Resolvable(defs) {
      FitsSettles(defs[OwnRef(m).value], defs, depth - 1);
    }
  }

  lemma SettlesAt(m: Object, defs: Object, depth: nat)
    requires Acyclic(defs)
    requires forall k :: k in m ==> UnfoldTo(m[k], defs, depth) == Unfold(m[k], defs)
    requires TargetSettled(m, defs, depth)
    ensures UnfoldTo(Obj(m), defs, depth) == Unfold(Obj(m), defs)
  {
    var x := map k | k in m :: UnfoldTo(m[k], defs, depth);
    var y := map k | k in m :: Unfold(m[k], defs);
    assert x == y;
  }

  /** On acyclic definitions the bounded unfoldings settle on the plain one. */
  lemma UnfoldToSettles(j: Value, defs: Object, depth: nat)
    requires Acyclic(defs) && depth >= |Closure(defs, Refs(j))|
    ensures UnfoldTo(j, defs, depth) == Unfold(j, defs)
  {
    ClosureFits(j, defs, depth);
    FitsSettles(j, defs, depth);
  }

  // ---- Pruning again changes nothing ----

  lemma {:induction false} ChainRestricted(defs: Object, names: set<string>, p: seq<string>)
    requires Chain(defs, p) && p[0] in names && Closed(defs, names)
    ensures Chain(Restrict(defs, names), p)
  {
    forall i | 0 <= i < |p| - 1
      ensures Edge(Restrict(defs, names), p[i], p[i + 1])
    {
      ClosedHoldsChain(defs, names, p, i);
      assert Edge(defs, p[i], p[i + 1]);
    }
  }

  /** What is reachable stays reachable among the definitions that are kept. */
  lemma ReachableStays(defs: Object, seeds: set<string>, n: string)
    requires n in Closure(defs, seeds)
    ensures n in Closure(Restrict(defs, Closure(defs, seeds)), seeds)
  {
    var names := Closure(defs, seeds);
    ClosureIsClosed(defs, seeds);
    var s :| s in seeds && Reaches(defs, s, n);
    var p :| ChainFromTo(defs, p, s, n);
    ChainRestricted(defs, names, p);
    assert ChainFromTo(Restrict(defs, names), p, s, n);
    ClosureHolds(Restrict(defs, names), seeds, n);
  }

  lemma SeedsStay(doc: Object)
    ensures SeedRefs(Pruned(doc)) == SeedRefs(doc)
  {
    var r := Pruned(doc);
    assert forall k :: k != "$defs" ==> (k in r <==> k in doc) && (k in doc ==> r[k] == doc[k]);
    forall n
      ensures n in SeedRefs(r) <==> n in SeedRefs(doc)
    {
      if n in SeedRefs(r) {
        var k :| k in r && k != "$defs" && n in Refs(r[k]);
        assert k in doc && n in Refs(doc[k]);
      }
      if n in SeedRefs(doc) {
        var k :| k in doc && k != "$defs" && n in Refs(doc[k]);
        assert k in r && n in Refs(r[k]);
      }
    }
  }

  lemma PrunedIsReached(doc: Object)
    ensures DefsOf(Pruned(doc)).Keys <= Closure(DefsOf(Pruned(doc)), SeedRefs(Pruned(doc)))
  {
    DefsOfPruned(doc);
    SeedsStay(doc);
    forall n | n in Kept(doc)
      ensures n in Closure(Kept(doc), SeedRefs(doc))
    {
      ReachableStays(DefsOf(doc), SeedRefs(doc), n);
    }
  }

  lemma ReachedStays(r: Object)
    requires DefsOf(r).Keys <= Closure(DefsOf(r), SeedRefs(r))
    requires "$defs" in r && r["$defs"].Obj? ==> DefsOf(r) != map[]
    ensures Pruned(r) == r
  {
    assert Kept(r) == DefsOf(r);
  }

  /** Every definition of the result is reachable from the rest of the result, and pruning it again
      changes nothing. */
  lemma PruningIsFinal(doc: Object)
    ensures DefsOf(Pruned(doc)).Keys <= Closure(DefsOf(Pruned(doc)), SeedRefs(Pruned(doc)))
    ensures Pruned(Pruned(doc)) == Pruned(doc)
  {
    PrunedIsReached(doc);
    DefsOfPruned(doc);
    ReachedStays(Pruned(doc));
  }
}
