/** What is left of references: none out of the document after StripRemoteRefs or DereferenceRefs, and
    nothing else is lost (jsonschema/refs.go). */
module RemoteRefs {
  import opened Wrappers
  import opened JsonValue
  import opened DefRefs
  import opened InlineDefs
  import opened DocumentTree
  import opened Dereference
  import opened Discriminator
  import opened DiscriminatorWalk
  import opened SchemaTransforms
  import opened DereferenceRefs
  import PruneDefs

  /** A node's "$ref", if it has one, is no string, empty, or a fragment of the same document. */
  predicate LocalNode(m: Object) {
    "$ref" in m && m["$ref"].Str? && m["$ref"].s != "" ==> m["$ref"].s[0] == '#'
  }

  /** No node within the value refers outside the document. */
  ghost predicate Local(j: Value) {
    match j
    case Obj(m) => LocalNode(m) && forall k :: k in m ==> Local(m[k])
    case Arr(a) => forall i :: 0 <= i < |a| ==> Local(a[i])
    case _ => true
  }

  // ---- StripRemoteRefs ----

  lemma {:induction false} StripIsLocal(j: Value)
    ensures Local(Strip(j))
  {
    match j
    case Obj(m) =>
      var r := Strip(j).fields;
      forall k | k in r
        ensures Local(r[k])
      {
        StripIsLocal(m[k]);
      }
    case Arr(a) => forall i | 0 <= i < |a| { StripIsLocal(a[i]); }
    case _ =>
  }

  /** A document that only refers to itself is left as it is. */
  lemma {:induction false} StripKeepsLocal(j: Value)
    requires Local(j)
    ensures Strip(j) == j
  {
    match j
    case Obj(m) =>
      var r := Strip(j).fields;
      forall k | k in m
        ensures k in r && r[k] == m[k]
      {
        StripKeepsLocal(m[k]);
      }
      assert r == m;
    case Arr(a) =>
      forall i | 0 <= i < |a|
        ensures Strip(a[i]) == a[i]
      {
        StripKeepsLocal(a[i]);
      }
      assert Strip(j).items == a;
    case _ =>
  }

  /** Only a remote "$ref" goes: a node keeps every other key, and its "$ref" when it is local. */
  lemma StripKeepsSiblings(m: Object)
    ensures var r := Strip(Obj(m)).fields;
      && r.Keys == (if LocalNode(m) then m.Keys else m.Keys - {"$ref"})
      && forall k :: k in r ==> r[k] == Strip(m[k])
  {
  }

  /** No local reference is lost anywhere, and none appears. */
  lemma {:induction false} StripKeepsRefs(j: Value)
    ensures Refs(Strip(j)) == Refs(j)
  {
    match j
    case Obj(m) =>
      forall k | k in m
        ensures Refs(Strip(m[k])) == Refs(m[k])
      {
        StripKeepsRefs(m[k]);
      }
      StripKeepsRefsAt(m);
    case Arr(a) =>
      forall i | 0 <= i < |a|
        ensures Refs(Strip(a[i])) == Refs(a[i])
      {
        StripKeepsRefs(a[i]);
      }
      assert forall i :: 0 <= i < |a| ==> Strip(j).items[i] == Strip(a[i]);
    case _ =>
  }

  lemma StripKeepsOwnRef(m: Object)
    ensures OwnRefs(Strip(Obj(m)).fields) == OwnRefs(m)
  {
    if "$ref" in m && m["$ref"].Str? {
      assert Strip(m["$ref"]) == m["$ref"];
      assert PREFIX <= m["$ref"].s ==> m["$ref"].s[0] == PREFIX[0];
    }
  }

  lemma StripKeepsRefsAt(m: Object)
    requires forall k :: k in m ==> Refs(Strip(m[k])) == Refs(m[k])
    ensures Refs(Strip(Obj(m))) == Refs(Obj(m))
  {
    var r := Strip(Obj(m)).fields;
    StripKeepsSiblings(m);
    StripKeepsOwnRef(m);
    forall n
      ensures n in Refs(Obj(r)) <==> n in Refs(Obj(m))
    {
      if k :| k in m && n in Refs(m[k]) {
        assert k in r && n in Refs(r[k]);
      }
      if k :| k in r && n in Refs(r[k]) {
        assert k in m && n in Refs(m[k]);
      }
    }
  }

  // ---- DereferenceRefs ----

  lemma {:induction false} InlineKeepsLocal(j: Value, defs: Object, active: set<string>)
    requires Local(j) && forall n :: n in defs ==> Local(defs[n])
    ensures Local(Inline(j, defs, active))
    decreases |defs.Keys - active|, j
  {
    match j
    case Obj(m) =>
      forall k | k in m
        ensures Local(Inline(m[k], defs, active))
      {
        InlineKeepsLocal(m[k], defs, active);
      }
      var own := OwnRef(m);
      if own.Some? && own.value !in active && own.value in Resolvable(defs) {
        assert defs.Keys - (active + {own.value}) == (defs.Keys - active) - {own.value};
        InlineKeepsLocal(defs[own.value], defs, active + {own.value});
      }
      InlinedNodeIsLocal(m, defs, active);
    case Arr(a) => forall i | 0 <= i < |a| { InlineKeepsLocal(a[i], defs, active); }
    case _ =>
  }

  lemma InlinedNodeIsLocal(m: Object, defs: Object, active: set<string>)
    requires LocalNode(m) && forall k :: k in m ==> Local(Inline(m[k], defs, active))
    requires var own := OwnRef(m);
      own.Some? && own.value !in active && own.value in Resolvable(defs) ==>
        Local(Inline(defs[own.value], defs, active + {own.value}))
    ensures Local(Inline(Obj(m), defs, active))
  {
    var kids := map k | k in m :: Inline(m[k], defs, active);
    var own := OwnRef(m);
    InlineNode(m, defs, active);
    if own.Some? && own.value !in active && own.value in Resolvable(defs) {
      OverlayIsLocal(Inline(defs[own.value], defs, active + {own.value}).fields, kids);
    } else {
      assert "$ref" in m ==> kids["$ref"] == Inline(m["$ref"], defs, active);
      assert LocalNode(kids);
    }
  }

  lemma OverlayIsLocal(target: Object, kids: Object)
    requires Local(Obj(target)) && forall k :: k in kids ==> Local(kids[k])
    ensures Local(Obj(target + (kids - {"$ref"})))
  {
    assert LocalNode(target);
  }

  lemma {:induction false} DiscKeepsLocal(t: Table, s: Value, add: Option<string>)
    requires "$ref" !in t && Local(s)
    ensures Local(Disc(t, s, add))
    decreases s, 1
  {
    if s.Obj? {
      var m := s.fields;
      forall k | k in m && k in t
        ensures Local(DiscAt(t, t[k], m[k], Demand(m, k)))
      {
        DiscAtKeepsLocal(t, t[k], m[k], Demand(m, k));
      }
      WalkedIsLocal(t, m);
      AddedIsLocal(WalkedFields(t, m), add);
      DiscWalked(t, m, add);
    }
  }

  lemma WalkedIsLocal(t: Table, m: Object)
    requires "$ref" !in t && Local(Obj(m))
    requires forall k :: k in m && k in t ==> Local(DiscAt(t, t[k], m[k], Demand(m, k)))
    ensures Local(Obj(WalkedFields(t, m)))
  {
    assert LocalNode(m);
  }

  lemma AddedIsLocal(w: Object, add: Option<string>)
    requires Local(Obj(w))
    ensures Local(Obj(Added(w, add)))
  {
    var r := Added(w, add);
    assert LocalNode(w);
    if add.Some? {
      assert Local(Arr(Texts(RequiredOf(w) + [add.value])));
    }
    assert LocalNode(r);
  }

  lemma {:induction false} DiscAtKeepsLocal(t: Table, shape: Shape, v: Value, add: Option<string>)
    requires "$ref" !in t && Local(v)
    ensures Local(DiscAt(t, shape, v, add))
    decreases v, 2
  {
    match (shape, v)
    case (Single, _) => DiscKeepsLocal(t, v, None);
    case (Named, Obj(o)) =>
      forall k | k in o
        ensures Local(Disc(t, o[k], None))
      {
        DiscKeepsLocal(t, o[k], None);
      }
      NamedIsLocal(t, o, add);
    case (Listed, Arr(a)) => forall i | 0 <= i < |a| { DiscKeepsLocal(t, a[i], add); }
    case (Items, Obj(_)) => DiscKeepsLocal(t, v, None);
    case (Items, Arr(a)) => forall i | 0 <= i < |a| { DiscKeepsLocal(t, a[i], None); }
    case _ =>
  }

  lemma NamedIsLocal(t: Table, o: Object, add: Option<string>)
    requires LocalNode(o) && forall k :: k in o ==> Local(Disc(t, o[k], None))
    ensures Local(DiscAt(t, Named, Obj(o), add))
  {
    var r := DiscAt(t, Named, Obj(o), add).fields;
    assert "$ref" in o ==> r["$ref"] == Disc(t, o["$ref"], None);
    assert LocalNode(r);
  }

  lemma ResolveKeepsLocal(m: Object)
    requires Local(Obj(m))
    ensures Local(Obj(ResolveRoot(m)))
  {
    if RootTarget(m).Some? {
      var t := RootTarget(m).value;
      assert Local(m["$defs"]) && Local(Obj(t));
      assert LocalNode(t);
    }
  }

  /** Whatever document comes in, circular or not, what comes out refers to nothing outside itself. */
  lemma DereferencedIsLocal(m: Object)
    ensures Local(Dereferenced(m))
  {
    var s := Strip(Obj(m)).fields;
    var defs := PruneDefs.DefsOf(s);
    StripIsLocal(Obj(m));
    assert LocalNode(s);
    assert "$defs" in s ==> Local(s["$defs"]);
    if Acyclic(defs) {
      assert Local(Obj(PruneDefs.Body(s)));
      InlineKeepsLocal(Obj(PruneDefs.Body(s)), defs, {});
      KeywordsLackRef();
      DiscKeepsLocal(KEYWORDS, Inline(Obj(PruneDefs.Body(s)), defs, {}), None);
    } else {
      ResolveKeepsLocal(s);
    }
  }
}
