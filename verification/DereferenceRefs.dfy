/** DereferenceRefs from end to end on the heap (jsonschema/refs.go): a fresh tree comes out, and
    nothing the caller can reach is written. */
module DereferenceRefs {
  import opened Wrappers
  import opened JsonValue
  import opened DefRefs
  import opened InlineDefs
  import opened DocumentTree
  import opened Dereference
  import opened Discriminator
  import opened DiscriminatorWalk
  import opened SchemaTransforms
  import PruneDefs
  import DefCycles

  // ---- What the document becomes ----

  /** The definition a root may be resolved from. */
  function RootTarget(m: Object): (r: Option<Object>) {
    if "type" in m || OwnRef(m).None? then None
    else
      var defs := PruneDefs.DefsOf(m);
      if OwnRef(m).value in defs && defs[OwnRef(m).value].Obj? then Some(defs[OwnRef(m).value].fields) else None
  }

  /** ResolveRootRef: the definition's keywords win over the root's own. */
  function ResolveRoot(m: Object): (r: Object) {
    if RootTarget(m).Some? then (m - {"$ref"}) + RootTarget(m).value else m
  }

  /** The node refers to a definition that is an object. */
  ghost predicate PointsTo(m: Object, defs: Object, name: string) {
    && "$ref" in m && m["$ref"] == Str("#/$defs/" + name)
    && name in defs && defs[name].Obj?
  }

  lemma OwnRefPoints(m: Object, name: string)
    ensures "$ref" in m && m["$ref"] == Str("#/$defs/" + name) <==> OwnRef(m) == Some(name)
  {
    assert PREFIX == "#/$defs/";
    if "$ref" in m && m["$ref"] == Str(PREFIX + name) {
      assert DefName(PREFIX + name).value == name;
    }
  }

  /** A root without a "type" that refers to a definition gets its keywords, which win over the root's
      own; the reference goes, and everything else stays. */
  lemma RootResolves(m: Object, name: string)
    requires "type" !in m && "$defs" in m && m["$defs"].Obj? && PointsTo(m, m["$defs"].fields, name)
    ensures var r, t := ResolveRoot(m), m["$defs"].fields[name].fields;
      && (forall k :: k in r <==> k in t || (k in m && k != "$ref"))
      && (forall k :: k in r ==> r[k] == if k in t then t[k] else m[k])
  {
    OwnRefPoints(m, name);
  }

  /** Any other root stays as it is. */
  lemma RootStays(m: Object)
    requires "type" in m || "$defs" !in m || !m["$defs"].Obj? || forall name :: !PointsTo(m, m["$defs"].fields, name)
    ensures ResolveRoot(m) == m
  {
    if OwnRef(m).Some? {
      OwnRefPoints(m, OwnRef(m).value);
      assert "$defs" in m && m["$defs"].Obj? ==> PointsTo(m, m["$defs"].fields, OwnRef(m).value) || RootTarget(m).None?;
    }
  }

  /** A reference becomes its definition, unfolded, with the siblings of the reference laid over it; any
      other node keeps its keys. */
  lemma UnfoldedNode(m: Object, defs: Object, name: string)
    requires Acyclic(defs)
    ensures var r := Unfold(Obj(m), defs).fields;
      if PointsTo(m, defs, name) then
        var t := Unfold(defs[name], defs).fields;
        && (forall k :: k in r <==> k in t || (k in m && k != "$ref"))
        && (forall k :: k in r ==> r[k] == if k in m && k != "$ref" then Unfold(m[k], defs) else t[k])
      else
        (forall other :: !PointsTo(m, defs, other)) ==> r.Keys == m.Keys && forall k :: k in m ==> r[k] == Unfold(m[k], defs)
  {
    UnfoldNode(m, defs);
    OwnRefPoints(m, name);
    if OwnRef(m).Some? {
      OwnRefPoints(m, OwnRef(m).value);
      assert OwnRef(m).value in Resolvable(defs) ==> PointsTo(m, defs, OwnRef(m).value);
    }
  }

  ghost function Dereferenced(m: Object): (r: Value) {
    var s := Strip(Obj(m)).fields;
    var defs := PruneDefs.DefsOf(s);
    if Acyclic(defs) then Disc(KEYWORDS, Inline(Obj(PruneDefs.Body(s)), defs, {}), None) else Obj(ResolveRoot(s))
  }

  // ---- Reading a document ----

  /** The value a document shows, for the analyses that only read. */
  method Read(x: Item, ghost w: Value) returns (v: Value)
    requires Shows(x, w)
    ensures v == w
    decreases w, 2
  {
    match x
    case Leaf(s) => v := s;
    case At(c) =>
      if c.body.Fields? {
        var m := ReadMap(c);
        v := Obj(m);
      } else {
        var a := ReadSeq(c);
        v := Arr(a);
      }
  }

  method ReadMap(c: Cell) returns (out: Object)
    requires c.Readable() && c.body.Fields?
    ensures out == c.val.fields
    decreases c.val, 1
  {
    var m := c.body.m;
    ghost var w := c.val.fields;
    out := map[];
    var todo := m.Keys;
    while todo != {}
      invariant todo <= m.Keys && out.Keys == m.Keys - todo
      invariant forall k :: k in out ==> out[k] == w[k]
    {
      var k :| k in todo;
      assert ShowsWithin(m[k], w[k], c.repr - {c});
      var v := Read(m[k], w[k]);
      out, todo := out[k := v], todo - {k};
    }
  }

  method ReadSeq(c: Cell) returns (out: seq<Value>)
    requires c.Readable() && c.body.Items?
    ensures out == c.val.items
    decreases c.val, 1
  {
    var a := c.body.a;
    ghost var w := c.val.items;
    out := [];
    for i := 0 to |a|
      invariant out == w[..i]
    {
      assert ShowsWithin(a[i], w[i], c.repr - {c});
      var v := Read(a[i], w[i]);
      out := out + [v];
    }
  }

  // ---- The steps ----

  method StripRemoteRefs(c: Cell) returns (r: Cell)
    requires c.Readable() && c.body.Fields?
    ensures fresh(r.repr) && r.Valid() && r.body.Fields? && r.val == Strip(c.val)
  {
    r := CloneMap(c);
    StripMap(r);
  }

  lemma MapTreeDetach(m: map<string, Item>, w: Object, cells: set<Cell>, k: string)
    requires m.Keys == w.Keys && MapTree(m, w, cells) && k in m
    ensures Foot(m[k]) <= cells && MapTree(m - {k}, w - {k}, cells - Foot(m[k])) && (m - {k}).Keys == (w - {k}).Keys
  {
    var n, u, less := m - {k}, w - {k}, cells - Foot(m[k]);
    assert Holds(m[k], w[k], cells);
    forall l | l in n
      ensures l in u && Holds(n[l], u[l], less)
    {
      assert Holds(m[l], w[l], cells);
      assert Foot(m[l]) !! Foot(m[k]);
    }
  }

  method AsDefs(x: Item, ghost w: Value) returns (d: Defs)
    requires Spells(x, w)
    ensures DefsValid(d) && d.w == (if w.Obj? then w.fields else map[]) && d.cells <= Foot(x)
  {
    d := Defs(map[], map[], {});
    if x.At? && x.cell.body.Fields? {
      d := Defs(x.cell.body.m, w.fields, x.cell.repr - {x.cell});
    }
  }

  /** delete(safe, "$defs"), with the definitions kept apart. */
  method TakeDefs(c: Cell) returns (d: Defs)
    requires c.Valid() && c.body.Fields?
    modifies c
    ensures c.Valid() && c.body.Fields? && c.val == Obj(PruneDefs.Body(old(c.val.fields)))
    ensures DefsValid(d) && d.w == PruneDefs.DefsOf(old(c.val.fields))
    ensures c.repr <= old(c.repr) && d.cells <= old(c.repr) && d.cells !! c.repr
  {
    ghost var w, cells := c.val.fields, c.repr - {c};
    var m := c.body.m;
    d := Defs(map[], map[], {});
    if "$defs" in m {
      assert Holds(m["$defs"], w["$defs"], cells);
      MapTreeDetach(m, w, cells, "$defs");
      ghost var foot := Foot(m["$defs"]);
      d := AsDefs(m["$defs"], w["$defs"]);
      PutMap(c, m - {"$defs"}, w - {"$defs"}, cells - foot);
    } else {
      assert PruneDefs.Body(w) == w;
    }
  }

  lemma MapTreeMerge(m: map<string, Item>, w: Object, cells: set<Cell>, n: map<string, Item>, u: Object, more: set<Cell>)
    requires MapTree(m, w, cells) && MapTree(n, u, more) && cells !! more && m.Keys == w.Keys && n.Keys == u.Keys
    ensures MapTree(m + n, w + u, cells + more) && (m + n).Keys == (w + u).Keys
  {
    var r, v, all := m + n, w + u, cells + more;
    forall k | k in r
      ensures k in v && Holds(r[k], v[k], all) && Foot(r[k]) <= if k in n then more else cells
    {
      assert if k in n then Holds(n[k], u[k], more) else Holds(m[k], w[k], cells);
    }
  }

  /** The copy of the target laid over the copy of the root. */
  method MergeInto(c: Cell, t: Cell)
    requires c.Valid() && c.body.Fields? && t.Valid() && t.body.Fields? && c.repr !! t.repr
    modifies c
    ensures c.Valid() && c.body.Fields? && c.val == Obj(old(c.val.fields) + old(t.val.fields))
    ensures c.repr <= old(c.repr) + old(t.repr)
  {
    ghost var w, u, cells, more := c.val.fields, t.val.fields, c.repr - {c}, t.repr - {t};
    MapTreeMerge(c.body.m, w, cells, t.body.m, u, more);
    PutMap(c, c.body.m + t.body.m, w + u, cells + more);
  }

  /** Where the definition named by the root is. */
  method FindTarget(c: Cell) returns (t: Option<Cell>)
    requires c.Readable() && c.body.Fields?
    ensures t.Some? <==> RootTarget(c.val.fields).Some?
    ensures t.Some? ==> t.value.Readable() && t.value.body.Fields? && t.value.val == Obj(RootTarget(c.val.fields).value)
  {
    t := None;
    ghost var w, cells := c.val.fields, c.repr - {c};
    var m := c.body.m;
    var ref := RefString(m);
    assert ref == RefOf(w) by {
      if "$ref" in m {
        assert ShowsWithin(m["$ref"], w["$ref"], cells);
      }
    }
    if "type" !in m && ref.Some? && DefName(ref.value).Some? && "$defs" in m {
      assert ShowsWithin(m["$defs"], w["$defs"], cells);
      if m["$defs"].At? && m["$defs"].cell.body.Fields? {
        t := FindDef(m["$defs"].cell, DefName(ref.value).value);
      }
    }
  }

  method FindDef(d: Cell, name: string) returns (t: Option<Cell>)
    requires d.Readable() && d.body.Fields?
    ensures t.Some? <==> name in d.val.fields && d.val.fields[name].Obj?
    ensures t.Some? ==> t.value.Readable() && t.value.body.Fields? && t.value.val == d.val.fields[name]
  {
    t := None;
    if name in d.body.m {
      assert ShowsWithin(d.body.m[name], d.val.fields[name], d.repr - {d});
      if d.body.m[name].At? && d.body.m[name].cell.body.Fields? {
        t := Some(d.body.m[name].cell);
      }
    }
  }

  /** The same document when there is nothing to resolve, a fresh tree otherwise. */
  method ResolveRootRef(c: Cell) returns (r: Cell)
    requires c.Readable() && c.body.Fields?
    ensures r.Readable() && r.body.Fields? && r.val == Obj(ResolveRoot(c.val.fields))
    ensures if RootTarget(c.val.fields).Some? then fresh(r.repr) && r.Valid() else r == c
  {
    var t := FindTarget(c);
    if t.None? {
      return c;
    }
    r := CloneMap(c);
    Delete(r, "$ref");
    var copy := CloneMap(t.value);
    MergeInto(r, copy);
    ValidIsReadable(r);
  }

  lemma KeywordsWalkable()
    ensures Walkable(KEYWORDS)
  {
  }

  method InlineAndFix(c: Cell, d: Defs) returns (r: Cell)
    requires c.Valid() && c.body.Fields? && DefsValid(d) && d.cells !! c.repr
    modifies c.repr
    ensures r.Valid() && r.body.Fields? && r.val == Disc(KEYWORDS, Inline(old(c.val), d.w, {}), None)
    ensures forall o :: o in r.repr ==> o in old(c.repr) || fresh(o)
  {
    var act;
    r, act := InlineMap(c, d, {});
    KeywordsWalkable();
    WalkNode(r, KEYWORDS, r.val.fields, None);
  }

  /** Nothing is modified that existed before: the input, its definitions and everything else keep
      their contents.  Whatever the input shares, the result is a tree and shares no cell with it. */
  method DereferenceRefs(c: Cell) returns (r: Cell)
    requires c.Readable() && c.body.Fields?
    ensures r.Valid() && r.body.Fields? && fresh(r.repr)
    ensures r.val == Dereferenced(c.val.fields)
  {
    ghost var w := c.val.fields;
    var safe := StripRemoteRefs(c);
    ValidIsReadable(safe);
    var doc := Read(At(safe), safe.val);
    var circular := DefCycles.HasCircularDefRef(PruneDefs.DefsOf(doc.fields));
    if circular {
      r := ResolveRootRef(safe);
    } else {
      var d := TakeDefs(safe);
      r := InlineAndFix(safe, d);
    }
  }

  // ---- What it means ----

  lemma AddedHasNoRef(w: Object, add: Option<string>)
    ensures Refs(Obj(Added(w, add))) <= Refs(Obj(w))
  {
    var r := Added(w, add);
    if r != w {
      TextsHoldNoRef(RequiredOf(w) + [add.value]);
    }
    forall k, n | k in r && n in Refs(r[k])
      ensures n in Refs(Obj(w))
    {
      assert k in w && r[k] == w[k];
    }
    assert OwnRefs(r) == OwnRefs(w);
  }

  lemma TextsHoldNoRef(names: seq<string>)
    ensures Refs(Arr(Texts(names))) == {}
  {
    var a := Texts(names);
    assert forall i :: 0 <= i < |a| ==> Refs(a[i]) == {};
  }

  lemma WalkedHasNoRef(t: Table, m: Object)
    requires "$ref" !in t && forall k :: k in m && k in t ==> Refs(DiscAt(t, t[k], m[k], Demand(m, k))) <= Refs(m[k])
    ensures Refs(Obj(WalkedFields(t, m))) <= Refs(Obj(m))
  {
    var r := WalkedFields(t, m);
    forall k, n | k in r && n in Refs(r[k])
      ensures n in Refs(Obj(m))
    {
      assert n in Refs(m[k]);
    }
    assert OwnRefs(r) <= OwnRefs(m);
  }

  lemma {:induction false} DiscAddsNoRef(t: Table, s: Value, add: Option<string>)
    requires "$ref" !in t
    ensures Refs(Disc(t, s, add)) <= Refs(s)
    decreases s, 1
  {
    if s.Obj? {
      var m := s.fields;
      forall k | k in m && k in t
        ensures Refs(DiscAt(t, t[k], m[k], Demand(m, k))) <= Refs(m[k])
      {
        DiscAtAddsNoRef(t, t[k], m[k], Demand(m, k));
      }
      WalkedHasNoRef(t, m);
      AddedHasNoRef(WalkedFields(t, m), add);
      assert Disc(t, s, add) == Obj(Added(WalkedFields(t, m), add));
    }
  }

  lemma {:induction false} DiscAtAddsNoRef(t: Table, shape: Shape, v: Value, add: Option<string>)
    requires "$ref" !in t
    ensures Refs(DiscAt(t, shape, v, add)) <= Refs(v)
    decreases v, 2
  {
    match (shape, v)
    case (Single, _) => DiscAddsNoRef(t, v, None);
    case (Named, Obj(o)) =>
      forall k | k in o
        ensures Refs(Disc(t, o[k], None)) <= Refs(o[k])
      {
        DiscAddsNoRef(t, o[k], None);
      }
      NamedHasNoRef(t, o);
    case (Listed, Arr(a)) =>
      forall i | 0 <= i < |a|
        ensures Refs(Disc(t, a[i], add)) <= Refs(a[i])
      {
        DiscAddsNoRef(t, a[i], add);
      }
    case (Items, Obj(_)) => DiscAddsNoRef(t, v, None);
    case (Items, Arr(a)) =>
      forall i | 0 <= i < |a|
        ensures Refs(Disc(t, a[i], None)) <= Refs(a[i])
      {
        DiscAddsNoRef(t, a[i], None);
      }
    case _ =>
  }

  lemma NamedHasNoRef(t: Table, o: Object)
    requires forall k :: k in o ==> Refs(Disc(t, o[k], None)) <= Refs(o[k])
    ensures Refs(DiscAt(t, Named, Obj(o), None)) <= Refs(Obj(o))
    ensures forall add :: DiscAt(t, Named, Obj(o), add) == DiscAt(t, Named, Obj(o), None)
  {
    var r := DiscAt(t, Named, Obj(o), None).fields;
    forall k, n | k in r && n in Refs(r[k])
      ensures n in Refs(Obj(o))
    {
      assert n in Refs(o[k]);
    }
    assert OwnRefs(r) == OwnRefs(o);
  }

  lemma KeywordsLackRef()
    ensures "$ref" !in KEYWORDS
  {
  }

  /** Without a cycle, the result is the plain unfolding of the stripped document, with its
      discriminators applied: no reference to an object definition is left in it. */
  lemma DereferencedIsUnfolded(m: Object)
    ensures var s := Strip(Obj(m)).fields;
      var defs := PruneDefs.DefsOf(s);
      Acyclic(defs) ==>
        && Dereferenced(m) == Disc(KEYWORDS, Unfold(Obj(PruneDefs.Body(s)), defs), None)
        && Refs(Dereferenced(m)) !! Resolvable(defs)
  {
    var s := Strip(Obj(m)).fields;
    var defs := PruneDefs.DefsOf(s);
    if Acyclic(defs) {
      var body := Obj(PruneDefs.Body(s));
      InlineIsUnfold(body, defs, {});
      UnfoldLeavesNoRef(body, defs);
      KeywordsLackRef();
      DiscAddsNoRef(KEYWORDS, Unfold(body, defs), None);
    }
  }

  /** With a cycle the stripped document keeps its definitions and its references; only a root reference
      is resolved, and only when the root has no type of its own. */
  lemma CircularKeepsDefs(m: Object)
    requires !Acyclic(PruneDefs.DefsOf(Strip(Obj(m)).fields))
    ensures var s := Strip(Obj(m)).fields;
      && ("type" in s || OwnRef(s).None? ==> Dereferenced(m) == Obj(s))
      && (forall name :: "type" !in s && PointsTo(s, PruneDefs.DefsOf(s), name) ==>
            var r, t := Dereferenced(m).fields, PruneDefs.DefsOf(s)[name].fields;
            && (forall k :: k in r <==> k in t || (k in s && k != "$ref"))
            && (forall k :: k in r ==> r[k] == if k in t then t[k] else s[k]))
  {
    var s := Strip(Obj(m)).fields;
    forall name | "type" !in s && PointsTo(s, PruneDefs.DefsOf(s), name)
      ensures var r, t := Dereferenced(m).fields, PruneDefs.DefsOf(s)[name].fields;
              && (forall k :: k in r <==> k in t || (k in s && k != "$ref"))
              && (forall k :: k in r ==> r[k] == if k in t then t[k] else s[k])
    {
      RootResolves(s, name);
    }
  }
}
