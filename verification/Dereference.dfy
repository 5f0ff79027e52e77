/** DereferenceRefs on the heap: inlining rewrites the private copy of the document in place and
    takes fresh copies of definitions, so neither the input nor a definition is ever written. */
module Dereference {
  import opened Wrappers
  import opened JsonValue
  import opened DefRefs
  import opened InlineDefs
  import opened DocumentTree

  lemma MapTreeOverlay(m: map<string, Item>, w: Object, cells: set<Cell>, k: string, e: Item, v: Value)
    requires MapTree(m, w, cells) && Spells(e, v) && Foot(e) !! cells
    ensures MapTree(m[k := e], w[k := v], cells + Foot(e))
  {
    var n, u, more := m[k := e], w[k := v], cells + Foot(e);
    forall l | l in n
      ensures l in u && Holds(n[l], u[l], more)
      ensures l != k ==> Foot(n[l]) <= cells
    {
      assert l != k ==> Holds(m[l], w[l], cells);
    }
  }

  /** The definitions a walk reads from: a map of trees, apart from everything the walk writes. */
  datatype Defs = Defs(m: map<string, Item>, ghost w: Object, ghost cells: set<Cell>)

  ghost predicate DefsValid(d: Defs)
    reads d.cells
  {
    d.m.Keys == d.w.Keys && MapTree(d.m, d.w, d.cells)
  }

  /** inlineDefs: rewrites the tree at x, or replaces it; active is restored on the way out. */
  method InlineItem(x: Item, ghost w: Value, d: Defs, active: set<string>) returns (y: Item, act: set<string>)
    requires Spells(x, w) && DefsValid(d) && d.cells !! Foot(x)
    modifies Foot(x)
    ensures act == active && Spells(y, Inline(w, d.w, active))
    ensures forall c :: c in Foot(y) ==> c in old(Foot(x)) || fresh(c)
    decreases |d.w.Keys - active|, w, 6
  {
    if x.Leaf? {
      return x, active;
    }
    var r;
    if x.cell.body.Fields? {
      r, act := InlineMap(x.cell, d, active);
    } else {
      act := InlineList(x.cell, d, active);
      r := x.cell;
    }
    y := At(r);
  }

  /** x[k] = inlineDefs(x[k]) for one entry. */
  method InlineEntry(m: map<string, Item>, k: string, ghost w: Object, ghost cells: set<Cell>, d: Defs, active: set<string>)
    returns (e: Item, act: set<string>)
    requires k in m && MapTree(m, w, cells) && DefsValid(d) && d.cells !! cells
    modifies Foot(m[k])
    ensures act == active && Spells(e, Inline(w[k], d.w, active))
    ensures forall c :: c in Foot(e) ==> c in old(Foot(m[k])) || fresh(c)
    ensures forall c :: c in Foot(e) ==> c in cells || fresh(c)
    ensures MapTree(m[k := e], w[k := Inline(w[k], d.w, active)], cells + Foot(e))
    ensures DefsValid(d) && d.cells !! cells + Foot(e) && m[k := e].Keys == m.Keys
    decreases |d.w.Keys - active|, w[k], 7
  {
    assert Holds(m[k], w[k], cells);
    e, act := InlineItem(m[k], w[k], d, active);
    MapTreeSet(Entry(m, w, cells, k), e, Inline(w[k], d.w, active));
  }

  ghost function InlineFields(w: Object, defs: Object, active: set<string>): (r: Object) {
    map k | k in w :: Inline(w[k], defs, active)
  }

  ghost predicate Mixed(cur: Object, w: Object, todo: set<string>, defs: Object, active: set<string>) {
    && cur.Keys == w.Keys
    && forall k :: k in w ==> (k in todo ==> cur[k] == w[k]) && (k !in todo ==> cur[k] == Inline(w[k], defs, active))
  }

  lemma MixedStep(cur: Object, w: Object, todo: set<string>, k: string, defs: Object, active: set<string>)
    requires Mixed(cur, w, todo, defs, active) && k in todo && k in w
    ensures Mixed(cur[k := Inline(cur[k], defs, active)], w, todo - {k}, defs, active)
  {
  }

  lemma MixedDone(cur: Object, w: Object, defs: Object, active: set<string>)
    requires Mixed(cur, w, {}, defs, active)
    ensures cur == InlineFields(w, defs, active)
  {
  }

  /** One turn of the loop over the entries of w, with todo still to be visited. */
  method InlineNext(m: map<string, Item>, k: string, ghost cur: Object, ghost cells: set<Cell>, d: Defs, active: set<string>,
                    ghost w: Object, ghost todo: set<string>)
    returns (out: map<string, Item>, ghost more: set<Cell>, ghost next: Object, act: set<string>)
    requires m.Keys == cur.Keys && MapTree(m, cur, cells) && DefsValid(d) && d.cells !! cells
    requires Mixed(cur, w, todo, d.w, active) && k in todo && k in w
    modifies cells
    ensures act == active && out.Keys == m.Keys && MapTree(out, next, more) && Mixed(next, w, todo - {k}, d.w, active)
    ensures DefsValid(d) && d.cells !! more && forall o :: o in more ==> o in cells || fresh(o)
    decreases |d.w.Keys - active|, w[k], 8
  {
    assert Holds(m[k], cur[k], cells);
    var e;
    e, act := InlineEntry(m, k, cur, cells, d, active);
    out, more, next := m[k := e], cells + Foot(e), cur[k := Inline(cur[k], d.w, active)];
    MixedStep(cur, w, todo, k, d.w, active);
  }

  /** for k, v := range x { x[k] = inlineDefs(v) } */
  method InlineEntries(m: map<string, Item>, ghost w: Object, ghost cells: set<Cell>, d: Defs, active: set<string>)
    returns (out: map<string, Item>, ghost more: set<Cell>, act: set<string>)
    requires m.Keys == w.Keys && MapTree(m, w, cells) && DefsValid(d) && d.cells !! cells
    modifies cells
    ensures act == active && out.Keys == m.Keys && MapTree(out, InlineFields(w, d.w, active), more)
    ensures forall o :: o in more ==> o in cells || fresh(o)
    decreases |d.w.Keys - active|, Obj(w), 1
  {
    ghost var cur := w;
    more, act, out := cells, active, m;
    var todo := m.Keys;
    while todo != {}
      invariant todo <= m.Keys && out.Keys == m.Keys && Mixed(cur, w, todo, d.w, active)
      invariant act == active && d.cells !! more && DefsValid(d)
      invariant MapTree(out, cur, more)
      invariant forall o :: o in more ==> o in cells || fresh(o)
    {
      var k :| k in todo;
      out, more, cur, act := InlineNext(out, k, cur, more, d, act, w, todo);
      todo := todo - {k};
    }
    MixedDone(cur, w, d.w, active);
  }

  // ---- Siblings laid over a definition ----

  /** Entries still to be moved from one map, beside the map they are moved to. */
  ghost predicate Merging(rest: map<string, Item>, w: Object, cells: set<Cell>,
                          m: map<string, Item>, u: Object, mcells: set<Cell>, d: Defs)
    reads cells, mcells, d.cells
  {
    && MapTree(rest, w, cells) && MapTree(m, u, mcells) && m.Keys == u.Keys
    && (forall k :: k in rest && rest[k].At? && rest[k].cell in cells ==> rest[k].cell.repr !! mcells)
    && DefsValid(d) && d.cells !! cells && d.cells !! mcells
  }

  twostate lemma DropEntry(t: Entry)
    requires t.k in t.m && old(MapTree(t.m, t.w, t.cells))
    requires unchanged(t.cells - old(Foot(t.m[t.k])))
    ensures MapTree(t.m - {t.k}, t.w, t.cells)
    ensures forall l :: l in t.m - {t.k} ==> Foot(t.m[l]) == old(Foot(t.m[l])) && Foot(t.m[l]) !! old(Foot(t.m[t.k]))
  {
    OtherEntries(t);
    var n := t.m - {t.k};
    assert forall l :: l in n ==> l in t.m && l != t.k && n[l] == t.m[l];
  }

  /** resolved[k] = inlineDefs(v) for one sibling. */
  method OverlayEntry(rest: map<string, Item>, k: string, ghost w: Object, ghost cells: set<Cell>,
                      m: map<string, Item>, ghost u: Object, ghost mcells: set<Cell>, d: Defs, active: set<string>)
    returns (e: Item, act: set<string>)
    requires k in rest && Merging(rest, w, cells, m, u, mcells, d)
    modifies Foot(rest[k])
    ensures act == active
    ensures Merging(rest - {k}, w, cells, m[k := e], u[k := Inline(w[k], d.w, active)], mcells + Foot(e), d)
    ensures forall c :: c in Foot(e) ==> c in cells || fresh(c)
    ensures (rest - {k}).Keys == rest.Keys - {k}
    decreases |d.w.Keys - active|, w[k], 8
  {
    assert Holds(rest[k], w[k], cells);
    assert Foot(rest[k]) !! mcells;
    e, act := InlineEntry(rest, k, w, cells, d, active);
    DropEntry(Entry(rest, w, cells, k));
    MapTreeOverlay(m, u, mcells, k, e, Inline(w[k], d.w, active));
  }

  /** base with the done entries of w laid over it. */
  ghost predicate Laid(u: Object, base: Object, w: Object, todo: set<string>, defs: Object, active: set<string>) {
    && u.Keys == base.Keys + (w.Keys - todo)
    && forall k :: k in u ==>
         (k in w && k !in todo ==> u[k] == Inline(w[k], defs, active)) &&
         (!(k in w && k !in todo) ==> u[k] == base[k])
  }

  lemma LaidStep(u: Object, base: Object, w: Object, todo: set<string>, k: string, defs: Object, active: set<string>)
    requires Laid(u, base, w, todo, defs, active) && k in todo && todo <= w.Keys
    ensures Laid(u[k := Inline(w[k], defs, active)], base, w, todo - {k}, defs, active)
  {
  }

  lemma LaidDone(u: Object, base: Object, w: Object, defs: Object, active: set<string>)
    requires Laid(u, base, w, {}, defs, active)
    ensures u == base + InlineFields(w, defs, active)
  {
  }

  method OverlayRest(m0: map<string, Item>, ghost base: Object, ghost cells0: set<Cell>,
                     siblings: map<string, Item>, ghost w: Object, ghost cells: set<Cell>, d: Defs,
                     active: set<string>, ghost node: Value)
    returns (m: map<string, Item>, ghost mcells: set<Cell>, act: set<string>)
    requires forall k :: k in w ==> w[k] < node
    requires siblings.Keys == w.Keys && Merging(siblings, w, cells, m0, base, cells0, d)
    modifies cells
    ensures act == active && m.Keys == (base + InlineFields(w, d.w, active)).Keys
    ensures MapTree(m, base + InlineFields(w, d.w, active), mcells)
    ensures forall o :: o in mcells ==> o in cells0 || o in cells || fresh(o)
    decreases |d.w.Keys - active|, node, 1, 0
  {
    var rest := siblings;
    ghost var u := base;
    m, mcells, act := m0, cells0, active;
    while rest.Keys != {}
      invariant act == active && rest.Keys <= w.Keys
      invariant Laid(u, base, w, rest.Keys, d.w, active)
      invariant Merging(rest, w, cells, m, u, mcells, d)
      invariant forall o :: o in mcells ==> o in cells0 || o in cells || fresh(o)
      decreases rest.Keys
    {
      var k :| k in rest.Keys;
      assert Holds(rest[k], w[k], cells);
      LaidStep(u, base, w, rest.Keys, k, d.w, active);
      var e;
      e, act := OverlayEntry(rest, k, w, cells, m, u, mcells, d, act);
      m, u, mcells := m[k := e], u[k := Inline(w[k], d.w, active)], mcells + Foot(e);
      rest := rest - {k};
    }
    LaidDone(u, base, w, d.w, active);
  }

  method OverlayAll(r: Cell, siblings: map<string, Item>, ghost w: Object, ghost cells: set<Cell>, d: Defs,
                    active: set<string>, ghost node: Value)
    returns (act: set<string>)
    requires forall k :: k in w ==> w[k] < node
    requires r.Valid() && r.body.Fields? && r.repr !! cells && r.repr !! d.cells
    requires siblings.Keys == w.Keys && MapTree(siblings, w, cells) && DefsValid(d) && d.cells !! cells
    modifies cells, r
    ensures act == active && r.Valid() && r.body.Fields?
    ensures r.val == Obj(old(r.val.fields) + InlineFields(w, d.w, active))
    ensures forall o :: o in r.repr ==> o in old(r.repr) || o in cells || fresh(o)
    decreases |d.w.Keys - active|, node, 1, 1
  {
    ghost var base, own, mcells := r.val.fields, r.repr - {r}, {};
    assert Merging(siblings, w, cells, r.body.m, base, own, d) by {
      forall k | k in siblings
        ensures Holds(siblings[k], w[k], cells)
      {
      }
    }
    var m;
    m, mcells, act := OverlayRest(r.body.m, base, own, siblings, w, cells, d, active, node);
    PutMap(r, m, base + InlineFields(w, d.w, active), mcells);
  }

  // ---- Maps ----

  function RefString(m: map<string, Item>): (r: Option<string>) {
    if "$ref" in m && m["$ref"].Leaf? && m["$ref"].v.Str? then Some(m["$ref"].v.s) else None
  }

  ghost function RefOf(w: Object): (r: Option<string>) {
    if "$ref" in w && w["$ref"].Str? then Some(w["$ref"].s) else None
  }

  lemma RefStringSpells(m: map<string, Item>, w: Object, cells: set<Cell>)
    requires m.Keys == w.Keys && MapTree(m, w, cells)
    ensures RefString(m) == RefOf(w)
  {
    if "$ref" in m {
      assert Holds(m["$ref"], w["$ref"], cells);
    }
  }

  lemma SiblingsTree(m: map<string, Item>, w: Object, cells: set<Cell>)
    requires m.Keys == w.Keys && MapTree(m, w, cells)
    ensures MapTree(m - {"$ref"}, w - {"$ref"}, cells)
    ensures (m - {"$ref"}).Keys == (w - {"$ref"}).Keys
    ensures forall k :: k in m - {"$ref"} ==> Foot(m[k]) <= cells
  {
    var n, u := m - {"$ref"}, w - {"$ref"};
    forall k | k in n
      ensures k in u && Holds(n[k], u[k], cells)
    {
      assert Holds(m[k], w[k], cells);
    }
  }

  lemma InlineNoRef(w: Object, defs: Object, active: set<string>)
    requires RefOf(w).None?
    ensures Inline(Obj(w), defs, active) == Obj(InlineFields(w, defs, active))
  {
  }

  lemma InlineResolved(w: Object, defs: Object, active: set<string>)
    requires OwnRef(w).Some? && OwnRef(w).value !in active && OwnRef(w).value in Resolvable(defs)
    ensures Inline(Obj(w), defs, active) ==
            Obj(Inline(defs[OwnRef(w).value], defs, active + {OwnRef(w).value}).fields +
                InlineFields(w - {"$ref"}, defs, active))
  {
    var rest := map k | k in w && k != "$ref" :: Inline(w[k], defs, active);
    assert rest == InlineFields(w - {"$ref"}, defs, active);
  }

  lemma InlineKept(w: Object, defs: Object, active: set<string>)
    requires RefOf(w).Some?
    requires OwnRef(w).None? || OwnRef(w).value in active || OwnRef(w).value !in Resolvable(defs)
    ensures Inline(Obj(w), defs, active) ==
            Obj(map["$ref" := w["$ref"]] + InlineFields(w - {"$ref"}, defs, active))
  {
    var l := Inline(Obj(w), defs, active).fields;
    var r := map["$ref" := w["$ref"]] + InlineFields(w - {"$ref"}, defs, active);
    assert forall k :: k in l <==> k in r;
    assert forall k :: k in l ==> l[k] == r[k];
  }

  method InlineInPlace(c: Cell, d: Defs, active: set<string>) returns (act: set<string>)
    requires c.Valid() && c.body.Fields? && DefsValid(d) && d.cells !! c.repr
    modifies c.repr
    ensures act == active && c.Valid() && c.body.Fields? && c.val == Obj(InlineFields(old(c.val.fields), d.w, active))
    ensures forall o :: o in c.repr ==> o in old(c.repr) || fresh(o)
    decreases |d.w.Keys - active|, c.val, 2
  {
    ghost var more, w := {}, c.val.fields;
    var m;
    m, more, act := InlineEntries(c.body.m, w, c.repr - {c}, d, active);
    PutMap(c, m, InlineFields(w, d.w, active), more);
  }

  /** A fresh copy of a definition, inlined with the definition marked active. */
  method Resolve(name: string, d: Defs, active: set<string>, ghost node: Value) returns (r: Cell, act: set<string>)
    requires DefsValid(d) && name in d.m && name !in active && d.m[name].At? && d.m[name].cell.body.Fields?
    ensures act == active && name in Resolvable(d.w) && fresh(r.repr) && r.Valid() && r.body.Fields?
    ensures r.val == Inline(d.w[name], d.w, active + {name})
    decreases |d.w.Keys - active|, node, 2
  {
    assert Holds(d.m[name], d.w[name], d.cells);
    ValidIsReadable(d.m[name].cell);
    var t := CloneMap(d.m[name].cell);
    assert d.w.Keys - (active + {name}) == (d.w.Keys - active) - {name};
    var y;
    y, act := InlineItem(At(t), d.w[name], d, active + {name});
    act := act - {name};
    r := y.cell;
  }

  method InlineMap(c: Cell, d: Defs, active: set<string>) returns (r: Cell, act: set<string>)
    requires c.Valid() && c.body.Fields? && DefsValid(d) && d.cells !! c.repr
    modifies c.repr
    ensures act == active && r.Valid() && r.body.Fields? && r.val == Inline(old(c.val), d.w, active)
    ensures forall o :: o in r.repr ==> o in old(c.repr) || fresh(o)
    decreases |d.w.Keys - active|, c.val, 5
  {
    var ref := RefString(c.body.m);
    RefStringSpells(c.body.m, c.val.fields, c.repr - {c});
    if ref.None? {
      InlineNoRef(c.val.fields, d.w, active);
      act := InlineInPlace(c, d, active);
      return c, act;
    }
    var name := DefName(ref.value);
    if name.Some? && name.value !in active && name.value in d.m && d.m[name.value].At? && d.m[name.value].cell.body.Fields? {
      r, act := InlineByDef(c, name.value, d, active);
    } else {
      Unresolvable(name, d, active);
      r, act := InlineKeepRef(c, ref.value, d, active);
    }
  }

  method InlineByDef(c: Cell, name: string, d: Defs, active: set<string>) returns (r: Cell, act: set<string>)
    requires c.Valid() && c.body.Fields? && DefsValid(d) && d.cells !! c.repr
    requires name in d.m && name !in active && d.m[name].At? && d.m[name].cell.body.Fields?
    requires OwnRef(c.val.fields) == Some(name)
    modifies c.repr
    ensures act == active && r.Valid() && r.body.Fields? && r.val == Inline(old(c.val), d.w, active)
    ensures forall o :: o in r.repr ==> o in old(c.repr) || fresh(o)
    decreases |d.w.Keys - active|, c.val, 4
  {
    ghost var w := c.val.fields;
    r, act := Resolve(name, d, active, c.val);
    act := Overlay(r, c, d, act);
    InlineResolved(w, d.w, active);
  }

  method InlineKeepRef(c: Cell, ref: string, d: Defs, active: set<string>) returns (r: Cell, act: set<string>)
    requires c.Valid() && c.body.Fields? && DefsValid(d) && d.cells !! c.repr && RefOf(c.val.fields) == Some(ref)
    requires DefName(ref).None? || DefName(ref).value in active || DefName(ref).value !in Resolvable(d.w)
    modifies c.repr
    ensures act == active && r.Valid() && r.body.Fields? && r.val == Inline(old(c.val), d.w, active)
    ensures forall o :: o in r.repr ==> o in old(c.repr) || fresh(o)
    decreases |d.w.Keys - active|, c.val, 4
  {
    ghost var w := c.val.fields;
    r := RefOnly(Str(ref));
    act := Overlay(r, c, d, active);
    InlineKept(w, d.w, active);
  }

  method RefOnly(ref: Value) returns (r: Cell)
    requires Scalar(ref)
    ensures fresh(r.repr) && r.Valid() && r.body.Fields? && r.val == Obj(map["$ref" := ref])
  {
    r := new Cell(Fields(map["$ref" := Leaf(ref)]), Obj(map["$ref" := ref]), {});
  }

  /** The siblings of c's reference laid over r; c itself is dropped. */
  method Overlay(r: Cell, c: Cell, d: Defs, active: set<string>) returns (act: set<string>)
    requires c.Valid() && c.body.Fields? && DefsValid(d) && d.cells !! c.repr
    requires r.Valid() && r.body.Fields? && r.repr !! c.repr && r.repr !! d.cells
    modifies c.repr, r
    ensures act == active && r.Valid() && r.body.Fields?
    ensures r.val == Obj(old(r.val.fields) + InlineFields(old(c.val.fields) - {"$ref"}, d.w, active))
    ensures forall o :: o in r.repr ==> o in old(r.repr) || o in old(c.repr) || fresh(o)
    decreases |d.w.Keys - active|, c.val, 2
  {
    ghost var w, cells := c.val.fields, c.repr - {c};
    ghost var u := w - {"$ref"};
    SiblingsTree(c.body.m, w, cells);
    assert forall k :: k in u ==> u[k] < Obj(w);
    act := OverlayAll(r, c.body.m - {"$ref"}, u, cells, d, active, c.val);
  }

  lemma Unresolvable(name: Option<string>, d: Defs, active: set<string>)
    requires DefsValid(d)
    requires !(name.Some? && name.value !in active && name.value in d.m && d.m[name.value].At?
               && d.m[name.value].cell.body.Fields?)
    ensures name.None? || name.value in active || name.value !in Resolvable(d.w)
  {
    if name.Some? && name.value in d.m {
      assert Holds(d.m[name.value], d.w[name.value], d.cells);
    }
  }

  // ---- Lists ----

  ghost function InlineSeq(w: seq<Value>, defs: Object, active: set<string>, n: nat): (r: seq<Value>) {
    seq(|w|, i requires 0 <= i < |w| => if i < n then Inline(w[i], defs, active) else w[i])
  }

  /** x[i] = inlineDefs(x[i]) for one element. */
  method InlineElement(a: seq<Item>, i: nat, ghost w: seq<Value>, ghost cells: set<Cell>, d: Defs, active: set<string>)
    returns (e: Item, act: set<string>)
    requires i < |a| && ListTree(a, w, cells) && DefsValid(d) && d.cells !! cells
    modifies Foot(a[i])
    ensures act == active
    ensures forall c :: c in Foot(e) ==> c in cells || fresh(c)
    ensures ListTree(a[i := e], w[i := Inline(w[i], d.w, active)], cells + Foot(e))
    ensures DefsValid(d) && d.cells !! cells + Foot(e)
    decreases |d.w.Keys - active|, w[i], 7
  {
    assert Holds(a[i], w[i], cells);
    e, act := InlineItem(a[i], w[i], d, active);
    ListTreeSet(Element(a, w, cells, i), e, Inline(w[i], d.w, active));
  }

  method InlineList(c: Cell, d: Defs, active: set<string>) returns (act: set<string>)
    requires c.Valid() && c.body.Items? && DefsValid(d) && d.cells !! c.repr
    modifies c.repr
    ensures act == active && c.Valid() && c.val == Inline(old(c.val), d.w, active)
    ensures forall o :: o in c.repr ==> o in old(c.repr) || fresh(o)
    decreases |d.w.Keys - active|, c.val, 3
  {
    ghost var w, more := c.val.items, {};
    var a;
    a, more, act := InlineElements(c.body.a, w, c.repr - {c}, d, active, c.val);
    assert Arr(InlineSeq(w, d.w, active, |w|)) == Inline(c.val, d.w, active);
    PutList(c, a, InlineSeq(w, d.w, active, |w|), more);
  }

  method InlineElements(a: seq<Item>, ghost w: seq<Value>, ghost cells: set<Cell>, d: Defs, active: set<string>, ghost node: Value)
    returns (out: seq<Item>, ghost more: set<Cell>, act: set<string>)
    requires |a| == |w| && ListTree(a, w, cells) && DefsValid(d) && d.cells !! cells
    requires forall i :: 0 <= i < |w| ==> w[i] < node
    modifies cells
    ensures act == active && |out| == |a| && ListTree(out, InlineSeq(w, d.w, active, |w|), more)
    ensures forall o :: o in more ==> o in cells || fresh(o)
    decreases |d.w.Keys - active|, node, 1
  {
    ghost var cur := w;
    more, act, out := cells, active, a;
    for i := 0 to |a|
      invariant |out| == |a| && cur == InlineSeq(w, d.w, active, i)
      invariant act == active && d.cells !! more && DefsValid(d)
      invariant ListTree(out, cur, more)
      invariant forall o :: o in more ==> o in cells || fresh(o)
    {
      assert Holds(out[i], cur[i], more);
      var e;
      e, act := InlineElement(out, i, cur, more, d, act);
      out, cur, more := out[i := e], cur[i := Inline(cur[i], d.w, active)], more + Foot(e);
    }
  }
}
