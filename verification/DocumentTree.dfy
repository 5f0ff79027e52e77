/** JSON documents on the heap, as Go maps and slices hold them: cells that are shared by reference
    and rewritten in place. */
module DocumentTree {
  import opened JsonValue

  /** What a map entry or a list element holds: a scalar, or a reference to another cell. */
  datatype Item = Leaf(v: Value) | At(cell: Cell)

  datatype Body = Fields(m: map<string, Item>) | Items(a: seq<Item>)

  /** A map[string]any or a []any. */
  class Cell {
    var body: Body
    ghost var val: Value       // the document rooted here
    ghost var repr: set<Cell>  // the cells it is made of

    constructor (body: Body, ghost val: Value, ghost repr: set<Cell>)
      ensures this.body == body && this.val == val && this.repr == repr + {this}
    {
      this.body := body;
      this.val := val;
      this.repr := repr + {this};
    }

    /** The cell is the root of a tree that spells val: no cell is reached twice. */
    ghost predicate Valid()
      reads this, repr
      ensures Valid() ==> this in repr && (body.Fields? <==> val.Obj?) && (body.Items? <==> val.Arr?)
      decreases repr, 0
    {
      && this in repr
      && (body.Fields? ==> val.Obj? && body.m.Keys == val.fields.Keys && MapTree(body.m, val.fields, repr - {this}))
      && (body.Items? ==> val.Arr? && |body.a| == |val.items| && ListTree(body.a, val.items, repr - {this}))
    }

    /** The cell can be read as val.  Parts of it may be shared: only cycles are excluded. */
    ghost predicate Readable()
      reads this, repr
      ensures Readable() ==> this in repr && (body.Fields? <==> val.Obj?) && (body.Items? <==> val.Arr?)
      decreases repr, 0
    {
      && this in repr
      && (body.Fields? ==> val.Obj? && body.m.Keys == val.fields.Keys
                           && forall k :: k in body.m ==> ShowsWithin(body.m[k], val.fields[k], repr - {this}))
      && (body.Items? ==> val.Arr? && |body.a| == |val.items|
                          && forall i :: 0 <= i < |body.a| ==> ShowsWithin(body.a[i], val.items[i], repr - {this}))
    }
  }

  /** x can be read as w within cells. */
  ghost predicate ShowsWithin(x: Item, w: Value, cells: set<Cell>)
    reads cells
    decreases cells, 1
  {
    && (x.Leaf? ==> Scalar(x.v) && x.v == w)
    && (x.At? ==> x.cell in cells && x.cell.repr <= cells && x.cell.val == w && x.cell.Readable())
  }

  /** x can be read as w. */
  ghost predicate Shows(x: Item, w: Value)
    reads if x.At? then {x.cell} + x.cell.repr else {}
  {
    && (x.Leaf? ==> Scalar(x.v) && x.v == w)
    && (x.At? ==> x.cell.Readable() && x.cell.val == w)
  }

  /** A tree is a document without sharing. */
  lemma {:induction false} ValidIsReadable(c: Cell)
    requires c.Valid()
    ensures c.Readable()
    decreases c.repr, 0
  {
    var cells := c.repr - {c};
    if c.body.Fields? {
      forall k | k in c.body.m
        ensures ShowsWithin(c.body.m[k], c.val.fields[k], cells)
      {
        HoldsShows(c.body.m[k], c.val.fields[k], cells);
      }
    } else {
      forall i | 0 <= i < |c.body.a|
        ensures ShowsWithin(c.body.a[i], c.val.items[i], cells)
      {
        HoldsShows(c.body.a[i], c.val.items[i], cells);
      }
    }
  }

  lemma {:induction false} HoldsShows(x: Item, w: Value, cells: set<Cell>)
    requires Holds(x, w, cells)
    ensures ShowsWithin(x, w, cells)
    decreases cells, 1
  {
    if x.At? {
      ValidIsReadable(x.cell);
    }
  }

  /** Prop of the schema builder stores the given map itself: the same one under two names makes a
      document that can be read but is no tree. */
  method SharedProperty(a: string, b: string) returns (props: Cell)
    requires a != b
    ensures fresh(props.repr) && props.Readable() && !props.Valid()
    ensures props.val == Obj(map[a := Obj(map[]), b := Obj(map[])])
  {
    var sub := new Cell(Fields(map[]), Obj(map[]), {});
    props := new Cell(Fields(map[a := At(sub), b := At(sub)]), Obj(map[a := Obj(map[]), b := Obj(map[])]), {sub});
    assert props.repr - {props} == {sub};
    assert sub in Foot(props.body.m[a]) && sub in Foot(props.body.m[b]);
  }

  predicate Scalar(v: Value) {
    !v.Obj? && !v.Arr?
  }

  ghost function Foot(x: Item): (r: set<Cell>)
    reads if x.At? then {x.cell} else {}
  {
    if x.At? then x.cell.repr else {}
  }

  /** x holds a tree that spells w and lies within cells. */
  ghost predicate Holds(x: Item, w: Value, cells: set<Cell>)
    reads cells
    decreases cells, 1
  {
    && (x.Leaf? ==> Scalar(x.v) && x.v == w)
    && (x.At? ==> x.cell in cells && x.cell.repr <= cells && x.cell.val == w && x.cell.Valid())
  }

  /** Disjoint trees within cells spell the entries of w. */
  ghost predicate MapTree(m: map<string, Item>, w: Object, cells: set<Cell>)
    reads cells
    decreases cells, 2
  {
    && (forall k :: k in m ==> k in w && Holds(m[k], w[k], cells))
    && (forall k, l :: k in m && l in m && k != l ==> Foot(m[k]) !! Foot(m[l]))
  }

  ghost predicate ListTree(a: seq<Item>, w: seq<Value>, cells: set<Cell>)
    reads cells
    decreases cells, 2
  {
    && |a| <= |w|
    && (forall i :: 0 <= i < |a| ==> Holds(a[i], w[i], cells))
    && (forall i, j :: 0 <= i < j < |a| ==> Foot(a[i]) !! Foot(a[j]))
  }

  /** x holds the tree that spells w. */
  ghost predicate Spells(x: Item, w: Value)
    reads if x.At? then {x.cell} + x.cell.repr else {}
  {
    && (x.Leaf? ==> Scalar(x.v) && x.v == w)
    && (x.At? ==> x.cell.Valid() && x.cell.val == w)
  }

  lemma MapTreeAdd(m: map<string, Item>, w: Object, cells: set<Cell>, k: string, e: Item)
    requires MapTree(m, w, cells) && k in w && k !in m && Spells(e, w[k]) && Foot(e) !! cells
    ensures MapTree(m[k := e], w, cells + Foot(e))
  {
    var n, more := m[k := e], cells + Foot(e);
    forall l | l in n
      ensures l in w && Holds(n[l], w[l], more)
      ensures l != k ==> Foot(n[l]) <= cells
    {
      assert l != k ==> Holds(m[l], w[l], cells);
    }
  }

  lemma ListTreeAdd(a: seq<Item>, w: seq<Value>, cells: set<Cell>, e: Item)
    requires ListTree(a, w, cells) && |a| < |w| && Spells(e, w[|a|]) && Foot(e) !! cells
    ensures ListTree(a + [e], w, cells + Foot(e))
  {
  }

  /** The entries of a map or the elements of a list, written back. */
  method PutMap(c: Cell, m: map<string, Item>, ghost w: Object, ghost cells: set<Cell>)
    requires m.Keys == w.Keys && MapTree(m, w, cells) && c !in cells
    modifies c
    ensures c.Valid() && c.body == Fields(m) && c.val == Obj(w) && c.repr == cells + {c}
  {
    c.body, c.val, c.repr := Fields(m), Obj(w), cells + {c};
    assert c.repr - {c} == cells;
  }

  method PutList(c: Cell, a: seq<Item>, ghost w: seq<Value>, ghost cells: set<Cell>)
    requires |a| == |w| && ListTree(a, w, cells) && c !in cells
    modifies c
    ensures c.Valid() && c.body == Items(a) && c.val == Arr(w) && c.repr == cells + {c}
  {
    c.body, c.val, c.repr := Items(a), Arr(w), cells + {c};
    assert c.repr - {c} == cells;
  }

  /** cloneValue: whatever the input shares, the copy is a tree and shares no cell with anything. */
  method CloneValue(x: Item, ghost w: Value) returns (y: Item)
    requires Shows(x, w)
    ensures Spells(y, w) && fresh(Foot(y))
    decreases w, 1
  {
    match x
    case Leaf(_) => y := x;
    case At(c) =>
      var d;
      if c.body.Fields? {
        d := CloneMap(c);
      } else {
        d := CloneList(c);
      }
      y := At(d);
  }

  method CloneMap(c: Cell) returns (d: Cell)
    requires c.Readable() && c.body.Fields?
    ensures d.Valid() && d.val == c.val && fresh(d.repr) && d.body.Fields?
    decreases c.val, 0
  {
    var m := c.body.m;
    ghost var w := c.val.fields;
    var out: map<string, Item> := map[];
    var todo := m.Keys;
    ghost var cells: set<Cell> := {};
    while todo != {}
      invariant todo <= m.Keys && out.Keys == m.Keys - todo
      invariant fresh(cells) && MapTree(out, w, cells)
    {
      var k :| k in todo;
      assert ShowsWithin(m[k], w[k], c.repr - {c});
      var e := CloneValue(m[k], w[k]);
      MapTreeAdd(out, w, cells, k, e);
      out, todo, cells := out[k := e], todo - {k}, cells + Foot(e);
    }
    d := new Cell(Fields(out), c.val, cells);
    assert d.repr - {d} == cells;
  }

  method CloneList(c: Cell) returns (d: Cell)
    requires c.Readable() && c.body.Items?
    ensures d.Valid() && d.val == c.val && fresh(d.repr)
    decreases c.val, 0
  {
    var a := c.body.a;
    ghost var w := c.val.items;
    var out: seq<Item> := [];
    ghost var cells: set<Cell> := {};
    for i := 0 to |a|
      invariant |out| == i && fresh(cells) && ListTree(out, w, cells)
    {
      assert ShowsWithin(a[i], w[i], c.repr - {c});
      var e := CloneValue(a[i], w[i]);
      ListTreeAdd(out, w, cells, e);
      out, cells := out + [e], cells + Foot(e);
    }
    d := new Cell(Items(out), c.val, cells);
    assert d.repr - {d} == cells;
  }

  /** One entry of a map tree, and one element of a list tree. */
  datatype Entry = Entry(m: map<string, Item>, w: Object, cells: set<Cell>, k: string)
  datatype Element = Element(a: seq<Item>, w: seq<Value>, cells: set<Cell>, i: nat)

  /** The other entries, after the tree of this one and no other has been rewritten. */
  twostate lemma OtherEntries(t: Entry)
    requires t.k in t.m && old(MapTree(t.m, t.w, t.cells))
    requires unchanged(t.cells - old(Foot(t.m[t.k])))
    ensures forall l :: l in t.m && l != t.k ==>
              Holds(t.m[l], t.w[l], t.cells) && Foot(t.m[l]) == old(Foot(t.m[l]))
  {
    forall l | l in t.m && l != t.k
      ensures Holds(t.m[l], t.w[l], t.cells) && Foot(t.m[l]) == old(Foot(t.m[l]))
    {
      assert old(Holds(t.m[l], t.w[l], t.cells));
      if t.m[l].At? {
        var c := t.m[l].cell;
        assert old(c.repr) <= t.cells - old(Foot(t.m[t.k]));
        assert c in old(c.repr);
        assert unchanged(old(c.repr));
      }
    }
  }

  twostate lemma OtherElements(t: Element)
    requires t.i < |t.a| && old(ListTree(t.a, t.w, t.cells))
    requires unchanged(t.cells - old(Foot(t.a[t.i])))
    ensures forall l :: 0 <= l < |t.a| && l != t.i ==>
              Holds(t.a[l], t.w[l], t.cells) && Foot(t.a[l]) == old(Foot(t.a[l]))
  {
    forall l | 0 <= l < |t.a| && l != t.i
      ensures Holds(t.a[l], t.w[l], t.cells) && Foot(t.a[l]) == old(Foot(t.a[l]))
    {
      assert old(Holds(t.a[l], t.w[l], t.cells));
      if t.a[l].At? {
        var c := t.a[l].cell;
        assert old(c.repr) <= t.cells - old(Foot(t.a[t.i]));
        assert c in old(c.repr);
        assert unchanged(old(c.repr));
      }
    }
  }

  /** Replacing the entry then keeps the tree. */
  twostate lemma MapTreeSet(t: Entry, new e: Item, new v: Value)
    requires t.k in t.m && old(MapTree(t.m, t.w, t.cells))
    requires unchanged(t.cells - old(Foot(t.m[t.k])))
    requires Spells(e, v) && forall c :: c in Foot(e) ==> c in old(Foot(t.m[t.k])) || fresh(c)
    ensures MapTree(t.m[t.k := e], t.w[t.k := v], t.cells + Foot(e))
  {
    OtherEntries(t);
    var n, u, more := t.m[t.k := e], t.w[t.k := v], t.cells + Foot(e);
    forall l | l in n
      ensures l in u && Holds(n[l], u[l], more)
      ensures l != t.k ==> Foot(n[l]) !! Foot(e)
    {
    }
  }

  twostate lemma ListTreeSet(t: Element, new e: Item, new v: Value)
    requires t.i < |t.a| && old(ListTree(t.a, t.w, t.cells))
    requires unchanged(t.cells - old(Foot(t.a[t.i])))
    requires Spells(e, v) && forall c :: c in Foot(e) ==> c in old(Foot(t.a[t.i])) || fresh(c)
    ensures ListTree(t.a[t.i := e], t.w[t.i := v], t.cells + Foot(e))
  {
    OtherElements(t);
    var n, u, more := t.a[t.i := e], t.w[t.i := v], t.cells + Foot(e);
    forall l | 0 <= l < |n|
      ensures Holds(n[l], u[l], more)
      ensures l != t.i ==> Foot(n[l]) !! Foot(e)
    {
    }
  }

  // ---- stripRemote ----

  /** isRemoteRef: anything but a fragment of the same document. */
  predicate IsRemoteRef(ref: string) {
    ref != "" && ref[0] != '#'
  }

  function DropRemote(m: Object): (r: Object) {
    if "$ref" in m && m["$ref"].Str? && IsRemoteRef(m["$ref"].s) then m - {"$ref"} else m
  }

  /** The document without its remote references. */
  function Strip(j: Value): (r: Value) {
    match j
    case Obj(m) => Obj(map k | k in DropRemote(m) :: Strip(m[k]))
    case Arr(a) => Arr(seq(|a|, i requires 0 <= i < |a| => Strip(a[i])))
    case _ => j
  }

  /** stripRemote, in place: the same cells now spell the stripped document. */
  method StripRemote(x: Item, ghost w: Value)
    requires Spells(x, w)
    modifies Foot(x)
    ensures Spells(x, Strip(w)) && Foot(x) == old(Foot(x))
    decreases w, 3
  {
    match x
    case Leaf(_) =>
    case At(c) =>
      if c.body.Fields? {
        StripMap(c);
      } else {
        StripList(c);
      }
  }

  method StripMap(c: Cell)
    requires c.Valid() && c.body.Fields?
    modifies c.repr
    ensures c.Valid() && c.body.Fields? && c.val == Strip(old(c.val)) && c.repr == old(c.repr)
    decreases c.val, 2
  {
    ghost var w := c.val.fields;
    var m := c.body.m;
    if "$ref" in m {
      assert Holds(m["$ref"], w["$ref"], c.repr - {c});
      if m["$ref"].Leaf? && m["$ref"].v.Str? && IsRemoteRef(m["$ref"].v.s) {
        Delete(c, "$ref");
      }
    }
    assert c.val.fields.Keys == DropRemote(w).Keys;
    StripEntries(c, w);
    assert c.val == Strip(Obj(w));
  }

  /** delete(x, key), where the key may be absent. */
  method Delete(c: Cell, key: string)
    requires c.Valid() && c.body.Fields?
    modifies c
    ensures c.Valid() && c.body == Fields(old(c.body.m) - {key}) && c.val == Obj(old(c.val.fields) - {key})
    ensures c.repr == old(c.repr)
  {
    ghost var m, w, cells := c.body.m, c.val.fields, c.repr - {c};
    c.body := Fields(c.body.m - {key});
    c.val := Obj(w - {key});
    assert MapTree(m - {key}, w - {key}, cells) by {
      forall k | k in m - {key}
        ensures Holds(m[k], w[k], cells)
      {
      }
    }
  }

  method StripEntries(c: Cell, ghost w: Object)
    requires c.Valid() && c.body.Fields?
    requires c.val.fields.Keys <= w.Keys && forall k :: k in c.val.fields ==> c.val.fields[k] == w[k]
    modifies c.repr
    ensures c.Valid() && c.body.Fields? && c.repr == old(c.repr)
    ensures c.val.fields.Keys == old(c.val.fields.Keys)
    ensures forall k :: k in c.val.fields ==> c.val.fields[k] == Strip(w[k])
    decreases Obj(w), 1
  {
    var m := c.body.m;
    ghost var cur, cells := c.val.fields, c.repr - {c};
    var todo := m.Keys;
    while todo != {}
      invariant todo <= m.Keys && cur.Keys == m.Keys
      invariant c.body == Fields(m) && c.repr == cells + {c} && c !in cells
      invariant MapTree(m, cur, cells)
      invariant forall k :: k in m ==> (k in todo ==> cur[k] == w[k]) && (k !in todo ==> cur[k] == Strip(w[k]))
      modifies c.repr
    {
      var k :| k in todo;
      todo := todo - {k};
      StripEntry(m, k, cur, cells);
      cur := cur[k := Strip(w[k])];
    }
    PutMap(c, m, cur, cells);
  }

  /** x[k] = stripRemote(x[k]) */
  method StripEntry(m: map<string, Item>, k: string, ghost w: Object, ghost cells: set<Cell>)
    requires k in m && MapTree(m, w, cells)
    modifies cells
    ensures MapTree(m, w[k := Strip(w[k])], cells)
    ensures unchanged(cells - old(Foot(m[k])))
    decreases w[k], 4
  {
    assert Holds(m[k], w[k], cells);
    StripRemote(m[k], w[k]);
    MapTreeSet(Entry(m, w, cells, k), m[k], Strip(w[k]));
    assert m[k := m[k]] == m;
    assert cells + Foot(m[k]) == cells;
  }

  method StripList(c: Cell)
    requires c.Valid() && c.body.Items?
    modifies c.repr
    ensures c.Valid() && c.body.Items? && c.val == Strip(old(c.val)) && c.repr == old(c.repr)
    decreases c.val, 0
  {
    ghost var w := c.val.items;
    ghost var cells := c.repr - {c};
    var a := c.body.a;
    ghost var cur := w;
    for i := 0 to |a|
      invariant |cur| == |a| && c.body == Items(a) && c.repr == cells + {c} && c !in cells
      invariant ListTree(a, cur, cells)
      invariant forall j :: 0 <= j < |a| ==> (j < i ==> cur[j] == Strip(w[j])) && (i <= j ==> cur[j] == w[j])
      modifies c.repr
    {
      StripElement(a, i, cur, cells);
      cur := cur[i := Strip(w[i])];
    }
    PutList(c, a, cur, cells);
  }

  method StripElement(a: seq<Item>, i: nat, ghost w: seq<Value>, ghost cells: set<Cell>)
    requires i < |a| && ListTree(a, w, cells)
    modifies cells
    ensures ListTree(a, w[i := Strip(w[i])], cells)
    ensures unchanged(cells - old(Foot(a[i])))
    decreases w[i], 4
  {
    assert Holds(a[i], w[i], cells);
    StripRemote(a[i], w[i]);
    ListTreeSet(Element(a, w, cells, i), a[i], Strip(w[i]));
    assert a[i := a[i]] == a;
    assert cells + Foot(a[i]) == cells;
  }
}
