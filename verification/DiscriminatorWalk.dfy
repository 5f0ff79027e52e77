/** applyDiscriminator on the heap: the walk rewrites the inlined tree in place. */
module DiscriminatorWalk {
  import opened Wrappers
  import opened JsonValue
  import opened SchemaTransforms
  import opened Discriminator
  import opened DocumentTree
  import opened Dereference

  // ---- addRequired ----

  method ReadStrings(x: Item, ghost w: Value) returns (names: seq<string>)
    requires Spells(x, w)
    ensures names == if w.Arr? then StringsIn(w.items) else []
  {
    names := [];
    if x.At? && x.cell.body.Items? {
      names := ReadList(x.cell.body.a, w.items, x.cell.repr - {x.cell});
    }
  }

  method ReadList(a: seq<Item>, ghost w: seq<Value>, ghost cells: set<Cell>) returns (names: seq<string>)
    requires |a| == |w| && ListTree(a, w, cells)
    ensures names == StringsIn(w)
  {
    names := [];
    for i := 0 to |a|
      invariant names == StringsIn(w[..i])
    {
      assert w[..i + 1][..i] == w[..i];
      assert Holds(a[i], w[i], cells);
      if a[i].Leaf? && a[i].v.Str? {
        names := names + [a[i].v.s];
      }
    }
    assert w[..|a|] == w;
  }

  method NewTexts(names: seq<string>) returns (c: Cell)
    ensures fresh(c.repr) && c.Valid() && c.val == Arr(Texts(names))
  {
    var a := seq(|names|, i requires 0 <= i < |names| => Leaf(Str(names[i])));
    c := new Cell(Body.Items(a), Arr(Texts(names)), {});
  }

  method RequiredIn(m: map<string, Item>, ghost w: Object, ghost cells: set<Cell>) returns (names: seq<string>)
    requires m.Keys == w.Keys && MapTree(m, w, cells)
    ensures names == RequiredOf(w)
  {
    names := [];
    if "required" in m {
      assert Holds(m["required"], w["required"], cells);
      names := ReadStrings(m["required"], w["required"]);
    }
  }

  method AddRequiredTo(c: Cell, name: string)
    requires c.Valid() && c.body.Fields?
    modifies c
    ensures c.Valid() && c.body.Fields? && c.val == Obj(AddRequired(old(c.val.fields), name))
    ensures forall o :: o in c.repr ==> o in old(c.repr) || fresh(o)
  {
    ghost var w, cells := c.val.fields, c.repr - {c};
    var names := RequiredIn(c.body.m, w, cells);
    if name !in names {
      var l := NewTexts(names + [name]);
      var e := At(l);
      MapTreeOverlay(c.body.m, w, cells, "required", e, l.val);
      PutMap(c, c.body.m["required" := e], w["required" := l.val], cells + Foot(e));
    }
  }

  // ---- The variants of a node ----

  ghost function AddedTo(v: Value, add: Option<string>): (r: Value) {
    if v.Obj? then Obj(Added(v.fields, add)) else v
  }

  ghost function AddedEach(a: seq<Value>, add: Option<string>, n: nat): (r: seq<Value>) {
    seq(|a|, i requires 0 <= i < |a| => if i < n then AddedTo(a[i], add) else a[i])
  }

  method RequireItem(x: Item, ghost w: Value, name: string)
    requires Spells(x, w)
    modifies Foot(x)
    ensures Spells(x, AddedTo(w, Some(name)))
    ensures forall o :: o in Foot(x) ==> o in old(Foot(x)) || fresh(o)
  {
    if x.At? && x.cell.body.Fields? {
      AddRequiredTo(x.cell, name);
    }
  }

  method RequireElement(a: seq<Item>, i: nat, ghost w: seq<Value>, ghost cells: set<Cell>, name: string)
    returns (ghost more: set<Cell>)
    requires i < |a| && ListTree(a, w, cells)
    modifies cells
    ensures ListTree(a, w[i := AddedTo(w[i], Some(name))], more)
    ensures forall o :: o in more ==> o in cells || fresh(o)
  {
    assert Holds(a[i], w[i], cells);
    RequireItem(a[i], w[i], name);
    ListTreeSet(Element(a, w, cells, i), a[i], AddedTo(w[i], Some(name)));
    assert a[i := a[i]] == a;
    more := cells + Foot(a[i]);
  }

  method RequireList(c: Cell, name: string)
    requires c.Valid() && c.body.Items?
    modifies c.repr
    ensures c.Valid() && c.body.Items? && c.val == Arr(AddedEach(old(c.val.items), Some(name), |old(c.val.items)|))
    ensures forall o :: o in c.repr ==> o in old(c.repr) || fresh(o)
  {
    ghost var w, cells := c.val.items, c.repr - {c};
    var a := c.body.a;
    ghost var cur, more := w, cells;
    for i := 0 to |a|
      invariant cur == AddedEach(w, Some(name), i) && ListTree(a, cur, more)
      invariant c !in more && forall o :: o in more ==> o in cells || fresh(o)
      invariant c.body == Body.Items(a)
    {
      more := RequireElement(a, i, cur, more, name);
      cur := cur[i := AddedTo(cur[i], Some(name))];
    }
    PutList(c, a, cur, more);
  }

  // ---- One node: its variants are told, its discriminator goes ----

  /** The fields of a node after its own turn. */
  ghost function Told(m: Object): (r: Object) {
    map k | k in DropDisc(m) :: if Demand(m, k).Some? && m[k].Arr? then Arr(AddedEach(m[k].items, DiscName(m), |m[k].items|)) else m[k]
  }

  method PropertyName(x: Item, ghost w: Value) returns (name: Option<string>, has: bool)
    requires Spells(x, w)
    ensures has == w.Obj?
    ensures name == if w.Obj? then NameOf(w.fields) else None
  {
    name, has := None, x.At? && x.cell.body.Fields?;
    if has {
      name := NameIn(x.cell.body.m, w.fields, x.cell.repr - {x.cell});
    }
  }

  function NameOf(d: Object): (r: Option<string>) {
    if "propertyName" in d && d["propertyName"].Str? && d["propertyName"].s != "" then Some(d["propertyName"].s) else None
  }

  method NameIn(m: map<string, Item>, ghost w: Object, ghost cells: set<Cell>) returns (name: Option<string>)
    requires m.Keys == w.Keys && MapTree(m, w, cells)
    ensures name == NameOf(w)
  {
    name := None;
    if "propertyName" in m {
      assert Holds(m["propertyName"], w["propertyName"], cells);
      var p := m["propertyName"];
      if p.Leaf? && p.v.Str? && p.v.s != "" {
        name := Some(p.v.s);
      }
    }
  }

  method DiscriminatorOf(m: map<string, Item>, ghost w: Object, ghost cells: set<Cell>) returns (name: Option<string>, has: bool)
    requires m.Keys == w.Keys && MapTree(m, w, cells)
    ensures name == DiscName(w) && has == ("discriminator" in w && w["discriminator"].Obj?)
  {
    name, has := None, false;
    if "discriminator" in m {
      assert Holds(m["discriminator"], w["discriminator"], cells);
      name, has := PropertyName(m["discriminator"], w["discriminator"]);
    }
  }

  ghost function ToldAt(w: Object, key: string, name: string): (r: Object) {
    if key in w && w[key].Arr? then w[key := Arr(AddedEach(w[key].items, Some(name), |w[key].items|))] else w
  }

  lemma ToldByKeys(w: Object, name: string)
    requires DiscName(w) == Some(name)
    ensures ToldAt(ToldAt(ToldAt(w, "anyOf", name), "oneOf", name), "allOf", name) - {"discriminator"} == Told(w)
  {
    var a := ToldAt(w, "anyOf", name);
    var b := ToldAt(a, "oneOf", name);
    var r := ToldAt(b, "allOf", name);
    assert r.Keys == w.Keys;
    forall k | k in w && k != "discriminator"
      ensures r[k] == Told(w)[k]
    {
      assert a[k] == if k == "anyOf" && w[k].Arr? then Arr(AddedEach(w[k].items, Some(name), |w[k].items|)) else w[k];
      assert b[k] == if k == "oneOf" && w[k].Arr? then Arr(AddedEach(w[k].items, Some(name), |w[k].items|)) else a[k];
    }
  }

  lemma ToldWithoutName(w: Object)
    requires DiscName(w) == None
    ensures Told(w) == DropDisc(w)
  {
  }

  /** The list under one key, told what to require. */
  method TellKey(c: Cell, key: string, name: string)
    requires c.Valid() && c.body.Fields?
    modifies c.repr
    ensures c.Valid() && c.body.Fields?
    ensures c.val == Obj(ToldAt(old(c.val.fields), key, name))
    ensures forall o :: o in c.repr ==> o in old(c.repr) || fresh(o)
  {
    ghost var w, cells := c.val.fields, c.repr - {c};
    var m := c.body.m;
    if key in m {
      assert Holds(m[key], w[key], cells);
      if m[key].At? && m[key].cell.body.Items? {
        ghost var v := Arr(AddedEach(w[key].items, Some(name), |w[key].items|));
        RequireList(m[key].cell, name);
        MapTreeSet(Entry(m, w, cells, key), m[key], v);
        assert m[key := m[key]] == m;
        PutMap(c, m, w[key := v], cells + Foot(m[key]));
      }
    }
  }

  method TellNode(c: Cell)
    requires c.Valid() && c.body.Fields?
    modifies c.repr
    ensures c.Valid() && c.body.Fields? && c.val == Obj(Told(old(c.val.fields)))
    ensures forall o :: o in c.repr ==> o in old(c.repr) || fresh(o)
  {
    ghost var w := c.val.fields;
    var name, has := DiscriminatorOf(c.body.m, w, c.repr - {c});
    if has {
      if name.Some? {
        TellKeys(c, name.value);
        ToldByKeys(w, name.value);
      } else {
        ToldWithoutName(w);
      }
      Delete(c, "discriminator");
    } else {
      ToldWithoutName(w);
    }
  }

  method TellKeys(c: Cell, name: string)
    requires c.Valid() && c.body.Fields?
    modifies c.repr
    ensures c.Valid() && c.body.Fields?
    ensures c.val == Obj(ToldAt(ToldAt(ToldAt(old(c.val.fields), "anyOf", name), "oneOf", name), "allOf", name))
    ensures forall o :: o in c.repr ==> o in old(c.repr) || fresh(o)
  {
    TellKey(c, "anyOf", name);
    TellKey(c, "oneOf", name);
    TellKey(c, "allOf", name);
  }

  // ---- The walk ----

  ghost predicate Walkable(t: Table) {
    Plain(t) && forall k :: VariantKey(k) ==> k in t && t[k] == Listed
  }

  /** What stands under a keyword when its node has had its turn. */
  ghost function Asked(shape: Shape, v: Value, add: Option<string>): (r: Value) {
    if shape == Listed && v.Arr? then Arr(AddedEach(v.items, add, |v.items|)) else v
  }

  lemma NothingAsked(a: seq<Value>)
    ensures AddedEach(a, None, |a|) == a
  {
  }

  /** The fields of a node that its parent and its own turn have changed. */
  ghost function Ready(m: Object, add: Option<string>): (r: Object) {
    Told(Added(m, add))
  }

  lemma ReadyAt(t: Table, m: Object, add: Option<string>, k: string)
    requires Walkable(t) && k in t
    ensures k in Ready(m, add) <==> k in m
    ensures k in m ==> Ready(m, add)[k] == Asked(t[k], m[k], Demand(m, k))
  {
    if k in m && m[k].Arr? {
      NothingAsked(m[k].items);
    }
  }

  /** cur is on its way from Ready to the walked fields, with todo still to be visited. */
  ghost predicate Walking(t: Table, m: Object, add: Option<string>, cur: Object, todo: set<string>) {
    && cur.Keys == Ready(m, add).Keys
    && forall k :: k in cur ==>
         && (k in t && k in todo ==> k in m && cur[k] == Asked(t[k], m[k], Demand(m, k)))
         && (k in t && k !in todo ==> k in m && cur[k] == DiscAt(t, t[k], m[k], Demand(m, k)))
         && (k !in t ==> cur[k] == Ready(m, add)[k])
  }

  lemma WalkingStart(t: Table, m: Object, add: Option<string>)
    requires Walkable(t)
    ensures Walking(t, m, add, Ready(m, add), Ready(m, add).Keys * t.Keys)
  {
    var r := Ready(m, add);
    forall k | k in r && k in t
      ensures k in m && r[k] == Asked(t[k], m[k], Demand(m, k))
    {
      ReadyAt(t, m, add, k);
    }
  }

  lemma WalkingStep(t: Table, m: Object, add: Option<string>, cur: Object, todo: set<string>, k: string)
    requires Walking(t, m, add, cur, todo) && k in todo && k in cur && k in t && k in m
    ensures Walking(t, m, add, cur[k := DiscAt(t, t[k], m[k], Demand(m, k))], todo - {k})
  {
    var next := cur[k := DiscAt(t, t[k], m[k], Demand(m, k))];
    assert next.Keys == cur.Keys;
    forall l | l in next
      ensures l in t && l in todo - {k} ==> l in m && next[l] == Asked(t[l], m[l], Demand(m, l))
      ensures l in t && l !in todo - {k} ==> l in m && next[l] == DiscAt(t, t[l], m[l], Demand(m, l))
      ensures l !in t ==> next[l] == Ready(m, add)[l]
    {
    }
  }

  lemma DoneAt(t: Table, m: Object, add: Option<string>, cur: Object, k: string)
    requires Walkable(t) && Walking(t, m, add, cur, {}) && RequiredOf(WalkedFields(t, m)) == RequiredOf(m)
    ensures k in cur <==> k in Added(WalkedFields(t, m), add)
    ensures k in cur ==> cur[k] == Added(WalkedFields(t, m), add)[k]
  {
    if k in t {
      ReadyAt(t, m, add, k);
    } else {
      assert Demand(m, k) == None;
    }
  }

  lemma WalkingDone(t: Table, m: Object, add: Option<string>, cur: Object)
    requires Walkable(t) && Walking(t, m, add, cur, {})
    ensures Obj(cur) == Disc(t, Obj(m), add)
  {
    var r := Added(WalkedFields(t, m), add);
    WalkedRequired(t, m);
    forall k
      ensures k in cur <==> k in r
      ensures k in cur ==> cur[k] == r[k]
    {
      DoneAt(t, m, add, cur, k);
    }
    assert cur == r;
    DiscWalked(t, m, add);
  }

  lemma WalkedRequired(t: Table, m: Object)
    requires Walkable(t)
    ensures RequiredOf(WalkedFields(t, m)) == RequiredOf(m)
  {
  }

  method WalkItem(x: Item, t: Table, ghost w: Value, ghost add: Option<string>)
    requires Walkable(t) && Spells(x, AddedTo(w, add))
    modifies Foot(x)
    ensures Spells(x, Disc(t, w, add))
    ensures forall o :: o in Foot(x) ==> o in old(Foot(x)) || fresh(o)
    decreases w, 5
  {
    if x.At? && x.cell.body.Fields? {
      WalkNode(x.cell, t, w.fields, add);
    }
  }

  method WalkNode(c: Cell, t: Table, ghost m: Object, ghost add: Option<string>)
    requires Walkable(t) && c.Valid() && c.body.Fields? && c.val == Obj(Added(m, add))
    modifies c.repr
    ensures c.Valid() && c.body.Fields? && c.val == Disc(t, Obj(m), add)
    ensures forall o :: o in c.repr ==> o in old(c.repr) || fresh(o)
    decreases Obj(m), 4
  {
    TellNode(c);
    ghost var more;
    var fields := c.body.m;
    more := WalkEntries(fields, Ready(m, add), c.repr - {c}, t, m, add);
    PutMap(c, fields, Disc(t, Obj(m), add).fields, more);
  }

  method WalkEntries(fields: map<string, Item>, ghost w: Object, ghost cells: set<Cell>, t: Table, ghost m: Object, ghost add: Option<string>)
    returns (ghost more: set<Cell>)
    requires Walkable(t) && fields.Keys == w.Keys && w == Ready(m, add) && MapTree(fields, w, cells)
    modifies cells
    ensures fields.Keys == Disc(t, Obj(m), add).fields.Keys && MapTree(fields, Disc(t, Obj(m), add).fields, more)
    ensures forall o :: o in more ==> o in cells || fresh(o)
    decreases Obj(m), 3
  {
    var todo := set k | k in fields && k in t;
    ghost var cur := w;
    more := cells;
    WalkingStart(t, m, add);
    assert todo == w.Keys * t.Keys;
    while todo != {}
      invariant todo <= fields.Keys && todo <= t.Keys && fields.Keys == cur.Keys
      invariant Walking(t, m, add, cur, todo) && MapTree(fields, cur, more)
      invariant forall o :: o in more ==> o in cells || fresh(o)
    {
      var k :| k in todo;
      more, cur := WalkNext(fields, k, cur, more, t, m, add, todo);
      todo := todo - {k};
    }
    WalkingDone(t, m, add, cur);
  }

  method WalkNext(fields: map<string, Item>, k: string, ghost cur: Object, ghost cells: set<Cell>, t: Table,
                  ghost m: Object, ghost add: Option<string>, ghost todo: set<string>)
    returns (ghost more: set<Cell>, ghost next: Object)
    requires Walkable(t) && fields.Keys == cur.Keys && MapTree(fields, cur, cells)
    requires Walking(t, m, add, cur, todo) && k in todo && k in fields && k in t
    modifies cells
    ensures next.Keys == cur.Keys && Walking(t, m, add, next, todo - {k}) && MapTree(fields, next, more)
    ensures forall o :: o in more ==> o in cells || fresh(o)
    decreases Obj(m), 2
  {
    assert Holds(fields[k], cur[k], cells);
    ghost var v := DiscAt(t, t[k], m[k], Demand(m, k));
    WalkAt(fields[k], t[k], t, m[k], Demand(m, k));
    MapTreeSet(Entry(fields, cur, cells, k), fields[k], v);
    assert fields[k := fields[k]] == fields;
    WalkingStep(t, m, add, cur, todo, k);
    more, next := cells + Foot(fields[k]), cur[k := v];
  }

  method WalkAt(x: Item, shape: Shape, t: Table, ghost v: Value, ghost add: Option<string>)
    requires Walkable(t) && Spells(x, Asked(shape, v, add))
    modifies Foot(x)
    ensures Spells(x, DiscAt(t, shape, v, add))
    ensures forall o :: o in Foot(x) ==> o in old(Foot(x)) || fresh(o)
    decreases v, 6
  {
    match shape
    case Single => WalkItem(x, t, v, None);
    case Named =>
      if x.At? && x.cell.body.Fields? {
        WalkNamed(x.cell, t, v.fields);
      }
    case Listed =>
      if x.At? && x.cell.body.Items? {
        WalkListed(x.cell, t, v.items, add);
      }
    case Items =>
      if x.At? && x.cell.body.Items? {
        NothingAsked(v.items);
        WalkListed(x.cell, t, v.items, None);
      } else {
        WalkItem(x, t, v, None);
      }
  }

  ghost predicate NamedWalking(t: Table, o: Object, cur: Object, todo: set<string>) {
    && cur.Keys == o.Keys
    && forall k :: k in o ==> (k in todo ==> cur[k] == o[k]) && (k !in todo ==> cur[k] == Disc(t, o[k], None))
  }

  lemma NamedDone(t: Table, o: Object, cur: Object)
    requires NamedWalking(t, o, cur, {})
    ensures Obj(cur) == DiscAt(t, Named, Obj(o), None)
  {
    assert cur == DiscAt(t, Named, Obj(o), None).fields;
  }

  method WalkNamed(c: Cell, t: Table, ghost o: Object)
    requires Walkable(t) && c.Valid() && c.body.Fields? && c.val == Obj(o)
    modifies c.repr
    ensures c.Valid() && c.body.Fields? && c.val == DiscAt(t, Named, Obj(o), None)
    ensures forall p :: p in c.repr ==> p in old(c.repr) || fresh(p)
    decreases Obj(o), 3
  {
    var fields := c.body.m;
    ghost var more, w;
    more, w := WalkNamedEntries(fields, o, c.repr - {c}, t);
    PutMap(c, fields, w, more);
  }

  method WalkNamedEntries(fields: map<string, Item>, ghost o: Object, ghost cells: set<Cell>, t: Table)
    returns (ghost more: set<Cell>, ghost cur: Object)
    requires Walkable(t) && fields.Keys == o.Keys && MapTree(fields, o, cells)
    modifies cells
    ensures fields.Keys == cur.Keys && Obj(cur) == DiscAt(t, Named, Obj(o), None) && MapTree(fields, cur, more)
    ensures forall p :: p in more ==> p in cells || fresh(p)
    decreases Obj(o), 2
  {
    cur, more := o, cells;
    var todo := fields.Keys;
    while todo != {}
      invariant todo <= fields.Keys && fields.Keys == cur.Keys
      invariant NamedWalking(t, o, cur, todo) && MapTree(fields, cur, more)
      invariant forall p :: p in more ==> p in cells || fresh(p)
    {
      var k :| k in todo;
      more, cur := WalkNamedEntry(fields, k, cur, more, t, o, todo);
      todo := todo - {k};
    }
    NamedDone(t, o, cur);
  }

  method WalkNamedEntry(fields: map<string, Item>, k: string, ghost w: Object, ghost cells: set<Cell>, t: Table,
                        ghost o: Object, ghost todo: set<string>)
    returns (ghost more: set<Cell>, ghost next: Object)
    requires Walkable(t) && fields.Keys == w.Keys && k in fields && MapTree(fields, w, cells)
    requires NamedWalking(t, o, w, todo) && k in todo
    modifies cells
    ensures next.Keys == w.Keys && NamedWalking(t, o, next, todo - {k}) && MapTree(fields, next, more)
    ensures forall p :: p in more ==> p in cells || fresh(p)
    decreases o[k], 7
  {
    assert Holds(fields[k], w[k], cells);
    WalkItem(fields[k], t, w[k], None);
    MapTreeSet(Entry(fields, w, cells, k), fields[k], Disc(t, w[k], None));
    assert fields[k := fields[k]] == fields;
    more, next := cells + Foot(fields[k]), w[k := Disc(t, w[k], None)];
  }

  ghost function WalkedEach(t: Table, a: seq<Value>, add: Option<string>, n: nat): (r: seq<Value>) {
    seq(|a|, i requires 0 <= i < |a| => if i < n then Disc(t, a[i], add) else AddedTo(a[i], add))
  }

  method WalkListed(c: Cell, t: Table, ghost a: seq<Value>, ghost add: Option<string>)
    requires Walkable(t) && c.Valid() && c.body.Items? && c.val == Arr(AddedEach(a, add, |a|))
    modifies c.repr
    ensures c.Valid() && c.body.Items? && c.val == Arr(WalkedEach(t, a, add, |a|))
    ensures forall p :: p in c.repr ==> p in old(c.repr) || fresh(p)
    decreases Arr(a), 3
  {
    var items := c.body.a;
    ghost var cells := c.repr - {c};
    ghost var cur, more := c.val.items, cells;
    for i := 0 to |items|
      invariant |items| == |a| && cur == WalkedEach(t, a, add, i) && c.body == Body.Items(items)
      invariant ListTree(items, cur, more)
      invariant c !in more && forall p :: p in more ==> p in cells || fresh(p)
    {
      more := WalkElement(items, i, cur, more, t, a[i], add);
      cur := cur[i := Disc(t, a[i], add)];
    }
    PutList(c, items, cur, more);
  }

  method WalkElement(items: seq<Item>, i: nat, ghost w: seq<Value>, ghost cells: set<Cell>, t: Table, ghost v: Value, ghost add: Option<string>)
    returns (ghost more: set<Cell>)
    requires Walkable(t) && i < |items| && ListTree(items, w, cells) && w[i] == AddedTo(v, add)
    modifies cells
    ensures ListTree(items, w[i := Disc(t, v, add)], more)
    ensures forall p :: p in more ==> p in cells || fresh(p)
    decreases v, 7
  {
    assert Holds(items[i], w[i], cells);
    WalkItem(items[i], t, v, add);
    ListTreeSet(Element(items, w, cells, i), items[i], Disc(t, v, add));
    assert items[i := items[i]] == items;
    more := cells + Foot(items[i]);
  }
}
