/** CompressSchema on the heap (jsonschema/transform.go): every step rewrites a private copy in place. */
module CompressSchema {
  import opened JsonValue
  import opened SchemaTransforms
  import opened Discriminator
  import opened DocumentTree
  import opened DiscriminatorWalk
  import opened Dereference
  import Deref = DereferenceRefs
  import PruneDefs

  // ---- pruneTitles ----

  method TitlesItem(x: Item, t: Table, ghost w: Value)
    requires Spells(x, w)
    modifies Foot(x)
    ensures Spells(x, PruneTitles(t, w)) && Foot(x) == old(Foot(x))
    decreases w, 5
  {
    if x.At? && x.cell.body.Fields? {
      TitlesNode(x.cell, t, w.fields);
    }
  }

  method TitlesNode(c: Cell, t: Table, ghost m: Object)
    requires c.Valid() && c.body.Fields? && c.val == Obj(m)
    modifies c.repr
    ensures c.Valid() && c.body.Fields? && c.val == PruneTitles(t, Obj(m)) && c.repr == old(c.repr)
    decreases Obj(m), 4
  {
    Delete(c, "title");
    var fields := c.body.m;
    TitlesEntries(fields, m - {"title"}, c.repr - {c}, t, m);
    PutMap(c, fields, PruneTitles(t, Obj(m)).fields, c.repr - {c});
  }

  ghost predicate Titling(t: Table, w: Object, cur: Object, todo: set<string>) {
    && cur.Keys == w.Keys
    && forall k :: k in w ==>
         && (k in t && k !in todo ==> cur[k] == PruneTitlesAt(t, t[k], w[k]))
         && (k !in t || k in todo ==> cur[k] == w[k])
  }

  lemma TitlingDone(t: Table, m: Object, cur: Object)
    requires Titling(t, m - {"title"}, cur, {})
    ensures cur == PruneTitles(t, Obj(m)).fields
  {
  }

  method TitlesEntries(fields: map<string, Item>, ghost w: Object, ghost cells: set<Cell>, t: Table, ghost m: Object)
    requires fields.Keys == w.Keys && w == m - {"title"} && MapTree(fields, w, cells)
    modifies cells
    ensures fields.Keys == PruneTitles(t, Obj(m)).fields.Keys && MapTree(fields, PruneTitles(t, Obj(m)).fields, cells)
    decreases Obj(m), 3
  {
    var todo := set k | k in fields && k in t;
    ghost var cur := w;
    while todo != {}
      invariant todo <= fields.Keys && todo <= t.Keys && fields.Keys == cur.Keys
      invariant Titling(t, w, cur, todo) && MapTree(fields, cur, cells)
    {
      var k :| k in todo;
      cur := TitlesEntry(fields, k, cur, cells, t, w, m, todo);
      todo := todo - {k};
    }
    TitlingDone(t, m, cur);
  }

  method TitlesEntry(fields: map<string, Item>, k: string, ghost cur: Object, ghost cells: set<Cell>, t: Table,
                     ghost w: Object, ghost m: Object, ghost todo: set<string>)
    returns (ghost next: Object)
    requires fields.Keys == cur.Keys && MapTree(fields, cur, cells) && w == m - {"title"}
    requires Titling(t, w, cur, todo) && k in todo && k in fields && k in t
    modifies cells
    ensures next.Keys == cur.Keys && Titling(t, w, next, todo - {k}) && MapTree(fields, next, cells)
    decreases Obj(m), 2
  {
    assert Holds(fields[k], cur[k], cells);
    assert w[k] == m[k];
    TitlesAt(fields[k], t[k], t, w[k]);
    MapTreeSet(Entry(fields, cur, cells, k), fields[k], PruneTitlesAt(t, t[k], w[k]));
    assert fields[k := fields[k]] == fields && cells + Foot(fields[k]) == cells;
    next := cur[k := PruneTitlesAt(t, t[k], w[k])];
  }

  method TitlesAt(x: Item, shape: Shape, t: Table, ghost v: Value)
    requires Spells(x, v)
    modifies Foot(x)
    ensures Spells(x, PruneTitlesAt(t, shape, v)) && Foot(x) == old(Foot(x))
    decreases v, 6
  {
    match shape
    case Single => TitlesItem(x, t, v);
    case Named =>
      if x.At? && x.cell.body.Fields? {
        TitlesNamed(x.cell, t);
      }
    case Listed =>
      if x.At? && x.cell.body.Items? {
        TitlesListed(x.cell, t);
      }
    case Items =>
      if x.At? && x.cell.body.Items? {
        TitlesListed(x.cell, t);
      } else {
        TitlesItem(x, t, v);
      }
  }

  ghost predicate NamedTitling(t: Table, o: Object, cur: Object, todo: set<string>) {
    && cur.Keys == o.Keys
    && forall k :: k in o ==> (k in todo ==> cur[k] == o[k]) && (k !in todo ==> cur[k] == PruneTitles(t, o[k]))
  }

  lemma NamedTitlingDone(t: Table, o: Object, cur: Object)
    requires NamedTitling(t, o, cur, {})
    ensures Obj(cur) == PruneTitlesAt(t, Named, Obj(o))
  {
    assert cur == PruneTitlesAt(t, Named, Obj(o)).fields;
  }

  method TitlesNamed(c: Cell, t: Table)
    requires c.Valid() && c.body.Fields?
    modifies c.repr
    ensures c.Valid() && c.body.Fields? && c.val == PruneTitlesAt(t, Named, old(c.val)) && c.repr == old(c.repr)
    decreases c.val, 3
  {
    var fields := c.body.m;
    ghost var w := TitlesNamedEntries(fields, c.val.fields, c.repr - {c}, t);
    PutMap(c, fields, w, c.repr - {c});
  }

  method TitlesNamedEntries(fields: map<string, Item>, ghost o: Object, ghost cells: set<Cell>, t: Table) returns (ghost cur: Object)
    requires fields.Keys == o.Keys && MapTree(fields, o, cells)
    modifies cells
    ensures fields.Keys == cur.Keys && Obj(cur) == PruneTitlesAt(t, Named, Obj(o)) && MapTree(fields, cur, cells)
    decreases Obj(o), 2
  {
    cur := o;
    var todo := fields.Keys;
    while todo != {}
      invariant todo <= fields.Keys && fields.Keys == cur.Keys
      invariant NamedTitling(t, o, cur, todo) && MapTree(fields, cur, cells)
    {
      var k :| k in todo;
      cur := TitlesNamedEntry(fields, k, cur, cells, t, o, todo);
      todo := todo - {k};
    }
    NamedTitlingDone(t, o, cur);
  }

  method TitlesNamedEntry(fields: map<string, Item>, k: string, ghost cur: Object, ghost cells: set<Cell>, t: Table,
                          ghost o: Object, ghost todo: set<string>)
    returns (ghost next: Object)
    requires fields.Keys == cur.Keys && k in fields && MapTree(fields, cur, cells) && NamedTitling(t, o, cur, todo) && k in todo
    modifies cells
    ensures next.Keys == cur.Keys && NamedTitling(t, o, next, todo - {k}) && MapTree(fields, next, cells)
    decreases o[k], 7
  {
    assert Holds(fields[k], cur[k], cells);
    TitlesItem(fields[k], t, cur[k]);
    MapTreeSet(Entry(fields, cur, cells, k), fields[k], PruneTitles(t, cur[k]));
    assert fields[k := fields[k]] == fields && cells + Foot(fields[k]) == cells;
    next := cur[k := PruneTitles(t, cur[k])];
  }

  ghost function Titled(t: Table, a: seq<Value>, n: nat): (r: seq<Value>) {
    seq(|a|, i requires 0 <= i < |a| => if i < n then PruneTitles(t, a[i]) else a[i])
  }

  method TitlesListed(c: Cell, t: Table)
    requires c.Valid() && c.body.Items?
    modifies c.repr
    ensures c.Valid() && c.body.Items? && c.val == Arr(Titled(t, old(c.val.items), |old(c.val.items)|)) && c.repr == old(c.repr)
    decreases c.val, 3
  {
    var items := c.body.a;
    ghost var a, cells := c.val.items, c.repr - {c};
    ghost var cur := a;
    for i := 0 to |items|
      invariant |items| == |a| && cur == Titled(t, a, i) && ListTree(items, cur, cells)
      invariant c.body == Body.Items(items) && c.repr == cells + {c} && c !in cells
      modifies c.repr
    {
      TitlesElement(items, i, cur, cells, t);
      cur := cur[i := PruneTitles(t, cur[i])];
    }
    PutList(c, items, cur, cells);
  }

  method TitlesElement(items: seq<Item>, i: nat, ghost w: seq<Value>, ghost cells: set<Cell>, t: Table)
    requires i < |items| && ListTree(items, w, cells)
    modifies cells
    ensures ListTree(items, w[i := PruneTitles(t, w[i])], cells)
    decreases w[i], 7
  {
    assert Holds(items[i], w[i], cells);
    TitlesItem(items[i], t, w[i]);
    ListTreeSet(Element(items, w, cells, i), items[i], PruneTitles(t, w[i]));
    assert items[i := items[i]] == items && cells + Foot(items[i]) == cells;
  }

  // ---- pruneAdditionalProperties ----

  method AdditionalItem(x: Item, ghost w: Value)
    requires Spells(x, w)
    modifies Foot(x)
    ensures Spells(x, PruneAdditional(w)) && Foot(x) == old(Foot(x))
    decreases w, 3
  {
    if x.At? && x.cell.body.Fields? {
      AdditionalNode(x.cell, w.fields);
    }
  }

  ghost function DropClosed(m: Object): (r: Object) {
    if "additionalProperties" in m && m["additionalProperties"] == Bool(false) then m - {"additionalProperties"} else m
  }

  method AdditionalNode(c: Cell, ghost m: Object)
    requires c.Valid() && c.body.Fields? && c.val == Obj(m)
    modifies c.repr
    ensures c.Valid() && c.body.Fields? && c.val == PruneAdditional(Obj(m)) && c.repr == old(c.repr)
    decreases Obj(m), 2
  {
    if "additionalProperties" in c.body.m {
      assert Holds(c.body.m["additionalProperties"], m["additionalProperties"], c.repr - {c});
      if c.body.m["additionalProperties"] == Leaf(Bool(false)) {
        Delete(c, "additionalProperties");
      }
    }
    var fields := c.body.m;
    ghost var w := AdditionalEntries(fields, DropClosed(m), c.repr - {c}, m);
    PutMap(c, fields, w, c.repr - {c});
  }

  ghost predicate Opening(w: Object, cur: Object, todo: set<string>) {
    && cur.Keys == w.Keys
    && forall k :: k in w ==> (k in todo ==> cur[k] == w[k]) && (k !in todo ==> cur[k] == PruneAdditionalIn(w[k]))
  }

  lemma OpeningDone(m: Object, cur: Object)
    requires Opening(DropClosed(m), cur, {})
    ensures Obj(cur) == PruneAdditional(Obj(m))
  {
    assert cur == PruneAdditional(Obj(m)).fields;
  }

  method AdditionalEntries(fields: map<string, Item>, ghost w: Object, ghost cells: set<Cell>, ghost m: Object) returns (ghost cur: Object)
    requires fields.Keys == w.Keys && w == DropClosed(m) && MapTree(fields, w, cells)
    modifies cells
    ensures fields.Keys == cur.Keys && Obj(cur) == PruneAdditional(Obj(m)) && MapTree(fields, cur, cells)
    decreases Obj(m), 1
  {
    cur := w;
    var todo := fields.Keys;
    while todo != {}
      invariant todo <= fields.Keys && fields.Keys == cur.Keys
      invariant Opening(w, cur, todo) && MapTree(fields, cur, cells)
    {
      var k :| k in todo;
      assert w[k] == m[k];
      cur := AdditionalEntry(fields, k, cur, cells, w, todo);
      todo := todo - {k};
    }
    OpeningDone(m, cur);
  }

  method AdditionalEntry(fields: map<string, Item>, k: string, ghost cur: Object, ghost cells: set<Cell>, ghost w: Object, ghost todo: set<string>)
    returns (ghost next: Object)
    requires fields.Keys == cur.Keys && k in fields && MapTree(fields, cur, cells) && Opening(w, cur, todo) && k in todo
    modifies cells
    ensures next.Keys == cur.Keys && Opening(w, next, todo - {k}) && MapTree(fields, next, cells)
    decreases w[k], 6
  {
    assert Holds(fields[k], cur[k], cells);
    AdditionalIn(fields[k], cur[k]);
    MapTreeSet(Entry(fields, cur, cells, k), fields[k], PruneAdditionalIn(cur[k]));
    assert fields[k := fields[k]] == fields && cells + Foot(fields[k]) == cells;
    next := cur[k := PruneAdditionalIn(cur[k])];
  }

  method AdditionalIn(x: Item, ghost v: Value)
    requires Spells(x, v)
    modifies Foot(x)
    ensures Spells(x, PruneAdditionalIn(v)) && Foot(x) == old(Foot(x))
    decreases v, 5
  {
    if x.At? && x.cell.body.Items? {
      AdditionalListed(x.cell);
    } else {
      AdditionalItem(x, v);
    }
  }

  ghost function Opened(a: seq<Value>, n: nat): (r: seq<Value>) {
    seq(|a|, i requires 0 <= i < |a| => if i < n then PruneAdditional(a[i]) else a[i])
  }

  method AdditionalListed(c: Cell)
    requires c.Valid() && c.body.Items?
    modifies c.repr
    ensures c.Valid() && c.body.Items? && c.val == Arr(Opened(old(c.val.items), |old(c.val.items)|)) && c.repr == old(c.repr)
    decreases c.val, 3
  {
    var items := c.body.a;
    ghost var a, cells := c.val.items, c.repr - {c};
    ghost var cur := a;
    for i := 0 to |items|
      invariant |items| == |a| && cur == Opened(a, i) && ListTree(items, cur, cells)
      invariant c.body == Body.Items(items) && c.repr == cells + {c} && c !in cells
      modifies c.repr
    {
      AdditionalElement(items, i, cur, cells);
      cur := cur[i := PruneAdditional(cur[i])];
    }
    PutList(c, items, cur, cells);
  }

  method AdditionalElement(items: seq<Item>, i: nat, ghost w: seq<Value>, ghost cells: set<Cell>)
    requires i < |items| && ListTree(items, w, cells)
    modifies cells
    ensures ListTree(items, w[i := PruneAdditional(w[i])], cells)
    decreases w[i], 6
  {
    assert Holds(items[i], w[i], cells);
    AdditionalItem(items[i], w[i]);
    ListTreeSet(Element(items, w, cells, i), items[i], PruneAdditional(w[i]));
    assert items[i := items[i]] == items && cells + Foot(items[i]) == cells;
  }

  // ---- pruneUnusedDefs ----

  /** Deletes every definition outside the set. */
  method KeepOnly(d: Cell, names: set<string>)
    requires d.Valid() && d.body.Fields?
    modifies d
    ensures d.Valid() && d.body.Fields? && d.val == Obj(PruneDefs.Restrict(old(d.val.fields), names)) && d.repr == old(d.repr)
    ensures d.body.m == map[] <==> d.val.fields == map[]
  {
    ghost var w := d.val.fields;
    var todo := d.body.m.Keys;
    assert Keeping(w, d.val.fields, names, todo);
    while todo != {}
      invariant d.Valid() && d.body.Fields? && d.repr == old(d.repr)
      invariant Keeping(w, d.val.fields, names, todo)
      modifies d
    {
      var name :| name in todo;
      KeepingStep(w, d.val.fields, names, todo, name);
      todo := todo - {name};
      if name !in names {
        Delete(d, name);
      }
    }
    KeepingDone(w, d.val.fields, names);
    assert d.body.m.Keys == d.val.fields.Keys;
  }

  ghost predicate Keeping(w: Object, cur: Object, names: set<string>, todo: set<string>) {
    && (forall k :: k in cur <==> k in w && (k in todo || k in names))
    && (forall k :: k in cur ==> cur[k] == w[k])
  }

  lemma KeepingStep(w: Object, cur: Object, names: set<string>, todo: set<string>, name: string)
    requires Keeping(w, cur, names, todo) && name in todo
    ensures Keeping(w, if name in names then cur else cur - {name}, names, todo - {name})
  {
  }

  lemma KeepingDone(w: Object, cur: Object, names: set<string>)
    requires Keeping(w, cur, names, {})
    ensures cur == PruneDefs.Restrict(w, names)
  {
  }

  method PruneUnusedDefs(c: Cell)
    requires c.Valid() && c.body.Fields?
    modifies c.repr
    ensures c.Valid() && c.body.Fields? && c.val == Obj(PruneDefs.Pruned(old(c.val.fields))) && c.repr == old(c.repr)
  {
    ghost var w, cells := c.val.fields, c.repr - {c};
    var m := c.body.m;
    if "$defs" in m {
      assert Holds(m["$defs"], w["$defs"], cells);
      if m["$defs"].At? && m["$defs"].cell.body.Fields? {
        var empty := DropUnreachable(c, m["$defs"].cell);
        PrunedBy(w);
        if empty {
          Delete(c, "$defs");
        }
      }
    }
  }

  lemma PrunedBy(w: Object)
    requires "$defs" in w && w["$defs"].Obj?
    ensures var kept := w["$defs" := Obj(PruneDefs.Kept(w))];
      PruneDefs.Pruned(w) == if PruneDefs.Kept(w) == map[] then kept - {"$defs"} else kept
  {
    assert w["$defs" := Obj(PruneDefs.Kept(w))] - {"$defs"} == w - {"$defs"};
  }

  method DropUnreachable(c: Cell, d: Cell) returns (empty: bool)
    requires c.Valid() && c.body.Fields? && "$defs" in c.body.m && c.body.m["$defs"] == At(d) && d in c.repr && d.body.Fields?
    modifies c.repr
    ensures c.Valid() && c.body.Fields? && c.repr == old(c.repr)
    ensures c.val == Obj(old(c.val.fields)["$defs" := Obj(PruneDefs.Kept(old(c.val.fields)))])
    ensures empty <==> PruneDefs.Kept(old(c.val.fields)) == map[]
  {
    ghost var w, cells := c.val.fields, c.repr - {c};
    var m := c.body.m;
    assert Holds(m["$defs"], w["$defs"], cells);
    var reachable := Reachable(c);
    empty := KeepEntry(m, w, cells, reachable);
    PutMap(c, m, w["$defs" := Obj(PruneDefs.Kept(w))], cells);
  }

  method Reachable(c: Cell) returns (names: set<string>)
    requires c.Valid() && c.body.Fields?
    ensures PruneDefs.Restrict(PruneDefs.DefsOf(c.val.fields), names) == PruneDefs.Kept(c.val.fields)
  {
    ValidIsReadable(c);
    var doc := Deref.Read(At(c), c.val);
    names := PruneDefs.ReachableDefs(doc.fields, PruneDefs.DefsOf(doc.fields));
  }

  method KeepEntry(m: map<string, Item>, ghost w: Object, ghost cells: set<Cell>, names: set<string>) returns (empty: bool)
    requires m.Keys == w.Keys && MapTree(m, w, cells) && "$defs" in m && m["$defs"].At? && m["$defs"].cell in cells && m["$defs"].cell.body.Fields?
    modifies cells
    ensures w["$defs"].Obj?
    ensures MapTree(m, w["$defs" := Obj(PruneDefs.Restrict(w["$defs"].fields, names))], cells)
    ensures empty <==> PruneDefs.Restrict(w["$defs"].fields, names) == map[]
  {
    assert Holds(m["$defs"], w["$defs"], cells);
    var d := m["$defs"].cell;
    KeepOnly(d, names);
    empty := d.body.m == map[];
    MapTreeSet(Entry(m, w, cells, "$defs"), m["$defs"], Obj(PruneDefs.Restrict(w["$defs"].fields, names)));
    assert m["$defs" := m["$defs"]] == m && cells + Foot(m["$defs"]) == cells;
  }

  // ---- PruneParam ----

  function Filter(names: seq<string>, name: string): (r: seq<string>)
    ensures name !in r && forall x :: x in r <==> x in names && x != name
  {
    if names == [] then []
    else Filter(names[..|names| - 1], name) + if names[|names| - 1] == name then [] else [names[|names| - 1]]
  }

  function DropProperty(m: Object, name: string): (r: Object) {
    if "properties" in m && m["properties"].Obj? then m["properties" := Obj(m["properties"].fields - {name})] else m
  }

  function DropRequired(m: Object, name: string): (r: Object) {
    if "required" !in m then m
    else if Filter(RequiredOf(m), name) == [] then m - {"required"}
    else m["required" := Arr(Texts(Filter(RequiredOf(m), name)))]
  }

  function WithoutParam(m: Object, name: string): (r: Object) {
    DropRequired(DropProperty(m, name), name)
  }

  /** The parameter is neither declared nor required any more.  Other names stay declared as they were
      and required in their order; an emptied required list goes; no other key changes. */
  lemma ParamIsGone(m: Object, name: string)
    ensures var r := WithoutParam(m, name);
      && (forall k :: k != "properties" && k != "required" ==> SameAt(m, r, k))
      && ("properties" in r <==> "properties" in m)
      && ("properties" in m && !m["properties"].Obj? ==> r["properties"] == m["properties"])
      && ("properties" in m && m["properties"].Obj? ==>
            r["properties"].Obj? && forall x :: if x == name then x !in r["properties"].fields else SameAt(m["properties"].fields, r["properties"].fields, x))
      && RequiredOf(r) == Filter(RequiredOf(m), name)
      && ("required" in r <==> "required" in m && exists x :: x in RequiredOf(m) && x != name)
  {
    var kept := Filter(RequiredOf(m), name);
    TextsRead(kept);
    assert RequiredOf(DropProperty(m, name)) == RequiredOf(m);
    if kept != [] {
      assert kept[0] in kept;
    }
  }

  lemma FilterSnoc(names: seq<string>, x: string, name: string)
    ensures Filter(names + [x], name) == Filter(names, name) + if x == name then [] else [x]
  {
    assert (names + [x])[..|names|] == names;
  }

  lemma {:induction false} FilterKeeps(names: seq<string>, name: string)
    requires name !in names
    ensures Filter(names, name) == names
  {
    if names != [] {
      var n := |names| - 1;
      FilterKeeps(names[..n], name);
      assert names == names[..n] + [names[n]];
    }
  }

  method FilterNames(names: seq<string>, name: string) returns (kept: seq<string>)
    ensures kept == Filter(names, name)
  {
    kept := [];
    for i := 0 to |names|
      invariant kept == Filter(names[..i], name)
    {
      assert names[..i + 1][..i] == names[..i];
      if names[i] != name {
        kept := kept + [names[i]];
      }
    }
    assert names[..|names|] == names;
  }

  method DropPropertyIn(c: Cell, name: string)
    requires c.Valid() && c.body.Fields?
    modifies c.repr
    ensures c.Valid() && c.body.Fields? && c.val == Obj(DropProperty(old(c.val.fields), name)) && c.repr == old(c.repr)
  {
    ghost var w, cells := c.val.fields, c.repr - {c};
    var m := c.body.m;
    if "properties" in m {
      assert Holds(m["properties"], w["properties"], cells);
      if m["properties"].At? && m["properties"].cell.body.Fields? {
        Delete(m["properties"].cell, name);
        MapTreeSet(Entry(m, w, cells, "properties"), m["properties"], Obj(w["properties"].fields - {name}));
        assert m["properties" := m["properties"]] == m && cells + Foot(m["properties"]) == cells;
        PutMap(c, m, DropProperty(w, name), cells);
      }
    }
  }

  method DropRequiredIn(c: Cell, name: string)
    requires c.Valid() && c.body.Fields?
    modifies c
    ensures c.Valid() && c.body.Fields? && c.val == Obj(DropRequired(old(c.val.fields), name))
    ensures forall o :: o in c.repr ==> o in old(c.repr) || fresh(o)
  {
    ghost var w, cells := c.val.fields, c.repr - {c};
    if "required" in c.body.m {
      var names := RequiredIn(c.body.m, w, cells);
      var kept := FilterNames(names, name);
      if kept == [] {
        Delete(c, "required");
      } else {
        var l := NewTexts(kept);
        MapTreeOverlay(c.body.m, w, cells, "required", At(l), l.val);
        PutMap(c, c.body.m["required" := At(l)], w["required" := l.val], cells + Foot(At(l)));
      }
    }
  }

  method PruneParam(c: Cell, name: string) returns (r: Cell)
    requires c.Readable() && c.body.Fields?
    ensures fresh(r.repr) && r.Valid() && r.body.Fields? && r.val == Obj(WithoutParam(c.val.fields, name))
  {
    r := CloneMap(c);
    DropPropertyIn(r, name);
    DropRequiredIn(r, name);
  }

  // ---- CompressSchema ----

  datatype Options = Options(params: seq<string>, titles: bool, additional: bool, dereference: bool)

  function WithoutParams(m: Object, names: seq<string>): (r: Object)
  {
    if names == [] then m else WithoutParam(WithoutParams(m, names[..|names| - 1]), names[|names| - 1])
  }

  ghost function Compressed(m: Object, o: Options): (r: Object)
  {
    var a := if o.dereference then Deref.Dereferenced(m).fields else m;
    var b := WithoutParams(a, o.params);
    var c := if o.titles then PruneTitles(KEYWORDS, Obj(b)).fields else b;
    var d := if o.additional then PruneAdditional(Obj(c)).fields else c;
    PruneDefs.Pruned(d)
  }

  /** Whatever the input shares, the result is a fresh tree, and no cell that existed before is written. */
  method CompressSchema(c: Cell, o: Options) returns (r: Cell)
    requires c.Readable() && c.body.Fields?
    ensures fresh(r.repr) && r.Valid() && r.body.Fields? && r.val == Obj(Compressed(c.val.fields, o))
  {
    r := CloneMap(c);
    if o.dereference {
      ValidIsReadable(r);
      r := Deref.DereferenceRefs(r);
    }
    r := PruneParams(r, o.params);
    Finish(r, o);
  }

  method PruneParams(c: Cell, names: seq<string>) returns (r: Cell)
    requires c.Valid() && c.body.Fields?
    ensures r == c || fresh(r.repr)
    ensures r.Valid() && r.body.Fields? && r.val == Obj(WithoutParams(c.val.fields, names))
  {
    r := c;
    for i := 0 to |names|
      invariant r == c || fresh(r.repr)
      invariant r.Valid() && r.body.Fields? && r.val == Obj(WithoutParams(c.val.fields, names[..i]))
    {
      assert names[..i + 1][..i] == names[..i];
      ValidIsReadable(r);
      r := PruneParam(r, names[i]);
    }
    assert names[..|names|] == names;
  }

  method Finish(c: Cell, o: Options)
    requires c.Valid() && c.body.Fields?
    modifies c.repr
    ensures c.Valid() && c.body.Fields? && c.repr == old(c.repr)
    ensures var b := old(c.val.fields);
      var t := if o.titles then PruneTitles(KEYWORDS, Obj(b)).fields else b;
      var d := if o.additional then PruneAdditional(Obj(t)).fields else t;
      c.val == Obj(PruneDefs.Pruned(d))
  {
    if o.titles {
      TitlesNode(c, KEYWORDS, c.val.fields);
    }
    if o.additional {
      AdditionalNode(c, c.val.fields);
    }
    PruneUnusedDefs(c);
  }
}
