/** applyDiscriminator (jsonschema/refs.go): what it does to a document, as a value. */
module Discriminator {
  import opened Wrappers
  import opened JsonValue
  import opened SchemaTransforms

  /** asStrings: the strings of a list, in order. */
  function StringsIn(a: seq<Value>): (r: seq<string>)
  {
    if a == [] then []
    else StringsIn(a[..|a| - 1]) + if a[|a| - 1].Str? then [a[|a| - 1].s] else []
  }

  function RequiredOf(m: Object): (r: seq<string>) {
    if "required" in m && m["required"].Arr? then StringsIn(m["required"].items) else []
  }

  function Texts(names: seq<string>): (r: seq<Value>) {
    seq(|names|, i requires 0 <= i < |names| => Str(names[i]))
  }

  function AddRequired(m: Object, name: string): (r: Object) {
    if name in RequiredOf(m) then m else m["required" := Arr(Texts(RequiredOf(m) + [name]))]
  }

  function Added(m: Object, add: Option<string>): (r: Object) {
    if add.Some? then AddRequired(m, add.value) else m
  }

  /** The property a node's discriminator names. */
  function DiscName(m: Object): (r: Option<string>) {
    if "discriminator" in m && m["discriminator"].Obj? && "propertyName" in m["discriminator"].fields
       && m["discriminator"].fields["propertyName"].Str? && m["discriminator"].fields["propertyName"].s != ""
    then Some(m["discriminator"].fields["propertyName"].s) else None
  }

  function DropDisc(m: Object): (r: Object) {
    if "discriminator" in m && m["discriminator"].Obj? then m - {"discriminator"} else m
  }

  predicate VariantKey(k: string) {
    k == "anyOf" || k == "oneOf" || k == "allOf"
  }

  /** What the variants under a key are to require. */
  function Demand(m: Object, k: string): (r: Option<string>) {
    if VariantKey(k) then DiscName(m) else None
  }

  /** The document after the walk; add is what the parent asks of this node. */
  function Disc(t: Table, s: Value, add: Option<string>): (r: Value)
    ensures s.Obj? <==> r.Obj?
    ensures !s.Obj? ==> r == s
    decreases s, 1
  {
    match s
    case Obj(m) =>
      Obj(Added(map k | k in DropDisc(m) :: if k in t then DiscAt(t, t[k], m[k], Demand(m, k)) else m[k], add))
    case _ => s
  }

  function DiscAt(t: Table, shape: Shape, v: Value, add: Option<string>): (r: Value)
    decreases v, 2
  {
    match (shape, v)
    case (Single, _) => Disc(t, v, None)
    case (Named, Obj(o)) => Obj(map k | k in o :: Disc(t, o[k], None))
    case (Listed, Arr(a)) => Arr(seq(|a|, i requires 0 <= i < |a| => Disc(t, a[i], add)))
    case (Items, Obj(_)) => Disc(t, v, None)
    case (Items, Arr(a)) => Arr(seq(|a|, i requires 0 <= i < |a| => Disc(t, a[i], None)))
    case _ => v
  }

  ghost function WalkedFields(t: Table, m: Object): (r: Object) {
    map k | k in DropDisc(m) :: if k in t then DiscAt(t, t[k], m[k], Demand(m, k)) else m[k]
  }

  lemma DiscWalked(t: Table, m: Object, add: Option<string>)
    ensures Disc(t, Obj(m), add) == Obj(Added(WalkedFields(t, m), add))
  {
  }

  // ---- What the walk leaves, and what it leaves alone ----

  predicate Plain(t: Table) {
    "required" !in t && "discriminator" !in t
  }

  /** The document with required lists and discriminators taken out of every schema. */
  function Erase(t: Table, s: Value): (r: Value)
    ensures s.Obj? <==> r.Obj?
    decreases s, 1
  {
    match s
    case Obj(m) =>
      Obj(map k | k in DropDisc(m) && k != "required" :: if k in t then EraseAt(t, t[k], m[k]) else m[k])
    case _ => s
  }

  function EraseAt(t: Table, shape: Shape, v: Value): (r: Value)
    decreases v, 2
  {
    match (shape, v)
    case (Single, _) => Erase(t, v)
    case (Named, Obj(o)) => Obj(map k | k in o :: Erase(t, o[k]))
    case (Listed, Arr(a)) => Arr(seq(|a|, i requires 0 <= i < |a| => Erase(t, a[i])))
    case (Items, Obj(_)) => Erase(t, v)
    case (Items, Arr(a)) => Arr(seq(|a|, i requires 0 <= i < |a| => Erase(t, a[i])))
    case _ => v
  }

  /** Nothing but required lists and discriminators changes anywhere. */
  lemma {:induction false} OnlyRequiredChanges(t: Table, s: Value, add: Option<string>)
    requires Plain(t)
    ensures Erase(t, Disc(t, s, add)) == Erase(t, s)
    decreases s, 1
  {
    if s.Obj? {
      var m := s.fields;
      forall k | k in DropDisc(m) && k in t
        ensures EraseAt(t, t[k], DiscAt(t, t[k], m[k], Demand(m, k))) == EraseAt(t, t[k], m[k])
      {
        OnlyRequiredChangesAt(t, t[k], m[k], Demand(m, k));
      }
      SameErased(t, m, add);
    }
  }

  lemma SameErased(t: Table, m: Object, add: Option<string>)
    requires Plain(t)
    requires forall k :: k in DropDisc(m) && k in t ==> EraseAt(t, t[k], DiscAt(t, t[k], m[k], Demand(m, k))) == EraseAt(t, t[k], m[k])
    ensures Erase(t, Disc(t, Obj(m), add)) == Erase(t, Obj(m))
  {
    var l, r := Erase(t, Disc(t, Obj(m), add)).fields, Erase(t, Obj(m)).fields;
    assert l.Keys == r.Keys;
    assert l == r;
  }

  lemma {:induction false} OnlyRequiredChangesAt(t: Table, shape: Shape, v: Value, add: Option<string>)
    requires Plain(t)
    ensures EraseAt(t, shape, DiscAt(t, shape, v, add)) == EraseAt(t, shape, v)
    decreases v, 2
  {
    match (shape, v)
    case (Single, _) => OnlyRequiredChanges(t, v, None);
    case (Named, Obj(o)) =>
      forall k | k in o
        ensures Erase(t, Disc(t, o[k], None)) == Erase(t, o[k])
      {
        OnlyRequiredChanges(t, o[k], None);
      }
      SameNamed(t, o);
    case (Listed, Arr(a)) =>
      forall i | 0 <= i < |a|
        ensures Erase(t, Disc(t, a[i], add)) == Erase(t, a[i])
      {
        OnlyRequiredChanges(t, a[i], add);
      }
      SameListed(t, a, add);
    case (Items, Obj(_)) => OnlyRequiredChanges(t, v, None);
    case (Items, Arr(a)) =>
      forall i | 0 <= i < |a|
        ensures Erase(t, Disc(t, a[i], None)) == Erase(t, a[i])
      {
        OnlyRequiredChanges(t, a[i], None);
      }
      SameListed(t, a, None);
    case _ =>
  }

  lemma SameNamed(t: Table, o: Object)
    requires forall k :: k in o ==> Erase(t, Disc(t, o[k], None)) == Erase(t, o[k])
    ensures EraseAt(t, Named, DiscAt(t, Named, Obj(o), None)) == EraseAt(t, Named, Obj(o))
    ensures forall add :: DiscAt(t, Named, Obj(o), add) == DiscAt(t, Named, Obj(o), None)
  {
    var l, r := EraseAt(t, Named, DiscAt(t, Named, Obj(o), None)).fields, EraseAt(t, Named, Obj(o)).fields;
    assert l.Keys == r.Keys;
    assert l == r;
  }

  lemma SameListed(t: Table, a: seq<Value>, add: Option<string>)
    requires forall i :: 0 <= i < |a| ==> Erase(t, Disc(t, a[i], add)) == Erase(t, a[i])
    ensures EraseAt(t, Listed, DiscAt(t, Listed, Arr(a), add)) == EraseAt(t, Listed, Arr(a))
    ensures add == None ==> EraseAt(t, Items, DiscAt(t, Items, Arr(a), None)) == EraseAt(t, Items, Arr(a))
    ensures forall other :: DiscAt(t, Items, Arr(a), other) == DiscAt(t, Items, Arr(a), None)
  {
  }

  /** No schema carries a discriminator object any more. */
  ghost predicate NoDisc(t: Table, s: Value)
    decreases s, 1
  {
    s.Obj? ==> DropDisc(s.fields) == s.fields && forall k :: k in s.fields && k in t ==> NoDiscAt(t, t[k], s.fields[k])
  }

  ghost predicate NoDiscAt(t: Table, shape: Shape, v: Value)
    decreases v, 2
  {
    match (shape, v)
    case (Single, _) => NoDisc(t, v)
    case (Named, Obj(o)) => forall k :: k in o ==> NoDisc(t, o[k])
    case (Listed, Arr(a)) => forall i :: 0 <= i < |a| ==> NoDisc(t, a[i])
    case (Items, Obj(_)) => NoDisc(t, v)
    case (Items, Arr(a)) => forall i :: 0 <= i < |a| ==> NoDisc(t, a[i])
    case _ => true
  }

  lemma {:induction false} DiscsAreGone(t: Table, s: Value, add: Option<string>)
    requires Plain(t)
    ensures NoDisc(t, Disc(t, s, add))
    decreases s, 1
  {
    if s.Obj? {
      var m, r := s.fields, Disc(t, s, add).fields;
      forall k | k in r && k in t
        ensures NoDiscAt(t, t[k], r[k])
      {
        DiscsAreGoneAt(t, t[k], m[k], Demand(m, k));
      }
    }
  }

  lemma {:induction false} DiscsAreGoneAt(t: Table, shape: Shape, v: Value, add: Option<string>)
    requires Plain(t)
    ensures NoDiscAt(t, shape, DiscAt(t, shape, v, add))
    decreases v, 2
  {
    match (shape, v)
    case (Single, _) => DiscsAreGone(t, v, None);
    case (Named, Obj(o)) => forall k | k in o { DiscsAreGone(t, o[k], None); }
    case (Listed, Arr(a)) => forall i | 0 <= i < |a| { DiscsAreGone(t, a[i], add); }
    case (Items, Obj(_)) => DiscsAreGone(t, v, None);
    case (Items, Arr(a)) => forall i | 0 <= i < |a| { DiscsAreGone(t, a[i], None); }
    case _ =>
  }

  lemma {:induction false} TextsRead(names: seq<string>)
    ensures StringsIn(Texts(names)) == names
  {
    if names != [] {
      var n := |names| - 1;
      TextsRead(names[..n]);
      var a := Texts(names);
      assert a[..n] == Texts(names[..n]) && a[n] == Str(names[n]);
      assert StringsIn(a) == StringsIn(a[..n]) + [names[n]];
      assert names == names[..n] + [names[n]];
    }
  }

  lemma AddedReads(m: Object, name: string)
    ensures RequiredOf(AddRequired(m, name)) == if name in RequiredOf(m) then RequiredOf(m) else RequiredOf(m) + [name]
  {
    TextsRead(RequiredOf(m) + [name]);
  }

  /** Each variant of a discriminated union requires the property, after what it required before. */
  lemma VariantsRequire(t: Table, m: Object, add: Option<string>, k: string, i: nat)
    requires Plain(t) && k in t && t[k] == Listed && VariantKey(k) && DiscName(m).Some?
    requires k in m && m[k].Arr? && i < |m[k].items| && m[k].items[i].Obj?
    ensures var r, was, name := Disc(t, Obj(m), add).fields, RequiredOf(m[k].items[i].fields), DiscName(m).value;
      && k in r && r[k].Arr? && |r[k].items| == |m[k].items| && r[k].items[i].Obj?
      && RequiredOf(r[k].items[i].fields) == if name in was then was else was + [name]
  {
    var v, name := m[k].items[i].fields, DiscName(m).value;
    AskedToRequire(t, v, name);
    var r := Disc(t, Obj(m), add).fields;
    assert r[k] == DiscAt(t, Listed, m[k], Some(name));
    assert r[k].items[i] == Disc(t, Obj(v), Some(name));
  }

  lemma AskedToRequire(t: Table, m: Object, name: string)
    requires Plain(t)
    ensures var was := RequiredOf(m);
      RequiredOf(Disc(t, Obj(m), Some(name)).fields) == if name in was then was else was + [name]
  {
    var walked := Disc(t, Obj(m), None).fields;
    assert RequiredOf(walked) == RequiredOf(m);
    assert Disc(t, Obj(m), Some(name)) == Obj(AddRequired(walked, name));
    AddedReads(walked, name);
  }

  /** asStrings keeps the strings of a list, wherever they stand, and nothing else. */
  lemma {:induction false} StringsAppend(a: seq<Value>, b: seq<Value>)
    ensures StringsIn(a + b) == StringsIn(a) + StringsIn(b)
  {
    if b == [] {
      assert a + b == a;
    } else {
      var n := |b| - 1;
      StringsAppend(a, b[..n]);
      assert (a + b)[..|a| + n] == a + b[..n];
    }
  }

  lemma StringsOne(v: Value)
    ensures StringsIn([v]) == if v.Str? then [v.s] else []
  {
    assert [v][..0] == [];
  }
}
