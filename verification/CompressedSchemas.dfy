/** What CompressSchema promises of its result, option by option (jsonschema/transform.go). */
module CompressedSchemas {
  import opened Wrappers
  import opened JsonValue
  import opened DefRefs
  import opened Validation
  import opened SchemaTransforms
  import opened SchemaPositions
  import opened Discriminator
  import opened CompressSchema
  import opened RemoteRefs
  import Deref = DereferenceRefs
  import PruneDefs

  // ---- Pruning definitions moves no schema ----

  lemma PrunedKey(d: Object, k: string)
    requires k != "$defs"
    ensures SameAt(d, PruneDefs.Pruned(d), k)
  {
  }

  lemma PrunedGo(d: Object, s: Step)
    requires SchemaStep(s)
    ensures Go(PruneDefs.Pruned(d), s).Some? ==> Go(PruneDefs.Pruned(d), s) == Go(d, s)
  {
    if s.key != "$defs" {
      PrunedKey(d, s.key);
    } else {
      PrunedDefs(d);
    }
  }

  lemma PrunedDefs(d: Object)
    ensures var r := PruneDefs.Pruned(d);
      && ("$defs" in r ==> "$defs" in d && (r["$defs"].Obj? <==> d["$defs"].Obj?))
      && ("$defs" in r && !r["$defs"].Obj? ==> r["$defs"] == d["$defs"])
      && ("$defs" in r && r["$defs"].Obj? ==>
            forall n :: n in r["$defs"].fields ==> n in d["$defs"].fields && r["$defs"].fields[n] == d["$defs"].fields[n])
  {
  }

  lemma {:induction false} PrunedReach(d: Object, path: seq<Step>)
    requires SchemaPath(path) && path != []
    ensures Reach(PruneDefs.Pruned(d), path).Some? ==> Reach(PruneDefs.Pruned(d), path) == Reach(d, path)
  {
    var n := |path| - 1;
    if n == 0 {
      PrunedGo(d, path[0]);
      assert path[..0] == [];
    } else {
      PrunedReach(d, path[..n]);
    }
  }

  /** What stands at a position before the definitions are pruned. */
  ghost function Unpruned(m: Object, o: Options): (r: Object) {
    var a := if o.dereference then Deref.Dereferenced(m).fields else m;
    var b := WithoutParams(a, o.params);
    var c := if o.titles then PruneTitles(KEYWORDS, Obj(b)).fields else b;
    if o.additional then PruneAdditional(Obj(c)).fields else c
  }

  lemma UnprunedMeets(m: Object, o: Options, path: seq<Step>)
    requires SchemaPath(path) && Reach(Unpruned(m, o), path).Some?
    ensures var r := Reach(Unpruned(m, o), path).value;
      && (o.titles ==> "title" !in r)
      && (o.additional ==> !("additionalProperties" in r && r["additionalProperties"] == Bool(false)))
  {
    var a := if o.dereference then Deref.Dereferenced(m).fields else m;
    var b := WithoutParams(a, o.params);
    var c := if o.titles then PruneTitles(KEYWORDS, Obj(b)).fields else b;
    if o.titles {
      TitlesAreGone(b, path);
    }
    if o.additional {
      ClosedAreOpened(c, path);
    }
  }

  /** With the options on, no schema of the result has a title, or is closed. */
  lemma CompressedMeets(m: Object, o: Options, path: seq<Step>)
    requires SchemaPath(path) && Reach(Compressed(m, o), path).Some?
    ensures var r := Reach(Compressed(m, o), path).value;
      && (o.titles ==> "title" !in r)
      && (o.additional ==> !("additionalProperties" in r && r["additionalProperties"] == Bool(false)))
  {
    var d := Unpruned(m, o);
    if path == [] {
      PrunedKey(d, "title");
      PrunedKey(d, "additionalProperties");
      assert Reach(d, path) == Some(d);
    } else {
      PrunedReach(d, path);
    }
    UnprunedMeets(m, o, path);
  }

  // ---- Parameters ----

  function Declared(m: Object): (r: set<string>) {
    Props(m).Keys
  }

  ghost predicate Gone(m: Object, name: string) {
    name !in Declared(m) && name !in RequiredOf(m)
  }

  lemma GoneStays(m: Object, last: string, name: string)
    requires name == last || Gone(m, name)
    ensures Gone(WithoutParam(m, last), name)
  {
    ParamIsGone(m, last);
    var r := WithoutParam(m, last);
    assert "properties" in m && m["properties"].Obj? && name != last ==> SameAt(m["properties"].fields, r["properties"].fields, name);
  }

  lemma {:induction false} ParamsAreGone(m: Object, names: seq<string>, name: string)
    requires name in names
    ensures Gone(WithoutParams(m, names), name)
  {
    var n := |names| - 1;
    if names[n] != name {
      ParamsAreGone(m, names[..n], name);
    }
    GoneStays(WithoutParams(m, names[..n]), names[n], name);
  }

  lemma TitlesKeepGone(m: Object, name: string)
    requires Gone(m, name)
    ensures Gone(Untitled(KEYWORDS, m), name)
  {
    KeywordSchemas();
    KeywordLiterals();
    TitlesKeepAt(KEYWORDS, m, "properties");
    TitlesKeepAt(KEYWORDS, m, "required");
  }

  lemma {:induction false} StringsOpened(a: seq<Value>)
    ensures StringsIn(PruneAdditionalIn(Arr(a)).items) == StringsIn(a)
  {
    if a != [] {
      var n := |a| - 1;
      StringsOpened(a[..n]);
      assert PruneAdditionalIn(Arr(a)).items[..n] == PruneAdditionalIn(Arr(a[..n])).items;
    }
  }

  lemma OpenedKeepsGone(m: Object, name: string)
    requires Gone(m, name)
    ensures Gone(Loosened(m), name)
  {
    AdditionalAt(m, "properties");
    AdditionalAt(m, "required");
    if "properties" in m && m["properties"].Obj? {
      OpenedAt(m["properties"].fields, name);
    }
    if "required" in m && m["required"].Arr? {
      StringsOpened(m["required"].items);
    }
  }

  /** No pruned parameter is declared or required by the result. */
  lemma CompressedLacks(m: Object, o: Options, name: string)
    requires name in o.params
    ensures Gone(Compressed(m, o), name)
  {
    var a := if o.dereference then Deref.Dereferenced(m).fields else m;
    var b := WithoutParams(a, o.params);
    ParamsAreGone(a, o.params, name);
    var c := if o.titles then Untitled(KEYWORDS, b) else b;
    if o.titles {
      TitlesKeepGone(b, name);
    }
    var d := if o.additional then Loosened(c) else c;
    if o.additional {
      OpenedKeepsGone(c, name);
    }
    PrunedKey(d, "properties");
    PrunedKey(d, "required");
  }

  // ---- Verdicts ----

  /** Without parameters, opening and dereferencing, the result accepts exactly what the input does. */
  lemma CompressedKeepsVerdict(m: Object, o: Options, v: Value, re: Matcher)
    requires o.params == [] && !o.additional && !o.dereference
    ensures Sat(Obj(Compressed(m, o)), v, re) <==> Sat(Obj(m), v, re)
  {
    if o.titles {
      CompressKeepsVerdict(m, v, re);
    } else {
      PruningKeepsVerdict(m, re);
      assert SameVerdict(Obj(m), Obj(PruneDefs.Pruned(m)), re);
    }
  }

  // ---- Definitions and references ----

  /** Always: every definition that is left can be reached, and compressing away definitions again changes
      nothing. */
  lemma CompressedKeepsOnlyReached(m: Object, o: Options)
    ensures var r := Compressed(m, o);
      && PruneDefs.DefsOf(r).Keys <= Closure(PruneDefs.DefsOf(r), PruneDefs.SeedRefs(r))
      && PruneDefs.Pruned(r) == r
  {
    PruneDefs.PruningIsFinal(Unpruned(m, o));
  }

  lemma {:induction false} TitlesKeepLocal(t: Table, s: Value)
    requires "$ref" !in t && Local(s)
    ensures Local(PruneTitles(t, s))
    decreases s, 1
  {
    if s.Obj? {
      var m, r := s.fields, PruneTitles(t, s).fields;
      forall k | k in r
        ensures Local(r[k])
      {
        if k in t {
          TitlesAtKeepLocal(t, t[k], m[k]);
        }
      }
      assert LocalNode(m) && LocalNode(r);
    }
  }

  lemma {:induction false} TitlesAtKeepLocal(t: Table, shape: Shape, v: Value)
    requires "$ref" !in t && Local(v)
    ensures Local(PruneTitlesAt(t, shape, v))
    decreases v, 2
  {
    match (shape, v)
    case (Single, _) => TitlesKeepLocal(t, v);
    case (Named, Obj(o)) =>
      forall k | k in o { TitlesKeepLocal(t, o[k]); }
      assert "$ref" in o ==> PruneTitlesAt(t, Named, v).fields["$ref"] == PruneTitles(t, o["$ref"]);
      assert LocalNode(o) && LocalNode(PruneTitlesAt(t, Named, v).fields);
    case (Listed, Arr(a)) => forall i | 0 <= i < |a| { TitlesKeepLocal(t, a[i]); }
    case (Items, Obj(_)) => TitlesKeepLocal(t, v);
    case (Items, Arr(a)) => forall i | 0 <= i < |a| { TitlesKeepLocal(t, a[i]); }
    case _ =>
  }

  lemma {:induction false} AdditionalKeepsLocal(j: Value)
    requires Local(j)
    ensures Local(PruneAdditional(j)) && Local(PruneAdditionalIn(j))
  {
    match j
    case Obj(m) =>
      var r := PruneAdditional(j).fields;
      forall k | k in m { AdditionalKeepsLocal(m[k]); }
      forall k | k in r
        ensures Local(r[k])
      {
        OpenedAt(m, k);
      }
      OpenedAt(m, "$ref");
      assert LocalNode(m) && LocalNode(r);
    case Arr(a) => forall i | 0 <= i < |a| { AdditionalKeepsLocal(a[i]); }
    case _ =>
  }

  lemma ParamKeepsLocal(m: Object, name: string)
    requires Local(Obj(m))
    ensures Local(Obj(WithoutParam(m, name)))
  {
    var d := DropProperty(m, name);
    assert Local(Obj(d)) by {
      assert LocalNode(m) && LocalNode(d);
      if "properties" in m && m["properties"].Obj? {
        assert LocalNode(m["properties"].fields);
        assert Local(Obj(m["properties"].fields - {name}));
      }
    }
    var r := WithoutParam(m, name);
    assert LocalNode(d) && LocalNode(r);
    assert Local(Arr(Texts(Filter(RequiredOf(d), name))));
  }

  lemma {:induction false} ParamsKeepLocal(m: Object, names: seq<string>)
    requires Local(Obj(m))
    ensures Local(Obj(WithoutParams(m, names)))
  {
    if names != [] {
      ParamsKeepLocal(m, names[..|names| - 1]);
      ParamKeepsLocal(WithoutParams(m, names[..|names| - 1]), names[|names| - 1]);
    }
  }

  lemma PrunedKeepsLocal(d: Object)
    requires Local(Obj(d))
    ensures Local(Obj(PruneDefs.Pruned(d)))
  {
    var r := PruneDefs.Pruned(d);
    PrunedKey(d, "$ref");
    PrunedDefs(d);
    assert LocalNode(d) && LocalNode(r);
    forall k | k in r
      ensures Local(r[k])
    {
      if k != "$defs" {
        PrunedKey(d, k);
      } else if r[k].Obj? {
        assert Local(d[k]) && LocalNode(d[k].fields) && LocalNode(r[k].fields);
      }
    }
  }

  /** Dereferencing leaves no reference out of the document, whatever else is asked for. */
  lemma CompressedIsLocal(m: Object, o: Options)
    requires o.dereference
    ensures Local(Obj(Compressed(m, o)))
  {
    var a := Deref.Dereferenced(m).fields;
    DereferencedIsLocal(m);
    ParamsKeepLocal(a, o.params);
    var b := WithoutParams(a, o.params);
    Deref.KeywordsLackRef();
    TitlesKeepLocal(KEYWORDS, Obj(b));
    var c := if o.titles then PruneTitles(KEYWORDS, Obj(b)).fields else b;
    AdditionalKeepsLocal(Obj(c));
    PrunedKeepsLocal(Unpruned(m, o));
  }
}
