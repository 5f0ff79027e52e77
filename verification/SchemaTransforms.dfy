/** What the in-place rewrites of jsonschema/transform.go and jsonschema/refs.go compute, and what
    they do to the values a schema accepts. */
module SchemaTransforms {
  import opened JsonValue
  import opened Validation
  import PruneDefs

  // ---- Keywords whose values are schemas ----

  datatype Shape = Single | Named | Listed | Items

  /** The keyword tables: how the value of a schema-bearing keyword holds its schemas. */
  type Table = map<string, Shape>

  const KEYWORDS: Table := map[
    "not" := Single, "if" := Single, "then" := Single, "else" := Single,
    "additionalItems" := Single, "contentSchema" := Single, "propertyNames" := Single,
    "unevaluatedItems" := Single, "unevaluatedProperties" := Single, "additionalProperties" := Single,
    "properties" := Named, "patternProperties" := Named, "$defs" := Named,
    "definitions" := Named, "dependentSchemas" := Named, "dependencies" := Named,
    "allOf" := Listed, "anyOf" := Listed, "oneOf" := Listed, "prefixItems" := Listed,
    "items" := Items]

  // ---- pruneTitles ----

  function PruneTitles(t: Table, s: Value): (r: Value)
    ensures s.Obj? <==> r.Obj?
    ensures !s.Obj? ==> r == s
    decreases s, 1
  {
    match s
    case Obj(m) => Obj(map k | k in m && k != "title" :: if k in t then PruneTitlesAt(t, t[k], m[k]) else m[k])
    case _ => s
  }

  function PruneTitlesAt(t: Table, shape: Shape, v: Value): (r: Value)
    decreases v, 2
  {
    match (shape, v)
    case (Single, _) => PruneTitles(t, v)
    case (Named, Obj(m)) => Obj(map k | k in m :: PruneTitles(t, m[k]))
    case (Listed, Arr(a)) => Arr(seq(|a|, i requires 0 <= i < |a| => PruneTitles(t, a[i])))
    case (Items, Obj(_)) => PruneTitles(t, v)
    case (Items, Arr(a)) => Arr(seq(|a|, i requires 0 <= i < |a| => PruneTitles(t, a[i])))
    case _ => v
  }

  // ---- Schemas that agree on everything the validator reads ----

  ghost predicate SameAt(m: Object, n: Object, key: string) {
    (key in m <==> key in n) && (key in m ==> m[key] == n[key])
  }

  /** The keywords the validator reads literally. */
  ghost predicate SameLiterals(m: Object, n: Object) {
    && SameAt(m, n, "const") && SameAt(m, n, "enum") && SameAt(m, n, "type") && SameAt(m, n, "required")
    && SameAt(m, n, "minItems") && SameAt(m, n, "maxItems") && SameAt(m, n, "uniqueItems")
    && SameAt(m, n, "minLength") && SameAt(m, n, "maxLength") && SameAt(m, n, "pattern")
    && SameAt(m, n, "minimum") && SameAt(m, n, "maximum")
    && SameAt(m, n, "exclusiveMinimum") && SameAt(m, n, "exclusiveMaximum") && SameAt(m, n, "multipleOf")
  }

  ghost predicate SameVerdict(x: Value, y: Value, re: Matcher) {
    (x.Obj? <==> y.Obj?) && (x.Obj? ==> forall v :: Sat(x, v, re) <==> Sat(y, v, re))
  }

  ghost predicate SameLists(m: Object, n: Object, key: string, re: Matcher) {
    var xs, ys := SchemasAt(m, key), SchemasAt(n, key);
    && (key in m <==> key in n)
    && |xs| == |ys|
    && forall i :: 0 <= i < |xs| ==> SameVerdict(xs[i], ys[i], re)
  }

  ghost predicate SameProps(m: Object, n: Object, re: Matcher) {
    Props(m).Keys == Props(n).Keys && forall k :: k in Props(m) ==> SameVerdict(Props(m)[k], Props(n)[k], re)
  }

  function IsFalseAt(m: Object, key: string): (r: bool) {
    key in m && m[key] == Bool(false)
  }

  ghost predicate SameItems(m: Object, n: Object, re: Matcher) {
    && ("items" in m && m["items"].Obj? <==> "items" in n && n["items"].Obj?)
    && ("items" in m && m["items"].Obj? ==> SameVerdict(m["items"], n["items"], re))
  }

  ghost predicate Agree(m: Object, n: Object, re: Matcher) {
    && SameLiterals(m, n)
    && SameLists(m, n, "allOf", re) && SameLists(m, n, "anyOf", re) && SameLists(m, n, "oneOf", re)
    && SameProps(m, n, re)
    && IsFalseAt(m, "additionalProperties") == IsFalseAt(n, "additionalProperties")
    && SameItems(m, n, re)
  }

  lemma AgreeAllOf(m: Object, n: Object, v: Value, re: Matcher)
    requires SameLists(m, n, "allOf", re)
    ensures SatAllOf(Obj(m), v, re) <==> SatAllOf(Obj(n), v, re)
  {
  }

  lemma AgreeAnyOf(m: Object, n: Object, v: Value, re: Matcher)
    requires SameLists(m, n, "anyOf", re)
    ensures SatAnyOf(Obj(m), v, re) <==> SatAnyOf(Obj(n), v, re)
  {
  }

  lemma AgreeOneOf(m: Object, n: Object, v: Value, re: Matcher)
    requires SameLists(m, n, "oneOf", re)
    ensures SatOneOf(Obj(m), v, re) <==> SatOneOf(Obj(n), v, re)
  {
    forall i
      ensures i in Hits(Obj(m), "oneOf", v, re) <==> i in Hits(Obj(n), "oneOf", v, re)
    {
    }
  }

  lemma AgreeLiterals(m: Object, n: Object, v: Value, re: Matcher)
    requires SameLiterals(m, n)
    ensures SatLiterals(m, v, re) <==> SatLiterals(n, v, re)
  {
  }

  lemma AgreeObject(m: Object, n: Object, v: Value, re: Matcher)
    requires v.Obj? && SameAt(m, n, "required") && SameProps(m, n, re)
    requires IsFalseAt(m, "additionalProperties") == IsFalseAt(n, "additionalProperties")
    ensures SatObject(Obj(m), v, re) <==> SatObject(Obj(n), v, re)
  {
  }

  lemma AgreeArray(m: Object, n: Object, v: Value, re: Matcher)
    requires v.Arr? && SameLiterals(m, n) && SameItems(m, n, re)
    ensures SatArray(Obj(m), v, re) <==> SatArray(Obj(n), v, re)
  {
  }

  lemma AgreeAt(m: Object, n: Object, v: Value, re: Matcher)
    requires Agree(m, n, re)
    ensures Sat(Obj(m), v, re) <==> Sat(Obj(n), v, re)
  {
    AgreeAllOf(m, n, v, re);
    AgreeAnyOf(m, n, v, re);
    AgreeOneOf(m, n, v, re);
    AgreeLiterals(m, n, v, re);
    if v.Obj? { AgreeObject(m, n, v, re); }
    if v.Arr? { AgreeArray(m, n, v, re); }
  }

  lemma AgreeIsSameVerdict(m: Object, n: Object, re: Matcher)
    requires Agree(m, n, re)
    ensures SameVerdict(Obj(m), Obj(n), re)
  {
    forall v { AgreeAt(m, n, v, re); }
  }

  // ---- Titles and definitions do not count ----

  /** What the validator relies on in a keyword table. */
  ghost predicate Standard(t: Table) {
    StandardSchemas(t) && StandardLiterals(t) && StandardBounds(t)
  }

  ghost predicate StandardSchemas(t: Table) {
    && "allOf" in t && t["allOf"] == Listed && "anyOf" in t && t["anyOf"] == Listed
    && "oneOf" in t && t["oneOf"] == Listed && "properties" in t && t["properties"] == Named
    && "items" in t && t["items"] == Items
    && "additionalProperties" in t && t["additionalProperties"] == Single
  }

  ghost predicate StandardLiterals(t: Table) {
    && "const" !in t && "enum" !in t && "type" !in t && "required" !in t
    && "minItems" !in t && "maxItems" !in t && "uniqueItems" !in t
  }

  ghost predicate StandardBounds(t: Table) {
    && "minLength" !in t && "maxLength" !in t && "pattern" !in t
    && "minimum" !in t && "maximum" !in t
    && "exclusiveMinimum" !in t && "exclusiveMaximum" !in t && "multipleOf" !in t
  }

  lemma KeywordsAreStandard()
    ensures Standard(KEYWORDS)
  {
    KeywordSchemas();
    KeywordLiterals();
    KeywordBounds();
  }

  lemma KeywordSchemas()
    ensures StandardSchemas(KEYWORDS)
  {
  }

  lemma KeywordLiterals()
    ensures StandardLiterals(KEYWORDS)
  {
  }

  lemma KeywordBounds()
    ensures StandardBounds(KEYWORDS)
  {
  }

  lemma TitlesKeepAt(t: Table, m: Object, key: string)
    requires key != "title"
    ensures var n := PruneTitles(t, Obj(m)).fields;
            && (key in n <==> key in m)
            && (key in m && key !in t ==> n[key] == m[key])
            && (key in m && key in t ==> n[key] == PruneTitlesAt(t, t[key], m[key]))
  {
  }

  /** Stripping titles changes no verdict. */
  lemma {:induction false} PruneTitlesKeepsVerdict(t: Table, s: Value, re: Matcher)
    requires Standard(t)
    ensures SameVerdict(s, PruneTitles(t, s), re)
    decreases s, 2
  {
    if s.Obj? {
      var m, n := s.fields, PruneTitles(t, s).fields;
      TitlesKeepLiterals(t, m);
      TitlesKeepList(t, s, "allOf", re);
      TitlesKeepList(t, s, "anyOf", re);
      TitlesKeepList(t, s, "oneOf", re);
      TitlesKeepProps(t, s, re);
      TitlesKeepItems(t, s, re);
      TitlesKeepAt(t, m, "additionalProperties");
      AgreeIsSameVerdict(m, n, re);
    }
  }

  lemma TitlesKeepLiterals(t: Table, m: Object)
    requires Standard(t)
    ensures SameLiterals(m, PruneTitles(t, Obj(m)).fields)
  {
    TitlesKeepAt(t, m, "const");
    TitlesKeepAt(t, m, "enum");
    TitlesKeepAt(t, m, "type");
    TitlesKeepAt(t, m, "required");
    TitlesKeepAt(t, m, "minItems");
    TitlesKeepAt(t, m, "maxItems");
    TitlesKeepAt(t, m, "uniqueItems");
    TitlesKeepAt(t, m, "minLength");
    TitlesKeepAt(t, m, "maxLength");
    TitlesKeepAt(t, m, "pattern");
    TitlesKeepAt(t, m, "minimum");
    TitlesKeepAt(t, m, "maximum");
    TitlesKeepAt(t, m, "exclusiveMinimum");
    TitlesKeepAt(t, m, "exclusiveMaximum");
    TitlesKeepAt(t, m, "multipleOf");
  }

  lemma {:induction false} TitlesKeepList(t: Table, s: Value, key: string, re: Matcher)
    requires s.Obj? && Standard(t) && key != "title" && key in t && t[key] == Listed
    ensures SameLists(s.fields, PruneTitles(t, s).fields, key, re)
    decreases s, 1
  {
    TitlesKeepAt(t, s.fields, key);
    var xs := SchemasAt(s.fields, key);
    forall i | 0 <= i < |xs|
      ensures SameVerdict(xs[i], PruneTitles(t, xs[i]), re)
    {
      PruneTitlesKeepsVerdict(t, xs[i], re);
    }
  }

  lemma {:induction false} TitlesKeepProps(t: Table, s: Value, re: Matcher)
    requires s.Obj? && Standard(t)
    ensures SameProps(s.fields, PruneTitles(t, s).fields, re)
    decreases s, 1
  {
    TitlesKeepAt(t, s.fields, "properties");
    var xs := Props(s.fields);
    forall k | k in xs
      ensures SameVerdict(xs[k], PruneTitles(t, xs[k]), re)
    {
      assert xs[k] < s.fields["properties"] && s.fields["properties"] < s;
      PruneTitlesKeepsVerdict(t, xs[k], re);
    }
  }

  lemma {:induction false} TitlesKeepItems(t: Table, s: Value, re: Matcher)
    requires s.Obj? && Standard(t)
    ensures SameItems(s.fields, PruneTitles(t, s).fields, re)
    decreases s, 1
  {
    TitlesKeepAt(t, s.fields, "items");
    if "items" in s.fields && s.fields["items"].Obj? {
      PruneTitlesKeepsVerdict(t, s.fields["items"], re);
    }
  }

  /** Stripping titles and pruning definitions, as CompressSchema does, changes no verdict. */
  lemma CompressKeepsVerdict(doc: Object, v: Value, re: Matcher)
    ensures Sat(Obj(PruneDefs.Pruned(PruneTitles(KEYWORDS, Obj(doc)).fields)), v, re) <==> Sat(Obj(doc), v, re)
  {
    var n := PruneTitles(KEYWORDS, Obj(doc)).fields;
    KeywordsAreStandard();
    PruneTitlesKeepsVerdict(KEYWORDS, Obj(doc), re);
    PruningKeepsVerdict(n, re);
  }

  lemma PruningKeepsVerdict(doc: Object, re: Matcher)
    ensures SameVerdict(Obj(doc), Obj(PruneDefs.Pruned(doc)), re)
  {
    var n := PruneDefs.Pruned(doc);
    assert forall k :: k != "$defs" ==> SameAt(doc, n, k);
    SameButDefs(doc, n, re);
  }

  /** The validator does not read the definitions. */
  lemma SameButDefs(m: Object, n: Object, re: Matcher)
    requires forall k :: k != "$defs" ==> SameAt(m, n, k)
    ensures SameVerdict(Obj(m), Obj(n), re)
  {
    SameAtLists(m, n, "allOf", re);
    SameAtLists(m, n, "anyOf", re);
    SameAtLists(m, n, "oneOf", re);
    SameAtChildren(m, n, re);
    assert SameAt(m, n, "additionalProperties");
    AgreeIsSameVerdict(m, n, re);
  }

  lemma SameAtLists(m: Object, n: Object, key: string, re: Matcher)
    requires SameAt(m, n, key)
    ensures SameLists(m, n, key, re)
  {
    SameVerdictRefl(re);
  }

  lemma SameAtChildren(m: Object, n: Object, re: Matcher)
    requires SameAt(m, n, "properties") && SameAt(m, n, "items")
    ensures SameProps(m, n, re) && SameItems(m, n, re)
  {
    SameVerdictRefl(re);
  }

  lemma SameVerdictRefl(re: Matcher)
    ensures forall x :: SameVerdict(x, x, re)
  {
  }

  // ---- pruneAdditionalProperties ----

  /** Removes "additionalProperties": false from a node and from every map it holds, directly or
      as a member of a list; lists inside lists are not entered. */
  function PruneAdditional(j: Value): (r: Value)
    ensures j.Obj? <==> r.Obj?
    ensures !j.Obj? ==> r == j
    decreases j, 0
  {
    match j
    case Obj(m) =>
      Obj(map k | k in m && !(k == "additionalProperties" && m[k] == Bool(false)) :: PruneAdditionalIn(m[k]))
    case _ => j
  }

  function PruneAdditionalIn(j: Value): (r: Value)
    decreases j, 1
  {
    match j
    case Obj(_) => PruneAdditional(j)
    case Arr(a) => Arr(seq(|a|, i requires 0 <= i < |a| => PruneAdditional(a[i])))
    case _ => j
  }

  /** Schemas the removal cannot make stricter: it leaves their oneOf and their literal values alone. */
  predicate Loosens(s: Value)
    requires s.Obj?
  {
    var m := s.fields;
    && ("oneOf" in m ==> PruneAdditionalIn(m["oneOf"]) == m["oneOf"])
    && ("const" in m ==> PruneAdditionalIn(m["const"]) == m["const"])
    && ("enum" in m ==> PruneAdditionalIn(m["enum"]) == m["enum"])
    && ("allOf" in m && m["allOf"].Arr? ==>
          forall i :: 0 <= i < |m["allOf"].items| && m["allOf"].items[i].Obj? ==> Loosens(m["allOf"].items[i]))
    && ("anyOf" in m && m["anyOf"].Arr? ==>
          forall i :: 0 <= i < |m["anyOf"].items| && m["anyOf"].items[i].Obj? ==> Loosens(m["anyOf"].items[i]))
    && ("properties" in m && m["properties"].Obj? ==>
          forall k :: k in m["properties"].fields && m["properties"].fields[k].Obj? ==> Loosens(m["properties"].fields[k]))
    && ("items" in m && m["items"].Obj? ==> Loosens(m["items"]))
  }

  lemma AdditionalAt(m: Object, key: string)
    requires key != "additionalProperties"
    ensures var n := PruneAdditional(Obj(m)).fields;
            (key in n <==> key in m) && (key in m ==> n[key] == PruneAdditionalIn(m[key]))
  {
  }

  /** Removing "additionalProperties": false only enlarges what such a schema accepts. */
  lemma {:induction false} PruneAdditionalLoosens(s: Value, v: Value, re: Matcher)
    requires s.Obj? && Loosens(s) && Sat(s, v, re)
    ensures Sat(PruneAdditional(s), v, re)
    decreases s, 1
  {
    var m, n := s.fields, PruneAdditional(s).fields;
    LoosensAllOf(s, v, re);
    LoosensAnyOf(s, v, re);
    AdditionalAt(m, "oneOf");
    LoosensOneOf(s, v, re);
    LoosensLiterals(m, v, re);
    if v.Obj? { LoosensObject(s, v, re); }
    if v.Arr? { LoosensArray(s, v, re); }
  }

  lemma LoosensOneOf(s: Value, v: Value, re: Matcher)
    requires s.Obj? && Loosens(s) && SatOneOf(s, v, re)
    ensures SatOneOf(PruneAdditional(s), v, re)
  {
    var m, n := s.fields, PruneAdditional(s).fields;
    AdditionalAt(m, "oneOf");
    if "oneOf" in m {
      assert SchemasAt(m, "oneOf") == SchemasAt(n, "oneOf");
      assert Hits(s, "oneOf", v, re) == Hits(PruneAdditional(s), "oneOf", v, re);
    }
  }

  lemma {:induction false} LoosensAllOf(s: Value, v: Value, re: Matcher)
    requires s.Obj? && Loosens(s) && SatAllOf(s, v, re)
    ensures SatAllOf(PruneAdditional(s), v, re)
    decreases s, 0
  {
    AdditionalAt(s.fields, "allOf");
    var xs := SchemasAt(s.fields, "allOf");
    forall i | 0 <= i < |xs| && xs[i].Obj?
      ensures Sat(PruneAdditional(xs[i]), v, re)
    {
      PruneAdditionalLoosens(xs[i], v, re);
    }
  }

  lemma {:induction false} LoosensAnyOf(s: Value, v: Value, re: Matcher)
    requires s.Obj? && Loosens(s) && SatAnyOf(s, v, re)
    ensures SatAnyOf(PruneAdditional(s), v, re)
    decreases s, 0
  {
    AdditionalAt(s.fields, "anyOf");
    if "anyOf" in s.fields {
      var xs, ys := SchemasAt(s.fields, "anyOf"), SchemasAt(PruneAdditional(s).fields, "anyOf");
      var i :| 0 <= i < |xs| && xs[i].Obj? && Sat(xs[i], v, re);
      PruneAdditionalLoosens(xs[i], v, re);
      assert ys[i] == PruneAdditional(xs[i]);
    }
  }

  lemma NumbersKept(m: Object, key: string)
    requires key != "additionalProperties"
    ensures NumAt(PruneAdditional(Obj(m)).fields, key) == NumAt(m, key)
  {
    AdditionalAt(m, key);
  }

  lemma LoosensLiterals(m: Object, v: Value, re: Matcher)
    requires Loosens(Obj(m)) && SatLiterals(m, v, re)
    ensures SatLiterals(PruneAdditional(Obj(m)).fields, v, re)
  {
    var n := PruneAdditional(Obj(m)).fields;
    AdditionalAt(m, "const");
    AdditionalAt(m, "enum");
    AdditionalAt(m, "type");
    if "type" in m && m["type"].Arr? {
      var xs, ys := m["type"].items, n["type"].items;
      var i :| 0 <= i < |xs| && xs[i].Str? && HasType(xs[i].s, v);
      assert ys[i] == xs[i];
    }
    if v.Str? {
      NumbersKept(m, "minLength");
      NumbersKept(m, "maxLength");
      AdditionalAt(m, "pattern");
    }
    if v.Num? {
      NumbersKept(m, "minimum");
      NumbersKept(m, "maximum");
      NumbersKept(m, "exclusiveMinimum");
      NumbersKept(m, "exclusiveMaximum");
      NumbersKept(m, "multipleOf");
    }
  }

  lemma {:induction false} LoosensObject(s: Value, v: Value, re: Matcher)
    requires s.Obj? && v.Obj? && Loosens(s) && SatObject(s, v, re)
    ensures SatObject(PruneAdditional(s), v, re)
    decreases s, 0
  {
    var m, n := s.fields, PruneAdditional(s).fields;
    AdditionalAt(m, "required");
    AdditionalAt(m, "properties");
    var xs, ys := Props(m), Props(n);
    forall k | k in ys && k in v.fields && ys[k].Obj?
      ensures Sat(ys[k], v.fields[k], re)
    {
      assert n["properties"] == PruneAdditional(Obj(xs));
      assert ys[k] == PruneAdditionalIn(xs[k]);
      assert xs[k] < m["properties"] && m["properties"] < s;
      PruneAdditionalLoosens(xs[k], v.fields[k], re);
    }
    assert !IsFalseAt(n, "additionalProperties");
  }

  lemma {:induction false} LoosensArray(s: Value, v: Value, re: Matcher)
    requires s.Obj? && v.Arr? && Loosens(s) && SatArray(s, v, re)
    ensures SatArray(PruneAdditional(s), v, re)
    decreases s, 0
  {
    var m, n := s.fields, PruneAdditional(s).fields;
    NumbersKept(m, "minItems");
    NumbersKept(m, "maxItems");
    AdditionalAt(m, "uniqueItems");
    AdditionalAt(m, "items");
    if "items" in m && m["items"].Obj? {
      forall i | 0 <= i < |v.items|
        ensures Sat(n["items"], v.items[i], re)
      {
        PruneAdditionalLoosens(m["items"], v.items[i], re);
      }
    }
  }

  // ---- With oneOf the removal can reject: a second schema starts to match ----

  const CLOSED := Obj(map["additionalProperties" := Bool(false)])
  const OPEN := Obj(map["type" := Str("object")])
  const ONE_OF := Obj(map["oneOf" := Arr([CLOSED, OPEN])])
  const EXTRA := Obj(map["a" := Null])

  lemma OneOfCanTighten(re: Matcher)
    ensures Sat(ONE_OF, EXTRA, re) && !Sat(PruneAdditional(ONE_OF), EXTRA, re)
  {
    ClosedRejects(re);
    OpenAccepts(re);
    OneOfHits(re);
    AfterHits(re);
  }

  lemma ClosedRejects(re: Matcher)
    ensures !Sat(CLOSED, EXTRA, re)
  {
    assert "a" in EXTRA.fields && "a" !in Props(CLOSED.fields);
  }

  lemma OpenAccepts(re: Matcher)
    ensures Sat(OPEN, EXTRA, re) && Sat(Obj(map[]), EXTRA, re)
  {
  }

  lemma OneOfHits(re: Matcher)
    ensures Sat(ONE_OF, EXTRA, re)
  {
    ClosedRejects(re);
    OpenAccepts(re);
    var subs := SchemasAt(ONE_OF.fields, "oneOf");
    assert subs == [CLOSED, OPEN];
    assert Hits(ONE_OF, "oneOf", EXTRA, re) == {1};
  }

  lemma AfterSchemas()
    ensures SchemasAt(PruneAdditional(ONE_OF).fields, "oneOf") == [Obj(map[]), OPEN]
  {
    AdditionalAt(ONE_OF.fields, "oneOf");
    AdditionalAt(OPEN.fields, "type");
    assert PruneAdditional(OPEN).fields == OPEN.fields;
    assert PruneAdditional(CLOSED) == Obj(map[]);
    assert PruneAdditionalIn(Arr([CLOSED, OPEN])).items == [PruneAdditional(CLOSED), PruneAdditional(OPEN)];
  }

  /** Two schemas of a oneOf accept the value. */
  lemma TwoAccept(t: Value, v: Value, re: Matcher)
    requires t.Obj? && "oneOf" in t.fields && |SchemasAt(t.fields, "oneOf")| == 2
    requires forall i :: 0 <= i < 2 ==> SchemasAt(t.fields, "oneOf")[i].Obj? && Sat(SchemasAt(t.fields, "oneOf")[i], v, re)
    ensures !Sat(t, v, re)
  {
    assert 0 in Hits(t, "oneOf", v, re) && 1 in Hits(t, "oneOf", v, re);
  }

  lemma AfterHits(re: Matcher)
    ensures !Sat(PruneAdditional(ONE_OF), EXTRA, re)
  {
    OpenAccepts(re);
    AfterSchemas();
    TwoAccept(PruneAdditional(ONE_OF), EXTRA, re);
  }
}
