/** What each keyword demands of a value, in terms of the keyword's own value, and that a schema accepts
    exactly what all of its keywords allow (jsonschema/validate.go). */
module KeywordMeanings {
  import opened Wrappers
  import opened JsonValue
  import opened Validation

  // ---- Numbers ----

  predicate MinimumAllows(x: Value, v: Value) {
    x.Num? && v.Num? ==> v.n >= x.n
  }

  predicate MaximumAllows(x: Value, v: Value) {
    x.Num? && v.Num? ==> v.n <= x.n
  }

  predicate AboveAllows(x: Value, v: Value) {
    x.Num? && v.Num? ==> v.n > x.n
  }

  predicate BelowAllows(x: Value, v: Value) {
    x.Num? && v.Num? ==> v.n < x.n
  }

  /** The quotient is within 1e-9 of some integer; a factor of zero demands nothing. */
  ghost predicate MultipleAllows(x: Value, v: Value) {
    x.Num? && v.Num? && x.n != 0.0 ==> NearSome(v.n / x.n)
  }

  ghost predicate NearSome(q: real) {
    exists i: int :: Near(q, i)
  }

  predicate Near(q: real, i: int) {
    -0.000000001 <= q - i as real <= 0.000000001
  }

  // ---- Lengths ----

  /** A length n is at least the bound, whose fraction is dropped. */
  predicate LongEnough(x: Value, n: nat) {
    x.Num? ==> n as real + 1.0 > x.n
  }

  /** At most the bound, whose fraction is dropped towards zero: nothing is short enough for -1 or less. */
  predicate ShortEnough(x: Value, n: nat) {
    x.Num? ==> n as real <= x.n || (n == 0 && x.n > -1.0)
  }

  predicate PatternAllows(x: Value, v: Value, re: Matcher) {
    x.Str? && x.s != "" && v.Str? ==> re(x.s, v.s)
  }

  // ---- Types ----

  ghost predicate TypeAllows(x: Value, v: Value) {
    && (x.Str? ==> IsOf(x.s, v))
    && (x.Arr? ==> exists name :: Str(name) in x.items && IsOf(name, v))
  }

  ghost predicate IsOf(name: string, v: Value) {
    && (name == "object" ==> v.Obj?)
    && (name == "array" ==> v.Arr?)
    && (name == "string" ==> v.Str?)
    && (name == "boolean" ==> v.Bool?)
    && (name == "null" ==> v == Null)
    && (name == "number" ==> v.Num?)
    && (name == "integer" ==> exists i: int :: IsInt(v, i))
  }

  predicate IsInt(v: Value, i: int) {
    v == Num(i as real)
  }

  // ---- Objects and arrays ----

  ghost predicate RequiredAllows(x: Value, v: Value) {
    x.Arr? && v.Obj? ==> forall name :: Str(name) in x.items ==> name in v.fields
  }

  ghost predicate PropertiesAllow(x: Value, v: Value, re: Matcher) {
    x.Obj? && v.Obj? ==>
      forall name :: name in x.fields && x.fields[name].Obj? && name in v.fields ==> Sat(x.fields[name], v.fields[name], re)
  }

  /** Closed: every property of the value stands under "properties". */
  predicate ClosedAllows(x: Value, m: Object, v: Value) {
    x == Bool(false) && v.Obj? ==>
      forall name :: name in v.fields ==> "properties" in m && m["properties"].Obj? && name in m["properties"].fields
  }

  predicate UniqueAllows(x: Value, v: Value) {
    x == Bool(true) && v.Arr? ==> forall i, j :: 0 <= i < j < |v.items| ==> v.items[i] != v.items[j]
  }

  ghost predicate ItemsAllow(x: Value, v: Value, re: Matcher) {
    x.Obj? && v.Arr? ==> forall i :: 0 <= i < |v.items| ==> Sat(x, v.items[i], re)
  }

  // ---- Any value ----

  predicate EnumAllows(x: Value, v: Value) {
    x.Arr? ==> v in x.items
  }

  ghost predicate AllAllow(x: Value, v: Value, re: Matcher) {
    x.Arr? ==> forall i :: 0 <= i < |x.items| && x.items[i].Obj? ==> Sat(x.items[i], v, re)
  }

  ghost predicate Accepts(x: Value, i: int, v: Value, re: Matcher) {
    x.Arr? && 0 <= i < |x.items| && x.items[i].Obj? && Sat(x.items[i], v, re)
  }

  ghost predicate SomeAllows(x: Value, v: Value, re: Matcher) {
    exists i :: Accepts(x, i, v, re)
  }

  ghost predicate OneAllows(x: Value, v: Value, re: Matcher) {
    exists i :: Accepts(x, i, v, re) && forall j :: Accepts(x, j, v, re) ==> j == i
  }

  // ---- A schema is the conjunction of its keywords ----

  ghost predicate NumbersAllow(m: Object, v: Value) {
    && ("minimum" in m ==> MinimumAllows(m["minimum"], v))
    && ("maximum" in m ==> MaximumAllows(m["maximum"], v))
    && ("exclusiveMinimum" in m ==> AboveAllows(m["exclusiveMinimum"], v))
    && ("exclusiveMaximum" in m ==> BelowAllows(m["exclusiveMaximum"], v))
    && ("multipleOf" in m ==> MultipleAllows(m["multipleOf"], v))
  }

  ghost predicate StringsAllow(m: Object, v: Value, re: Matcher) {
    && ("minLength" in m && v.Str? ==> LongEnough(m["minLength"], |v.s|))
    && ("maxLength" in m && v.Str? ==> ShortEnough(m["maxLength"], |v.s|))
    && ("pattern" in m ==> PatternAllows(m["pattern"], v, re))
  }

  ghost predicate ObjectsAllow(m: Object, v: Value, re: Matcher) {
    && ("required" in m ==> RequiredAllows(m["required"], v))
    && ("properties" in m ==> PropertiesAllow(m["properties"], v, re))
    && ("additionalProperties" in m ==> ClosedAllows(m["additionalProperties"], m, v))
  }

  ghost predicate ArraysAllow(m: Object, v: Value, re: Matcher) {
    && ("minItems" in m && v.Arr? ==> LongEnough(m["minItems"], |v.items|))
    && ("maxItems" in m && v.Arr? ==> ShortEnough(m["maxItems"], |v.items|))
    && ("uniqueItems" in m ==> UniqueAllows(m["uniqueItems"], v))
    && ("items" in m ==> ItemsAllow(m["items"], v, re))
  }

  ghost predicate ValuesAllow(m: Object, v: Value, re: Matcher) {
    && ("const" in m ==> v == m["const"])
    && ("enum" in m ==> EnumAllows(m["enum"], v))
    && ("type" in m ==> TypeAllows(m["type"], v))
    && ("allOf" in m ==> AllAllow(m["allOf"], v, re))
    && ("anyOf" in m ==> SomeAllows(m["anyOf"], v, re))
    && ("oneOf" in m ==> OneAllows(m["oneOf"], v, re))
  }

  ghost predicate KeywordsAllow(m: Object, v: Value, re: Matcher) {
    && NumbersAllow(m, v) && StringsAllow(m, v, re) && ObjectsAllow(m, v, re)
    && ArraysAllow(m, v, re) && ValuesAllow(m, v, re)
  }

  // ---- The relation of the validator says the same ----

  lemma NearAnInteger(q: real)
    ensures NearInteger(q) <==> NearSome(q)
  {
    var low := q - q.Floor as real;
    if low <= 0.000000001 {
      assert Near(q, q.Floor);
    } else if 1.0 - low <= 0.000000001 {
      assert Near(q, q.Floor + 1);
    } else {
      forall i: int
        ensures !Near(q, i)
      {
        assert i <= q.Floor || i >= q.Floor + 1;
      }
    }
  }

  lemma NumbersAgree(m: Object, v: Value)
    ensures (v.Num? ==> SatNumber(m, v.n)) <==> NumbersAllow(m, v)
  {
    if v.Num? && "multipleOf" in m && m["multipleOf"].Num? && m["multipleOf"].n != 0.0 {
      NearAnInteger(v.n / m["multipleOf"].n);
    }
  }

  lemma TruncBounds(r: real, n: nat)
    ensures Trunc(r) <= n <==> n as real + 1.0 > r
    ensures n <= Trunc(r) <==> n as real <= r || (n == 0 && r > -1.0)
  {
  }

  lemma LengthsAgree(m: Object, key: string, n: nat)
    ensures (NumAt(m, key).Some? ==> Trunc(NumAt(m, key).value) <= n) <==> (key in m ==> LongEnough(m[key], n))
    ensures (NumAt(m, key).Some? ==> n <= Trunc(NumAt(m, key).value)) <==> (key in m ==> ShortEnough(m[key], n))
  {
    if key in m && m[key].Num? {
      TruncBounds(m[key].n, n);
    }
  }

  lemma StringsAgree(m: Object, v: Value, re: Matcher)
    ensures (v.Str? ==> SatString(m, v.s, re)) <==> StringsAllow(m, v, re)
  {
    if v.Str? {
      LengthsAgree(m, "minLength", |v.s|);
      LengthsAgree(m, "maxLength", |v.s|);
    }
  }

  lemma ObjectsAgree(m: Object, v: Value, re: Matcher)
    ensures (v.Obj? ==> SatObject(Obj(m), v, re)) <==> ObjectsAllow(m, v, re)
  {
  }

  lemma ArraysAgree(m: Object, v: Value, re: Matcher)
    ensures (v.Arr? ==> SatArray(Obj(m), v, re)) <==> ArraysAllow(m, v, re)
  {
    if v.Arr? {
      LengthsAgree(m, "minItems", |v.items|);
      LengthsAgree(m, "maxItems", |v.items|);
    }
  }

  lemma TypesAgree(name: string, v: Value)
    ensures HasType(name, v) <==> IsOf(name, v)
  {
    if v.Num? {
      assert v.n == v.n.Floor as real ==> IsInt(v, v.n.Floor);
    }
  }

  lemma TypeAgrees(t: Value, v: Value)
    ensures SatType(t, v) <==> TypeAllows(t, v)
  {
    forall name { TypesAgree(name, v); }
    if t.Arr? && SatType(t, v) {
      var i :| 0 <= i < |t.items| && t.items[i].Str? && HasType(t.items[i].s, v);
      assert Str(t.items[i].s) in t.items && IsOf(t.items[i].s, v);
    }
  }

  lemma AllAgree(m: Object, v: Value, re: Matcher)
    ensures SatAllOf(Obj(m), v, re) <==> ("allOf" in m ==> AllAllow(m["allOf"], v, re))
  {
    var subs := SchemasAt(m, "allOf");
    assert SatAllOf(Obj(m), v, re) <==> forall i :: 0 <= i < |subs| && subs[i].Obj? ==> Sat(subs[i], v, re);
  }

  lemma SomeAgree(m: Object, v: Value, re: Matcher)
    ensures SatAnyOf(Obj(m), v, re) <==> ("anyOf" in m ==> SomeAllows(m["anyOf"], v, re))
  {
    if "anyOf" in m {
      var x, subs := m["anyOf"], SchemasAt(m, "anyOf");
      if SatAnyOf(Obj(m), v, re) {
        var i :| 0 <= i < |subs| && subs[i].Obj? && Sat(subs[i], v, re);
        assert Accepts(x, i, v, re);
      }
      if SomeAllows(x, v, re) {
        var i :| Accepts(x, i, v, re);
        assert subs[i] == x.items[i];
      }
    }
  }

  lemma HitsAccept(m: Object, key: string, v: Value, re: Matcher, i: int)
    ensures i in Hits(Obj(m), key, v, re) <==> key in m && Accepts(m[key], i, v, re)
  {
  }

  lemma OneHit(m: Object, v: Value, re: Matcher, i: int)
    requires "oneOf" in m && Hits(Obj(m), "oneOf", v, re) == {i}
    ensures Accepts(m["oneOf"], i, v, re) && forall j :: Accepts(m["oneOf"], j, v, re) ==> j == i
  {
    HitsAccept(m, "oneOf", v, re, i);
    forall j | Accepts(m["oneOf"], j, v, re)
      ensures j == i
    {
      HitsAccept(m, "oneOf", v, re, j);
    }
  }

  lemma HitsOne(m: Object, v: Value, re: Matcher, i: int)
    requires "oneOf" in m && Accepts(m["oneOf"], i, v, re) && forall j :: Accepts(m["oneOf"], j, v, re) ==> j == i
    ensures Hits(Obj(m), "oneOf", v, re) == {i}
  {
    forall j: int
      ensures j in Hits(Obj(m), "oneOf", v, re) <==> j == i
    {
      HitsAccept(m, "oneOf", v, re, j);
    }
  }

  lemma OneAgrees(m: Object, v: Value, re: Matcher)
    ensures SatOneOf(Obj(m), v, re) <==> ("oneOf" in m ==> OneAllows(m["oneOf"], v, re))
  {
    if "oneOf" in m {
      if SatOneOf(Obj(m), v, re) {
        var i :| Hits(Obj(m), "oneOf", v, re) == {i};
        OneHit(m, v, re, i);
      }
      if OneAllows(m["oneOf"], v, re) {
        var i :| Accepts(m["oneOf"], i, v, re) && forall j :: Accepts(m["oneOf"], j, v, re) ==> j == i;
        HitsOne(m, v, re, i);
      }
    }
  }

  lemma ValuesAgree(m: Object, v: Value, re: Matcher)
    ensures ValuesAllow(m, v, re) <==>
            && SatAllOf(Obj(m), v, re) && SatAnyOf(Obj(m), v, re) && SatOneOf(Obj(m), v, re)
            && ("const" in m ==> v == m["const"])
            && ("enum" in m && m["enum"].Arr? ==> v in m["enum"].items)
            && ("type" in m ==> SatType(m["type"], v))
  {
    AllAgree(m, v, re);
    SomeAgree(m, v, re);
    OneAgrees(m, v, re);
    if "type" in m {
      TypeAgrees(m["type"], v);
    }
  }

  /** A schema accepts exactly the values that each of its keywords allows; other keys demand nothing. */
  lemma SatIsKeywords(m: Object, v: Value, re: Matcher)
    ensures Sat(Obj(m), v, re) <==> KeywordsAllow(m, v, re)
  {
    NumbersAgree(m, v);
    StringsAgree(m, v, re);
    ObjectsAgree(m, v, re);
    ArraysAgree(m, v, re);
    ValuesAgree(m, v, re);
  }

  /** The validator, in the same terms. */
  method Validate(m: Object, v: Value, re: Matcher) returns (ok: bool)
    ensures ok <==> KeywordsAllow(m, v, re)
  {
    SatIsKeywords(m, v, re);
    ok := ValidateValue(Obj(m), v, re);
  }
}
