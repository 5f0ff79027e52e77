/** The validator of jsonschema/validate.go against a declarative satisfaction relation. */
module Validation {
  import opened Wrappers
  import opened JsonValue

  /** Whether a string matches a pattern; false for a pattern that does not compile. */
  type Matcher = (string, string) -> bool

  // ---- Satisfaction ----

  ghost predicate Sat(s: Value, v: Value, re: Matcher)
    requires s.Obj?
    decreases s, 2
  {
    && SatAllOf(s, v, re)
    && SatAnyOf(s, v, re)
    && SatOneOf(s, v, re)
    && SatLiterals(s.fields, v, re)
    && (v.Obj? ==> SatObject(s, v, re))
    && (v.Arr? ==> SatArray(s, v, re))
  }

  /** The keywords that hold no schemas, apart from those of objects and arrays. */
  ghost predicate SatLiterals(m: Object, v: Value, re: Matcher) {
    && ("const" in m ==> v == m["const"])
    && ("enum" in m && m["enum"].Arr? ==> v in m["enum"].items)
    && ("type" in m ==> SatType(m["type"], v))
    && (v.Str? ==> SatString(m, v.s, re))
    && (v.Num? ==> SatNumber(m, v.n))
  }

  /** The schemas of a combinator list: its object entries. */
  function SchemasAt(m: Object, key: string): (r: seq<Value>) {
    if key in m && m[key].Arr? then m[key].items else []
  }

  ghost predicate SatAllOf(s: Value, v: Value, re: Matcher)
    requires s.Obj?
    decreases s, 0
  {
    var subs := SchemasAt(s.fields, "allOf");
    forall i :: 0 <= i < |subs| && subs[i].Obj? ==> Sat(subs[i], v, re)
  }

  ghost predicate SatAnyOf(s: Value, v: Value, re: Matcher)
    requires s.Obj?
    decreases s, 0
  {
    var subs := SchemasAt(s.fields, "anyOf");
    "anyOf" in s.fields ==> exists i :: 0 <= i < |subs| && subs[i].Obj? && Sat(subs[i], v, re)
  }

  /** The positions of a combinator list whose schemas accept a value. */
  ghost function Hits(s: Value, key: string, v: Value, re: Matcher): (r: set<int>)
    requires s.Obj?
    decreases s, 0
  {
    var subs := SchemasAt(s.fields, key);
    set i | 0 <= i < |subs| && subs[i].Obj? && Sat(subs[i], v, re)
  }

  /** Exactly one schema accepts the value. */
  ghost predicate SatOneOf(s: Value, v: Value, re: Matcher)
    requires s.Obj?
    decreases s, 1
  {
    "oneOf" in s.fields ==> exists i :: Hits(s, "oneOf", v, re) == {i}
  }

  /** matchesType: an unknown type name accepts everything. */
  predicate HasType(t: string, v: Value) {
    match t
    case "object" => v.Obj?
    case "array" => v.Arr?
    case "string" => v.Str?
    case "boolean" => v.Bool?
    case "null" => v.Null?
    case "number" => v.Num?
    case "integer" => v.Num? && v.n == v.n.Floor as real
    case _ => true
  }

  ghost predicate SatType(t: Value, v: Value) {
    match t
    case Str(name) => HasType(name, v)
    case Arr(names) => exists i :: 0 <= i < |names| && names[i].Str? && HasType(names[i].s, v)
    case _ => true
  }

  function Props(m: Object): (r: Object) {
    if "properties" in m && m["properties"].Obj? then m["properties"].fields else map[]
  }

  ghost predicate SatObject(s: Value, v: Value, re: Matcher)
    requires s.Obj? && v.Obj?
    decreases s, 0
  {
    var m, props := s.fields, Props(s.fields);
    && ("required" in m && m["required"].Arr? ==> forall x :: Str(x) in m["required"].items ==> x in v.fields)
    && (forall k :: k in props && k in v.fields && props[k].Obj? ==> Sat(props[k], v.fields[k], re))
    && ("additionalProperties" in m && m["additionalProperties"] == Bool(false) ==> v.fields.Keys <= props.Keys)
  }

  /** int(f): truncation toward zero. */
  function Trunc(r: real): (n: int) {
    if r >= 0.0 then r.Floor else -((-r).Floor)
  }

  /** asInt and asFloat of a keyword that may be absent or not a number. */
  function NumAt(m: Object, key: string): (r: Option<real>) {
    if key in m && m[key].Num? then Some(m[key].n) else None
  }

  ghost predicate SatArray(s: Value, v: Value, re: Matcher)
    requires s.Obj? && v.Arr?
    decreases s, 0
  {
    var m, a := s.fields, v.items;
    && (NumAt(m, "minItems").Some? ==> Trunc(NumAt(m, "minItems").value) <= |a|)
    && (NumAt(m, "maxItems").Some? ==> |a| <= Trunc(NumAt(m, "maxItems").value))
    && ("uniqueItems" in m && m["uniqueItems"] == Bool(true) ==> forall i, j :: 0 <= i < j < |a| ==> a[i] != a[j])
    && ("items" in m && m["items"].Obj? ==> forall i :: 0 <= i < |a| ==> Sat(m["items"], a[i], re))
  }

  predicate SatString(m: Object, s: string, re: Matcher) {
    && (NumAt(m, "minLength").Some? ==> Trunc(NumAt(m, "minLength").value) <= |s|)
    && (NumAt(m, "maxLength").Some? ==> |s| <= Trunc(NumAt(m, "maxLength").value))
    && ("pattern" in m && m["pattern"].Str? && m["pattern"].s != "" ==> re(m["pattern"].s, s))
  }

  /** Within 1e-9 of an integer. */
  predicate NearInteger(r: real) {
    var low := r - r.Floor as real;
    low <= 0.000000001 || 1.0 - low <= 0.000000001
  }

  predicate SatNumber(m: Object, f: real) {
    && (NumAt(m, "minimum").Some? ==> NumAt(m, "minimum").value <= f)
    && (NumAt(m, "maximum").Some? ==> f <= NumAt(m, "maximum").value)
    && (NumAt(m, "exclusiveMinimum").Some? ==> NumAt(m, "exclusiveMinimum").value < f)
    && (NumAt(m, "exclusiveMaximum").Some? ==> f < NumAt(m, "exclusiveMaximum").value)
    && (NumAt(m, "multipleOf").Some? && NumAt(m, "multipleOf").value != 0.0 ==>
          NearInteger(f / NumAt(m, "multipleOf").value))
  }

  // ---- The validator ----

  /** validateValue: accepts exactly the satisfying values, whatever order maps are ranged over. */
  method ValidateValue(s: Value, v: Value, re: Matcher) returns (ok: bool)
    requires s.Obj?
    ensures ok <==> Sat(s, v, re)
    decreases s, 1
  {
    var m := s.fields;
    ok := ValidateAllOf(s, v, re);
    if !ok { return; }
    ok := ValidateAnyOf(s, v, re);
    if !ok { return; }
    ok := ValidateOneOf(s, v, re);
    if !ok { return; }
    if "const" in m && m["const"] != v {
      return false;
    }
    if "enum" in m && m["enum"].Arr? {
      var found := false;
      var allowed := m["enum"].items;
      for i := 0 to |allowed|
        invariant found <==> v in allowed[..i]
      {
        found := found || allowed[i] == v;
      }
      assert allowed[..|allowed|] == allowed;
      if !found {
        return false;
      }
    }
    if "type" in m {
      ok := ValidateTypeAny(m["type"], v);
      if !ok { return; }
    }
    if v.Obj? {
      ok := ValidateObject(s, v, re);
      if !ok { return; }
    }
    if v.Arr? {
      ok := ValidateArray(s, v, re);
      if !ok { return; }
    }
    ok := (v.Str? ==> SatString(m, v.s, re)) && (v.Num? ==> SatNumber(m, v.n));
  }

  method ValidateAllOf(s: Value, v: Value, re: Matcher) returns (ok: bool)
    requires s.Obj?
    ensures ok <==> SatAllOf(s, v, re)
    decreases s, 0
  {
    var subs := SchemasAt(s.fields, "allOf");
    for i := 0 to |subs|
      invariant forall j :: 0 <= j < i && subs[j].Obj? ==> Sat(subs[j], v, re)
    {
      if subs[i].Obj? {
        var pass := ValidateValue(subs[i], v, re);
        if !pass { return false; }
      }
    }
    return true;
  }

  method ValidateAnyOf(s: Value, v: Value, re: Matcher) returns (ok: bool)
    requires s.Obj?
    ensures ok <==> SatAnyOf(s, v, re)
    decreases s, 0
  {
    if "anyOf" !in s.fields { return true; }
    var subs := SchemasAt(s.fields, "anyOf");
    for i := 0 to |subs|
      invariant forall j :: 0 <= j < i && subs[j].Obj? ==> !Sat(subs[j], v, re)
    {
      if subs[i].Obj? {
        var pass := ValidateValue(subs[i], v, re);
        if pass { return true; }
      }
    }
    return false;
  }

  /** oneOf counts the matches; a count of one is a unique match. */
  method ValidateOneOf(s: Value, v: Value, re: Matcher) returns (ok: bool)
    requires s.Obj?
    ensures ok <==> SatOneOf(s, v, re)
    decreases s, 0
  {
    if "oneOf" !in s.fields { return true; }
    var subs := SchemasAt(s.fields, "oneOf");
    var count := 0;
    ghost var first, second := -1, -1;
    for i := 0 to |subs|
      invariant count >= 0
      invariant count > 0 ==> 0 <= first < i && subs[first].Obj? && Sat(subs[first], v, re)
      invariant count > 1 ==> 0 <= second < i && second != first && subs[second].Obj? && Sat(subs[second], v, re)
      invariant count <= 1 ==> forall j :: 0 <= j < i && subs[j].Obj? && Sat(subs[j], v, re) ==> count == 1 && j == first
    {
      if subs[i].Obj? {
        var pass := ValidateValue(subs[i], v, re);
        if pass {
          count, first, second := count + 1, i, first;
        }
      }
    }
    ghost var hits := Hits(s, "oneOf", v, re);
    assert count == 1 ==> hits == {first};
    assert count == 0 ==> hits == {};
    assert count > 1 ==> first in hits && second in hits;
    return count == 1;
  }

  method ValidateTypeAny(t: Value, v: Value) returns (ok: bool)
    ensures ok <==> SatType(t, v)
  {
    match t
    case Str(name) => ok := HasType(name, v);
    case Arr(names) =>
      for i := 0 to |names|
        invariant forall j :: 0 <= j < i ==> !(names[j].Str? && HasType(names[j].s, v))
      {
        if names[i].Str? && HasType(names[i].s, v) {
          return true;
        }
      }
      ok := false;
    case _ => ok := true;
  }

  method ValidateObject(s: Value, v: Value, re: Matcher) returns (ok: bool)
    requires s.Obj? && v.Obj?
    ensures ok <==> SatObject(s, v, re)
    decreases s, 0
  {
    var m, obj := s.fields, v.fields;
    if "required" in m && m["required"].Arr? {
      var names := m["required"].items;
      for i := 0 to |names|
        invariant forall j :: 0 <= j < i && names[j].Str? ==> names[j].s in obj
      {
        if names[i].Str? && names[i].s !in obj {
          assert Str(names[i].s) in names;
          return false;
        }
      }
    }
    var props := Props(m);
    var todo := props.Keys;
    while todo != {}
      invariant todo <= props.Keys
      invariant forall k :: k in props && k !in todo && k in obj && props[k].Obj? ==> Sat(props[k], obj[k], re)
    {
      var key :| key in todo;
      todo := todo - {key};
      if key in obj && props[key].Obj? {
        assert props[key] < m["properties"] && m["properties"] < s;
        var pass := ValidateValue(props[key], obj[key], re);
        if !pass { return false; }
      }
    }
    if "additionalProperties" in m && m["additionalProperties"] == Bool(false) {
      var keys := obj.Keys;
      while keys != {}
        invariant keys <= obj.Keys
        invariant forall k :: k in obj && k !in keys ==> k in props
      {
        var key :| key in keys;
        keys := keys - {key};
        if key !in props { return false; }
      }
    }
    return true;
  }

  method ValidateArray(s: Value, v: Value, re: Matcher) returns (ok: bool)
    requires s.Obj? && v.Arr?
    ensures ok <==> SatArray(s, v, re)
    decreases s, 0
  {
    var m, a := s.fields, v.items;
    if NumAt(m, "minItems").Some? && |a| < Trunc(NumAt(m, "minItems").value) {
      return false;
    }
    if NumAt(m, "maxItems").Some? && |a| > Trunc(NumAt(m, "maxItems").value) {
      return false;
    }
    if "uniqueItems" in m && m["uniqueItems"] == Bool(true) {
      for i := 0 to |a|
        invariant forall k, j :: 0 <= k < i && k < j < |a| ==> a[k] != a[j]
      {
        for j := i + 1 to |a|
          invariant forall k :: i < k < j ==> a[i] != a[k]
        {
          if a[i] == a[j] { return false; }
        }
      }
    }
    if "items" in m && m["items"].Obj? {
      for i := 0 to |a|
        invariant forall j :: 0 <= j < i ==> Sat(m["items"], a[j], re)
      {
        var pass := ValidateValue(m["items"], a[i], re);
        if !pass { return false; }
      }
    }
    return true;
  }
}
