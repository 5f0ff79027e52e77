/** The RFC 6570 template parser (uritemplate/uritemplate.go) and its inverse. */
module Rfc6570 {
  import opened Wrappers
  import opened Percent
  import opened Sequences
  import opened Scanning

  datatype Var = Var(name: Bytes, explode: bool, prefix: Option<nat>)

  /** op is None for simple expansion. */
  datatype Part = Literal(text: Bytes) | Expr(op: Option<Byte>, vars: seq<Var>)

  predicate IsOp(c: Byte) {
    c == '+' || c == '#' || c == '.' || c == '/' || c == ';' || c == '?' || c == '&'
  }

  // ---- Numerals ----

  const MAX_INT: nat := 0x7fff_ffff_ffff_ffff

  predicate IsDigit(c: Byte) {
    '0' <= c <= '9'
  }

  function Value(s: Bytes): (n: nat)
    requires forall i :: 0 <= i < |s| ==> IsDigit(s[i])
  {
    if s == [] then 0
    else
      assert IsDigit(s[|s| - 1]);
      Value(s[..|s| - 1]) * 10 + (s[|s| - 1] as int - '0' as int)
  }

  /** strconv.Atoi: an optional sign and at least one digit, within the 64-bit range. */
  function Atoi(s: Bytes): (n: Option<int>)
    ensures n.Some? ==> n.value <= MAX_INT
  {
    var signed := s != [] && (s[0] == '+' || s[0] == '-');
    var digits := if signed then s[1..] else s;
    if digits == [] || (exists i :: 0 <= i < |digits| && !IsDigit(digits[i])) then None
    else
      var v: int := Value(digits);
      if signed && s[0] == '-' then if v <= MAX_INT + 1 then Some(-v) else None
      else if v <= MAX_INT then Some(v) else None
  }

  function Numeral(n: nat): (s: Bytes)
    ensures s != [] && forall i :: 0 <= i < |s| ==> IsDigit(s[i])
  {
    if n < 10 then [DigitOf(n)] else Numeral(n / 10) + [DigitOf(n % 10)]
  }

  function DigitOf(d: nat): (c: Byte)
    requires d < 10
    ensures IsDigit(c)
  {
    '0' + d as char
  }

  lemma {:induction false} ValueNumeral(n: nat)
    ensures Value(Numeral(n)) == n
  {
    if n < 10 {
      assert Numeral(n)[..0] == [];
    } else {
      ValueNumeral(n / 10);
      assert Numeral(n)[..|Numeral(n)| - 1] == Numeral(n / 10);
    }
  }

  lemma AtoiNumeral(n: nat)
    ensures Atoi(Numeral(n)) == if n <= MAX_INT then Some(n) else None
  {
    ValueNumeral(n);
    assert IsDigit(Numeral(n)[0]);
  }

  // ---- Parsing ----

  function ParseVar(raw: Bytes): (v: Option<Var>)
  {
    if raw != [] && raw[|raw| - 1] == '*' then NonEmpty(Var(raw[..|raw| - 1], true, None))
    else
      var idx := IndexOf(raw, ':');
      if idx == |raw| then NonEmpty(Var(raw, false, None))
      else
        var n := Atoi(raw[idx + 1..]);
        if n.None? || n.value < 0 then None else NonEmpty(Var(raw[..idx], false, Some(n.value)))
  }

  function NonEmpty(v: Var): (r: Option<Var>) {
    if v.name == [] then None else Some(v)
  }

  function ParseVars(raws: seq<Bytes>): (vs: Option<seq<Var>>)
    ensures vs.Some? ==> |vs.value| == |raws|
  {
    if raws == [] then Some([])
    else
      var before, v := ParseVars(raws[..|raws| - 1]), ParseVar(raws[|raws| - 1]);
      if before.None? || v.None? then None else Some(before.value + [v.value])
  }

  function ParseExpr(body: Bytes): (e: Option<Part>)
  {
    if body == [] then None
    else
      var op := if IsOp(body[0]) then Some(body[0]) else None;
      var rest := if IsOp(body[0]) then body[1..] else body;
      if rest == [] then None
      else
        var vars := ParseVars(Split(rest, ','));
        if vars.None? then None else Some(Expr(op, vars.value))
  }

  /** The length of the literal run at the start. */
  function LiteralLen(s: Bytes): (r: nat)
    ensures r <= |s| && '{' !in s[..r] && '}' !in s[..r] && (r < |s| ==> s[r] == '{' || s[r] == '}')
  {
    if s == [] || s[0] == '{' || s[0] == '}' then 0 else LiteralLen(s[1..]) + 1
  }

  datatype Taken = Taken(part: Part, len: nat)

  /** The first part of the text, or None for a malformed one. */
  function TakePart(s: Bytes): (r: Option<Taken>)
    requires s != []
    ensures r.Some? ==> 0 < r.value.len <= |s|
  {
    if s[0] == '{' then
      var end := IndexOf(s, '}');
      if end == |s| then None
      else
        var e := ParseExpr(s[1..end]);
        if e.None? then None else Some(Taken(e.value, end + 1))
    else if s[0] == '}' then None
    else Some(Taken(Literal(s[..LiteralLen(s)]), LiteralLen(s)))
  }

  function Parse(s: Bytes): (t: Option<seq<Part>>)
    decreases |s|
  {
    if s == [] then Some([])
    else
      var f := TakePart(s);
      if f.None? then None
      else
        var rest := Parse(s[f.value.len..]);
        if rest.None? then None else Some([f.value.part] + rest.value)
  }

  // ---- Printing ----

  function PrintVar(v: Var): (s: Bytes) {
    if v.explode then v.name + ['*'] else if v.prefix.Some? then v.name + [':'] + Numeral(v.prefix.value) else v.name
  }

  function PrintVars(vars: seq<Var>): (r: seq<Bytes>)
    ensures |r| == |vars| && forall i :: 0 <= i < |r| ==> r[i] == PrintVar(vars[i])
  {
    seq(|vars|, i requires 0 <= i < |vars| => PrintVar(vars[i]))
  }

  function PrintBody(op: Option<Byte>, vars: seq<Var>): (s: Bytes) {
    (if op.Some? then [op.value] else []) + if vars == [] then [] else Join(PrintVars(vars), ',')
  }

  function PrintPart(p: Part): (s: Bytes) {
    match p
    case Literal(text) => text
    case Expr(op, vars) => ['{'] + PrintBody(op, vars) + ['}']
  }

  function Print(t: seq<Part>): (s: Bytes)
  {
    if t == [] then [] else PrintPart(t[0]) + Print(t[1..])
  }

  // ---- Which trees are templates ----

  predicate VarOk(v: Var) {
    && v.name != [] && ',' !in v.name && '}' !in v.name
    && !(v.explode && v.prefix.Some?)
    && (v.prefix.Some? ==> ':' !in v.name && v.prefix.value <= MAX_INT)
    && (!v.explode && v.prefix.None? ==> ':' !in v.name && v.name[|v.name| - 1] != '*')
  }

  predicate PartOk(p: Part) {
    match p
    case Literal(text) => text != [] && '{' !in text && '}' !in text
    case Expr(op, vars) =>
      && vars != [] && (forall i :: 0 <= i < |vars| ==> VarOk(vars[i]))
      && (if op.Some? then IsOp(op.value) else !IsOp(vars[0].name[0]))
  }

  ghost predicate WellFormed(t: seq<Part>) {
    && (forall i :: 0 <= i < |t| ==> PartOk(t[i]))
    && (forall i :: 0 <= i < |t| - 1 && t[i].Literal? ==> !t[i + 1].Literal?)
  }

  // ---- Parsing gives well-formed trees ----

  lemma ParseVarOk(raw: Bytes)
    requires ',' !in raw && '}' !in raw
    ensures ParseVar(raw).Some? ==> VarOk(ParseVar(raw).value)
  {
    IndexOfNone(raw, ':');
  }

  lemma {:induction false} ParseVarsOk(raws: seq<Bytes>, i: nat)
    requires ParseVars(raws).Some? && i < |raws|
    ensures ParseVar(raws[i]) == Some(ParseVars(raws).value[i])
  {
    if i < |raws| - 1 {
      ParseVarsOk(raws[..|raws| - 1], i);
    }
  }

  lemma {:induction false} SplitWithin(s: Bytes, c: Byte, d: Byte)
    requires d !in s
    ensures forall i :: 0 <= i < |Split(s, c)| ==> d !in Split(s, c)[i]
    decreases |s|
  {
    var k := IndexOf(s, c);
    if k < |s| {
      SplitWithin(s[k + 1..], c, d);
    }
  }

  /** The first piece of a split starts the text. */
  lemma SplitFirst(s: Bytes, c: Byte)
    ensures Split(s, c)[0] <= s
  {
  }

  /** A variable's name starts its text. */
  lemma NameStarts(raw: Bytes)
    requires ParseVar(raw).Some?
    ensures ParseVar(raw).value.name != [] && ParseVar(raw).value.name <= raw
  {
  }

  lemma ParseExprOk(body: Bytes)
    requires '}' !in body
    ensures ParseExpr(body).Some? ==> PartOk(ParseExpr(body).value) && ParseExpr(body).value.Expr?
  {
    if ParseExpr(body).Some? {
      var rest := if IsOp(body[0]) then body[1..] else body;
      var raws := Split(rest, ',');
      var vars := ParseVars(raws).value;
      SplitParts(rest, ',');
      SplitWithin(rest, ',', '}');
      forall i | 0 <= i < |vars|
        ensures VarOk(vars[i])
      {
        ParseVarsOk(raws, i);
        ParseVarOk(raws[i]);
      }
      ParseVarsOk(raws, 0);
      SplitFirst(rest, ',');
      NameStarts(raws[0]);
    }
  }

  lemma TakePartOk(s: Bytes)
    requires s != [] && TakePart(s).Some?
    ensures PartOk(TakePart(s).value.part)
    ensures TakePart(s).value.part.Literal? <==> s[0] != '{'
    ensures var f := TakePart(s).value; f.part.Literal? && f.len < |s| ==> s[f.len] == '{' || s[f.len] == '}'
  {
    if s[0] == '{' {
      var end := IndexOf(s, '}');
      assert forall k :: 0 <= k < |s[1..end]| ==> s[1..end][k] == s[..end][k + 1];
      ParseExprOk(s[1..end]);
    }
  }

  lemma {:induction false} ParseOk(s: Bytes)
    requires Parse(s).Some?
    ensures WellFormed(Parse(s).value)
    ensures s != [] ==> Parse(s).value != [] && Parse(s).value[0] == TakePart(s).value.part
    decreases |s|
  {
    if s != [] {
      var f := TakePart(s).value;
      var rest := s[f.len..];
      TakePartOk(s);
      ParseOk(rest);
      if rest != [] {
        TakePartOk(rest);
      }
    }
  }

  // ---- Printing a well-formed tree and parsing it ----

  lemma ParsePrintVar(v: Var)
    requires VarOk(v)
    ensures ParseVar(PrintVar(v)) == Some(v) && ',' !in PrintVar(v) && '}' !in PrintVar(v)
  {
    var raw := PrintVar(v);
    if v.explode {
      assert raw[..|raw| - 1] == v.name;
    } else if v.prefix.Some? {
      var num := Numeral(v.prefix.value);
      IndexOfAfter(v.name, ':', num);
      assert raw[..|v.name|] == v.name && raw[|v.name| + 1..] == num;
      assert IsDigit(num[|num| - 1]) && raw[|raw| - 1] == num[|num| - 1];
      AtoiNumeral(v.prefix.value);
    } else {
      IndexOfNone(raw, ':');
    }
  }

  lemma {:induction false} ParsePrintVars(vars: seq<Var>)
    requires forall i :: 0 <= i < |vars| ==> VarOk(vars[i])
    ensures ParseVars(PrintVars(vars)) == Some(vars)
  {
    if vars != [] {
      var n := |vars| - 1;
      ParsePrintVars(vars[..n]);
      ParsePrintVar(vars[n]);
      assert PrintVars(vars)[..n] == PrintVars(vars[..n]);
      assert vars == vars[..n] + [vars[n]];
    }
  }

  lemma {:induction false} JoinLacks(parts: seq<Bytes>, c: Byte, d: Byte)
    requires parts != [] && d != c && forall i :: 0 <= i < |parts| ==> d !in parts[i]
    ensures d !in Join(parts, c)
  {
    if |parts| > 1 {
      JoinLacks(parts[1..], c, d);
    }
  }

  lemma JoinStarts(parts: seq<Bytes>, c: Byte)
    requires parts != [] && parts[0] != []
    ensures Join(parts, c) != [] && Join(parts, c)[0] == parts[0][0]
  {
  }

  lemma PrintedVars(vars: seq<Var>)
    requires vars != [] && forall i :: 0 <= i < |vars| ==> VarOk(vars[i])
    ensures var text := Join(PrintVars(vars), ',');
      ParseVars(Split(text, ',')) == Some(vars) && '}' !in text && text != [] && VarOk(vars[0]) && text[0] == vars[0].name[0]
  {
    var raws := PrintVars(vars);
    forall i | 0 <= i < |vars|
      ensures ',' !in raws[i] && '}' !in raws[i]
    {
      ParsePrintVar(vars[i]);
    }
    SplitJoin(raws, ',');
    JoinLacks(raws, ',', '}');
    ParsePrintVars(vars);
    assert raws[0] == PrintVar(vars[0]) && vars[0].name <= PrintVar(vars[0]);
    JoinStarts(raws, ',');
  }

  lemma ParsePrintExpr(op: Option<Byte>, vars: seq<Var>)
    requires PartOk(Expr(op, vars))
    ensures ParseExpr(PrintBody(op, vars)) == Some(Expr(op, vars)) && '}' !in PrintBody(op, vars)
  {
    PrintedVars(vars);
    var text := Join(PrintVars(vars), ',');
    if op.Some? {
      assert PrintBody(op, vars)[1..] == text;
    } else {
      assert PrintBody(op, vars) == text;
    }
  }

  lemma {:induction false} LiteralLenIs(a: Bytes, b: Bytes)
    requires '{' !in a && '}' !in a && (b == [] || b[0] == '{')
    ensures LiteralLen(a + b) == |a|
  {
    if a == [] {
      assert a + b == b;
    } else {
      LiteralLenIs(a[1..], b);
      assert (a + b)[1..] == a[1..] + b;
    }
  }

  lemma TakePrintedExpr(op: Option<Byte>, vars: seq<Var>, rest: Bytes)
    requires PartOk(Expr(op, vars))
    ensures TakePart(PrintPart(Expr(op, vars)) + rest) == Some(Taken(Expr(op, vars), |PrintPart(Expr(op, vars))|))
  {
    ParsePrintExpr(op, vars);
    TakeBraced(PrintBody(op, vars), Expr(op, vars), rest);
  }

  lemma TakeBraced(body: Bytes, e: Part, rest: Bytes)
    requires '}' !in body && ParseExpr(body) == Some(e)
    ensures TakePart(['{'] + body + ['}'] + rest) == Some(Taken(e, |body| + 2))
  {
    IndexOfAfter(['{'] + body, '}', rest);
    Braced(body, rest);
    TakeAt(['{'] + body + ['}'] + rest, body, e);
  }

  lemma TakeAt(s: Bytes, body: Bytes, e: Part)
    requires s != [] && s[0] == '{' && IndexOf(s, '}') == |body| + 1 < |s| && s[1..|body| + 1] == body && ParseExpr(body) == Some(e)
    ensures TakePart(s) == Some(Taken(e, |body| + 2))
  {
  }

  lemma Braced(body: Bytes, rest: Bytes)
    ensures var s := ['{'] + body + ['}'] + rest; |s| == |body| + 2 + |rest| && s[0] == '{' && s[1..|body| + 1] == body
  {
  }

  /** The printed part is taken whole, given what follows it. */
  lemma TakePrinted(p: Part, rest: Bytes)
    requires PartOk(p) && (p.Literal? ==> rest == [] || rest[0] == '{')
    ensures var s := PrintPart(p) + rest; s != [] && TakePart(s) == Some(Taken(p, |PrintPart(p)|))
  {
    if p.Literal? {
      LiteralLenIs(p.text, rest);
      assert (p.text + rest)[..|p.text|] == p.text;
    } else {
      TakePrintedExpr(p.op, p.vars, rest);
    }
  }

  lemma {:induction false} ParsePrint(t: seq<Part>)
    requires WellFormed(t)
    ensures Parse(Print(t)) == Some(t)
  {
    if t != [] {
      var head, rest := PrintPart(t[0]), Print(t[1..]);
      ParsePrint(t[1..]);
      if t[0].Literal? && |t| > 1 {
        PrintStarts(t[1..]);
      }
      TakePrinted(t[0], rest);
      AppendParts(head, rest);
      Halves(t, 1);
      assert t[..1] == [t[0]];
      ParseCons(head + rest, Taken(t[0], |head|), t[1..]);
    }
  }

  lemma PrintStarts(t: seq<Part>)
    requires t != [] && t[0].Expr?
    ensures Print(t) != [] && Print(t)[0] == '{'
  {
  }

  lemma ParseCons(s: Bytes, f: Taken, t: seq<Part>)
    requires s != [] && TakePart(s) == Some(f) && f.len <= |s| && Parse(s[f.len..]) == Some(t)
    ensures Parse(s) == Some([f.part] + t)
  {
  }

  /** Parsing gives back a printed tree if and only if the tree is well formed. */
  lemma ParsePrintIff(t: seq<Part>)
    ensures Parse(Print(t)) == Some(t) <==> WellFormed(t)
  {
    if WellFormed(t) {
      ParsePrint(t);
    } else if Parse(Print(t)) == Some(t) {
      ParseOk(Print(t));
    }
  }

  /** Whatever text a template was read from, its printed form reads as the same template. */
  lemma ReparseStable(s: Bytes)
    requires Parse(s).Some?
    ensures Parse(Print(Parse(s).value)) == Parse(s)
  {
    ParseOk(s);
    ParsePrint(Parse(s).value);
  }

  // ---- The loops of the source ----

  method UtParseExpr(body: Bytes) returns (e: Option<Part>)
    ensures e == ParseExpr(body)
  {
    if body == [] {
      return None;
    }
    var op, rest := None, body;
    if IsOp(body[0]) {
      op, rest := Some(body[0]), body[1..];
    }
    if rest == [] {
      return None;
    }
    var vars := VarsLoop(Split(rest, ','));
    return if vars.None? then None else Some(Expr(op, vars.value));
  }

  method VarsLoop(raws: seq<Bytes>) returns (r: Option<seq<Var>>)
    ensures r == ParseVars(raws)
  {
    var vars, i := [], 0;
    while i < |raws|
      invariant 0 <= i <= |raws| && ParseVars(raws[..i]) == Some(vars)
    {
      var v := VarOf(raws[i]);
      assert raws[..i + 1][..i] == raws[..i];
      if v.None? {
        ParseVarsFail(raws, i);
        return None;
      }
      vars := vars + [v.value];
      i := i + 1;
    }
    assert raws[..i] == raws;
    return Some(vars);
  }

  lemma {:induction false} ParseVarsFail(raws: seq<Bytes>, i: nat)
    requires i < |raws| && ParseVar(raws[i]).None?
    ensures ParseVars(raws).None?
  {
    if i < |raws| - 1 {
      ParseVarsFail(raws[..|raws| - 1], i);
    }
  }

  method VarOf(text: Bytes) returns (v: Option<Var>)
    ensures v == ParseVar(text)
  {
    var raw, explode, prefix := text, false, None;
    if raw != [] && raw[|raw| - 1] == '*' {
      explode, raw := true, raw[..|raw| - 1];
    } else {
      var idx := IndexOf(raw, ':');
      if idx < |raw| {
        var n := Atoi(raw[idx + 1..]);
        if n.None? || n.value < 0 {
          return None;
        }
        prefix, raw := Some(n.value), raw[..idx];
      }
    }
    return if raw == [] then None else Some(Var(raw, explode, prefix));
  }

  /** The parts found before i are the start of the result. */
  ghost predicate ParsedUpTo(s: Bytes, i: nat, parts: seq<Part>)
    requires i <= |s|
  {
    match Parse(s[i..])
    case None => Parse(s) == None
    case Some(rest) => Parse(s) == Some(parts + rest)
  }

  function Onto(parts: seq<Part>, r: Option<seq<Part>>): (q: Option<seq<Part>>) {
    if r.None? then None else Some(parts + r.value)
  }

  lemma OntoTwice(a: seq<Part>, b: seq<Part>, r: Option<seq<Part>>)
    ensures Onto(a, Onto(b, r)) == Onto(a + b, r)
  {
    assert r.Some? ==> a + (b + r.value) == a + b + r.value;
  }

  lemma ParseStep(s: Bytes, i: nat, parts: seq<Part>, f: Option<Taken>)
    requires i < |s| && ParsedUpTo(s, i, parts) && f == TakePart(s[i..])
    ensures if f.None? then Parse(s) == None else i + f.value.len <= |s| && ParsedUpTo(s, i + f.value.len, parts + [f.value.part])
  {
    if f.Some? {
      var rest := s[i..];
      assert rest[f.value.len..] == s[i + f.value.len..];
      assert Parse(rest) == Onto([f.value.part], Parse(rest[f.value.len..]));
      OntoTwice(parts, [f.value.part], Parse(rest[f.value.len..]));
    }
  }

  lemma ParseEnds(s: Bytes, parts: seq<Part>)
    ensures ParsedUpTo(s, |s|, parts) ==> Parse(s) == Some(parts)
    ensures ParsedUpTo(s, 0, [])
  {
    assert s[|s|..] == [] && parts + [] == parts && s[0..] == s;
    assert Parse(s).Some? ==> [] + Parse(s).value == Parse(s).value;
  }

  method ParseLoop(raw: Bytes) returns (t: Option<seq<Part>>)
    ensures t == Parse(raw)
  {
    var parts, i := [], 0;
    ParseEnds(raw, []);
    while i < |raw|
      invariant 0 <= i <= |raw| && ParsedUpTo(raw, i, parts)
    {
      var f := Turn(raw, i, parts);
      if f.None? {
        return None;
      }
      parts := parts + [f.value.part];
      i := i + f.value.len;
    }
    ParseEnds(raw, parts);
    return Some(parts);
  }

  method Turn(raw: Bytes, i: nat, ghost parts: seq<Part>) returns (f: Option<Taken>)
    requires i < |raw| && ParsedUpTo(raw, i, parts)
    ensures f.None? ==> Parse(raw) == None
    ensures f.Some? ==> 0 < f.value.len <= |raw| - i && ParsedUpTo(raw, i + f.value.len, parts + [f.value.part])
  {
    f := PartAt(raw, i);
    ParseStep(raw, i, parts, f);
  }

  /** One turn of the loop's switch. */
  method PartAt(raw: Bytes, i: nat) returns (f: Option<Taken>)
    requires i < |raw|
    ensures f == TakePart(raw[i..])
  {
    var rest := raw[i..];
    match raw[i]
    case '{' =>
      var end := IndexOf(rest, '}');
      if end == |rest| {
        return None;
      }
      assert rest[1..end] == raw[i + 1..i + end];
      var e := UtParseExpr(raw[i + 1..i + end]);
      return if e.None? then None else Some(Taken(e.value, end + 1));
    case '}' =>
      return None;
    case _ =>
      var j := LiteralLen(rest);
      assert rest[..j] == raw[i..i + j];
      return Some(Taken(Literal(raw[i..i + j]), j));
  }

  // ---- The alphabet of operators, and what Atoi reads ----

  lemma OperatorsAre(c: Byte)
    ensures IsOp(c) <==> c in "+#./;?&"
  {
  }

  /** A sign may stand before the digits; -0 is 0 and the least number has no positive counterpart. */
  lemma AtoiSigned(n: nat)
    ensures Atoi(['+'] + Numeral(n)) == if n <= MAX_INT then Some(n) else None
    ensures Atoi(['-'] + Numeral(n)) == if n <= MAX_INT + 1 then Some(-(n as int)) else None
    ensures Atoi([]) == Atoi(['+']) == Atoi(['-']) == None && Numeral(10) == ['1', '0'] && MAX_INT == 9223372036854775807
  {
    ValueNumeral(n);
    assert (['+'] + Numeral(n))[1..] == Numeral(n) && (['-'] + Numeral(n))[1..] == Numeral(n);
    assert Numeral(1) == ['1'];
  }
}
