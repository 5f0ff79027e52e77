/** Templates on either side of the round trip's condition, and what expansion writes
    (uritemplate/fastmcp.go). */
module TemplateExamples {
  import opened Wrappers
  import opened Percent
  import opened Scanning
  import opened PathMatching
  import opened EscapeMarks
  import opened FastMcp
  import opened TemplateRoundTrip
  import opened TemplateSyntax

  predicate Letter(c: Byte) {
    'a' <= c <= 'z'
  }

  lemma LetterIsProper(c: Byte, star: bool)
    requires Letter(c)
    ensures ProperElem(Var([c], star)) && Meant(Var([c], star)) == if star then Wild([c]) else Seg([c])
  {
    assert Normalize([c]) == [c];
  }

  /** "{x}{y}", with any two letters. */
  function Adjacent(x: Byte, y: Byte): (w: Written) {
    Written([Var([x], false), Var([y], false)], None, [])
  }

  lemma AdjacentIsProper(x: Byte, y: Byte)
    requires Letter(x) && Letter(y) && x != y
    ensures ProperTemplate(Adjacent(x, y)) && Tokens(Adjacent(x, y).pre + []) == [Seg([x]), Seg([y])]
  {
    LetterIsProper(x, false);
    LetterIsProper(y, false);
    assert Adjacent(x, y).pre + [] == Adjacent(x, y).pre;
  }

  /** It can be written, and some parameters do not come back. */
  lemma AdjacentLoses(x: Byte, y: Byte)
    requires Letter(x) && Letter(y) && x != y
    ensures ProperTemplate(Adjacent(x, y))
    ensures exists params :: Given(Adjacent(x, y), params) && !GivesBack(Adjacent(x, y), params)
  {
    AdjacentIsProper(x, y);
    HolesTouch([Seg([x]), Seg([y])]);
    WrittenRoundTripIff(Adjacent(x, y));
  }

  lemma HolesTouch(tokens: seq<Token>)
    requires |tokens| == 2 && tokens[0].Seg? && tokens[1].Seg?
    ensures !KeptApart(tokens) && LiteralsForeign(tokens)
  {
    assert Hole(MarkTokens(tokens)[0]) && !MarkTokens(tokens)[0 + 1].Lit?;
  }

  const QUESTION := Written([Plain("a?b")], None, [])

  /** "a?b" can be written, and no parameters come back. */
  lemma QuestionLoses(params: Params)
    ensures ProperTemplate(QUESTION) && !GivesBack(QUESTION, params)
  {
    assert QUESTION.pre + [] == QUESTION.pre;
    ReadsAsWritten(QUESTION);
    var tokens := Tokens(QUESTION.pre);
    assert tokens[0].text[1] == '?';
    QuestionFails(TemplateText(QUESTION), tokens, params);
    GivesBackIsComesBack(QUESTION, params);
  }

  /** "{x}text{y}". */
  function Between(x: Byte, text: Bytes, y: Byte): (w: Written) {
    Written([Var([x], false), Plain(text), Var([y], false)], None, [])
  }

  lemma BetweenIsProper(x: Byte, text: Bytes, y: Byte)
    requires Letter(x) && Letter(y) && x != y && text != [] && '{' !in text
    ensures ProperTemplate(Between(x, text, y))
    ensures Tokens(Between(x, text, y).pre + []) == [Seg([x]), Lit(text), Seg([y])]
  {
    LetterIsProper(x, false);
    LetterIsProper(y, false);
    assert Between(x, text, y).pre + [] == Between(x, text, y).pre;
  }

  /** A text that starts with a triplet no encoder writes separates two placeholders. */
  lemma ForeignSeparates(x: Byte, text: Bytes, y: Byte, params: Params)
    requires Letter(x) && Letter(y) && x != y && '{' !in text && '?' !in text
    requires AllForeign(text) && Foreign(text, 0) && !HasBar(text, false) && Given(Between(x, text, y), params)
    ensures !Separable([Seg([x]), Lit(text), Seg([y])]) && GivesBack(Between(x, text, y), params)
  {
    BetweenIsProper(x, text, y);
    ForeignBars(text, [Seg([x]), Lit(text), Seg([y])]);
    NoQuestions(x, text, y);
    WrittenRoundTripIff(Between(x, text, y));
  }

  lemma NoQuestions(x: Byte, text: Bytes, y: Byte)
    requires '?' !in text
    ensures forall e :: e in Between(x, text, y).pre + [] && e.Plain? ==> '?' !in e.text
  {
  }

  /** "{a}%41{b}" gives every pair of values back, although '%', '4' and '1' can all stand in values:
      no encoder writes "%41". */
  lemma EscapeSeparates(params: Params)
    requires Given(Between('a', "%41", 'b'), params)
    ensures !Separable([Seg(['a']), Lit("%41"), Seg(['b'])]) && GivesBack(Between('a', "%41", 'b'), params)
  {
    ForeignLetter();
    ForeignSeparates('a', "%41", 'b', params);
  }

  lemma ForeignLetter()
    ensures AllForeign("%41") && Foreign("%41", 0) && !HasBar("%41", false)
  {
    var text: Bytes := "%41";
    assert HexValue('4') * 16 + HexValue('1') == 'A' as int;
    assert !Sep(text[0]) && !Sep(text[1]) && !Sep(text[2]);
  }

  /** Two placeholders with such a text between them. */
  lemma ForeignBars(text: Bytes, tokens: seq<Token>)
    requires Foreign(text, 0) && AllForeign(text) && !HasBar(text, false) && |tokens| == 3
    requires tokens[0].Seg? && tokens[1] == Lit(text) && tokens[2].Seg?
    ensures KeptApart(tokens) && !Separable(tokens) && LiteralsForeign(tokens)
  {
    assert Bars(MarkTokens(tokens)[1].text[0], false);
    assert tokens[1].Lit? && !HasBar(tokens[1].text, false);
  }

  function Assigned(raw: Bytes, value: Bytes): (r: Bytes) {
    raw + ['='] + Encode(value, false)
  }

  /** What is appended for two query names: "name=value" for each that has a value, the first after a
      '?', the second after a '&'. */
  function TwoAppended(a: Bytes, b: Bytes, params: Params): (r: Bytes) {
    var x, y := Normalize(a), Normalize(b);
    if x in params && y in params then ['?'] + (Assigned(a, params[x]) + ['&'] + Assigned(b, params[y]))
    else if x in params then ['?'] + Assigned(a, params[x])
    else if y in params then ['?'] + Assigned(b, params[y])
    else []
  }

  lemma TwoPairs(a: Bytes, b: Bytes, params: Params)
    ensures Pairs([a, b], params) ==
            (if Normalize(a) in params then [Pair(a, params)] else []) + if Normalize(b) in params then [Pair(b, params)] else []
  {
    assert [a, b][..1] == [a] && [a][..0] == [];
    assert Pairs([a], params) == Pairs([], params) + if Normalize(a) in params then [Pair(a, params)] else [];
    assert [a, b][1] == b && Pairs([], params) == [];
  }

  lemma TwoNames(a: Bytes, b: Bytes, params: Params)
    ensures QueryText(Pairs([a, b], params)) == TwoAppended(a, b, params)
  {
    TwoPairs(a, b, params);
    var p, q, pairs := Pair(a, params), Pair(b, params), Pairs([a, b], params);
    if Normalize(a) in params && Normalize(b) in params {
      assert pairs == [p, q] && pairs[1..] == [q];
      assert Join(pairs, '&') == p + ['&'] + q;
    } else if Normalize(a) in params {
      assert pairs == [p];
    } else if Normalize(b) in params {
      assert pairs == [q];
    }
  }

  lemma TwoNamesExpand(w: Written, a: Bytes, b: Bytes, params: Params)
    requires ProperTemplate(w) && Asked(w) == [a, b]
    ensures Expand(TemplateText(w), params) == Concat(PartsOf(Tokens(w.pre + w.post), params)) + TwoAppended(a, b, params)
  {
    ReadsAsWritten(w);
    ExpandsToParts(Pieces(PathText(w.pre + w.post)), {}, params);
    TwoNames(a, b, params);
  }

  // ---- White space and repeated keys ----

  ghost predicate PlainName(name: Bytes) {
    forall k :: 0 <= k < |name| ==> Unreserved(name[k])
  }

  ghost predicate Blank(s: Bytes) {
    forall k :: 0 <= k < |s| ==> s[k] in " \t\n\r" || s[k] as int == 11 || s[k] as int == 12
  }

  lemma {:induction false} TrimLeftPads(a: Bytes, s: Bytes)
    requires Blank(a) && (s == [] || !Space(s[0]))
    ensures TrimLeft(a + s) == s
  {
    if a == [] {
      assert a + s == s;
    } else {
      TrimLeftPads(a[1..], s);
      assert (a + s)[1..] == a[1..] + s;
    }
  }

  lemma {:induction false} TrimRightPads(s: Bytes, b: Bytes)
    requires Blank(b) && (s == [] || !Space(s[|s| - 1]))
    ensures TrimRight(s + b) == s
  {
    if b == [] {
      assert s + b == s;
    } else {
      TrimRightPads(s, b[..|b| - 1]);
      assert (s + b)[..|s + b| - 1] == s + b[..|b| - 1];
    }
  }

  /** White space around a name is dropped, and white space alone is no name. */
  lemma NamesAreTrimmed(raws: seq<Bytes>, a: Bytes, name: Bytes, b: Bytes)
    requires Blank(a) && Blank(b) && PlainName(name)
    ensures NonBlank(raws + [a + name + b]) == NonBlank(raws) + if name == [] then [] else [name]
  {
    Trimmed(a, name, b);
    NonBlankSnoc(raws, a + name + b);
  }

  lemma NonBlankSnoc(raws: seq<Bytes>, raw: Bytes)
    ensures NonBlank(raws + [raw]) == NonBlank(raws) + if Trim(raw) == [] then [] else [Trim(raw)]
  {
    assert (raws + [raw])[..|raws|] == raws;
  }

  lemma Trimmed(a: Bytes, name: Bytes, b: Bytes)
    requires Blank(a) && Blank(b) && PlainName(name)
    ensures Trim(a + name + b) == name
  {
    PlainIsNoSpace(name);
    if name == [] {
      assert a + name + b == (a + b) + [];
      TrimLeftPads(a + b, []);
    } else {
      assert a + name + b == a + (name + b);
      TrimLeftPads(a, name + b);
      TrimRightPads(name, b);
    }
  }

  lemma PlainIsNoSpace(name: Bytes)
    requires PlainName(name)
    ensures forall k :: 0 <= k < |name| ==> !Space(name[k])
  {
  }

  /** A path parameter is never displaced, whatever the query says. */
  lemma {:induction false} PathWins(out: Params, query: seq<Bytes>, q: Query, name: Bytes)
    requires name in out
    ensures name in AddQuery(out, query, q) && AddQuery(out, query, q)[name] == out[name]
  {
    if query != [] {
      PathWins(out, query[..|query| - 1], q, name);
    }
  }

  /** A key given twice keeps both values in order, and a template takes the first. */
  lemma RepeatedKeys(key: Bytes, v: Bytes, w: Bytes)
    requires PlainName(key) && '&' !in v && '&' !in w
    ensures var q := ParseQuery(key + ['='] + v + ['&'] + (key + ['='] + w));
      && key in q && q[key] == [Unescape(v), Unescape(w)]
      && AddQuery(map[], [key], q) == map[Normalize(key) := Unescape(v)]
  {
    var x, y := key + ['='] + v, key + ['='] + w;
    FieldIs(key, v);
    FieldIs(key, w);
    KeyLacks(key);
    SplitCons(x, '&', y);
    IndexOfNone(y, '&');
    assert Split(y, '&') == [y] && [x] + [y] == [x, y];
    assert x + ['&'] + y != [];
    assert ParseQuery(x + ['&'] + y) == AddFields([x, y]);
    TwoFields(x, y, key, Unescape(v), Unescape(w));
    FirstTaken(AddFields([x, y]), key);
  }

  lemma KeyLacks(key: Bytes)
    requires PlainName(key)
    ensures '=' !in key && '&' !in key && '%' !in key
  {
  }

  lemma FieldIs(key: Bytes, v: Bytes)
    requires PlainName(key)
    ensures FieldOf(key + ['='] + v) == Field(key, Unescape(v))
  {
    KeyLacks(key);
    var pair := key + ['='] + v;
    IndexOfAfter(key, '=', v);
    assert pair[..|key|] == key && pair[|key| + 1..] == v;
    DecodeLiteral(key);
  }

  lemma AddedFirst(x: Bytes, key: Bytes, v: Bytes)
    requires x != [] && FieldOf(x) == Field(key, v)
    ensures var q := AddFields([x]); q.Keys == {key} && q[key] == [v]
  {
    assert [x][..0] == [];
    assert AddFields([x]) == AddField(AddFields([]), x);
  }

  lemma TwoFields(x: Bytes, y: Bytes, key: Bytes, v: Bytes, w: Bytes)
    requires x != [] && y != [] && FieldOf(x) == Field(key, v) && FieldOf(y) == Field(key, w)
    ensures var q := AddFields([x, y]); key in q && q[key] == [v, w]
  {
    AddedFirst(x, key, v);
    assert [x, y][..1] == [x];
    assert AddFields([x, y]) == AddField(AddFields([x]), y);
  }

  lemma FirstTaken(q: Query, key: Bytes)
    requires key in q
    ensures AddQuery(map[], [key], q) == map[Normalize(key) := q[key][0]]
  {
    assert [key][..0] == [];
    assert AddQuery(map[], [], q) == map[];
  }

  /** A key without '=' has an empty value, which is kept. */
  lemma BareKey(key: Bytes)
    requires PlainName(key) && key != []
    ensures ParseQuery(key).Keys == {key} && ParseQuery(key)[key] == [[]]
  {
    KeyLacks(key);
    IndexOfNone(key, '&');
    IndexOfNone(key, '=');
    DecodeLiteral(key);
    assert FieldOf(key) == Field(key, []);
    assert Split(key, '&') == [key];
    AddedFirst(key, key, []);
  }
}
