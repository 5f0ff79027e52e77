/** Matching what a FastMCP template expands to gives the parameters back: exactly when. */
module TemplateRoundTrip {
  import opened Wrappers
  import opened Percent
  import opened Sequences
  import opened Scanning
  import opened PathMatching
  import opened FastMcp
  import opened EscapeMarks

  function PathNames(tokens: seq<Token>): (r: set<Bytes>) {
    set t | t in tokens && Hole(t) :: t.name
  }

  function QueryKeys(query: seq<Bytes>): (r: set<Bytes>) {
    set raw | raw in query :: Normalize(raw)
  }

  function Restrict(params: Params, names: set<Bytes>): (r: Params) {
    map n | n in params && n in names :: params[n]
  }

  /** Every path parameter has a non-empty value. */
  ghost predicate Suitable(tokens: seq<Token>, params: Params) {
    forall i :: 0 <= i < |tokens| && Hole(tokens[i]) ==> tokens[i].name in params && params[tokens[i].name] != []
  }

  ghost predicate LiteralsLack(tokens: seq<Token>, c: Byte) {
    forall i :: 0 <= i < |tokens| && tokens[i].Lit? ==> c !in tokens[i].text
  }

  ghost predicate PlainNames(query: seq<Bytes>) {
    forall i, k :: 0 <= i < |query| && 0 <= k < |query[i]| ==> Unreserved(query[i][k])
  }

  ghost predicate ComesBack(template: Bytes, tokens: seq<Token>, params: Params) {
    MatchUri(Expand(template, params), template) ==
    Some(Restrict(params, PathNames(tokens) + QueryKeys(SplitQuery(template).query)))
  }

  // ---- The path ----

  function PartOf(t: Token, params: Params): (r: Bytes) {
    match t
    case Lit(text) => text
    case Seg(name) => Encode(ValueOf(params, name), false)
    case Wild(name) => Encode(ValueOf(params, name), true)
  }

  function PartsOf(tokens: seq<Token>, params: Params): (r: seq<Bytes>)
    ensures |r| == |tokens| && forall i :: 0 <= i < |r| ==> r[i] == PartOf(tokens[i], params)
  {
    seq(|tokens|, i requires 0 <= i < |tokens| => PartOf(tokens[i], params))
  }

  /** Expanding a template that compiles writes the parts of its tokens. */
  lemma {:induction false} ExpandsToParts(pieces: seq<Piece>, seen: set<Bytes>, params: Params)
    requires Compile(pieces, seen).Some?
    ensures ExpandPieces(pieces, params) == Concat(PartsOf(Compile(pieces, seen).value, params))
  {
    if pieces != [] {
      var tokens := Compile(pieces, seen).value;
      var more := if pieces[0].Slot? then {ParseSlot(pieces[0].body).value.name} else {};
      assert seen + {} == seen;
      ExpandsToParts(pieces[1..], seen + more, params);
      assert tokens[1..] == Compile(pieces[1..], seen + more).value;
      assert PartsOf(tokens, params)[1..] == PartsOf(tokens[1..], params);
    }
  }

  /** The first token, and the rest compiled with its name seen. */
  lemma CompileTail(pieces: seq<Piece>, seen: set<Bytes>, tokens: seq<Token>) returns (more: set<Bytes>)
    requires Compile(pieces, seen) == Some(tokens) && tokens != []
    ensures pieces != [] && Compile(pieces[1..], seen + more) == Some(tokens[1..])
    ensures Hole(tokens[0]) ==> tokens[0].name in more && tokens[0].name !in seen
  {
    more := if pieces[0].Slot? then {ParseSlot(pieces[0].body).value.name} else {};
    assert seen + {} == seen;
    assert tokens[1..] == Compile(pieces[1..], seen + more).value;
  }

  /** Names are new and are used once. */
  ghost predicate NewNames(tokens: seq<Token>, seen: set<Bytes>) {
    Distinct(tokens) && forall j :: 0 <= j < |tokens| && Hole(tokens[j]) ==> tokens[j].name !in seen
  }

  lemma NewNamesCons(tokens: seq<Token>, seen: set<Bytes>, more: set<Bytes>)
    requires tokens != [] && NewNames(tokens[1..], seen + more)
    requires Hole(tokens[0]) ==> tokens[0].name in more && tokens[0].name !in seen
    ensures NewNames(tokens, seen)
  {
    assert forall j :: 0 < j < |tokens| ==> tokens[j] == tokens[1..][j - 1];
  }

  lemma {:induction false} CompiledNames(pieces: seq<Piece>, seen: set<Bytes>, tokens: seq<Token>)
    requires Compile(pieces, seen) == Some(tokens)
    ensures NewNames(tokens, seen)
    decreases tokens
  {
    if tokens != [] {
      var more := CompileTail(pieces, seen, tokens);
      CompiledNames(pieces[1..], seen + more, tokens[1..]);
      NewNamesCons(tokens, seen, more);
    }
  }

  lemma PartFits(t: Token, params: Params)
    requires Hole(t) ==> t.name in params && params[t.name] != []
    ensures Fits(t, PartOf(t, params)) && (Hole(t) ==> !HasBar(PartOf(t, params), true) && '?' !in PartOf(t, params))
  {
    if Hole(t) {
      EncodeAlphabet(params[t.name], t.Wild?);
    }
  }

  lemma PartsSplit(tokens: seq<Token>, params: Params)
    requires Suitable(tokens, params)
    ensures CleanSplit(tokens, Concat(PartsOf(tokens, params)), PartsOf(tokens, params))
  {
    forall i | 0 <= i < |tokens|
      ensures Fits(tokens[i], PartsOf(tokens, params)[i]) && (Hole(tokens[i]) ==> !HasBar(PartsOf(tokens, params)[i], true))
    {
      PartFits(tokens[i], params);
    }
  }

  lemma {:induction false} ConcatLacks(parts: seq<Bytes>, c: Byte)
    ensures c !in Concat(parts) <==> forall i :: 0 <= i < |parts| ==> c !in parts[i]
  {
    if parts != [] {
      ConcatLacks(parts[1..], c);
    }
  }

  lemma PathLacksQuestion(tokens: seq<Token>, params: Params)
    requires Suitable(tokens, params) && LiteralsLack(tokens, '?')
    ensures '?' !in Concat(PartsOf(tokens, params))
  {
    forall i | 0 <= i < |tokens|
      ensures '?' !in PartsOf(tokens, params)[i]
    {
      PartFits(tokens[i], params);
    }
    ConcatLacks(PartsOf(tokens, params), '?');
  }

  lemma PathNamesSnoc(tokens: seq<Token>, t: Token)
    ensures PathNames(tokens + [t]) == PathNames(tokens) + if Hole(t) then {t.name} else {}
  {
  }

  lemma RestrictAdd(params: Params, names: set<Bytes>, n: Bytes)
    ensures n in params ==> Restrict(params, names + {n}) == Restrict(params, names)[n := params[n]]
    ensures n !in params || n in names ==> Restrict(params, names + {n}) == Restrict(params, names)
  {
  }

  lemma PartDecodes(t: Token, params: Params)
    requires Hole(t)
    ensures Unescape(PartOf(t, params)) == ValueOf(params, t.name)
  {
    DecodeEncode(ValueOf(params, t.name), t.Wild?);
  }

  /** Decoding the parts gives the values. */
  lemma {:induction false} PartsDecode(tokens: seq<Token>, params: Params)
    requires Suitable(tokens, params)
    ensures PathParams(tokens, PartsOf(tokens, params)) == Restrict(params, PathNames(tokens))
  {
    if tokens != [] {
      var n := |tokens| - 1;
      var before, t := tokens[..n], tokens[n];
      PartsDecode(before, params);
      assert PartsOf(tokens, params)[..n] == PartsOf(before, params);
      assert tokens == before + [t];
      PathNamesSnoc(before, t);
      if Hole(t) {
        PartDecodes(t, params);
        RestrictAdd(params, PathNames(before), t.name);
      } else {
        assert PathNames(before) + {} == PathNames(before);
      }
    }
  }

  // ---- The query ----

  lemma {:induction false} DecodeLiteral(s: Bytes)
    requires '%' !in s
    ensures Decode(s) == Some(s)
  {
    if s != [] {
      DecodeLiteral(s[1..]);
      assert [s[0]] + s[1..] == s;
    }
  }

  lemma FieldOfPair(raw: Bytes, params: Params)
    requires forall k :: 0 <= k < |raw| ==> Unreserved(raw[k])
    ensures FieldOf(Pair(raw, params)) == Field(raw, ValueOf(params, Normalize(raw)))
    ensures Pair(raw, params) != [] && '&' !in Pair(raw, params)
  {
    var v := ValueOf(params, Normalize(raw));
    DecodeEncode(v, false);
    FieldOfText(raw, Encode(v, false), v);
    EncodeAlphabet(v, false);
  }

  lemma FieldOfText(raw: Bytes, e: Bytes, v: Bytes)
    requires (forall k :: 0 <= k < |raw| ==> Unreserved(raw[k])) && Decode(e) == Some(v)
    ensures FieldOf(raw + ['='] + e) == Field(raw, v)
  {
    var pair := raw + ['='] + e;
    IndexOfAfter(raw, '=', e);
    assert pair[..|raw|] == raw && pair[|raw| + 1..] == e;
    DecodeLiteral(raw);
  }

  /** What the parsed query says of each name. */
  ghost predicate Tells(q: Query, query: seq<Bytes>, params: Params) {
    && (forall raw :: raw in q <==> raw in query && Normalize(raw) in params)
    && (forall raw :: raw in q ==> q[raw][0] == params[Normalize(raw)])
  }

  lemma TellsMore(q: Query, query: seq<Bytes>, raw: Bytes, params: Params)
    requires Tells(q, query, params) && forall k :: 0 <= k < |raw| ==> Unreserved(raw[k])
    ensures Normalize(raw) in params ==> Tells(AddField(q, Pair(raw, params)), query + [raw], params)
    ensures Normalize(raw) !in params ==> Tells(q, query + [raw], params)
  {
    FieldOfPair(raw, params);
  }

  lemma FieldsSnoc(query: seq<Bytes>, params: Params)
    requires query != []
    ensures var raw, before := query[|query| - 1], AddFields(Pairs(query[..|query| - 1], params));
      AddFields(Pairs(query, params)) == if Normalize(raw) in params then AddField(before, Pair(raw, params)) else before
  {
    var n := |query| - 1;
    var raw, before := query[n], Pairs(query[..n], params);
    if Normalize(raw) in params {
      assert (before + [Pair(raw, params)])[..|before|] == before;
    } else {
      assert before + [] == before;
    }
  }

  lemma {:induction false} PairsTell(query: seq<Bytes>, params: Params)
    requires PlainNames(query)
    ensures Tells(AddFields(Pairs(query, params)), query, params)
  {
    if query != [] {
      var n := |query| - 1;
      PairsTell(query[..n], params);
      FieldsSnoc(query, params);
      Last(query);
      TellsMore(AddFields(Pairs(query[..n], params)), query[..n], query[n], params);
    }
  }

  lemma {:induction false} PairsClean(query: seq<Bytes>, params: Params)
    requires PlainNames(query)
    ensures forall i :: 0 <= i < |Pairs(query, params)| ==> Pairs(query, params)[i] != [] && '&' !in Pairs(query, params)[i]
  {
    if query != [] {
      var n := |query| - 1;
      PairsClean(query[..n], params);
      FieldOfPair(query[n], params);
    }
  }

  lemma ParsedQuery(query: seq<Bytes>, params: Params)
    requires PlainNames(query) && Pairs(query, params) != []
    ensures ParseQuery(Join(Pairs(query, params), '&')) == AddFields(Pairs(query, params))
  {
    var pairs := Pairs(query, params);
    PairsClean(query, params);
    SplitJoin(pairs, '&');
    assert |pairs| > 1 ==> Join(pairs, '&') == pairs[0] + ['&'] + Join(pairs[1..], '&');
  }

  lemma {:induction false} QueryAdds(names: set<Bytes>, query: seq<Bytes>, q: Query, params: Params, all: seq<Bytes>)
    requires Tells(q, all, params) && query <= all
    ensures AddQuery(Restrict(params, names), query, q) == Restrict(params, names + QueryKeys(query))
  {
    if query == [] {
      assert names + QueryKeys(query) == names;
    } else {
      var n := |query| - 1;
      QueryAdds(names, query[..n], q, params, all);
      assert query == query[..n] + [query[n]];
      assert names + QueryKeys(query) == names + QueryKeys(query[..n]) + {Normalize(query[n])};
      assert query[n] == all[n];
      RestrictAdd(params, names + QueryKeys(query[..n]), Normalize(query[n]));
    }
  }

  // ---- The round trip ----

  lemma CutAfter(path: Bytes, query: Bytes)
    requires '?' !in path
    ensures var uri := path + ['?'] + query; UriPath(uri) == path && UriQuery(uri) == query
  {
    IndexOfAfter(path, '?', query);
    AppendParts(path, ['?'] + query);
    AppendParts(path + ['?'], query);
    Assoc(path, ['?'], query);
  }

  /** The URI is cut where the expansion put the query. */
  lemma CutUri(template: Bytes, tokens: seq<Token>, params: Params)
    requires CompilePath(SplitQuery(template).path) == Some(tokens) && Suitable(tokens, params) && LiteralsLack(tokens, '?')
    ensures var uri, path := Expand(template, params), Concat(PartsOf(tokens, params));
      var pairs := Pairs(SplitQuery(template).query, params);
      UriPath(uri) == path && UriQuery(uri) == if pairs == [] then [] else Join(pairs, '&')
  {
    var path := Concat(PartsOf(tokens, params));
    var pairs := Pairs(SplitQuery(template).query, params);
    ExpandsToParts(Pieces(SplitQuery(template).path), {}, params);
    PathLacksQuestion(tokens, params);
    if pairs == [] {
      assert path + [] == path;
      IndexOfNone(path, '?');
    } else {
      Assoc(path, ['?'], Join(pairs, '&'));
      CutAfter(path, Join(pairs, '&'));
    }
  }

  /** What matching the expansion comes to. */
  lemma MatchExpanded(template: Bytes, tokens: seq<Token>, params: Params)
    requires CompilePath(SplitQuery(template).path) == Some(tokens) && Suitable(tokens, params)
    requires LiteralsLack(tokens, '?') && PlainNames(SplitQuery(template).query)
    ensures var query := SplitQuery(template).query;
      var m := Match(tokens, Concat(PartsOf(tokens, params)));
      MatchUri(Expand(template, params), template) ==
      if m.None? then None else Some(AddQuery(PathParams(tokens, m.value), query, AddFields(Pairs(query, params))))
  {
    var query := SplitQuery(template).query;
    CutUri(template, tokens, params);
    if Pairs(query, params) != [] {
      ParsedQuery(query, params);
    }
  }

  lemma MatchedComesBack(template: Bytes, tokens: seq<Token>, params: Params)
    requires CompilePath(SplitQuery(template).path) == Some(tokens) && Suitable(tokens, params)
    requires LiteralsLack(tokens, '?') && PlainNames(SplitQuery(template).query)
    requires Match(tokens, Concat(PartsOf(tokens, params))) == Some(PartsOf(tokens, params))
    ensures ComesBack(template, tokens, params)
  {
    var query := SplitQuery(template).query;
    MatchExpanded(template, tokens, params);
    PartsDecode(tokens, params);
    PairsTell(query, params);
    QueryAdds(PathNames(tokens), query, AddFields(Pairs(query, params)), params, query);
  }

  /** Placeholders kept apart by bytes that no value holds; the literals may be anything else. */
  lemma RoundTrip(template: Bytes, tokens: seq<Token>, params: Params)
    requires CompilePath(SplitQuery(template).path) == Some(tokens) && Suitable(tokens, params)
    requires LiteralsLack(tokens, '?') && PlainNames(SplitQuery(template).query) && Separable(tokens)
    ensures ComesBack(template, tokens, params)
  {
    var parts := PartsOf(tokens, params);
    PartsSplit(tokens, params);
    MatchesOnlySplit(tokens, Concat(parts), parts);
    MatchedComesBack(template, tokens, params);
  }

  // ---- Escapes in literals ----

  /** Every '%' of a literal starts a triplet that no encoder writes. */
  ghost predicate LiteralsForeign(tokens: seq<Token>) {
    forall i :: 0 <= i < |tokens| && tokens[i].Lit? ==> AllForeign(tokens[i].text)
  }

  /** Placeholders kept apart by bytes or by escapes that no value holds. */
  ghost predicate KeptApart(tokens: seq<Token>) {
    Separable(MarkTokens(tokens))
  }

  lemma PartMarked(t: Token, params: Params)
    requires Hole(t) ==> t.name in params && params[t.name] != []
    requires t.Lit? ==> AllForeign(t.text)
    ensures Complete(PartOf(t, params)) && (Hole(t) ==> Mark(PartOf(t, params)) == PartOf(t, params))
  {
    if Hole(t) {
      EncodeNative(params[t.name], t.Wild?);
      NativeUnmarked(PartOf(t, params));
    }
  }

  lemma PartsMarked(tokens: seq<Token>, params: Params)
    requires Suitable(tokens, params) && LiteralsForeign(tokens)
    ensures Clean(MarkTokens(tokens), MarkAll(PartsOf(tokens, params)))
    ensures forall i :: 0 <= i < |tokens| ==> Complete(PartsOf(tokens, params)[i])
  {
    var p := PartsOf(tokens, params);
    PartsSplit(tokens, params);
    forall i | 0 <= i < |tokens|
      ensures Complete(p[i]) && (Hole(tokens[i]) ==> MarkAll(p)[i] == p[i])
    {
      PartMarked(tokens[i], params);
    }
  }

  lemma RoundTripMarked(template: Bytes, tokens: seq<Token>, params: Params)
    requires CompilePath(SplitQuery(template).path) == Some(tokens) && Suitable(tokens, params)
    requires LiteralsLack(tokens, '?') && PlainNames(SplitQuery(template).query) && LiteralsForeign(tokens) && KeptApart(tokens)
    ensures ComesBack(template, tokens, params)
  {
    PartsSplit(tokens, params);
    PartsMarked(tokens, params);
    MatchesOnlyMarked(tokens, Concat(PartsOf(tokens, params)), PartsOf(tokens, params));
    MatchedComesBack(template, tokens, params);
  }

  // ---- When it fails ----

  /** No two literals are adjacent. */
  ghost predicate Alternates(tokens: seq<Token>) {
    forall i :: 0 <= i < |tokens| - 1 && tokens[i].Lit? ==> Hole(tokens[i + 1])
  }

  lemma {:induction false} TextEndsAtBrace(path: Bytes)
    requires path != [] && Next(path).piece.Text?
    ensures Next(path).len < |path| ==> !Next(path[Next(path).len..]).piece.Text?
  {
  }

  lemma {:induction false} CompiledAlternates(path: Bytes, seen: set<Bytes>)
    requires Compile(Pieces(path), seen).Some?
    ensures Alternates(Compile(Pieces(path), seen).value)
    ensures path != [] && !Next(path).piece.Text? ==> |Compile(Pieces(path), seen).value| > 0 && Hole(Compile(Pieces(path), seen).value[0])
    decreases |path|
  {
    if path != [] {
      var f := Next(path);
      var rest := path[f.len..];
      var more := if f.piece.Slot? then {ParseSlot(f.piece.body).value.name} else {};
      assert Pieces(path)[1..] == Pieces(rest);
      assert seen + {} == seen;
      CompiledAlternates(rest, seen + more);
      var tokens, tail := Compile(Pieces(path), seen).value, Compile(Pieces(rest), seen + more).value;
      assert tokens[1..] == tail;
      if f.piece.Text? && rest != [] {
        TextEndsAtBrace(path);
      }
      assert forall i :: 1 <= i < |tokens| ==> tokens[i] == tail[i - 1];
    }
  }

  /** The bytes between two placeholders could all stand in values of both. */
  ghost predicate Blurred(tokens: seq<Token>, i: nat, j: nat)
    requires i < j < |tokens|
  {
    && Hole(tokens[i]) && Hole(tokens[j])
    && (forall m, k :: i < m < j && tokens[m].Lit? && 0 <= k < |tokens[m].text| ==>
          Keeps(tokens[i].Wild? && tokens[j].Wild?, tokens[m].text[k]))
  }

  lemma FindBlur(tokens: seq<Token>) returns (i: nat, j: nat)
    requires !Separable(tokens) && Alternates(tokens) && LiteralsLack(tokens, '%')
    ensures i < j < |tokens| && Blurred(tokens, i, j)
  {
    if a :| 0 <= a < |tokens| - 1 && Hole(tokens[a]) && Hole(tokens[a + 1]) {
      i, j := a, a + 1;
    } else if b :| 0 < b < |tokens| - 1 && tokens[b].Lit? && !HasBar(tokens[b].text, false) {
      i, j := b - 1, b + 1;
      assert tokens[i + 1].Lit? && Hole(tokens[j]) && Hole(tokens[i]);
      forall k | 0 <= k < |tokens[b].text|
        ensures Keeps(false, tokens[b].text[k])
      {
        assert !Bars(tokens[b].text[k], false);
      }
    } else {
      var a, b :| 0 <= a < b < |tokens| && tokens[a].Wild? && tokens[b].Wild? && !BarBetween(tokens, a, b);
      i, j := a, b;
      forall m, k | a < m < b && tokens[m].Lit? && 0 <= k < |tokens[m].text|
        ensures Keeps(true, tokens[m].text[k])
      {
        assert !HasBar(tokens[m].text, true);
        assert !Bars(tokens[m].text[k], true);
      }
    }
  }

  const X: Bytes := "x"

  /** The value that can trade places with one letter around the middle. */
  ghost function Stretch(mid: seq<Bytes>): (v: Bytes) {
    X + Concat(mid) + X
  }

  /** One letter for every placeholder but one. */
  ghost function Letters(tokens: seq<Token>, name: Bytes, v: Bytes): (r: Params) {
    map n | n in PathNames(tokens) :: if n == name then v else X
  }

  lemma LettersSuit(tokens: seq<Token>, name: Bytes, v: Bytes)
    requires v != []
    ensures Suitable(tokens, Letters(tokens, name, v))
  {
  }

  lemma LetterPart(t: Token, params: Params)
    requires Hole(t) && t.name in params && params[t.name] == X
    ensures PartOf(t, params) == X
  {
    EncodeKept(X, t.Wild?);
  }

  lemma {:induction false} ConcatKept(parts: seq<Bytes>, wildcard: bool)
    requires forall m, k :: 0 <= m < |parts| && 0 <= k < |parts[m]| ==> Keeps(wildcard, parts[m][k])
    ensures forall k :: 0 <= k < |Concat(parts)| ==> Keeps(wildcard, Concat(parts)[k])
  {
    if parts != [] {
      ConcatKept(parts[1..], wildcard);
    }
  }

  /** What stands between two blurred placeholders when the others hold one letter. */
  ghost predicate IsMid(tokens: seq<Token>, i: nat, j: nat, mid: seq<Bytes>)
    requires i < j < |tokens|
  {
    && |mid| == j - i - 1
    && (forall m :: 0 <= m < |mid| ==> mid[m] == if tokens[i + 1 + m].Lit? then tokens[i + 1 + m].text else X)
    && (forall k :: 0 <= k < |Concat(mid)| ==> Keeps(tokens[i].Wild? && tokens[j].Wild?, Concat(mid)[k]))
  }

  lemma Between(tokens: seq<Token>, i: nat, j: nat) returns (mid: seq<Bytes>)
    requires i < j < |tokens| && Blurred(tokens, i, j)
    ensures IsMid(tokens, i, j, mid)
  {
    mid := seq(j - i - 1, m requires 0 <= m < j - i - 1 => if tokens[i + 1 + m].Lit? then tokens[i + 1 + m].text else X);
    ConcatKept(mid, tokens[i].Wild? && tokens[j].Wild?);
  }

  ghost predicate Swap(p: seq<Bytes>, q: seq<Bytes>, i: nat, j: nat, mid: seq<Bytes>)
    requires i < j < |p|
  {
    var v := Stretch(mid);
    p[i + 1..j] == mid && p[i] == X && p[j] == v && q == p[i := v][j := X]
  }

  lemma Rotate(a: Bytes, x: Bytes, m: Bytes, c: Bytes)
    ensures a + x + m + (x + m + x) + c == a + (x + m + x) + m + x + c
  {
  }

  lemma SwapSame(p: seq<Bytes>, q: seq<Bytes>, i: nat, j: nat, mid: seq<Bytes>)
    requires i < j < |p| && Swap(p, q, i, j, mid)
    ensures Concat(p) == Concat(q)
  {
    Around(p, i, j);
    Around(q, i, j);
    assert q[0..i] == p[0..i];
    assert q[i + 1..j] == p[i + 1..j];
    assert q[j + 1..|q|] == p[j + 1..|p|];
    Rotate(Concat(p[0..i]), X, Concat(mid), Concat(p[j + 1..|p|]));
  }

  lemma Around(p: seq<Bytes>, i: nat, j: nat)
    requires i < j < |p|
    ensures Concat(p) == Concat(p[0..i]) + p[i] + Concat(p[i + 1..j]) + p[j] + Concat(p[j + 1..|p|])
  {
    ConcatAround(p, j);
    var q := p[0..j];
    ConcatAround(q, i);
    SliceOfTake(p, 0, i, j);
    SliceOfTake(p, i + 1, j, j);
  }

  lemma KeptFits(t: Token, v: Bytes, wildcard: bool)
    requires Hole(t) && v != [] && (wildcard ==> t.Wild?) && forall k :: 0 <= k < |v| ==> Keeps(wildcard, v[k])
    ensures Fits(t, v) && Encode(v, t.Wild?) == v && '%' !in v
  {
    EncodeKept(v, t.Wild?);
  }

  /** The swapped reading is a split of the same text. */
  lemma SwapSplits(tokens: seq<Token>, params: Params, i: nat, j: nat, mid: seq<Bytes>, q: seq<Bytes>)
    requires i < j < |tokens| && Suitable(tokens, params) && Swap(PartsOf(tokens, params), q, i, j, mid)
    requires Fits(tokens[i], q[i]) && Fits(tokens[j], q[j])
    ensures Splits(tokens, Concat(PartsOf(tokens, params)), q)
  {
    SwapSame(PartsOf(tokens, params), q, i, j, mid);
    PartsSplit(tokens, params);
  }

  lemma {:induction false} PathParamAt(tokens: seq<Token>, parts: seq<Bytes>, k: nat)
    requires |parts| == |tokens| && Distinct(tokens) && k < |tokens| && Hole(tokens[k])
    ensures tokens[k].name in PathParams(tokens, parts) && PathParams(tokens, parts)[tokens[k].name] == Unescape(parts[k])
  {
    var n := |tokens| - 1;
    if k < n {
      PathParamAt(tokens[..n], parts[..n], k);
    }
  }

  lemma {:induction false} QueryKeepsPath(out: Params, query: seq<Bytes>, q: Query, n: Bytes)
    requires n in out
    ensures n in AddQuery(out, query, q) && AddQuery(out, query, q)[n] == out[n]
  {
    if query != [] {
      QueryKeepsPath(out, query[..|query| - 1], q, n);
    }
  }

  /** Where values are written as they are, no reading of the URI captures a '%': each one belongs to a
      literal's foreign triplet. */
  lemma NoEscapeCaptured(tokens: seq<Token>, params: Params, k: nat)
    requires Suitable(tokens, params) && LiteralsForeign(tokens) && Verbatim(tokens, params)
    requires k < |tokens| && Hole(tokens[k])
    ensures var m := Match(tokens, Concat(PartsOf(tokens, params))); m.Some? && '%' !in m.value[k]
  {
    var p := PartsOf(tokens, params);
    var u := Concat(p);
    PartsSplit(tokens, params);
    PartsMarked(tokens, params);
    MatchGreediest(tokens, u, p);
    MatchSound(tokens, u);
    var m := Match(tokens, u).value;
    MarkedReading(tokens, u, p, m);
    forall i | 0 <= i < |p|
      ensures '%' !in MarkAll(p)[i]
    {
      assert IsVerbatim(tokens[i], params);
    }
    ConcatLacks(MarkAll(p), '%');
    ConcatLacks(MarkAll(m), '%');
    CleanHasNoEscape(m[k]);
    assert '%' !in MarkAll(m)[k] && !HasBar(MarkAll(m)[k], true);
  }

  lemma CleanHasNoEscape(s: Bytes)
    ensures '%' !in Mark(s) && !HasBar(Mark(s), true) ==> '%' !in s
  {
    if '%' !in Mark(s) && !HasBar(Mark(s), true) {
      forall i | 0 <= i < |s|
        ensures s[i] != '%'
      {
        assert Mark(s)[i] in Mark(s) && !Bars(Mark(s)[i], true);
      }
    }
  }

  /** If the parameters come back and a capture holds no '%', it was read as it was written. */
  lemma ComesBackPart(template: Bytes, tokens: seq<Token>, params: Params, k: nat)
    requires CompilePath(SplitQuery(template).path) == Some(tokens) && Suitable(tokens, params) && Distinct(tokens)
    requires LiteralsLack(tokens, '?') && PlainNames(SplitQuery(template).query)
    requires LiteralsForeign(tokens) && Verbatim(tokens, params) && k < |tokens|
    requires ComesBack(template, tokens, params)
    ensures var m := Match(tokens, Concat(PartsOf(tokens, params)));
      m.Some? && (if Hole(tokens[k]) then m.value[k] == params[tokens[k].name] else m.value[k] == tokens[k].text)
  {
    var u, query := Concat(PartsOf(tokens, params)), SplitQuery(template).query;
    MatchExpanded(template, tokens, params);
    var m := Match(tokens, u).value;
    MatchSound(tokens, u);
    assert Fits(tokens[k], m[k]);
    if Hole(tokens[k]) {
      NoEscapeCaptured(tokens, params, k);
      DecodeLiteral(m[k]);
      PathParamAt(tokens, m, k);
      QueryKeepsPath(PathParams(tokens, m), query, AddFields(Pairs(query, params)), tokens[k].name);
    }
  }

  /** Parameters that a blurred template does not give back: greedy matching moves text from one
      placeholder to the other. */
  lemma BlurFails(template: Bytes, tokens: seq<Token>, i: nat, j: nat) returns (params: Params)
    requires CompilePath(SplitQuery(template).path) == Some(tokens) && Distinct(tokens)
    requires LiteralsLack(tokens, '?') && LiteralsForeign(tokens) && PlainNames(SplitQuery(template).query)
    requires i < j < |tokens| && Blurred(tokens, i, j)
    ensures Suitable(tokens, params) && !ComesBack(template, tokens, params)
  {
    var mid := Between(tokens, i, j);
    var v := Stretch(mid);
    params := Letters(tokens, tokens[j].name, v);
    LettersSuit(tokens, tokens[j].name, v);
    var q := BlurParts(tokens, i, j, mid, params);
    BlurKept(tokens, i, j, mid);
    SwapSplits(tokens, params, i, j, mid, q);
    GreedyMoves(template, tokens, params, q, i);
  }

  lemma GreedyMoves(template: Bytes, tokens: seq<Token>, params: Params, q: seq<Bytes>, i: nat)
    requires CompilePath(SplitQuery(template).path) == Some(tokens) && Distinct(tokens) && Suitable(tokens, params)
    requires LiteralsLack(tokens, '?') && LiteralsForeign(tokens) && PlainNames(SplitQuery(template).query)
    requires var p := PartsOf(tokens, params);
      && Verbatim(tokens, params) && Splits(tokens, Concat(p), q) && i < |p|
      && |p[i]| < |q[i]| && forall k :: 0 <= k < i ==> q[k] == p[k]
    ensures !ComesBack(template, tokens, params)
  {
    var p := PartsOf(tokens, params);
    MatchGreediest(tokens, Concat(p), q);
    if ComesBack(template, tokens, params) {
      var m := Match(tokens, Concat(p)).value;
      forall k | 0 <= k <= i
        ensures m[k] == p[k]
      {
        ComesBackVerbatim(template, tokens, params, k);
      }
      NotGreedier(m, p, q, i);
    }
  }

  lemma ComesBackVerbatim(template: Bytes, tokens: seq<Token>, params: Params, k: nat)
    requires CompilePath(SplitQuery(template).path) == Some(tokens) && Suitable(tokens, params) && Distinct(tokens)
    requires LiteralsLack(tokens, '?') && PlainNames(SplitQuery(template).query)
    requires LiteralsForeign(tokens) && Verbatim(tokens, params) && k < |tokens|
    requires ComesBack(template, tokens, params)
    ensures var m := Match(tokens, Concat(PartsOf(tokens, params))); m.Some? && m.value[k] == PartsOf(tokens, params)[k]
  {
    assert IsVerbatim(tokens[k], params);
    ComesBackPart(template, tokens, params, k);
  }

  lemma NotGreedier(m: seq<Bytes>, p: seq<Bytes>, q: seq<Bytes>, i: nat)
    requires |m| == |p| == |q| && i < |p| && forall k :: 0 <= k <= i ==> m[k] == p[k]
    requires |p[i]| < |q[i]| && forall k :: 0 <= k < i ==> q[k] == p[k]
    ensures m != q && !Greedier(m, q)
  {
    forall k | 0 <= k < |m|
      ensures !(m[..k] == q[..k] && |m[k]| > |q[k]|)
    {
      if k > i {
        assert m[..k][i] == m[i] && q[..k][i] == q[i];
      }
    }
  }

  /** The value is written as it is. */
  ghost predicate IsVerbatim(t: Token, params: Params) {
    Hole(t) ==> '%' !in PartOf(t, params) && t.name in params && PartOf(t, params) == params[t.name]
  }

  ghost predicate Verbatim(tokens: seq<Token>, params: Params) {
    forall k :: 0 <= k < |tokens| ==> IsVerbatim(tokens[k], params)
  }

  lemma BlurPart(tokens: seq<Token>, j: nat, v: Bytes, params: Params, k: nat)
    requires j < |tokens| && k < |tokens| && Hole(tokens[j]) && Distinct(tokens) && Encode(v, tokens[j].Wild?) == v
    requires '%' !in v && params == Letters(tokens, tokens[j].name, v)
    ensures PartOf(tokens[k], params) == if tokens[k].Lit? then tokens[k].text else if k == j then v else X
    ensures IsVerbatim(tokens[k], params)
  {
    if Hole(tokens[k]) {
      assert tokens[k].name in PathNames(tokens);
      if k != j {
        LetterPart(tokens[k], params);
      }
    }
  }

  lemma BlurKept(tokens: seq<Token>, i: nat, j: nat, mid: seq<Bytes>)
    requires i < j < |tokens| && Blurred(tokens, i, j) && IsMid(tokens, i, j, mid)
    ensures var v := Stretch(mid);
      Fits(tokens[i], v) && Fits(tokens[j], X) && Encode(v, tokens[j].Wild?) == v && '%' !in v && |v| > |X|
  {
    var v, wild := Stretch(mid), tokens[i].Wild? && tokens[j].Wild?;
    KeptFits(tokens[j], v, wild);
    KeptFits(tokens[i], v, wild);
    KeptFits(tokens[j], X, false);
  }

  /** Every placeholder but one holds the letter. */
  ghost predicate Lettered(tokens: seq<Token>, p: seq<Bytes>, j: nat, v: Bytes) {
    |p| == |tokens| && forall k :: 0 <= k < |tokens| ==> p[k] == if tokens[k].Lit? then tokens[k].text else if k == j then v else X
  }

  lemma BlurLettered(tokens: seq<Token>, j: nat, v: Bytes, params: Params)
    requires j < |tokens| && Hole(tokens[j]) && Distinct(tokens) && Encode(v, tokens[j].Wild?) == v
    requires '%' !in v && params == Letters(tokens, tokens[j].name, v)
    ensures Lettered(tokens, PartsOf(tokens, params), j, v) && Verbatim(tokens, params)
  {
    forall k | 0 <= k < |tokens|
      ensures IsVerbatim(tokens[k], params)
      ensures PartOf(tokens[k], params) == if tokens[k].Lit? then tokens[k].text else if k == j then v else X
    {
      BlurPart(tokens, j, v, params, k);
    }
  }

  lemma LetteredMid(tokens: seq<Token>, p: seq<Bytes>, i: nat, j: nat, mid: seq<Bytes>)
    requires i < j < |tokens| && Lettered(tokens, p, j, Stretch(mid)) && IsMid(tokens, i, j, mid)
    ensures p[i + 1..j] == mid
  {
    forall m | 0 <= m < |mid|
      ensures p[i + 1..j][m] == mid[m]
    {
      assert p[i + 1..j][m] == p[i + 1 + m];
    }
  }

  lemma BlurParts(tokens: seq<Token>, i: nat, j: nat, mid: seq<Bytes>, params: Params) returns (q: seq<Bytes>)
    requires i < j < |tokens| && Blurred(tokens, i, j) && Distinct(tokens) && IsMid(tokens, i, j, mid)
    requires params == Letters(tokens, tokens[j].name, Stretch(mid))
    ensures Swap(PartsOf(tokens, params), q, i, j, mid) && Verbatim(tokens, params)
  {
    BlurKept(tokens, i, j, mid);
    BlurLettered(tokens, j, Stretch(mid), params);
    LetteredMid(tokens, PartsOf(tokens, params), i, j, mid);
    q := PartsOf(tokens, params)[i := Stretch(mid)][j := X];
  }

  lemma SplitLacks(tokens: seq<Token>, u: Bytes, parts: seq<Bytes>, c: Byte)
    requires Splits(tokens, u, parts) && c !in u
    ensures LiteralsLack(tokens, c)
  {
    ConcatLacks(parts, c);
    forall i | 0 <= i < |tokens| && tokens[i].Lit?
      ensures c !in tokens[i].text
    {
      assert Fits(tokens[i], parts[i]);
    }
  }

  /** A literal with a '?' is never reached: the URI is cut before it. */
  lemma QuestionFails(template: Bytes, tokens: seq<Token>, params: Params)
    requires CompilePath(SplitQuery(template).path) == Some(tokens) && !LiteralsLack(tokens, '?')
    ensures MatchUri(Expand(template, params), template) == None
  {
    var uri := Expand(template, params);
    var path := UriPath(uri);
    if Match(tokens, path).Some? {
      MatchSound(tokens, path);
      SplitLacks(tokens, path, Match(tokens, path).value, '?');
    }
  }

  /** Blurred placeholders of the marked tokens are blurred ones of the tokens. */
  lemma FindMarkedBlur(tokens: seq<Token>) returns (i: nat, j: nat)
    requires !KeptApart(tokens) && Alternates(tokens) && LiteralsForeign(tokens)
    ensures i < j < |tokens| && Blurred(tokens, i, j)
  {
    var marked := MarkTokens(tokens);
    forall k | 0 <= k < |marked| && marked[k].Lit?
      ensures '%' !in marked[k].text
    {
      assert AllForeign(tokens[k].text);
    }
    i, j := FindBlur(marked);
    forall m, k | i < m < j && tokens[m].Lit? && 0 <= k < |tokens[m].text|
      ensures Keeps(tokens[i].Wild? && tokens[j].Wild?, tokens[m].text[k])
    {
      assert marked[m].Lit? && Keeps(marked[i].Wild? && marked[j].Wild?, marked[m].text[k]);
    }
  }

  /** For a template that compiles, in whose literals every '%' starts a triplet that no encoder
      writes, and whose query names are plain: every choice of non-empty path values comes back if
      and only if no literal holds a '?' and the placeholders are kept apart. */
  lemma RoundTripIff(template: Bytes, tokens: seq<Token>)
    requires CompilePath(SplitQuery(template).path) == Some(tokens)
    requires LiteralsForeign(tokens) && PlainNames(SplitQuery(template).query)
    ensures (forall params :: Suitable(tokens, params) ==> ComesBack(template, tokens, params)) <==>
            LiteralsLack(tokens, '?') && KeptApart(tokens)
  {
    var path := SplitQuery(template).path;
    if !LiteralsLack(tokens, '?') {
      var params := Letters(tokens, [], X);
      LettersSuit(tokens, [], X);
      QuestionFails(template, tokens, params);
      assert !ComesBack(template, tokens, params);
    } else if !KeptApart(tokens) {
      CompiledAlternates(path, {});
      CompiledNames(Pieces(path), {}, tokens);
      var i, j := FindMarkedBlur(tokens);
      var params := BlurFails(template, tokens, i, j);
    } else {
      forall params | Suitable(tokens, params)
        ensures ComesBack(template, tokens, params)
      {
        RoundTripMarked(template, tokens, params);
      }
    }
  }
}
