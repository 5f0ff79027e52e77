/** Which mounted templates give every request back (mount/mount.go): a condition on the template. */
module MountedReads {
  import opened Wrappers
  import opened Percent
  import opened Sequences
  import opened Scanning
  import opened PathMatching
  import opened MountedTemplates

  /** A placeholder stands directly before "//". */
  predicate SlashesFollow(tokens: seq<Token>, i: nat) {
    i + 2 < |tokens| && Hole(tokens[i]) && tokens[i + 1] == Lit(['/']) && tokens[i + 2] == Lit(['/'])
  }

  predicate Exposed(tmpl: Bytes) {
    exists i :: 0 <= i < |Tokens(tmpl)| && SlashesFollow(Tokens(tmpl), i)
  }

  /** No value can make a "://" ahead of the template's own: none in the scheme part, or none at all
      when the template has no marker.  In protocol style any marker will do. */
  predicate Recoverable(tmpl: Bytes, style: Style) {
    var k := MarkerAt(tmpl);
    if k == |tmpl| then !Exposed(tmpl) else style == ProtocolStyle || !Exposed(tmpl[..k])
  }

  // ---- Where a marker of the rebuilt URI comes from ----

  ghost predicate Units(tokens: seq<Token>) {
    forall i :: 0 <= i < |tokens| && tokens[i].Lit? ==> |tokens[i].text| == 1
  }

  lemma {:induction false} TokensAreUnits(tmpl: Bytes)
    ensures Units(Tokens(tmpl)) && |Tokens(tmpl)| <= |tmpl|
    decreases |tmpl|
  {
    if tmpl != [] {
      TokensAreUnits(tmpl[FirstLen(tmpl)..]);
    }
  }

  lemma SlashStarts(tokens: seq<Token>, parts: seq<Bytes>)
    requires Units(tokens) && AllSegs(tokens) && Fit(tokens, parts) && Concat(parts) != [] && Concat(parts)[0] == '/'
    ensures tokens != [] && tokens[0] == Lit(['/']) && Concat(parts)[1..] == Concat(parts[1..])
  {
    assert Fits(tokens[0], parts[0]) && Concat(parts)[0] == parts[0][0];
  }

  /** The marker's ':' ends the first part. */
  lemma MarkerSourceHere(tokens: seq<Token>, parts: seq<Bytes>)
    requires Units(tokens) && AllSegs(tokens) && Fit(tokens, parts) && parts != []
    requires parts[0] != [] && IsMarker(Concat(parts), |parts[0]| - 1)
    ensures 2 < |tokens| && tokens[1] == Lit(['/']) && tokens[2] == Lit(['/'])
    ensures Hole(tokens[0]) || tokens[0] == Lit([':'])
  {
    var u, n, rest := Concat(parts), |parts[0]|, Concat(parts[1..]);
    assert Fits(tokens[0], parts[0]) && u[n - 1] == parts[0][n - 1];
    assert rest[0] == u[n] && rest[1] == u[n + 1];
    SlashStarts(tokens[1..], parts[1..]);
    SlashStarts(tokens[1..][1..], parts[1..][1..]);
  }

  /** No byte but the last of a part can start a marker. */
  lemma MarkerNotInside(tokens: seq<Token>, parts: seq<Bytes>, j: nat)
    requires Units(tokens) && AllSegs(tokens) && Fit(tokens, parts) && IsMarker(Concat(parts), j)
    ensures parts != [] && parts[0] != [] && j + 1 >= |parts[0]|
  {
    assert Fits(tokens[0], parts[0]);
    assert forall l :: 0 <= l < |parts[0]| ==> Concat(parts)[l] == parts[0][l];
  }

  lemma {:induction false} MarkerSource(tokens: seq<Token>, parts: seq<Bytes>, j: nat) returns (i: nat)
    requires Units(tokens) && AllSegs(tokens) && Fit(tokens, parts) && IsMarker(Concat(parts), j)
    ensures i + 2 < |tokens| && tokens[i + 1] == Lit(['/']) && tokens[i + 2] == Lit(['/'])
    ensures (Hole(tokens[i]) || tokens[i] == Lit([':'])) && |Concat(parts[..i + 1])| == j + 1
  {
    MarkerNotInside(tokens, parts, j);
    var n := |parts[0]|;
    if j + 1 == n {
      i := 0;
      MarkerSourceHere(tokens, parts);
      ConcatOne(parts[..1]);
    } else {
      AppendParts(parts[0], Concat(parts[1..]));
      TailIsMarked(Concat(parts), n, j);
      var l := MarkerSource(tokens[1..], parts[1..], j - n);
      i := l + 1;
      assert parts[..i + 1][1..] == parts[1..][..l + 1];
    }
  }

  lemma TailIsMarked(u: Bytes, n: nat, j: nat)
    requires n <= j && IsMarker(u, j)
    ensures n <= |u| && IsMarker(u[n..], j - n)
  {
  }

  /** Three literal tokens in a row stand in a row in the template. */
  lemma {:induction false} LiteralMarker(tmpl: Bytes, i: nat) returns (q: nat)
    requires i + 2 < |Tokens(tmpl)|
    requires Tokens(tmpl)[i] == Lit([':']) && Tokens(tmpl)[i + 1] == Lit(['/']) && Tokens(tmpl)[i + 2] == Lit(['/'])
    ensures IsMarker(tmpl, q) && |tmpl| - q >= |Tokens(tmpl)| - i
    decreases |tmpl|
  {
    if i == 0 {
      q := 0;
      FirstByte(tmpl, ':');
      FirstByte(tmpl[1..], '/');
      FirstByte(tmpl[1..][1..], '/');
      TokensAreUnits(tmpl);
    } else {
      var k := FirstLen(tmpl);
      assert Tokens(tmpl)[1..] == Tokens(tmpl[k..]);
      var l := LiteralMarker(tmpl[k..], i - 1);
      q := k + l;
    }
  }

  lemma FirstByte(tmpl: Bytes, c: Byte)
    requires Tokens(tmpl) != [] && Tokens(tmpl)[0] == Lit([c])
    ensures tmpl != [] && tmpl[0] == c && Tokens(tmpl)[1..] == Tokens(tmpl[1..])
  {
    assert !Opens(tmpl) && tmpl[..1][0] == tmpl[0];
  }

  /** A marker in an expansion is a placeholder's doing or the template's own, and one that is not at
      the end of the expansion is not at the end of the template. */
  lemma MarkerOrigin(tmpl: Bytes, parts: seq<Bytes>, j: nat)
    requires Fit(Tokens(tmpl), parts) && IsMarker(Concat(parts), j)
    ensures Exposed(tmpl) || exists q: nat :: IsMarker(tmpl, q) && (j + 3 < |Concat(parts)| ==> q + 3 < |tmpl|)
  {
    var tokens := Tokens(tmpl);
    TokensAreUnits(tmpl);
    TokensAreSegs(tmpl);
    var i := MarkerSource(tokens, parts, j);
    if Hole(tokens[i]) {
      assert SlashesFollow(tokens, i);
    } else {
      var q := LiteralMarker(tmpl, i);
      if i + 3 == |tokens| {
        LastTwo(tokens, parts, i);
      }
      assert IsMarker(tmpl, q);
    }
  }

  lemma LastTwo(tokens: seq<Token>, parts: seq<Bytes>, i: nat)
    requires Fit(tokens, parts) && i + 3 == |tokens| && tokens[i + 1] == Lit(['/']) && tokens[i + 2] == Lit(['/'])
    ensures |Concat(parts)| == |Concat(parts[..i + 1])| + 2
  {
    ConcatAround(parts, i + 1);
    ConcatOne(parts[i + 2..|parts|]);
    assert Fits(tokens[i + 1], parts[i + 1]) && Fits(tokens[i + 2], parts[i + 2]);
    assert parts[0..i + 1] == parts[..i + 1];
  }

  // ---- Recoverable templates ----

  /** What the child's match of the rebuilt URI captured, cut where the prefix goes. */
  lemma ReadParts(tmpl: Bytes, k: nat, params: Params) returns (q1: seq<Bytes>, q2: seq<Bytes>)
    requires k <= |tmpl| && Closed(tmpl[..k]) && Distinct(Tokens(tmpl))
    requires MatchTemplate(tmpl, ExpandTemplate(tmpl, params)) == Some(params)
    ensures Fit(Tokens(tmpl[..k]), q1) && Fit(Tokens(tmpl), q1 + q2)
    ensures Concat(q1) == ExpandTemplate(tmpl[..k], params) && Concat(q1) + Concat(q2) == ExpandTemplate(tmpl, params)
  {
    var a, b, c := tmpl[..k], tmpl[k..], ExpandTemplate(tmpl, params);
    Halves(tmpl, k);
    TokensAppend(a, b);
    var m := Match(Tokens(tmpl), c).value;
    MatchSound(Tokens(tmpl), c);
    q1, q2 := FitApart(Tokens(a), Tokens(b), c, m);
    GivesWhole(Tokens(tmpl), m);
    GivesHalves(params, Tokens(a), Tokens(b), q1, q2);
    ExpandsBack(a, params, q1);
  }

  lemma StartIsMarked(c: Bytes, x: Bytes, j: nat)
    requires x <= c && IsMarker(c, j) && j + 3 <= |x|
    ensures IsMarker(x, j)
  {
  }

  lemma MarkedExposed(a: Bytes)
    requires Closed(a) && Exposed(a + MARK)
    ensures Exposed(a)
  {
    PlainTokens(MARK);
    TokensAppend(a, MARK);
    var tokens := Tokens(a + MARK);
    var i :| 0 <= i < |tokens| && SlashesFollow(tokens, i);
    assert Lits(MARK)[0] == Lit([':']) && Lits(MARK)[1].Lit? && Lits(MARK)[2].Lit?;
    assert tokens[|Tokens(a)|] == Lit([':']) && i + 2 < |Tokens(a)|;
    assert SlashesFollow(Tokens(a), i);
  }

  lemma RecoverableLands(tmpl: Bytes, params: Params, style: Style)
    requires Distinct(Tokens(tmpl)) && (MarkerAt(tmpl) < |tmpl| ==> Closed(tmpl[..MarkerAt(tmpl)]))
    requires MatchTemplate(tmpl, ExpandTemplate(tmpl, params)) == Some(params) && Recoverable(tmpl, style)
    ensures MarkerLands(tmpl, params, style)
  {
    if MarkerAt(tmpl) == |tmpl| {
      BareLands(tmpl, params);
    } else if style == PathStyle {
      SchemeLands(tmpl, params);
    }
  }

  lemma BareLands(tmpl: Bytes, params: Params)
    requires Distinct(Tokens(tmpl)) && MarkerAt(tmpl) == |tmpl| && !Exposed(tmpl)
    requires MatchTemplate(tmpl, ExpandTemplate(tmpl, params)) == Some(params)
    ensures MarkerAt(ExpandTemplate(tmpl, params)) == |ExpandTemplate(tmpl, params)|
  {
    var c := ExpandTemplate(tmpl, params);
    var q1, q2 := ReadParts(tmpl, 0, params);
    ConcatAppend(q1, q2);
    if MarkerAt(c) < |c| {
      MarkerOrigin(tmpl, q1 + q2, MarkerAt(c));
    }
  }

  /** In a scheme part where no placeholder stands before "//", an early marker is the template's. */
  lemma SchemeMarker(a: Bytes, parts: seq<Bytes>, j: nat)
    requires Closed(a) && !Exposed(a) && Fit(Tokens(a + MARK), parts) && IsMarker(Concat(parts), j) && j + 3 < |Concat(parts)|
    ensures exists q: nat :: q < |a| && IsMarker(a + MARK, q)
  {
    MarkerOrigin(a + MARK, parts, j);
    if Exposed(a + MARK) {
      MarkedExposed(a);
    }
  }

  /** The scheme part of the rebuilt URI, as the child's match reads it. */
  lemma SchemeParts(tmpl: Bytes, params: Params) returns (parts: seq<Bytes>)
    requires Distinct(Tokens(tmpl)) && MarkerAt(tmpl) < |tmpl| && Closed(tmpl[..MarkerAt(tmpl)])
    requires MatchTemplate(tmpl, ExpandTemplate(tmpl, params)) == Some(params)
    ensures MarkerAt(tmpl) + 3 <= |tmpl|
    ensures Fit(Tokens(tmpl[..MarkerAt(tmpl) + 3]), parts) && Concat(parts) == ExpandTemplate(tmpl[..MarkerAt(tmpl) + 3], params)
  {
    SchemeClosed(tmpl);
    var q2;
    parts, q2 := ReadParts(tmpl, MarkerAt(tmpl) + 3, params);
  }

  lemma SchemeClosed(tmpl: Bytes)
    requires MarkerAt(tmpl) < |tmpl| && Closed(tmpl[..MarkerAt(tmpl)])
    ensures MarkerAt(tmpl) + 3 <= |tmpl| && Closed(tmpl[..MarkerAt(tmpl) + 3])
  {
    MarkedStart(tmpl);
    ClosedMarked(tmpl[..MarkerAt(tmpl)]);
  }

  lemma SchemeLands(tmpl: Bytes, params: Params)
    requires Distinct(Tokens(tmpl)) && MarkerAt(tmpl) < |tmpl| && Closed(tmpl[..MarkerAt(tmpl)])
    requires MatchTemplate(tmpl, ExpandTemplate(tmpl, params)) == Some(params) && !Exposed(tmpl[..MarkerAt(tmpl)])
    ensures MarkerAt(ExpandTemplate(tmpl, params)) == |ExpandTemplate(tmpl[..MarkerAt(tmpl)], params)|
  {
    var k, c := MarkerAt(tmpl), ExpandTemplate(tmpl, params);
    var parts := SchemeParts(tmpl, params);
    MarkedStart(tmpl);
    ExpandedMarker(tmpl, params);
    var j := MarkerAt(c);
    if j + 3 < |Concat(parts)| {
      StartIsMarked(c, Concat(parts), j);
      SchemeMarker(tmpl[..k], parts, j);
      OwnMarkerIsFirst(tmpl);
    }
  }

  lemma OwnMarkerIsFirst(tmpl: Bytes)
    requires MarkerAt(tmpl) < |tmpl|
    ensures forall q: nat :: q < MarkerAt(tmpl) ==> !IsMarker(tmpl[..MarkerAt(tmpl)] + MARK, q)
  {
    var k := MarkerAt(tmpl);
    MarkedStart(tmpl);
    forall q: nat | q < k
      ensures !IsMarker(tmpl[..k] + MARK, q)
    {
      assert forall l :: 0 <= l < k + 3 ==> tmpl[..k + 3][l] == tmpl[l];
      assert !IsMarker(tmpl, q);
    }
  }

  // ---- Exposed templates ----

  const VALUE: Bytes := "s:"

  /** "s:" in one placeholder, a letter in the others. */
  function Fill(tokens: seq<Token>, i: nat): (r: seq<Bytes>)
    ensures |r| == |tokens|
  {
    seq(|tokens|, k requires 0 <= k < |tokens| => if tokens[k].Lit? then tokens[k].text else if k == i then VALUE else "x")
  }

  lemma FillFits(tokens: seq<Token>, i: nat)
    requires AllSegs(tokens)
    ensures Fit(tokens, Fill(tokens, i))
  {
  }

  /** The value completes a marker with the slashes behind its placeholder. */
  lemma FillMakesMarker(tokens: seq<Token>, i: nat)
    requires SlashesFollow(tokens, i)
    ensures IsMarker(Concat(Fill(tokens, i)), |Concat(Fill(tokens, i)[0..i])| + 1)
    ensures |Concat(Fill(tokens, i)[0..i + 3])| == |Concat(Fill(tokens, i)[0..i])| + 4
  {
    var p := Fill(tokens, i);
    assert p[i] == VALUE && p[i + 1] == ['/'] && p[i + 2] == ['/'];
    FourBytes(p, i);
  }

  lemma ConcatStep(p: seq<Bytes>, i: nat)
    requires i < |p|
    ensures Concat(p[0..i + 1]) == Concat(p[0..i]) + p[i]
  {
    ConcatCut(p[0..i + 1], i);
    SliceOfTake(p, 0, i, i + 1);
    ConcatOne(p[0..i + 1][i..i + 1]);
  }

  lemma FourBytes(p: seq<Bytes>, i: nat)
    requires i + 2 < |p| && p[i] == VALUE && p[i + 1] == ['/'] && p[i + 2] == ['/']
    ensures IsMarker(Concat(p), |Concat(p[0..i])| + 1) && |Concat(p[0..i + 3])| == |Concat(p[0..i])| + 4
  {
    ConcatStep(p, i);
    ConcatStep(p, i + 1);
    ConcatStep(p, i + 2);
    ConcatCut(p, i + 3);
    MarkerIn(Concat(p[0..i]), Concat(p[i + 3..|p|]));
  }

  lemma MarkerIn(a: Bytes, b: Bytes)
    ensures IsMarker(a + VALUE + ['/'] + ['/'] + b, |a| + 1)
  {
    var s := a + VALUE + ['/'] + ['/'] + b;
    assert s[|a| + 1] == VALUE[1] && s[|a| + 2] == '/' && s[|a| + 3] == '/';
  }

  /** How many tokens stand before the prefix. */
  ghost function Lead(tmpl: Bytes, style: Style): (n: nat) {
    |Tokens(tmpl[..PrefixPlace(tmpl, style)])|
  }

  ghost predicate Mountable(tmpl: Bytes, prefix: Bytes) {
    && PlainPrefix(prefix) && '{' !in prefix && Distinct(Tokens(tmpl))
    && (MarkerAt(tmpl) < |tmpl| ==> Closed(tmpl[..MarkerAt(tmpl)]))
  }

  /** Requests made of chosen parts are matched, and the child's URI is made of the same parts. */
  lemma RequestOf(tmpl: Bytes, prefix: Bytes, style: Style, p: seq<Bytes>) returns (u: Bytes)
    requires Mountable(tmpl, prefix) && Fit(Tokens(tmpl), p)
    ensures MatchTemplate(PrefixUri(tmpl, prefix, style), u).Some? && Lead(tmpl, style) <= |p|
    ensures var params := MatchTemplate(PrefixUri(tmpl, prefix, style), u).value;
      && ExpandTemplate(tmpl, params) == Concat(p)
      && ExpandTemplate(tmpl[..PrefixPlace(tmpl, style)], params) == Concat(p[0..Lead(tmpl, style)])
    ensures u == Concat(p[0..Lead(tmpl, style)]) + PrefixText(tmpl, prefix, style) + Concat(p[Lead(tmpl, style)..|p|])
  {
    var k, w := PrefixPlace(tmpl, style), PrefixText(tmpl, prefix, style);
    PrefixIsInsert(tmpl, prefix, style);
    PlaceIsClean(tmpl, style);
    Halves(tmpl, k);
    TokensAppend(tmpl[..k], tmpl[k..]);
    u := MatchedRequest(tmpl[..k], w, tmpl[k..], p);
    ReadPrefixed(tmpl, prefix, style, u);
    var params, n := MatchTemplate(PrefixUri(tmpl, prefix, style), u).value, Lead(tmpl, style);
    SameStart(tmpl, k, params, p[0..n], u);
    ConcatCut(p, n);
    InsertBetween(Concat(p[0..n]), Concat(p[n..|p|]), w);
    SameRest(ExpandTemplate(tmpl, params), Concat(p), |Concat(p[0..n])|, w);
  }

  lemma MatchedRequest(a: Bytes, w: Bytes, b: Bytes, p: seq<Bytes>) returns (u: Bytes)
    requires Closed(a) && '{' !in w && Fit(Tokens(a) + Tokens(b), p)
    ensures MatchTemplate(a + w + b, u).Some? && |Tokens(a)| <= |p| && Fit(Tokens(a), p[0..|Tokens(a)|])
    ensures u == Concat(p[0..|Tokens(a)|]) + w + Concat(p[|Tokens(a)|..|p|])
  {
    var s1, s2 := Tokens(a), Tokens(b);
    TokensAround(a, w, b);
    var p1, p2 := FitApart(s1, s2, Concat(p), p);
    assert p1 == p[0..|s1|] && p2 == p[|s1|..|p|];
    u := Concat(p1) + w + Concat(p2);
    JoinAround(s1, w, s2, p1, p2);
    MatchGreediest(s1 + Lits(w) + s2, u, p1 + Bits(w) + p2);
  }

  /** Both readings start with the same text: it is fixed by its slashes. */
  lemma SameStart(tmpl: Bytes, k: nat, params: Params, p1: seq<Bytes>, u: Bytes)
    requires k <= |tmpl| && Closed(tmpl[..k]) && EndsSegment(Tokens(tmpl[..k])) && Distinct(Tokens(tmpl))
    requires MatchTemplate(tmpl, ExpandTemplate(tmpl, params)) == Some(params) && Fit(Tokens(tmpl[..k]), p1)
    requires Concat(p1) <= u && ExpandTemplate(tmpl[..k], params) <= u
    ensures ExpandTemplate(tmpl[..k], params) == Concat(p1)
  {
    var q1, q2 := ReadParts(tmpl, k, params);
    TokensAreSegs(tmpl[..k]);
    SameSlashes(Tokens(tmpl[..k]), p1, q1);
    LastPartEnds(Tokens(tmpl[..k]), p1);
    LastPartEnds(Tokens(tmpl[..k]), q1);
    StartBySlashes(Concat(p1), Concat(q1), u);
  }

  lemma SameRest(c: Bytes, d: Bytes, k: nat, w: Bytes)
    requires k <= |c| && k <= |d| && Insert(c, k, w) == Insert(d, k, w)
    ensures c == d
  {
    var x, y, n := Insert(c, k, w), Insert(d, k, w), k + |w|;
    assert x[..k] == c[..k] && x[n..] == c[k..];
    assert y[..k] == d[..k] && y[n..] == d[k..];
    Halves(c, k);
    Halves(d, k);
  }

  lemma {:induction false} ConcatLong(p: seq<Bytes>)
    requires forall k :: 0 <= k < |p| ==> p[k] != []
    ensures |Concat(p)| >= |p|
  {
    if p != [] {
      ConcatLong(p[1..]);
    }
  }

  /** The placeholder's marker comes before that of a scheme part which holds it. */
  lemma EarlyMarker(tokens: seq<Token>, i: nat, n: nat)
    requires AllSegs(tokens) && Units(tokens) && SlashesFollow(tokens, i) && i + 6 <= n <= |tokens|
    ensures |Concat(Fill(tokens, i)[0..i])| + 1 < |Concat(Fill(tokens, i)[0..n])| - 3
  {
    var p := Fill(tokens, i);
    FillMakesMarker(tokens, i);
    ConcatCut(p[0..n], i + 3);
    SliceOfTake(p, 0, i + 3, n);
    ConcatLong(p[0..n][i + 3..n]);
  }

  /** The request comes back: the child extracts what the parent did, and its URI prefixes to it. */
  ghost predicate ComesBack(tmpl: Bytes, prefix: Bytes, style: Style, u: Bytes)
    requires MatchTemplate(PrefixUri(tmpl, prefix, style), u).Some?
  {
    var params := MatchTemplate(PrefixUri(tmpl, prefix, style), u).value;
    var c := ExpandTemplate(tmpl, params);
    MatchTemplate(tmpl, c) == Some(params) && PrefixUri(c, prefix, style) == u
  }

  lemma BareRequest(tmpl: Bytes, prefix: Bytes, style: Style, p: seq<Bytes>) returns (u: Bytes)
    requires Mountable(tmpl, prefix) && MarkerAt(tmpl) == |tmpl| && Fit(Tokens(tmpl), p)
    ensures u == prefix + ['/'] + Concat(p) && MatchTemplate(PrefixUri(tmpl, prefix, style), u).Some?
    ensures ExpandTemplate(tmpl, MatchTemplate(PrefixUri(tmpl, prefix, style), u).value) == Concat(p)
  {
    u := RequestOf(tmpl, prefix, style, p);
    NoLead(tmpl, prefix, style);
    NothingBefore(p, prefix + ['/']);
  }

  lemma NothingBefore(p: seq<Bytes>, w: Bytes)
    ensures Concat(p[0..0]) + w + Concat(p[0..|p|]) == w + Concat(p)
  {
    assert p[0..0] == [] && p[0..|p|] == p;
  }

  lemma NoLead(tmpl: Bytes, prefix: Bytes, style: Style)
    requires MarkerAt(tmpl) == |tmpl|
    ensures Lead(tmpl, style) == 0 && PrefixText(tmpl, prefix, style) == prefix + ['/']
  {
    assert tmpl[..0] == [];
  }

  lemma ExposedBareFails(tmpl: Bytes, prefix: Bytes, style: Style, i: nat) returns (u: Bytes)
    requires Mountable(tmpl, prefix) && MarkerAt(tmpl) == |tmpl| && SlashesFollow(Tokens(tmpl), i)
    ensures u == prefix + ['/'] + Concat(Fill(Tokens(tmpl), i))
    ensures MatchTemplate(PrefixUri(tmpl, prefix, style), u).Some? && !ComesBack(tmpl, prefix, style, u)
    ensures ExpandTemplate(tmpl, MatchTemplate(PrefixUri(tmpl, prefix, style), u).value) == Concat(Fill(Tokens(tmpl), i))
  {
    TokensAreSegs(tmpl);
    FillFits(Tokens(tmpl), i);
    FillMakesMarker(Tokens(tmpl), i);
    u := BareRequest(tmpl, prefix, style, Fill(Tokens(tmpl), i));
    ReadBackWhen(tmpl, prefix, style, u);
  }

  lemma ExposedSchemeFails(tmpl: Bytes, prefix: Bytes, i: nat) returns (u: Bytes)
    requires Mountable(tmpl, prefix) && MarkerAt(tmpl) < |tmpl| && SlashesFollow(Tokens(tmpl[..MarkerAt(tmpl)]), i)
    ensures MatchTemplate(PrefixUri(tmpl, prefix, PathStyle), u).Some? && !ComesBack(tmpl, prefix, PathStyle, u)
  {
    var k, tokens := MarkerAt(tmpl), Tokens(tmpl);
    SchemeTokens(tmpl);
    TokensAreSegs(tmpl);
    TokensAreUnits(tmpl);
    assert SlashesFollow(tokens, i);
    var p := Fill(tokens, i);
    FillFits(tokens, i);
    u := RequestOf(tmpl, prefix, PathStyle, p);
    FillMakesMarker(tokens, i);
    EarlyMarker(tokens, i, Lead(tmpl, PathStyle));
    ExpandedMarker(tmpl, MatchTemplate(PrefixUri(tmpl, prefix, PathStyle), u).value);
    ReadBackWhen(tmpl, prefix, PathStyle, u);
  }

  lemma SchemeTokens(tmpl: Bytes)
    requires MarkerAt(tmpl) < |tmpl| && Closed(tmpl[..MarkerAt(tmpl)])
    ensures Tokens(tmpl[..MarkerAt(tmpl)]) <= Tokens(tmpl)
    ensures Lead(tmpl, PathStyle) == |Tokens(tmpl[..MarkerAt(tmpl)])| + 3 <= |Tokens(tmpl)|
  {
    var k := MarkerAt(tmpl);
    MarkedStart(tmpl);
    Halves(tmpl, k);
    TokensAppend(tmpl[..k], tmpl[k..]);
    PlainTokens(MARK);
    TokensAppend(tmpl[..k], MARK);
    ClosedMarked(tmpl[..k]);
    Halves(tmpl, k + 3);
    TokensAppend(tmpl[..k + 3], tmpl[k + 3..]);
  }

  /** Every matching request comes back, with the parameters the parent extracted, if and only if no
      placeholder that could spoil the marker stands directly before "//". */
  lemma MountedReadIff(tmpl: Bytes, prefix: Bytes, style: Style)
    requires Mountable(tmpl, prefix)
    ensures (forall u :: MatchTemplate(PrefixUri(tmpl, prefix, style), u).Some? ==> ComesBack(tmpl, prefix, style, u))
            <==> Recoverable(tmpl, style)
  {
    if Recoverable(tmpl, style) {
      forall u | MatchTemplate(PrefixUri(tmpl, prefix, style), u).Some?
        ensures ComesBack(tmpl, prefix, style, u)
      {
        ReadBackWhen(tmpl, prefix, style, u);
        RecoverableLands(tmpl, MatchTemplate(PrefixUri(tmpl, prefix, style), u).value, style);
      }
    } else if MarkerAt(tmpl) == |tmpl| {
      var i :| 0 <= i < |Tokens(tmpl)| && SlashesFollow(Tokens(tmpl), i);
      var u := ExposedBareFails(tmpl, prefix, style, i);
    } else {
      var i :| 0 <= i < |Tokens(tmpl[..MarkerAt(tmpl)])| && SlashesFollow(Tokens(tmpl[..MarkerAt(tmpl)]), i);
      var u := ExposedSchemeFails(tmpl, prefix, i);
    }
  }

  // ---- One that fails ----

  const TEMPLATE: Bytes := "{a}//x"
  const PREFIX: Bytes := "p"
  const REBUILT: Bytes := "s://x"

  lemma ExampleTokens()
    ensures Tokens(TEMPLATE) == [Seg("a"), Lit(['/']), Lit(['/']), Lit(['x'])]
  {
    var tail: Bytes := "//x";
    assert TEMPLATE == "{a" + ['}'] + tail && TEMPLATE[3..] == tail && TEMPLATE[1..2] == "a";
    IndexOfAfter("{a", '}', tail);
    PlainTokens(tail);
    assert Lits(tail) == [Lit(['/']), Lit(['/']), Lit(['x'])];
  }

  lemma NoColonNoMarker(s: Bytes)
    requires ':' !in s
    ensures MarkerAt(s) == |s|
  {
  }

  lemma ExampleMountable()
    ensures Mountable(TEMPLATE, PREFIX) && MarkerAt(TEMPLATE) == |TEMPLATE| && SlashesFollow(Tokens(TEMPLATE), 0)
  {
    ExampleTokens();
    NoColonNoMarker(TEMPLATE);
  }

  lemma ConcatCons(x: Bytes, p: seq<Bytes>)
    ensures Concat([x] + p) == x + Concat(p)
  {
    assert ([x] + p)[1..] == p;
  }

  lemma ExampleParts()
    ensures Concat(Fill(Tokens(TEMPLATE), 0)) == REBUILT
  {
    ExampleFill();
    ConcatCons(VALUE, [['/']] + ([['/']] + [['x']]));
    ConcatCons(['/'], [['/']] + [['x']]);
    ConcatCons(['/'], [['x']]);
    ConcatOne([['x']]);
    assert VALUE + (['/'] + (['/'] + ['x'])) == REBUILT;
  }

  lemma ExampleFill()
    ensures Fill(Tokens(TEMPLATE), 0) == [VALUE] + ([['/']] + ([['/']] + [['x']]))
  {
    ExampleTokens();
  }

  lemma ExamplePrefixed()
    ensures PrefixUri(REBUILT, PREFIX, PathStyle) == "s://p/x"
  {
    assert IsMarker(REBUILT, 1) && !IsMarker(REBUILT, 0);
    PrefixInserts(REBUILT, PREFIX);
  }

  /** "{a}//x" mounted under "p": the request "p/s://x" rebuilds "s://x", which prefixes to "s://p/x". */
  lemma ExposedExample() returns (u: Bytes)
    ensures Mountable(TEMPLATE, PREFIX) && !Recoverable(TEMPLATE, PathStyle)
    ensures u == PREFIX + ['/'] + REBUILT && MatchTemplate(PrefixUri(TEMPLATE, PREFIX, PathStyle), u).Some?
    ensures ExpandTemplate(TEMPLATE, MatchTemplate(PrefixUri(TEMPLATE, PREFIX, PathStyle), u).value) == REBUILT
    ensures PrefixUri(REBUILT, PREFIX, PathStyle) == "s://p/x" && !ComesBack(TEMPLATE, PREFIX, PathStyle, u)
  {
    ExamplePrefixed();
    ExampleMountable();
    ExampleParts();
    u := ExposedBareFails(TEMPLATE, PREFIX, PathStyle, 0);
  }
}
