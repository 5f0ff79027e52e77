/** Mounted resource templates (mount/mount.go, resource.go): the rewritten parent template and the
    child URI rebuilt from its parameters undo each other. */
module MountedTemplates {
  import opened Wrappers
  import opened Percent
  import opened Sequences
  import opened Scanning
  import opened PathMatching

  // ---- "scheme://" and the prefix ----

  predicate IsMarker(s: Bytes, k: nat) {
    k + 3 <= |s| && s[k] == ':' && s[k + 1] == '/' && s[k + 2] == '/'
  }

  /** The first "://", or the length. */
  function MarkerAt(s: Bytes): (r: nat)
    ensures r <= |s| && (r < |s| ==> IsMarker(s, r)) && forall k :: 0 <= k < r ==> !IsMarker(s, k)
  {
    if s == [] || IsMarker(s, 0) then 0
    else
      var r := MarkerAt(s[1..]) + 1;
      assert forall k :: 1 <= k < r ==> (IsMarker(s, k) <==> IsMarker(s[1..], k - 1));
      r
  }

  datatype Style = PathStyle | ProtocolStyle

  const MARK: Bytes := "://"

  function Rewrite(scheme: Bytes, rest: Bytes, prefix: Bytes, style: Style): (r: Bytes) {
    if style == ProtocolStyle then prefix + ['+'] + scheme + MARK + rest else scheme + MARK + prefix + ['/'] + rest
  }

  function PrefixUri(uri: Bytes, prefix: Bytes, style: Style): (r: Bytes) {
    var idx := MarkerAt(uri);
    if idx == |uri| then prefix + ['/'] + uri else Rewrite(uri[..idx], uri[idx + 3..], prefix, style)
  }

  predicate PlainPrefix(prefix: Bytes) {
    ':' !in prefix && '/' !in prefix
  }

  lemma Regroup(a: Bytes, b: Bytes, c: Bytes, d: Bytes, e: Bytes)
    ensures a + b + c + d + e == a + b + (c + d + e)
  {
  }

  /** Rewriting in path style inserts after the marker, in protocol style at the start. */
  lemma RewriteInserts(uri: Bytes, idx: nat, prefix: Bytes)
    requires IsMarker(uri, idx)
    ensures Rewrite(uri[..idx], uri[idx + 3..], prefix, PathStyle) == uri[..idx + 3] + prefix + ['/'] + uri[idx + 3..]
    ensures Rewrite(uri[..idx], uri[idx + 3..], prefix, ProtocolStyle) == prefix + ['+'] + uri
  {
    var scheme, rest := uri[..idx], uri[idx + 3..];
    assert uri[idx..idx + 3] == MARK && uri[..idx + 3] == scheme + uri[idx..idx + 3];
    assert uri == scheme + MARK + rest;
    Regroup(prefix, ['+'], scheme, MARK, rest);
  }

  lemma PrefixInserts(uri: Bytes, prefix: Bytes)
    ensures var k := MarkerAt(uri);
      if k == |uri| then PrefixUri(uri, prefix, PathStyle) == PrefixUri(uri, prefix, ProtocolStyle) == prefix + ['/'] + uri
      else
        && k + 3 <= |uri|
        && PrefixUri(uri, prefix, PathStyle) == uri[..k + 3] + prefix + ['/'] + uri[k + 3..]
        && PrefixUri(uri, prefix, ProtocolStyle) == prefix + ['+'] + uri
  {
    if MarkerAt(uri) < |uri| {
      RewriteInserts(uri, MarkerAt(uri), prefix);
    }
  }

  /** The first marker does not depend on what follows it. */
  lemma MarkerStays(a: Bytes, b: Bytes, k: nat)
    requires k + 3 <= |a| && k + 3 <= |b| && a[..k + 3] == b[..k + 3] && MarkerAt(a) == k
    ensures MarkerAt(b) == k
  {
    forall j | 0 <= j <= k
      ensures IsMarker(a, j) <==> IsMarker(b, j)
    {
      assert forall i :: 0 <= i < k + 3 ==> a[i] == a[..k + 3][i] && b[i] == b[..k + 3][i];
    }
  }

  /** Where the marker of a rewritten URI is. */
  lemma PrefixedMarker(uri: Bytes, prefix: Bytes)
    requires PlainPrefix(prefix)
    ensures var r := PrefixUri(uri, prefix, PathStyle);
      if MarkerAt(uri) == |uri| then MarkerAt(r) == |r| else MarkerAt(r) == MarkerAt(uri) < |r|
  {
    var r, idx := PrefixUri(uri, prefix, PathStyle), MarkerAt(uri);
    if idx == |uri| {
      forall j | 0 <= j < |r|
        ensures !IsMarker(r, j)
      {
        if j > |prefix| {
          var i: nat := j - |prefix| - 1;
          assert r[j..] == uri[i..];
          assert IsMarker(r, j) <==> IsMarker(uri, i);
        } else {
          assert r[j] == if j == |prefix| then '/' else prefix[j];
        }
      }
    } else {
      PrefixInserts(uri, prefix);
      assert r[..idx + 3] == uri[..idx + 3];
      MarkerStays(uri, r, idx);
    }
  }

  /** Distinct child URIs stay distinct under one prefix, in both styles. */
  lemma PrefixInjective(a: Bytes, b: Bytes, prefix: Bytes, style: Style)
    requires PlainPrefix(prefix)
    ensures PrefixUri(a, prefix, style) == PrefixUri(b, prefix, style) <==> a == b
  {
    var x, y := PrefixUri(a, prefix, style), PrefixUri(b, prefix, style);
    if x == y {
      if style == PathStyle {
        PathInjective(a, b, prefix);
      } else {
        var i, j := MarkerAt(a), MarkerAt(b);
        PrefixInserts(a, prefix);
        PrefixInserts(b, prefix);
        assert x[|prefix|] == if i < |a| then '+' else '/';
        assert y[|prefix|] == if j < |b| then '+' else '/';
        assert x[|prefix| + 1..] == a && y[|prefix| + 1..] == b;
      }
    }
  }

  lemma PathInjective(a: Bytes, b: Bytes, prefix: Bytes)
    requires PlainPrefix(prefix) && PrefixUri(a, prefix, PathStyle) == PrefixUri(b, prefix, PathStyle)
    ensures a == b
  {
    var x, y := PrefixUri(a, prefix, PathStyle), PrefixUri(b, prefix, PathStyle);
    PrefixedMarker(a, prefix);
    PrefixedMarker(b, prefix);
    if MarkerAt(a) == |a| {
      assert x[|prefix| + 1..] == a && y[|prefix| + 1..] == b;
    } else {
      var k := MarkerAt(a) + 3;
      PrefixInserts(a, prefix);
      PrefixInserts(b, prefix);
      assert x[..k] == a[..k] && x[k + |prefix| + 1..] == a[k..];
      assert y[..k] == b[..k] && y[k + |prefix| + 1..] == b[k..];
      assert a == a[..k] + a[k..] && b == b[..k] + b[k..];
    }
  }

  // ---- Templates ----

  /** A "{name}" with a non-empty name starts here. */
  predicate Opens(s: Bytes) {
    s != [] && s[0] == '{' && 1 < IndexOf(s, '}') < |s|
  }

  /** The regular expression of a template, byte by byte. */
  function Tokens(tmpl: Bytes): (r: seq<Token>)
    decreases |tmpl|
  {
    if tmpl == [] then []
    else if Opens(tmpl) then
      var end := IndexOf(tmpl, '}');
      [Seg(tmpl[1..end])] + Tokens(tmpl[end + 1..])
    else [Lit(tmpl[..1])] + Tokens(tmpl[1..])
  }

  function Lits(s: Bytes): (r: seq<Token>) {
    seq(|s|, i requires 0 <= i < |s| => Lit([s[i]]))
  }

  type Params = map<Bytes, Bytes>

  function ParamsOf(tokens: seq<Token>, parts: seq<Bytes>): (r: Params)
    requires |tokens| == |parts|
  {
    if tokens == [] then map[]
    else
      var n := |tokens| - 1;
      var before := ParamsOf(tokens[..n], parts[..n]);
      if Hole(tokens[n]) then before[tokens[n].name := parts[n]] else before
  }

  /** resourceTemplateEntry.match. */
  function MatchTemplate(tmpl: Bytes, uri: Bytes): (r: Option<Params>)
  {
    var parts := Match(Tokens(tmpl), uri);
    if parts.None? then None else Some(ParamsOf(Tokens(tmpl), parts.value))
  }

  function Substitute(name: Bytes, params: Params): (r: Bytes) {
    if name in params then params[name] else ['{'] + name + ['}']
  }

  function ExpandTemplate(tmpl: Bytes, params: Params): (r: Bytes)
    decreases |tmpl|
  {
    if tmpl == [] then []
    else if Opens(tmpl) then
      var end := IndexOf(tmpl, '}');
      Substitute(tmpl[1..end], params) + ExpandTemplate(tmpl[end + 1..], params)
    else tmpl[..1] + ExpandTemplate(tmpl[1..], params)
  }

  /** Every '{' belongs to a placeholder that ends inside. */
  predicate Closed(s: Bytes)
    decreases |s|
  {
    s == [] || (if Opens(s) then Closed(s[IndexOf(s, '}') + 1..]) else s[0] != '{' && Closed(s[1..]))
  }

  lemma {:induction false} IndexOfPrefix(a: Bytes, c: Byte, b: Bytes)
    requires IndexOf(a, c) < |a|
    ensures IndexOf(a + b, c) == IndexOf(a, c)
  {
    if a[0] != c {
      IndexOfPrefix(a[1..], c, b);
      assert (a + b)[1..] == a[1..] + b;
    }
  }

  lemma {:induction false} TokensAppend(a: Bytes, b: Bytes)
    requires Closed(a)
    ensures Tokens(a + b) == Tokens(a) + Tokens(b)
    decreases |a|
  {
    if a == [] {
      assert a + b == b;
    } else if Opens(a) {
      var end := IndexOf(a, '}');
      IndexOfPrefix(a, '}', b);
      TokensAppend(a[end + 1..], b);
      assert (a + b)[1..end] == a[1..end];
      AppendDrop(a, b, end + 1);
      Assoc([Seg(a[1..end])], Tokens(a[end + 1..]), Tokens(b));
    } else {
      TokensAppend(a[1..], b);
      assert (a + b)[..1] == a[..1];
      AppendDrop(a, b, 1);
      Assoc([Lit(a[..1])], Tokens(a[1..]), Tokens(b));
    }
  }

  lemma {:induction false} PlainTokens(s: Bytes)
    requires '{' !in s
    ensures Closed(s) && Tokens(s) == Lits(s)
  {
    if s != [] {
      PlainTokens(s[1..]);
      assert s[..1] == [s[0]];
      assert Lits(s) == [Lit(s[..1])] + Lits(s[1..]);
    }
  }

  // ---- Inserting literal text into a token list ----

  ghost predicate AllSegs(tokens: seq<Token>) {
    forall i :: 0 <= i < |tokens| ==> !tokens[i].Wild?
  }

  lemma {:induction false} TokensAreSegs(tmpl: Bytes)
    ensures AllSegs(Tokens(tmpl))
    decreases |tmpl|
  {
    if tmpl != [] {
      TokensAreSegs(if Opens(tmpl) then tmpl[IndexOf(tmpl, '}') + 1..] else tmpl[1..]);
    }
  }

  /** Nothing, or something that ends in a literal slash. */
  ghost predicate EndsSegment(tokens: seq<Token>) {
    tokens == [] || tokens[|tokens| - 1] == Lit(['/'])
  }

  function Slashes(s: Bytes): (r: nat)
  {
    if s == [] then 0 else Slashes(s[1..]) + if s[0] == '/' then 1 else 0
  }

  lemma {:induction false} SlashesAppend(a: Bytes, b: Bytes)
    ensures Slashes(a + b) == Slashes(a) + Slashes(b)
  {
    if a == [] {
      assert a + b == b;
    } else {
      SlashesAppend(a[1..], b);
      assert (a + b)[1..] == a[1..] + b;
    }
  }

  lemma {:induction false} SlashesNone(s: Bytes)
    ensures Slashes(s) == 0 <==> '/' !in s
  {
    if s != [] {
      SlashesNone(s[1..]);
      assert s == [s[0]] + s[1..];
    }
  }

  lemma {:induction false} SameSlashes(tokens: seq<Token>, p: seq<Bytes>, q: seq<Bytes>)
    requires AllSegs(tokens) && |p| == |q| == |tokens|
    requires forall i :: 0 <= i < |tokens| ==> Fits(tokens[i], p[i]) && Fits(tokens[i], q[i])
    ensures Slashes(Concat(p)) == Slashes(Concat(q))
  {
    if tokens != [] {
      SameSlashes(tokens[1..], p[1..], q[1..]);
      SlashesAppend(p[0], Concat(p[1..]));
      SlashesAppend(q[0], Concat(q[1..]));
      SlashesNone(p[0]);
      SlashesNone(q[0]);
    }
  }

  ghost predicate EmptyOrSlash(a: Bytes) {
    a == [] || a[|a| - 1] == '/'
  }

  /** A start of the text that ends in a slash is fixed by how many slashes it has. */
  lemma StartBySlashes(a: Bytes, b: Bytes, u: Bytes)
    requires a <= u && b <= u && Slashes(a) == Slashes(b) && EmptyOrSlash(a) && EmptyOrSlash(b)
    ensures a == b
  {
    NotLonger(a, b, u);
    NotLonger(b, a, u);
  }

  lemma NotLonger(a: Bytes, b: Bytes, u: Bytes)
    requires a <= u && b <= u && Slashes(a) >= Slashes(b) && EmptyOrSlash(b)
    ensures |b| <= |a|
  {
    if |a| < |b| {
      var z := b[|a|..];
      assert b == a + z && z[|z| - 1] == '/';
      SlashesAppend(a, z);
      SlashesNone(z);
    }
  }

  lemma LastPartEnds(tokens: seq<Token>, p: seq<Bytes>)
    requires |p| == |tokens| && EndsSegment(tokens) && forall i :: 0 <= i < |tokens| ==> Fits(tokens[i], p[i])
    ensures EmptyOrSlash(Concat(p))
  {
    if tokens != [] {
      ConcatCut(p, |p| - 1);
      ConcatOne(p[|p| - 1..|p|]);
    }
  }

  function Bits(w: Bytes): (r: seq<Bytes>) {
    seq(|w|, i requires 0 <= i < |w| => [w[i]])
  }

  lemma {:induction false} BitsConcat(w: Bytes)
    ensures Concat(Bits(w)) == w
  {
    if w != [] {
      BitsConcat(w[1..]);
      assert Bits(w)[1..] == Bits(w[1..]);
      assert w == [w[0]] + w[1..];
    }
  }

  /** Parts of a token list with literal text in the middle. */
  ghost predicate Fit(tokens: seq<Token>, parts: seq<Bytes>) {
    |parts| == |tokens| && forall i :: 0 <= i < |tokens| ==> Fits(tokens[i], parts[i])
  }

  /** Literal text is read in one way. */
  lemma LitsFit(w: Bytes, parts: seq<Bytes>)
    ensures Fit(Lits(w), parts) <==> parts == Bits(w)
  {
    if Fit(Lits(w), parts) {
      forall k | 0 <= k < |w|
        ensures parts[k] == [w[k]]
      {
        assert Fits(Lits(w)[k], parts[k]);
      }
    }
  }

  lemma SplitAround(s1: seq<Token>, w: Bytes, s2: seq<Token>, u: Bytes, p: seq<Bytes>) returns (p1: seq<Bytes>, p2: seq<Bytes>)
    requires Splits(s1 + Lits(w) + s2, u, p)
    ensures Fit(s1, p1) && Fit(s2, p2) && p == p1 + Bits(w) + p2 && u == Concat(p1) + w + Concat(p2)
  {
    var q, mid;
    q, p2 := FitApart(s1 + Lits(w), s2, u, p);
    p1, mid := FitApart(s1, Lits(w), Concat(q), q);
    LitsFit(w, mid);
    BitsConcat(w);
  }

  lemma JoinAround(s1: seq<Token>, w: Bytes, s2: seq<Token>, p1: seq<Bytes>, p2: seq<Bytes>)
    requires Fit(s1, p1) && Fit(s2, p2)
    ensures Splits(s1 + Lits(w) + s2, Concat(p1) + w + Concat(p2), p1 + Bits(w) + p2)
  {
    LitsFit(w, Bits(w));
    BitsConcat(w);
    FitTogether(s1, Lits(w), p1, Bits(w));
    FitTogether(s1 + Lits(w), s2, p1 + Bits(w), p2);
  }

  /** Any other reading of the shorter text is a reading of the longer one. */
  lemma ReadingLifts(s1: seq<Token>, w: Bytes, s2: seq<Token>, p1: seq<Bytes>, p2: seq<Bytes>, q1: seq<Bytes>, q2: seq<Bytes>)
    requires AllSegs(s1) && EndsSegment(s1) && Fit(s1, p1) && Fit(s2, p2) && Fit(s1, q1) && Fit(s2, q2)
    requires Concat(p1) + Concat(p2) == Concat(q1) + Concat(q2)
    ensures Splits(s1 + Lits(w) + s2, Concat(p1) + w + Concat(p2), q1 + Bits(w) + q2)
  {
    var c := Concat(p1) + Concat(p2);
    SameSlashes(s1, p1, q1);
    LastPartEnds(s1, p1);
    LastPartEnds(s1, q1);
    StartBySlashes(Concat(p1), Concat(q1), c);
    assert Concat(p2) == c[|Concat(p1)|..] && Concat(q2) == c[|Concat(p1)|..];
    JoinAround(s1, w, s2, q1, q2);
  }

  /** p is longer where the two first differ. */
  ghost predicate LongerAt(p: seq<Bytes>, q: seq<Bytes>, i: nat) {
    i < |p| && i < |q| && |p[i]| > |q[i]| && forall j :: 0 <= j < i ==> p[j] == q[j]
  }

  lemma GreedierIsLonger(p: seq<Bytes>, q: seq<Bytes>)
    ensures Greedier(p, q) <==> exists i: nat :: LongerAt(p, q, i)
  {
    if Greedier(p, q) {
      var i :| 0 <= i < |p| && i < |q| && p[..i] == q[..i] && |p[i]| > |q[i]|;
      assert forall j :: 0 <= j < i ==> p[..i][j] == q[..i][j];
      assert LongerAt(p, q, i);
    }
    if i: nat :| LongerAt(p, q, i) {
      assert p[..i] == q[..i];
    }
  }

  lemma LongerLifts(q1: seq<Bytes>, q2: seq<Bytes>, p1: seq<Bytes>, p2: seq<Bytes>, mid: seq<Bytes>, i: nat)
    requires |p1| == |q1| && |p2| == |q2| && LongerAt(q1 + q2, p1 + p2, i)
    ensures LongerAt(q1 + mid + q2, p1 + mid + p2, if i < |q1| then i else i + |mid|)
  {
    var x, y, k := q1 + mid + q2, p1 + mid + p2, if i < |q1| then i else i + |mid|;
    PutBetween(q1, q2, mid, k);
    PutBetween(p1, p2, mid, k);
    forall j | 0 <= j < k
      ensures x[j] == y[j]
    {
      PutBetween(q1, q2, mid, j);
      PutBetween(p1, p2, mid, j);
    }
  }

  lemma GreedierLifts(q1: seq<Bytes>, q2: seq<Bytes>, p1: seq<Bytes>, p2: seq<Bytes>, mid: seq<Bytes>)
    requires |p1| == |q1| && |p2| == |q2| && Greedier(q1 + q2, p1 + p2)
    ensures Greedier(q1 + mid + q2, p1 + mid + p2)
  {
    GreedierIsLonger(q1 + q2, p1 + p2);
    var i: nat :| LongerAt(q1 + q2, p1 + p2, i);
    LongerLifts(q1, q2, p1, p2, mid, i);
    GreedierIsLonger(q1 + mid + q2, p1 + mid + p2);
  }

  lemma NotBothGreedier(p: seq<Bytes>, q: seq<Bytes>)
    ensures !(Greedier(p, q) && (p == q || Greedier(q, p)))
  {
    if Greedier(p, q) {
      var i :| 0 <= i < |p| && i < |q| && p[..i] == q[..i] && |p[i]| > |q[i]|;
      forall j | 0 <= j < |p| && j < |q|
        ensures !(q[..j] == p[..j] && |q[j]| > |p[j]|)
      {
        if j < i {
          assert p[..i][j] == p[j] && q[..i][j] == q[j];
        } else if j > i {
          assert p[..j][i] == p[i] && q[..j][i] == q[i];
        }
      }
    }
  }

  /** Taking literal text out of the tokens and the URI leaves the match as it was. */
  lemma MatchWithout(s1: seq<Token>, w: Bytes, s2: seq<Token>, u: Bytes) returns (p1: seq<Bytes>, p2: seq<Bytes>)
    requires AllSegs(s1) && EndsSegment(s1) && Match(s1 + Lits(w) + s2, u).Some?
    ensures Fit(s1, p1) && Fit(s2, p2) && Match(s1 + Lits(w) + s2, u).value == p1 + Bits(w) + p2
    ensures u == Concat(p1) + w + Concat(p2) && Match(s1 + s2, Concat(p1) + Concat(p2)) == Some(p1 + p2)
  {
    MatchSound(s1 + Lits(w) + s2, u);
    p1, p2 := SplitAround(s1, w, s2, u, Match(s1 + Lits(w) + s2, u).value);
    var c := Concat(p1) + Concat(p2);
    FitTogether(s1, s2, p1, p2);
    MatchGreediest(s1 + s2, c, p1 + p2);
    MatchSound(s1 + s2, c);
    var q := Match(s1 + s2, c).value;
    var q1, q2 := FitApart(s1, s2, c, q);
    ReadingLifts(s1, w, s2, p1, p2, q1, q2);
    MatchGreediest(s1 + Lits(w) + s2, u, q1 + Bits(w) + q2);
    if q != p1 + p2 {
      GreedierLifts(q1, q2, p1, p2, Bits(w));
      NotBothGreedier(q1 + Bits(w) + q2, p1 + Bits(w) + p2);
    }
  }

  lemma FitTogether(s1: seq<Token>, s2: seq<Token>, p1: seq<Bytes>, p2: seq<Bytes>)
    requires Fit(s1, p1) && Fit(s2, p2)
    ensures Splits(s1 + s2, Concat(p1) + Concat(p2), p1 + p2)
  {
    ConcatAppend(p1, p2);
  }

  lemma FitApart(s1: seq<Token>, s2: seq<Token>, c: Bytes, q: seq<Bytes>) returns (q1: seq<Bytes>, q2: seq<Bytes>)
    requires Splits(s1 + s2, c, q)
    ensures q == q1 + q2 && Fit(s1, q1) && Fit(s2, q2) && c == Concat(q1) + Concat(q2)
  {
    var n := |s1|;
    q1, q2 := q[..n], q[n..];
    ConcatAppend(q1, q2);
    assert q == q1 + q2;
    assert forall k :: 0 <= k < n ==> (s1 + s2)[k] == s1[k];
    forall k | 0 <= k < |s2|
      ensures Fits(s2[k], q2[k])
    {
      assert (s1 + s2)[n + k] == s2[k] && Fits((s1 + s2)[n + k], q[n + k]);
    }
  }

  // ---- Parameters ----

  lemma {:induction false} ParamsAppend(a: seq<Token>, b: seq<Token>, p: seq<Bytes>, q: seq<Bytes>)
    requires |a| == |p| && |b| == |q|
    ensures ParamsOf(a + b, p + q) == ParamsOf(a, p) + ParamsOf(b, q)
  {
    if b == [] {
      assert a + b == a && p + q == p;
    } else {
      var n := |b| - 1;
      ParamsAppend(a, b[..n], p, q[..n]);
      assert (a + b)[..|a + b| - 1] == a + b[..n] && (p + q)[..|p + q| - 1] == p + q[..n];
    }
  }

  lemma {:induction false} LitsGiveNone(w: Bytes)
    ensures ParamsOf(Lits(w), Bits(w)) == map[]
  {
    if w != [] {
      var n := |w| - 1;
      LitsGiveNone(w[..n]);
      assert Lits(w)[..n] == Lits(w[..n]) && Bits(w)[..n] == Bits(w[..n]);
    }
  }

  lemma ParamsSkipLits(s1: seq<Token>, w: Bytes, p1: seq<Bytes>)
    requires |s1| == |p1|
    ensures ParamsOf(s1 + Lits(w), p1 + Bits(w)) == ParamsOf(s1, p1)
  {
    ParamsAppend(s1, Lits(w), p1, Bits(w));
    LitsGiveNone(w);
    assert ParamsOf(s1, p1) + map[] == ParamsOf(s1, p1);
  }

  lemma ParamsWithout(s1: seq<Token>, w: Bytes, s2: seq<Token>, p1: seq<Bytes>, p2: seq<Bytes>)
    requires |s1| == |p1| && |s2| == |p2|
    ensures ParamsOf(s1 + Lits(w) + s2, p1 + Bits(w) + p2) == ParamsOf(s1 + s2, p1 + p2)
  {
    var whole := ParamsOf(s1 + Lits(w) + s2, p1 + Bits(w) + p2);
    assert whole == ParamsOf(s1 + Lits(w), p1 + Bits(w)) + ParamsOf(s2, p2) by {
      ParamsAppend(s1 + Lits(w), s2, p1 + Bits(w), p2);
    }
    assert ParamsOf(s1 + Lits(w), p1 + Bits(w)) == ParamsOf(s1, p1) by {
      ParamsSkipLits(s1, w, p1);
    }
    assert ParamsOf(s1 + s2, p1 + p2) == ParamsOf(s1, p1) + ParamsOf(s2, p2) by {
      ParamsAppend(s1, s2, p1, p2);
    }
  }

  lemma {:induction false} ParamAt(tokens: seq<Token>, parts: seq<Bytes>, k: nat)
    requires |parts| == |tokens| && Distinct(tokens) && k < |tokens| && Hole(tokens[k])
    ensures tokens[k].name in ParamsOf(tokens, parts) && ParamsOf(tokens, parts)[tokens[k].name] == parts[k]
  {
    var n := |tokens| - 1;
    if k < n {
      ParamAt(tokens[..n], parts[..n], k);
    }
  }

  /** The parameters say what stands for each placeholder. */
  ghost predicate Gives(params: Params, tokens: seq<Token>, parts: seq<Bytes>) {
    |parts| == |tokens| && forall i :: 0 <= i < |tokens| && Hole(tokens[i]) ==> tokens[i].name in params && params[tokens[i].name] == parts[i]
  }

  lemma {:induction false} ExpandsBack(tmpl: Bytes, params: Params, parts: seq<Bytes>)
    requires Fit(Tokens(tmpl), parts) && Gives(params, Tokens(tmpl), parts)
    ensures ExpandTemplate(tmpl, params) == Concat(parts)
    decreases |tmpl|
  {
    if tmpl != [] {
      var tokens, rest := Tokens(tmpl), if Opens(tmpl) then tmpl[IndexOf(tmpl, '}') + 1..] else tmpl[1..];
      assert tokens[1..] == Tokens(rest);
      forall i | 0 <= i < |tokens[1..]|
        ensures Fits(tokens[1..][i], parts[1..][i])
        ensures Hole(tokens[1..][i]) ==> tokens[1..][i].name in params && params[tokens[1..][i].name] == parts[1..][i]
      {
        assert Fits(tokens[i + 1], parts[i + 1]);
      }
      ExpandsBack(rest, params, parts[1..]);
      assert Fits(tokens[0], parts[0]);
    }
  }

  /** Reading through a template with literal text put in after a. */
  lemma ReadThrough(a: Bytes, w: Bytes, b: Bytes, u: Bytes)
    requires Closed(a) && '{' !in w && EndsSegment(Tokens(a)) && Distinct(Tokens(a + b)) && MatchTemplate(a + w + b, u).Some?
    ensures var params := MatchTemplate(a + w + b, u).value;
      && MatchTemplate(a + b, ExpandTemplate(a + b, params)) == Some(params)
      && ExpandTemplate(a + b, params) == ExpandTemplate(a, params) + ExpandTemplate(b, params)
      && u == ExpandTemplate(a, params) + w + ExpandTemplate(b, params)
  {
    var s1, s2 := Tokens(a), Tokens(b);
    TokensAround(a, w, b);
    TokensAppend(a, b);
    TokensAreSegs(a);
    var p1, p2 := MatchWithout(s1, w, s2, u);
    ParamsWithout(s1, w, s2, p1, p2);
    var params := ParamsOf(s1 + s2, p1 + p2);
    GivesWhole(s1 + s2, p1 + p2);
    GivesHalves(params, s1, s2, p1, p2);
    ExpandsBack(a, params, p1);
    ExpandsBack(b, params, p2);
    FitTogether(s1, s2, p1, p2);
    ExpandsBack(a + b, params, p1 + p2);
  }

  lemma TokensAfterLits(w: Bytes, b: Bytes)
    requires '{' !in w
    ensures Tokens(w + b) == Lits(w) + Tokens(b)
  {
    PlainTokens(w);
    TokensAppend(w, b);
  }

  lemma TokensAround(a: Bytes, w: Bytes, b: Bytes)
    requires Closed(a) && '{' !in w
    ensures Tokens(a + w + b) == Tokens(a) + Lits(w) + Tokens(b)
  {
    calc {
      Tokens(a + w + b);
      { Assoc(a, w, b); }
      Tokens(a + (w + b));
      { TokensAppend(a, w + b); }
      Tokens(a) + Tokens(w + b);
      { TokensAfterLits(w, b); }
      Tokens(a) + (Lits(w) + Tokens(b));
      { Assoc(Tokens(a), Lits(w), Tokens(b)); }
      Tokens(a) + Lits(w) + Tokens(b);
    }
  }

  lemma GivesWhole(tokens: seq<Token>, parts: seq<Bytes>)
    requires Distinct(tokens) && |tokens| == |parts|
    ensures Gives(ParamsOf(tokens, parts), tokens, parts)
  {
    forall i | 0 <= i < |tokens| && Hole(tokens[i])
      ensures tokens[i].name in ParamsOf(tokens, parts) && ParamsOf(tokens, parts)[tokens[i].name] == parts[i]
    {
      ParamAt(tokens, parts, i);
    }
  }

  lemma GivesHalves(params: Params, s1: seq<Token>, s2: seq<Token>, p1: seq<Bytes>, p2: seq<Bytes>)
    requires |s1| == |p1| && |s2| == |p2| && Gives(params, s1 + s2, p1 + p2)
    ensures Gives(params, s1, p1) && Gives(params, s2, p2)
  {
    var tokens, parts := s1 + s2, p1 + p2;
    assert forall i :: 0 <= i < |s1| ==> tokens[i] == s1[i] && parts[i] == p1[i];
    forall i | 0 <= i < |s2| && Hole(s2[i])
      ensures s2[i].name in params && params[s2[i].name] == p2[i]
    {
      assert tokens[|s1| + i] == s2[i] && parts[|s1| + i] == p2[i];
    }
  }

  // ---- The mounted template ----

  /** Text put into a string. */
  function Insert(s: Bytes, k: nat, w: Bytes): (r: Bytes)
    requires k <= |s|
  {
    s[..k] + w + s[k..]
  }

  /** Where the prefix goes, and what goes there. */
  function PrefixPlace(uri: Bytes, style: Style): (k: nat)
    ensures k <= |uri|
  {
    if MarkerAt(uri) < |uri| && style == PathStyle then MarkerAt(uri) + 3 else 0
  }

  function PrefixText(uri: Bytes, prefix: Bytes, style: Style): (w: Bytes) {
    prefix + [if MarkerAt(uri) < |uri| && style == ProtocolStyle then '+' else '/']
  }

  lemma InsertStart(s: Bytes, w: Bytes)
    ensures Insert(s, 0, w) == w + s
  {
  }

  lemma PrefixIsInsert(uri: Bytes, prefix: Bytes, style: Style)
    ensures PrefixUri(uri, prefix, style) == Insert(uri, PrefixPlace(uri, style), PrefixText(uri, prefix, style))
  {
    PrefixInserts(uri, prefix);
    InsertStart(uri, prefix + ['+']);
    InsertStart(uri, prefix + ['/']);
    match style
    case PathStyle =>
      var k := MarkerAt(uri);
      if k < |uri| {
        Assoc(uri[..k + 3], prefix, ['/']);
      }
    case ProtocolStyle =>
  }

  lemma {:induction false} ClosedAppend(a: Bytes, b: Bytes)
    requires Closed(a) && Closed(b)
    ensures Closed(a + b)
    decreases |a|
  {
    if a == [] {
      assert a + b == b;
    } else if Opens(a) {
      var end := IndexOf(a, '}');
      IndexOfPrefix(a, '}', b);
      ClosedAppend(a[end + 1..], b);
      assert (a + b)[end + 1..] == a[end + 1..] + b;
    } else {
      ClosedAppend(a[1..], b);
      assert (a + b)[1..] == a[1..] + b;
    }
  }

  lemma {:induction false} IndexOfSkip(a: Bytes, c: Byte, b: Bytes)
    requires c !in a
    ensures IndexOf(a + b, c) == |a| + IndexOf(b, c)
  {
    if a == [] {
      assert a + b == b;
    } else {
      IndexOfSkip(a[1..], c, b);
      assert (a + b)[1..] == a[1..] + b;
    }
  }

  /** Moving a text without ':' across one with ':' changes the whole. */
  lemma NoCommute(w: Bytes, d: Bytes)
    requires w != [] && ':' !in w && ':' in d
    ensures w + d != d + w
  {
    IndexOfNone(d, ':');
    IndexOfPrefix(d, ':', w);
    IndexOfSkip(w, ':', d);
  }

  /** Inserting on either side of a ':' gives different texts. */
  lemma InsertElsewhere(c: Bytes, w: Bytes, i: nat, k: nat)
    requires i < k <= |c| && ':' in c[i..k] && w != [] && ':' !in w
    ensures Insert(c, i, w) != Insert(c, k, w)
  {
    var d, n := c[i..k], |w| + k - i;
    NoCommute(w, d);
    InsertMiddle(c, w, i, k);
  }

  lemma InsertMiddle(c: Bytes, w: Bytes, i: nat, k: nat)
    requires i <= k <= |c|
    ensures |Insert(c, i, w)| == |Insert(c, k, w)| == |c| + |w|
    ensures Insert(c, i, w)[i..|w| + k] == w + c[i..k]
    ensures Insert(c, k, w)[i..|w| + k] == c[i..k] + w
  {
  }

  lemma InsertOther(c: Bytes, prefix: Bytes)
    ensures Insert(c, 0, prefix + ['+']) != Insert(c, 0, prefix + ['/'])
  {
    assert Insert(c, 0, prefix + ['+'])[|prefix|] == '+' && Insert(c, 0, prefix + ['/'])[|prefix|] == '/';
  }

  lemma ReadInserted(tmpl: Bytes, k: nat, w: Bytes, u: Bytes)
    requires k <= |tmpl| && Closed(tmpl[..k]) && EndsSegment(Tokens(tmpl[..k])) && '{' !in w
    requires Distinct(Tokens(tmpl)) && MatchTemplate(Insert(tmpl, k, w), u).Some?
    ensures var params := MatchTemplate(Insert(tmpl, k, w), u).value;
      var c, x := ExpandTemplate(tmpl, params), ExpandTemplate(tmpl[..k], params);
      MatchTemplate(tmpl, c) == Some(params) && x <= c && u == Insert(c, |x|, w)
  {
    var a, b := tmpl[..k], tmpl[k..];
    assert tmpl == a + b;
    ReadThrough(a, w, b, u);
    var params := MatchTemplate(Insert(tmpl, k, w), u).value;
    InsertBetween(ExpandTemplate(a, params), ExpandTemplate(b, params), w);
  }

  lemma InsertBetween(x: Bytes, y: Bytes, w: Bytes)
    ensures Insert(x + y, |x|, w) == x + w + y
  {
    assert (x + y)[..|x|] == x && (x + y)[|x|..] == y;
  }

  lemma ClosedMarked(a: Bytes)
    requires Closed(a)
    ensures Closed(a + MARK) && EndsSegment(Tokens(a + MARK))
  {
    PlainTokens(MARK);
    ClosedAppend(a, MARK);
    TokensAppend(a, MARK);
    assert Lits(MARK)[2] == Lit(['/']);
  }

  lemma MarkedStart(tmpl: Bytes)
    requires MarkerAt(tmpl) < |tmpl|
    ensures MarkerAt(tmpl) + 3 <= |tmpl| && tmpl[..MarkerAt(tmpl) + 3] == tmpl[..MarkerAt(tmpl)] + MARK
  {
    MarkText(tmpl, MarkerAt(tmpl));
  }

  lemma MarkText(s: Bytes, k: nat)
    requires IsMarker(s, k)
    ensures s[..k + 3] == s[..k] + MARK
  {
  }

  /** The part of the template before the prefix stands on its own. */
  lemma PlaceIsClean(tmpl: Bytes, style: Style)
    requires MarkerAt(tmpl) < |tmpl| ==> Closed(tmpl[..MarkerAt(tmpl)])
    ensures Closed(tmpl[..PrefixPlace(tmpl, style)]) && EndsSegment(Tokens(tmpl[..PrefixPlace(tmpl, style)]))
  {
    if PrefixPlace(tmpl, style) > 0 {
      MarkedIsClean(tmpl);
    } else {
      assert tmpl[..0] == [];
    }
  }

  lemma MarkedIsClean(tmpl: Bytes)
    requires MarkerAt(tmpl) < |tmpl| && Closed(tmpl[..MarkerAt(tmpl)])
    ensures MarkerAt(tmpl) + 3 <= |tmpl|
    ensures Closed(tmpl[..MarkerAt(tmpl) + 3]) && EndsSegment(Tokens(tmpl[..MarkerAt(tmpl) + 3]))
  {
    MarkedStart(tmpl);
    ClosedMarked(tmpl[..MarkerAt(tmpl)]);
  }

  /** How the expansion of a template starts, and where it goes on. */
  lemma ExpandStarts(a: Bytes, b: Bytes, params: Params) returns (k: nat, head: Bytes)
    requires a != [] && Closed(a)
    ensures 0 < k <= |a| && Closed(a[k..])
    ensures ExpandTemplate(a, params) == head + ExpandTemplate(a[k..], params)
    ensures ExpandTemplate(a + b, params) == head + ExpandTemplate(a[k..] + b, params)
  {
    if Opens(a) {
      var end := IndexOf(a, '}');
      IndexOfPrefix(a, '}', b);
      k, head := end + 1, Substitute(a[1..end], params);
      assert (a + b)[1..end] == a[1..end];
    } else {
      k, head := 1, a[..1];
      assert (a + b)[..1] == a[..1];
    }
    AppendDrop(a, b, k);
  }

  lemma {:induction false} ExpandAppend(a: Bytes, b: Bytes, params: Params)
    requires Closed(a)
    ensures ExpandTemplate(a + b, params) == ExpandTemplate(a, params) + ExpandTemplate(b, params)
    decreases |a|
  {
    if a == [] {
      assert a + b == b;
    } else {
      var k, head := ExpandStarts(a, b, params);
      ExpandAppend(a[k..], b, params);
      Assoc(head, ExpandTemplate(a[k..], params), ExpandTemplate(b, params));
    }
  }

  lemma {:induction false} ExpandPlain(s: Bytes, params: Params)
    requires '{' !in s
    ensures ExpandTemplate(s, params) == s
  {
    if s != [] {
      ExpandPlain(s[1..], params);
      assert s == s[..1] + s[1..];
    }
  }

  /** The template's marker is in the expansion. */
  lemma ExpandedMarker(tmpl: Bytes, params: Params)
    requires MarkerAt(tmpl) < |tmpl| && Closed(tmpl[..MarkerAt(tmpl)])
    ensures var k, c := MarkerAt(tmpl), ExpandTemplate(tmpl, params);
      var head := ExpandTemplate(tmpl[..k], params);
      && k + 3 <= |tmpl| && ExpandTemplate(tmpl[..k + 3], params) == head + MARK
      && head + MARK <= c && IsMarker(c, |head|)
  {
    var k := MarkerAt(tmpl);
    var a, b := tmpl[..k] + MARK, tmpl[k + 3..];
    MarkedStart(tmpl);
    assert tmpl == a + b;
    ClosedMarked(tmpl[..k]);
    ExpandAppend(tmpl[..k], MARK, params);
    ExpandPlain(MARK, params);
    ExpandAppend(a, b, params);
    var head, c := ExpandTemplate(tmpl[..k], params), ExpandTemplate(tmpl, params);
    assert c[|head|..|head| + 3] == MARK;
  }

  /** The first "://" of the rebuilt URI is the template's own, or there is none in either; in
      protocol style any will do. */
  ghost predicate MarkerLands(tmpl: Bytes, params: Params, style: Style) {
    var k, c := MarkerAt(tmpl), ExpandTemplate(tmpl, params);
    if k == |tmpl| then MarkerAt(c) == |c|
    else style == PathStyle ==> MarkerAt(c) == |ExpandTemplate(tmpl[..k], params)|
  }

  /** Prefixing the rebuilt URI puts the prefix where the request has it. */
  lemma PlacesAgree(tmpl: Bytes, prefix: Bytes, style: Style, params: Params)
    requires PlainPrefix(prefix) && (MarkerAt(tmpl) < |tmpl| ==> Closed(tmpl[..MarkerAt(tmpl)]))
    requires ExpandTemplate(tmpl[..PrefixPlace(tmpl, style)], params) <= ExpandTemplate(tmpl, params)
    ensures var c, x := ExpandTemplate(tmpl, params), ExpandTemplate(tmpl[..PrefixPlace(tmpl, style)], params);
      PrefixUri(c, prefix, style) == Insert(c, |x|, PrefixText(tmpl, prefix, style)) <==> MarkerLands(tmpl, params, style)
  {
    var c := ExpandTemplate(tmpl, params);
    if MarkerAt(tmpl) == |tmpl| {
      assert tmpl[..0] == [];
      BarePlaces(c, prefix, style);
    } else if style == PathStyle {
      MarkedPlaces(tmpl, prefix, params);
    } else {
      assert tmpl[..0] == [];
      ExpandedMarker(tmpl, params);
      ProtocolPlaces(c, prefix);
    }
  }

  lemma MarkedPlaces(tmpl: Bytes, prefix: Bytes, params: Params)
    requires PlainPrefix(prefix) && MarkerAt(tmpl) < |tmpl| && Closed(tmpl[..MarkerAt(tmpl)])
    ensures var c, k := ExpandTemplate(tmpl, params), MarkerAt(tmpl);
      && k + 3 <= |tmpl| && |ExpandTemplate(tmpl[..k + 3], params)| <= |c|
      && (PrefixUri(c, prefix, PathStyle) == Insert(c, |ExpandTemplate(tmpl[..k + 3], params)|, prefix + ['/']) <==>
            MarkerAt(c) == |ExpandTemplate(tmpl[..k], params)|)
  {
    var c := ExpandTemplate(tmpl, params);
    ExpandedMarker(tmpl, params);
    PrefixIsInsert(c, prefix, PathStyle);
    LaterDiffers(c, prefix, |ExpandTemplate(tmpl[..MarkerAt(tmpl)], params)|);
  }

  lemma ProtocolPlaces(c: Bytes, prefix: Bytes)
    requires MarkerAt(c) < |c|
    ensures PrefixUri(c, prefix, ProtocolStyle) == Insert(c, 0, prefix + ['+'])
  {
    PrefixIsInsert(c, prefix, ProtocolStyle);
  }

  lemma BarePlaces(c: Bytes, prefix: Bytes, style: Style)
    requires PlainPrefix(prefix)
    ensures PrefixUri(c, prefix, style) == Insert(c, 0, prefix + ['/']) <==> MarkerAt(c) == |c|
  {
    PrefixIsInsert(c, prefix, style);
    if MarkerAt(c) < |c| {
      BareDiffers(c, prefix, style);
    }
  }

  lemma BareDiffers(c: Bytes, prefix: Bytes, style: Style)
    requires PlainPrefix(prefix) && MarkerAt(c) < |c|
    ensures Insert(c, PrefixPlace(c, style), PrefixText(c, prefix, style)) != Insert(c, 0, prefix + ['/'])
  {
    var k, w := PrefixPlace(c, style), PrefixText(c, prefix, style);
    BareDiffersAt(c, prefix, MarkerAt(c));
    assert w == prefix + [if style == PathStyle then '/' else '+'];
  }

  lemma BareDiffersAt(c: Bytes, prefix: Bytes, j: nat)
    requires PlainPrefix(prefix) && IsMarker(c, j)
    ensures Insert(c, j + 3, prefix + ['/']) != Insert(c, 0, prefix + ['/'])
    ensures Insert(c, 0, prefix + ['+']) != Insert(c, 0, prefix + ['/'])
  {
    InsertAfterMark(c, prefix + ['/'], j);
    InsertOther(c, prefix);
  }

  lemma InsertAfterMark(c: Bytes, w: Bytes, k: nat)
    requires IsMarker(c, k) && w != [] && ':' !in w
    ensures Insert(c, k + 3, w) != Insert(c, 0, w)
  {
    assert c[0..k + 3][k] == ':';
    InsertElsewhere(c, w, 0, k + 3);
  }

  lemma LaterDiffers(c: Bytes, prefix: Bytes, k: nat)
    requires PlainPrefix(prefix) && IsMarker(c, k)
    ensures Insert(c, PrefixPlace(c, PathStyle), PrefixText(c, prefix, PathStyle)) == Insert(c, k + 3, prefix + ['/']) <==> MarkerAt(c) == k
  {
    var j := MarkerAt(c);
    assert j <= k;
    if j < k {
      assert k >= j + 3 && c[j + 3..k + 3][k - j - 3] == ':';
      InsertElsewhere(c, prefix + ['/'], j + 3, k + 3);
    }
  }

  /** One read of a mounted template: the child template extracts from the rebuilt URI exactly what the
      parent extracted, and prefixing the rebuilt URI gives the requested one if and only if the
      template's marker lands as the URI's first. */
  lemma ReadBackWhen(tmpl: Bytes, prefix: Bytes, style: Style, u: Bytes)
    requires PlainPrefix(prefix) && '{' !in prefix && Distinct(Tokens(tmpl))
    requires MarkerAt(tmpl) < |tmpl| ==> Closed(tmpl[..MarkerAt(tmpl)])
    requires MatchTemplate(PrefixUri(tmpl, prefix, style), u).Some?
    ensures var params := MatchTemplate(PrefixUri(tmpl, prefix, style), u).value;
      var c := ExpandTemplate(tmpl, params);
      && MatchTemplate(tmpl, c) == Some(params)
      && (PrefixUri(c, prefix, style) == u <==> MarkerLands(tmpl, params, style))
  {
    var params := MatchTemplate(PrefixUri(tmpl, prefix, style), u).value;
    ReadPrefixed(tmpl, prefix, style, u);
    PlacesAgree(tmpl, prefix, style, params);
  }

  lemma ReadPrefixed(tmpl: Bytes, prefix: Bytes, style: Style, u: Bytes)
    requires '{' !in prefix && Distinct(Tokens(tmpl)) && (MarkerAt(tmpl) < |tmpl| ==> Closed(tmpl[..MarkerAt(tmpl)]))
    requires MatchTemplate(PrefixUri(tmpl, prefix, style), u).Some?
    ensures var params := MatchTemplate(PrefixUri(tmpl, prefix, style), u).value;
      var c, x := ExpandTemplate(tmpl, params), ExpandTemplate(tmpl[..PrefixPlace(tmpl, style)], params);
      MatchTemplate(tmpl, c) == Some(params) && x <= c && u == Insert(c, |x|, PrefixText(tmpl, prefix, style))
  {
    var k, w := PrefixPlace(tmpl, style), PrefixText(tmpl, prefix, style);
    PrefixIsInsert(tmpl, prefix, style);
    PlaceIsClean(tmpl, style);
    ReadInserted(tmpl, k, w, u);
  }

  // ---- The loops of the source ----

  /** The token a template starts with, and how long its text is. */
  function FirstToken(s: Bytes): (t: Token)
    requires s != []
  {
    if Opens(s) then Seg(s[1..IndexOf(s, '}')]) else Lit(s[..1])
  }

  function FirstLen(s: Bytes): (k: nat)
    requires s != []
    ensures 0 < k <= |s|
  {
    if Opens(s) then IndexOf(s, '}') + 1 else 1
  }

  /** What was compiled before i is a start of the whole, and the rest is that of the rest. */
  ghost predicate CompiledTo(tmpl: Bytes, i: nat, re: seq<Token>)
    requires i <= |tmpl|
  {
    match Without(Tokens(tmpl), re)
    case None => false
    case Some(rest) => rest == Tokens(tmpl[i..])
  }

  function Without(whole: seq<Token>, start: seq<Token>): (rest: Option<seq<Token>>) {
    if start <= whole then Some(whole[|start|..]) else None
  }

  lemma CompileStep(tmpl: Bytes, i: nat, re: seq<Token>)
    requires i < |tmpl| && CompiledTo(tmpl, i, re)
    ensures CompiledTo(tmpl, i + FirstLen(tmpl[i..]), re + [FirstToken(tmpl[i..])])
  {
    var whole, rest, k := Tokens(tmpl), tmpl[i..], FirstLen(tmpl[i..]);
    assert Tokens(rest) == [FirstToken(rest)] + Tokens(rest[k..]);
    DropDrop(tmpl, i, k);
    Halves(whole, |re|);
    Glue(whole, re, Tokens(rest), [FirstToken(rest)], Tokens(rest[k..]));
    AppendParts(re + [FirstToken(rest)], Tokens(rest[k..]));
  }

  lemma CompileEnds(tmpl: Bytes, re: seq<Token>)
    ensures CompiledTo(tmpl, |tmpl|, re) ==> re == Tokens(tmpl)
    ensures CompiledTo(tmpl, 0, [])
  {
    assert tmpl[|tmpl|..] == [] && tmpl[0..] == tmpl;
    if CompiledTo(tmpl, |tmpl|, re) {
      Halves(Tokens(tmpl), |re|);
    }
  }

  method CompileURITemplate(tmpl: Bytes) returns (re: seq<Token>)
    ensures re == Tokens(tmpl)
  {
    re := [];
    var i := 0;
    CompileEnds(tmpl, re);
    while i < |tmpl|
      invariant i <= |tmpl| && CompiledTo(tmpl, i, re)
    {
      var token, len := TokenAt(tmpl, i);
      CompileStep(tmpl, i, re);
      re := re + [token];
      i := i + len;
    }
    CompileEnds(tmpl, re);
  }

  /** A placeholder, or one byte of literal text. */
  method TokenAt(tmpl: Bytes, i: nat) returns (t: Token, len: nat)
    requires i < |tmpl|
    ensures t == FirstToken(tmpl[i..]) && len == FirstLen(tmpl[i..])
  {
    if tmpl[i] == '{' {
      var end := IndexOf(tmpl[i..], '}');
      if 1 < end < |tmpl| - i {
        assert tmpl[i..][1..end] == tmpl[i + 1..i + end];
        return Seg(tmpl[i + 1..i + end]), end + 1;
      }
    }
    assert tmpl[i..][..1] == tmpl[i..i + 1];
    return Lit(tmpl[i..i + 1]), 1;
  }

  method MatchEntry(tmpl: Bytes, uri: Bytes) returns (r: Option<Params>)
    ensures r == MatchTemplate(tmpl, uri)
  {
    var re := CompileURITemplate(tmpl);
    var m := Match(re, uri);
    if m.None? {
      return None;
    }
    var params := Collect(re, m.value);
    return Some(params);
  }

  method Collect(tokens: seq<Token>, parts: seq<Bytes>) returns (params: Params)
    requires |tokens| == |parts|
    ensures params == ParamsOf(tokens, parts)
  {
    params := map[];
    var i := 0;
    while i < |tokens|
      invariant 0 <= i <= |tokens| && params == ParamsOf(tokens[..i], parts[..i])
    {
      assert tokens[..i + 1][..i] == tokens[..i] && parts[..i + 1][..i] == parts[..i];
      if Hole(tokens[i]) {
        params := params[tokens[i].name := parts[i]];
      }
      i := i + 1;
    }
    assert tokens[..i] == tokens && parts[..i] == parts;
  }

  // ---- Templates as they are written ----

  /** A closed placeholder with a name reads one segment, and is what its parameter replaces. */
  lemma PlaceholderReads(name: Bytes, rest: Bytes, params: Params)
    requires name != [] && '}' !in name
    ensures var s := ['{'] + name + ['}'] + rest;
      && Tokens(s) == [Seg(name)] + Tokens(rest)
      && ExpandTemplate(s, params) == (if name in params then params[name] else ['{'] + name + ['}']) + ExpandTemplate(rest, params)
  {
    var s := ['{'] + name + ['}'] + rest;
    IndexOfAfter(['{'] + name, '}', rest);
    BracedParts(name, rest);
    OpensAt(s, name, rest, params);
  }

  lemma BracedParts(name: Bytes, rest: Bytes)
    ensures var s := ['{'] + name + ['}'] + rest; s[1..|name| + 1] == name && s[|name| + 1 + 1..] == rest && s[0] == '{'
  {
  }

  lemma OpensAt(s: Bytes, name: Bytes, rest: Bytes, params: Params)
    requires name != [] && |s| > |name| + 1 && s[0] == '{' && IndexOf(s, '}') == |name| + 1
    requires s[1..|name| + 1] == name && s[|name| + 1 + 1..] == rest
    ensures Tokens(s) == [Seg(name)] + Tokens(rest) && ExpandTemplate(s, params) == Substitute(name, params) + ExpandTemplate(rest, params)
  {
  }

  /** Any other byte stands for itself: what is no '{', the '{' of "{}", and a '{' that is never closed. */
  lemma OtherReads(s: Bytes, params: Params)
    requires s != [] && (s[0] == '{' ==> '}' !in s || (|s| > 1 && s[1] == '}'))
    ensures Tokens(s) == [Lit([s[0]])] + Tokens(s[1..]) && ExpandTemplate(s, params) == [s[0]] + ExpandTemplate(s[1..], params)
  {
    IndexOfNone(s, '}');
    assert s[..1] == [s[0]];
    if s[0] == '{' && |s| > 1 && s[1] == '}' {
      IndexOfAfter([s[0]], '}', s[2..]);
      assert s == [s[0]] + ['}'] + s[2..];
    }
  }
}
