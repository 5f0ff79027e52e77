/** The path half of a FastMCP template as a token list, its greedy backtracking matcher, and when a
    URI can be split along the tokens in only one way. */
module PathMatching {
  import opened Wrappers
  import opened Percent
  import opened Sequences

  /** Literal text, "[^/]+" and ".+". */
  datatype Token = Lit(text: Bytes) | Seg(name: Bytes) | Wild(name: Bytes)

  predicate Hole(t: Token) {
    !t.Lit?
  }

  /** No name stands for two placeholders. */
  ghost predicate Distinct(tokens: seq<Token>) {
    forall i, j :: 0 <= i < j < |tokens| && Hole(tokens[i]) && Hole(tokens[j]) ==> tokens[i].name != tokens[j].name
  }

  predicate Fits(t: Token, part: Bytes) {
    match t
    case Lit(text) => part == text
    case Seg(_) => part != [] && '/' !in part
    case Wild(_) => part != [] && '\n' !in part
  }

  function Concat(parts: seq<Bytes>): (r: Bytes)
  {
    if parts == [] then [] else parts[0] + Concat(parts[1..])
  }

  /** One way to read the text along the tokens. */
  ghost predicate Splits(tokens: seq<Token>, u: Bytes, parts: seq<Bytes>) {
    && |parts| == |tokens|
    && Concat(parts) == u
    && forall i :: 0 <= i < |tokens| ==> Fits(tokens[i], parts[i])
  }

  // ---- The matcher: the longest first part that lets the rest match ----

  function Match(tokens: seq<Token>, u: Bytes): (r: Option<seq<Bytes>>)
    ensures r.Some? ==> |r.value| == |tokens|
    decreases |tokens|, |u| + 1
  {
    if tokens == [] then if u == [] then Some([]) else None
    else if tokens[0].Lit? then
      var l := |tokens[0].text|;
      if l <= |u| && u[..l] == tokens[0].text then Before(u[..l], Match(tokens[1..], u[l..])) else None
    else MatchUpTo(tokens, u, |u|)
  }

  function MatchUpTo(tokens: seq<Token>, u: Bytes, k: nat): (r: Option<seq<Bytes>>)
    requires tokens != [] && Hole(tokens[0]) && k <= |u|
    ensures r.Some? ==> |r.value| == |tokens|
    decreases |tokens|, k
  {
    if k == 0 then None
    else if Fits(tokens[0], u[..k]) && Match(tokens[1..], u[k..]).Some? then Before(u[..k], Match(tokens[1..], u[k..]))
    else MatchUpTo(tokens, u, k - 1)
  }

  function Before(part: Bytes, r: Option<seq<Bytes>>): (q: Option<seq<Bytes>>) {
    if r.None? then None else Some([part] + r.value)
  }

  /** p takes a longer part where the two first differ. */
  ghost predicate Greedier(p: seq<Bytes>, q: seq<Bytes>) {
    exists i :: 0 <= i < |p| && i < |q| && p[..i] == q[..i] && |p[i]| > |q[i]|
  }

  lemma SplitsHead(tokens: seq<Token>, u: Bytes, parts: seq<Bytes>)
    requires tokens != [] && Splits(tokens, u, parts)
    ensures Splits(tokens[1..], u[|parts[0]|..], parts[1..])
    ensures |parts[0]| <= |u| && u[..|parts[0]|] == parts[0] && Fits(tokens[0], parts[0])
  {
    assert u == parts[0] + Concat(parts[1..]);
  }

  lemma SplitsCons(tokens: seq<Token>, u: Bytes, k: nat, rest: seq<Bytes>)
    requires tokens != [] && k <= |u| && Fits(tokens[0], u[..k]) && Splits(tokens[1..], u[k..], rest)
    ensures Splits(tokens, u, [u[..k]] + rest)
  {
    var parts := [u[..k]] + rest;
    assert parts[1..] == rest;
    assert u == u[..k] + u[k..];
  }

  lemma {:induction false} MatchSound(tokens: seq<Token>, u: Bytes)
    requires Match(tokens, u).Some?
    ensures Splits(tokens, u, Match(tokens, u).value)
    decreases |tokens|, |u| + 1
  {
    if tokens != [] {
      if tokens[0].Lit? {
        var l := |tokens[0].text|;
        MatchSound(tokens[1..], u[l..]);
        SplitsCons(tokens, u, l, Match(tokens[1..], u[l..]).value);
      } else {
        MatchUpToSound(tokens, u, |u|);
      }
    }
  }

  lemma {:induction false} MatchUpToSound(tokens: seq<Token>, u: Bytes, k: nat)
    requires tokens != [] && Hole(tokens[0]) && k <= |u| && MatchUpTo(tokens, u, k).Some?
    ensures Splits(tokens, u, MatchUpTo(tokens, u, k).value)
    decreases |tokens|, k
  {
    if Fits(tokens[0], u[..k]) && Match(tokens[1..], u[k..]).Some? {
      MatchSound(tokens[1..], u[k..]);
      SplitsCons(tokens, u, k, Match(tokens[1..], u[k..]).value);
    } else {
      MatchUpToSound(tokens, u, k - 1);
    }
  }

  /** A text that can be split is matched, and the match is the greediest split. */
  lemma {:induction false} MatchGreediest(tokens: seq<Token>, u: Bytes, parts: seq<Bytes>)
    requires Splits(tokens, u, parts)
    ensures Match(tokens, u).Some?
    ensures Match(tokens, u).value == parts || Greedier(Match(tokens, u).value, parts)
    decreases |tokens|, |u| + 1
  {
    if tokens != [] {
      SplitsHead(tokens, u, parts);
      if tokens[0].Lit? {
        var l := |tokens[0].text|;
        MatchGreediest(tokens[1..], u[l..], parts[1..]);
        GreedierCons(u[..l], Match(tokens[1..], u[l..]).value, parts[1..]);
        assert [parts[0]] + parts[1..] == parts;
      } else {
        MatchUpToGreediest(tokens, u, parts, |u|);
      }
    }
  }

  lemma {:induction false} MatchUpToGreediest(tokens: seq<Token>, u: Bytes, parts: seq<Bytes>, k: nat)
    requires Splits(tokens, u, parts) && tokens != [] && Hole(tokens[0]) && |parts[0]| <= k <= |u|
    ensures MatchUpTo(tokens, u, k).Some?
    ensures MatchUpTo(tokens, u, k).value == parts || Greedier(MatchUpTo(tokens, u, k).value, parts)
    decreases |tokens|, k
  {
    SplitsHead(tokens, u, parts);
    assert [parts[0]] + parts[1..] == parts;
    if k == |parts[0]| {
      MatchGreediest(tokens[1..], u[k..], parts[1..]);
      GreedierCons(u[..k], Match(tokens[1..], u[k..]).value, parts[1..]);
    } else if Fits(tokens[0], u[..k]) && Match(tokens[1..], u[k..]).Some? {
      var m := MatchUpTo(tokens, u, k).value;
      assert m[0] == u[..k] && m[..0] == parts[..0];
    } else {
      MatchUpToGreediest(tokens, u, parts, k - 1);
    }
  }

  lemma GreedierCons(part: Bytes, p: seq<Bytes>, q: seq<Bytes>)
    requires Greedier(p, q) || p == q
    ensures Greedier([part] + p, [part] + q) || p == q
  {
    if p != q {
      var i :| 0 <= i < |p| && i < |q| && p[..i] == q[..i] && |p[i]| > |q[i]|;
      var p', q' := [part] + p, [part] + q;
      assert p'[..i + 1] == [part] + p[..i] && q'[..i + 1] == [part] + q[..i];
      assert |p'[i + 1]| > |q'[i + 1]|;
    }
  }

  // ---- When a text splits in only one way ----

  /** Bytes that no encoded value holds; '/' can stand in a wildcard's value. */
  predicate Hard(c: Byte) {
    !Unreserved(c) && c != '%' && c != '/'
  }

  predicate Sep(c: Byte) {
    Hard(c) || c == '/'
  }

  predicate Bars(c: Byte, hardOnly: bool) {
    if hardOnly then Hard(c) else Sep(c)
  }

  predicate HasBar(s: Bytes, hardOnly: bool) {
    exists i :: 0 <= i < |s| && Bars(s[i], hardOnly)
  }

  /** Neighbouring placeholders are parted by a literal with a separating byte, and two wildcards by
      one that no wildcard's value can hold. */
  ghost predicate Separable(tokens: seq<Token>) {
    && (forall i :: 0 <= i < |tokens| - 1 && Hole(tokens[i]) ==> tokens[i + 1].Lit?)
    && (forall i :: 0 < i < |tokens| - 1 && tokens[i].Lit? ==> HasBar(tokens[i].text, false))
    && (forall i, j :: 0 <= i < j < |tokens| && tokens[i].Wild? && tokens[j].Wild? ==> BarBetween(tokens, i, j))
  }

  ghost predicate BarBetween(tokens: seq<Token>, i: int, j: int)
    requires 0 <= i < j < |tokens|
  {
    exists m :: i < m < j && tokens[m].Lit? && HasBar(tokens[m].text, true)
  }

  /** What stands in for placeholders holds no hard byte. */
  ghost predicate Clean(tokens: seq<Token>, parts: seq<Bytes>)
    requires |parts| == |tokens|
  {
    forall i :: 0 <= i < |tokens| && Hole(tokens[i]) ==> !HasBar(parts[i], true)
  }

  lemma {:induction false} ConcatAppend(p: seq<Bytes>, q: seq<Bytes>)
    ensures Concat(p + q) == Concat(p) + Concat(q)
  {
    if p == [] {
      assert p + q == q;
    } else {
      ConcatAppend(p[1..], q);
      AppendDrop(p, q, 1);
      Assoc(p[0], Concat(p[1..]), Concat(q));
    }
  }

  /** The first bar of a text fixes where a barred literal starts. */
  lemma FirstBar(a: Bytes, b: Bytes, l: Bytes, x: Bytes, y: Bytes, hardOnly: bool)
    requires a + l + x == b + l + y
    requires !HasBar(a, hardOnly) && !HasBar(b, hardOnly) && HasBar(l, hardOnly)
    ensures |a| == |b|
  {
    NotShorter(a, b, l, x, y, hardOnly);
    NotShorter(b, a, l, y, x, hardOnly);
  }

  lemma {:induction false} LeastBar(l: Bytes, hardOnly: bool) returns (f: nat)
    requires HasBar(l, hardOnly)
    ensures f < |l| && Bars(l[f], hardOnly) && forall i :: 0 <= i < f ==> !Bars(l[i], hardOnly)
  {
    f := 0;
    if !Bars(l[0], hardOnly) {
      var g :| 0 <= g < |l| && Bars(l[g], hardOnly);
      assert Bars(l[1..][g - 1], hardOnly);
      var h := LeastBar(l[1..], hardOnly);
      f := h + 1;
      assert forall i :: 1 <= i < f ==> l[i] == l[1..][i - 1];
    }
  }

  lemma NotShorter(a: Bytes, b: Bytes, l: Bytes, x: Bytes, y: Bytes, hardOnly: bool)
    requires a + l + x == b + l + y
    requires !HasBar(b, hardOnly) && HasBar(l, hardOnly)
    ensures |a| >= |b|
  {
    var f := LeastBar(l, hardOnly);
    var u := b + l + y;
    assert Bars((a + l + x)[|a| + f], hardOnly);
    assert forall i :: 0 <= i < |b| ==> u[i] == b[i];
    assert forall i :: |b| <= i < |b| + f ==> u[i] == l[i - |b|];
  }

  /** The last bar of a text fixes where a barred literal ends. */
  lemma LastBar(a: Bytes, b: Bytes, l: Bytes, x: Bytes, y: Bytes, hardOnly: bool)
    requires x + l + a == y + l + b
    requires !HasBar(a, hardOnly) && !HasBar(b, hardOnly) && HasBar(l, hardOnly)
    ensures |a| == |b|
  {
    var u := x + l + a;
    assert Reversed(u) == Reversed(a) + Reversed(l) + Reversed(x) by {
      ReversedAppend(x + l, a);
      ReversedAppend(x, l);
    }
    assert Reversed(u) == Reversed(b) + Reversed(l) + Reversed(y) by {
      ReversedAppend(y + l, b);
      ReversedAppend(y, l);
    }
    ReversedBars(a, hardOnly);
    ReversedBars(b, hardOnly);
    ReversedBars(l, hardOnly);
    FirstBar(Reversed(a), Reversed(b), Reversed(l), Reversed(x), Reversed(y), hardOnly);
  }

  ghost function Reversed(s: Bytes): (r: Bytes)
    ensures |r| == |s|
  {
    seq(|s|, i requires 0 <= i < |s| => s[|s| - 1 - i])
  }

  lemma ReversedAppend(a: Bytes, b: Bytes)
    ensures Reversed(a + b) == Reversed(b) + Reversed(a)
  {
  }

  lemma ReversedBars(s: Bytes, hardOnly: bool)
    ensures HasBar(Reversed(s), hardOnly) <==> HasBar(s, hardOnly)
  {
    if HasBar(s, hardOnly) {
      var i :| 0 <= i < |s| && Bars(s[i], hardOnly);
      assert Reversed(s)[|s| - 1 - i] == s[i];
    }
  }

  // ---- Uniqueness ----

  lemma SeparablePart(tokens: seq<Token>, lo: nat, hi: nat)
    requires Separable(tokens) && lo <= hi <= |tokens|
    ensures Separable(tokens[lo..hi])
  {
    var part := tokens[lo..hi];
    forall i, j | 0 <= i < j < |part| && part[i].Wild? && part[j].Wild?
      ensures BarBetween(part, i, j)
    {
      assert BarBetween(tokens, lo + i, lo + j);
      var m :| lo + i < m < lo + j && tokens[m].Lit? && HasBar(tokens[m].text, true);
      assert part[m - lo] == tokens[m];
    }
    assert forall i :: 0 <= i < |part| ==> part[i] == tokens[lo + i];
  }

  /** A segment's part holds no separating byte. */
  lemma SegNoBar(tokens: seq<Token>, parts: seq<Bytes>, i: nat)
    requires |parts| == |tokens| && Clean(tokens, parts) && i < |tokens| && tokens[i].Seg? && Fits(tokens[i], parts[i])
    ensures !HasBar(parts[i], false)
  {
    forall k | 0 <= k < |parts[i]|
      ensures !Bars(parts[i][k], false)
    {
      assert !Bars(parts[i][k], true);
    }
  }

  ghost predicate CleanSplit(tokens: seq<Token>, u: Bytes, parts: seq<Bytes>) {
    Splits(tokens, u, parts) && Clean(tokens, parts)
  }

  lemma CleanPart(tokens: seq<Token>, u: Bytes, parts: seq<Bytes>, lo: nat, hi: nat)
    requires CleanSplit(tokens, u, parts) && lo <= hi <= |tokens|
    ensures CleanSplit(tokens[lo..hi], Concat(parts[lo..hi]), parts[lo..hi])
  {
  }

  lemma {:induction false} OneSplit(tokens: seq<Token>, u: Bytes, p: seq<Bytes>, q: seq<Bytes>)
    requires Separable(tokens) && CleanSplit(tokens, u, p) && CleanSplit(tokens, u, q)
    ensures p == q
    decreases |tokens|, 0
  {
    var n := |tokens|;
    if n == 1 {
      ConcatOne(p);
      ConcatOne(q);
    } else if n > 1 {
      var m := Cut(tokens, u, p, q);
      OneSplitOf(tokens, u, p, q, 0, m);
      OneSplitOf(tokens, u, p, q, m, n);
      SameHalves(p, q, m);
    }
  }

  lemma SameHalves(p: seq<Bytes>, q: seq<Bytes>, m: nat)
    requires m <= |p| == |q| && p[0..m] == q[0..m] && p[m..|p|] == q[m..|q|]
    ensures p == q
  {
    Halves(p, m);
    Halves(q, m);
  }

  lemma {:induction false} OneSplitOf(tokens: seq<Token>, u: Bytes, p: seq<Bytes>, q: seq<Bytes>, lo: nat, hi: nat)
    requires Separable(tokens) && CleanSplit(tokens, u, p) && CleanSplit(tokens, u, q)
    requires lo <= hi <= |tokens| && hi - lo < |tokens| && Concat(p[lo..hi]) == Concat(q[lo..hi])
    ensures p[lo..hi] == q[lo..hi]
    decreases hi - lo, 1
  {
    SeparablePart(tokens, lo, hi);
    CleanPart(tokens, u, p, lo, hi);
    CleanPart(tokens, u, q, lo, hi);
    OneSplit(tokens[lo..hi], Concat(p[lo..hi]), p[lo..hi], q[lo..hi]);
  }

  /** Two clean splits agree on some cut of the tokens. */
  lemma Cut(tokens: seq<Token>, u: Bytes, p: seq<Bytes>, q: seq<Bytes>) returns (m: nat)
    requires Separable(tokens) && CleanSplit(tokens, u, p) && CleanSplit(tokens, u, q) && |tokens| > 1
    ensures 0 < m < |tokens| && Concat(p[0..m]) == Concat(q[0..m]) && Concat(p[m..|p|]) == Concat(q[m..|q|])
  {
    var n := |tokens| - 1;
    if !tokens[0].Wild? {
      m := 1;
      FirstPart(tokens, u, p, q);
    } else if !tokens[n].Wild? {
      m := n;
      LastPart(tokens, u, p, q);
    } else {
      m := HardPart(tokens, u, p, q);
    }
    ConcatCut(p, m);
    ConcatCut(q, m);
    assert Concat(p[0..m]) == u[..|Concat(p[0..m])|] && Concat(q[0..m]) == u[..|Concat(p[0..m])|];
    assert Concat(p[m..|p|]) == u[|Concat(p[0..m])|..] && Concat(q[m..|q|]) == u[|Concat(p[0..m])|..];
  }

  lemma ConcatCut(p: seq<Bytes>, m: nat)
    requires m <= |p|
    ensures Concat(p) == Concat(p[0..m]) + Concat(p[m..|p|])
  {
    Halves(p, m);
    ConcatAppend(p[0..m], p[m..|p|]);
  }

  lemma ConcatAround(p: seq<Bytes>, m: nat)
    requires m < |p|
    ensures Concat(p) == Concat(p[0..m]) + p[m] + Concat(p[m + 1..|p|])
  {
    ConcatCut(p, m);
    assert p[m..|p|][1..] == p[m + 1..|p|];
    var a, b, c := Concat(p[0..m]), p[m], Concat(p[m + 1..|p|]);
    assert Concat(p[m..|p|]) == b + c;
    Assoc(a, b, c);
  }

  lemma ConcatOne(p: seq<Bytes>)
    requires |p| == 1
    ensures Concat(p) == p[0] && p == [p[0]]
  {
  }

  lemma FirstPart(tokens: seq<Token>, u: Bytes, p: seq<Bytes>, q: seq<Bytes>)
    requires Separable(tokens) && CleanSplit(tokens, u, p) && CleanSplit(tokens, u, q)
    requires |tokens| > 1 && !tokens[0].Wild?
    ensures |Concat(p[0..1])| == |Concat(q[0..1])|
  {
    ConcatOne(p[0..1]);
    ConcatOne(q[0..1]);
    if tokens[0].Seg? {
      SegNoBar(tokens, p, 0);
      SegNoBar(tokens, q, 0);
      ConcatAround(p, 1);
      ConcatAround(q, 1);
      if |tokens| > 2 {
        FirstBar(p[0], q[0], p[1], Concat(p[2..|p|]), Concat(q[2..|q|]), false);
      }
    }
  }

  lemma LastPart(tokens: seq<Token>, u: Bytes, p: seq<Bytes>, q: seq<Bytes>)
    requires Separable(tokens) && CleanSplit(tokens, u, p) && CleanSplit(tokens, u, q)
    requires |tokens| > 1 && tokens[0].Wild? && !tokens[|tokens| - 1].Wild?
    ensures |Concat(p[0..|p| - 1])| == |Concat(q[0..|q| - 1])|
  {
    var n := |tokens| - 1;
    ConcatCut(p, n);
    ConcatCut(q, n);
    ConcatOne(p[n..|p|]);
    ConcatOne(q[n..|q|]);
    if tokens[n].Seg? {
      SegNoBar(tokens, p, n);
      SegNoBar(tokens, q, n);
      assert tokens[n - 1].Lit? && p[n - 1] == tokens[n - 1].text && q[n - 1] == tokens[n - 1].text;
      ConcatAround(p, n - 1);
      ConcatAround(q, n - 1);
      LastBar(p[n], q[n], p[n - 1], Concat(p[0..n - 1]), Concat(q[0..n - 1]), false);
    }
  }

  /** With a wildcard at each end, the first hard byte of the text is that of the same literal. */
  lemma HardPart(tokens: seq<Token>, u: Bytes, p: seq<Bytes>, q: seq<Bytes>) returns (m: nat)
    requires Separable(tokens) && CleanSplit(tokens, u, p) && CleanSplit(tokens, u, q)
    requires |tokens| > 1 && tokens[0].Wild? && tokens[|tokens| - 1].Wild?
    ensures 0 < m < |tokens| && |Concat(p[0..m])| == |Concat(q[0..m])|
  {
    assert BarBetween(tokens, 0, |tokens| - 1);
    var b :| 0 < b < |tokens| - 1 && tokens[b].Lit? && HasBar(tokens[b].text, true);
    m := FirstHardLit(tokens, b);
    NoBarBefore(tokens[0..m], p[0..m]);
    NoBarBefore(tokens[0..m], q[0..m]);
    ConcatAround(p, m);
    ConcatAround(q, m);
    assert p[m] == tokens[m].text && q[m] == tokens[m].text;
    FirstBar(Concat(p[0..m]), Concat(q[0..m]), p[m], Concat(p[m + 1..|p|]), Concat(q[m + 1..|q|]), true);
  }

  lemma {:induction false} FirstHardLit(tokens: seq<Token>, b: nat) returns (m: nat)
    requires 0 < b < |tokens| && tokens[b].Lit? && HasBar(tokens[b].text, true) && tokens[0].Wild?
    ensures 0 < m <= b && tokens[m].Lit? && HasBar(tokens[m].text, true)
    ensures forall i :: 0 <= i < m && tokens[i].Lit? ==> !HasBar(tokens[i].text, true)
    decreases b
  {
    if c :| 0 < c < b && tokens[c].Lit? && HasBar(tokens[c].text, true) {
      m := FirstHardLit(tokens, c);
    } else {
      m := b;
    }
  }

  lemma {:induction false} NoBarBefore(tokens: seq<Token>, parts: seq<Bytes>)
    requires |parts| == |tokens| && Clean(tokens, parts)
    requires forall i :: 0 <= i < |tokens| ==> Fits(tokens[i], parts[i])
    requires forall i :: 0 <= i < |tokens| && tokens[i].Lit? ==> !HasBar(tokens[i].text, true)
    ensures !HasBar(Concat(parts), true)
  {
    if tokens != [] {
      NoBarBefore(tokens[1..], parts[1..]);
      assert !HasBar(parts[0], true);
      var rest := Concat(parts[1..]);
      forall k | 0 <= k < |parts[0] + rest|
        ensures !Bars((parts[0] + rest)[k], true)
      {
        assert (parts[0] + rest)[k] == if k < |parts[0]| then parts[0][k] else rest[k - |parts[0]|];
      }
    }
  }

  // ---- A clean split makes every split clean ----

  function HardCount(s: Bytes): (r: nat)
  {
    if s == [] then 0 else HardCount(s[1..]) + if Hard(s[0]) then 1 else 0
  }

  lemma {:induction false} HardCountAppend(a: Bytes, b: Bytes)
    ensures HardCount(a + b) == HardCount(a) + HardCount(b)
  {
    if a == [] {
      assert a + b == b;
    } else {
      HardCountAppend(a[1..], b);
      assert (a + b)[1..] == a[1..] + b;
    }
  }

  lemma {:induction false} HardCountZero(s: Bytes)
    ensures HardCount(s) == 0 <==> !HasBar(s, true)
  {
    if s != [] {
      HardCountZero(s[1..]);
      if HasBar(s[1..], true) {
        var i :| 0 <= i < |s[1..]| && Bars(s[1..][i], true);
        assert Bars(s[i + 1], true);
      }
      assert Bars(s[0], true) ==> HasBar(s, true);
      assert forall i :: 1 <= i < |s| ==> s[i] == s[1..][i - 1];
    }
  }

  lemma {:induction false} FewerHard(tokens: seq<Token>, p: seq<Bytes>, q: seq<Bytes>)
    requires |p| == |q| == |tokens| && Clean(tokens, p)
    requires forall i :: 0 <= i < |tokens| ==> Fits(tokens[i], p[i]) && Fits(tokens[i], q[i])
    ensures HardCount(Concat(p)) <= HardCount(Concat(q))
    ensures HardCount(Concat(p)) == HardCount(Concat(q)) ==> Clean(tokens, q)
  {
    if tokens != [] {
      FewerHard(tokens[1..], p[1..], q[1..]);
      HardCountAppend(p[0], Concat(p[1..]));
      HardCountAppend(q[0], Concat(q[1..]));
      HardCountZero(p[0]);
      HardCountZero(q[0]);
      if HardCount(Concat(p)) == HardCount(Concat(q)) {
        forall i | 0 <= i < |tokens| && Hole(tokens[i])
          ensures !HasBar(q[i], true)
        {
          assert i > 0 ==> Hole(tokens[1..][i - 1]) && q[1..][i - 1] == q[i];
        }
      }
    }
  }

  /** On separable tokens, a text with one clean split has no other, and the matcher finds it. */
  lemma MatchesOnlySplit(tokens: seq<Token>, u: Bytes, p: seq<Bytes>)
    requires Separable(tokens) && Splits(tokens, u, p) && Clean(tokens, p)
    ensures Match(tokens, u) == Some(p)
  {
    MatchGreediest(tokens, u, p);
    MatchSound(tokens, u);
    var q := Match(tokens, u).value;
    FewerHard(tokens, p, q);
    OneSplit(tokens, u, p, q);
  }

  /** A "{name}" reads a non-empty run without '/', a "{name*}" one without a line break, and text itself. */
  ghost predicate Reads(t: Token, part: Bytes) {
    && (t.Lit? ==> part == t.text)
    && (t.Seg? ==> |part| > 0 && forall i :: 0 <= i < |part| ==> part[i] != '/')
    && (t.Wild? ==> |part| > 0 && forall i :: 0 <= i < |part| ==> part[i] != '\n')
  }

  /** A text is matched exactly when it can be cut into parts that the tokens read. */
  lemma MatchedIff(tokens: seq<Token>, u: Bytes)
    ensures Match(tokens, u).Some? <==>
            exists p: seq<Bytes> :: |p| == |tokens| && Concat(p) == u && forall i :: 0 <= i < |tokens| ==> Reads(tokens[i], p[i])
  {
    if Match(tokens, u).Some? {
      MatchSound(tokens, u);
      var p := Match(tokens, u).value;
      assert forall i :: 0 <= i < |tokens| ==> Fits(tokens[i], p[i]) && Reads(tokens[i], p[i]);
    }
    if p: seq<Bytes> :| |p| == |tokens| && Concat(p) == u && forall i :: 0 <= i < |tokens| ==> Reads(tokens[i], p[i]) {
      assert Splits(tokens, u, p);
      MatchGreediest(tokens, u, p);
    }
  }
}
