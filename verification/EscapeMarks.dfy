/** Escapes that no encoder writes separate placeholders as reserved bytes do: with their '%' marked
    by a reserved byte, the splitting of a text is the one already studied. */
module EscapeMarks {
  import opened Wrappers
  import opened Percent
  import opened Sequences
  import opened PathMatching

  predicate UpperHex(c: Byte) {
    '0' <= c <= '9' || 'A' <= c <= 'F'
  }

  /** The encoder writes "%xy" for some byte. */
  predicate Written(x: Byte, y: Byte) {
    UpperHex(x) && UpperHex(y) && !Unreserved((HexValue(x) * 16 + HexValue(y)) as char)
  }

  /** A triplet at i that no encoder writes. */
  predicate Foreign(s: Bytes, i: nat) {
    i + 2 < |s| && s[i] == '%' && !Written(s[i + 1], s[i + 2])
  }

  const BAR: Byte := '!'

  function Mark(s: Bytes): (r: Bytes)
    ensures |r| == |s| && forall i :: 0 <= i < |s| ==> r[i] == if Foreign(s, i) then BAR else s[i]
  {
    seq(|s|, i requires 0 <= i < |s| => if Foreign(s, i) then BAR else s[i])
  }

  /** Every '%' has two bytes after it, so that what follows the text changes no mark in it. */
  ghost predicate Complete(s: Bytes) {
    forall i :: 0 <= i < |s| && s[i] == '%' ==> i + 2 < |s|
  }

  /** Every '%' starts a foreign triplet. */
  ghost predicate AllForeign(s: Bytes) {
    forall i :: 0 <= i < |s| && s[i] == '%' ==> Foreign(s, i)
  }

  lemma MarkAppend(a: Bytes, b: Bytes)
    requires Complete(a)
    ensures Mark(a + b) == Mark(a) + Mark(b)
  {
    var s := a + b;
    forall i | 0 <= i < |s|
      ensures Mark(s)[i] == (Mark(a) + Mark(b))[i]
    {
      if i < |a| {
        assert Foreign(s, i) <==> Foreign(a, i);
      } else {
        assert Foreign(s, i) <==> Foreign(b, i - |a|);
      }
    }
  }

  function MarkAll(parts: seq<Bytes>): (r: seq<Bytes>)
    ensures |r| == |parts| && forall i :: 0 <= i < |r| ==> r[i] == Mark(parts[i])
  {
    seq(|parts|, i requires 0 <= i < |parts| => Mark(parts[i]))
  }

  lemma {:induction false} MarkConcat(parts: seq<Bytes>)
    requires forall i :: 0 <= i < |parts| ==> Complete(parts[i])
    ensures Mark(Concat(parts)) == Concat(MarkAll(parts))
  {
    if parts != [] {
      MarkConcat(parts[1..]);
      MarkAppend(parts[0], Concat(parts[1..]));
      assert MarkAll(parts)[1..] == MarkAll(parts[1..]);
    }
  }

  /** The same text, but for more marks in t. */
  ghost predicate Below(s: Bytes, t: Bytes) {
    |s| == |t| && forall i :: 0 <= i < |s| ==> s[i] == t[i] || (s[i] == '%' && t[i] == BAR)
  }

  lemma BelowAppend(a: Bytes, b: Bytes, c: Bytes)
    requires Below(c, Mark(b))
    ensures Below(Mark(a) + c, Mark(a + b))
  {
    var s := a + b;
    forall i | 0 <= i < |s|
      ensures (Mark(a) + c)[i] == Mark(s)[i] || ((Mark(a) + c)[i] == '%' && Mark(s)[i] == BAR)
    {
      if i < |a| {
        assert Foreign(a, i) ==> Foreign(s, i);
      } else {
        assert Foreign(s, i) <==> Foreign(b, i - |a|);
      }
    }
  }

  lemma {:induction false} MarkBelow(parts: seq<Bytes>)
    ensures Below(Concat(MarkAll(parts)), Mark(Concat(parts)))
  {
    if parts != [] {
      MarkBelow(parts[1..]);
      BelowAppend(parts[0], Concat(parts[1..]), Concat(MarkAll(parts[1..])));
      assert MarkAll(parts)[1..] == MarkAll(parts[1..]);
    }
  }

  lemma {:induction false} BelowCount(s: Bytes, t: Bytes)
    requires Below(s, t)
    ensures HardCount(s) <= HardCount(t) && (HardCount(s) == HardCount(t) ==> s == t)
  {
    if s != [] {
      assert Below(s[1..], t[1..]) by {
        forall i | 0 <= i < |s[1..]|
          ensures s[1..][i] == t[1..][i] || (s[1..][i] == '%' && t[1..][i] == BAR)
        {
          assert s[1..][i] == s[i + 1] && t[1..][i] == t[i + 1];
        }
      }
      BelowCount(s[1..], t[1..]);
      assert s == [s[0]] + s[1..] && t == [t[0]] + t[1..];
    }
  }

  // ---- Tokens with their literals marked ----

  function MarkToken(t: Token): (r: Token) {
    if t.Lit? then Lit(Mark(t.text)) else t
  }

  function MarkTokens(tokens: seq<Token>): (r: seq<Token>)
    ensures |r| == |tokens| && forall i :: 0 <= i < |r| ==> r[i] == MarkToken(tokens[i])
  {
    seq(|tokens|, i requires 0 <= i < |tokens| => MarkToken(tokens[i]))
  }

  lemma MarkFits(t: Token, part: Bytes)
    requires Fits(t, part)
    ensures Fits(MarkToken(t), Mark(part))
  {
  }

  lemma AllMarkFit(tokens: seq<Token>, u: Bytes, parts: seq<Bytes>)
    requires Splits(tokens, u, parts)
    ensures forall i :: 0 <= i < |tokens| ==> Fits(MarkTokens(tokens)[i], MarkAll(parts)[i])
  {
    forall i | 0 <= i < |tokens|
      ensures Fits(MarkTokens(tokens)[i], MarkAll(parts)[i])
    {
      MarkFits(tokens[i], parts[i]);
    }
  }

  /** If one reading of a text has complete parts and clean marks, every reading has clean marks, and
      its parts are marked as the whole is. */
  lemma MarkedReading(tokens: seq<Token>, u: Bytes, p: seq<Bytes>, q: seq<Bytes>)
    requires Splits(tokens, u, p) && Splits(tokens, u, q) && Clean(MarkTokens(tokens), MarkAll(p))
    requires forall i :: 0 <= i < |p| ==> Complete(p[i])
    ensures CleanSplit(MarkTokens(tokens), Mark(u), MarkAll(p)) && CleanSplit(MarkTokens(tokens), Mark(u), MarkAll(q))
  {
    AllMarkFit(tokens, u, p);
    AllMarkFit(tokens, u, q);
    MarkConcat(p);
    MarkBelow(q);
    BelowCount(Concat(MarkAll(q)), Mark(u));
    FewerHard(MarkTokens(tokens), MarkAll(p), MarkAll(q));
  }

  lemma {:induction false} SameLengths(p: seq<Bytes>, q: seq<Bytes>)
    requires |p| == |q| && Concat(p) == Concat(q) && forall i :: 0 <= i < |p| ==> |p[i]| == |q[i]|
    ensures p == q
  {
    if p != [] {
      AppendParts(p[0], Concat(p[1..]));
      AppendParts(q[0], Concat(q[1..]));
      SameLengths(p[1..], q[1..]);
      assert p == [p[0]] + p[1..] && q == [q[0]] + q[1..];
    }
  }

  /** On tokens that are separable once marked, the matcher finds the one reading with clean marks. */
  lemma MatchesOnlyMarked(tokens: seq<Token>, u: Bytes, p: seq<Bytes>)
    requires Separable(MarkTokens(tokens)) && Splits(tokens, u, p) && Clean(MarkTokens(tokens), MarkAll(p))
    requires forall i :: 0 <= i < |p| ==> Complete(p[i])
    ensures Match(tokens, u) == Some(p)
  {
    MatchGreediest(tokens, u, p);
    MatchSound(tokens, u);
    var q := Match(tokens, u).value;
    MarkedReading(tokens, u, p, q);
    OneSplit(MarkTokens(tokens), Mark(u), MarkAll(p), MarkAll(q));
    forall i | 0 <= i < |p|
      ensures |p[i]| == |q[i]|
    {
      assert MarkAll(p)[i] == MarkAll(q)[i];
    }
    SameLengths(p, q);
  }

  // ---- What the encoder writes ----

  /** Nothing in the text is foreign, and every '%' is complete. */
  ghost predicate Native(s: Bytes) {
    Complete(s) && forall i :: 0 <= i < |s| ==> !Foreign(s, i)
  }

  lemma NativeAppend(a: Bytes, b: Bytes)
    requires Native(a) && Native(b)
    ensures Native(a + b)
  {
    var s := a + b;
    forall i | 0 <= i < |s|
      ensures !Foreign(s, i) && (s[i] == '%' ==> i + 2 < |s|)
    {
      if i < |a| {
        assert s[i] == a[i] && !Foreign(a, i);
      } else {
        assert s[i] == b[i - |a|] && !Foreign(b, i - |a|);
      }
    }
  }

  lemma EscapeNative(c: Byte)
    requires !Unreserved(c)
    ensures Native(Escape(c))
  {
    assert Written(Escape(c)[1], Escape(c)[2]);
  }

  lemma {:induction false} EncodeNative(s: Bytes, wildcard: bool)
    ensures Native(Encode(s, wildcard))
  {
    if s != [] {
      EncodeNative(s[1..], wildcard);
      if !Keeps(wildcard, s[0]) {
        EscapeNative(s[0]);
      }
      NativeAppend(EncodeByte(s[0], wildcard), Encode(s[1..], wildcard));
    }
  }

  lemma NativeUnmarked(s: Bytes)
    requires Native(s)
    ensures Mark(s) == s
  {
  }
}
