/** Percent-encoding and decoding of byte strings (uritemplate/uritemplate.go, uritemplate/fastmcp.go). */
module Percent {
  import opened Wrappers
  import opened Sequences

  type Byte = c: char | c as int < 256
  type Bytes = seq<Byte>

  /** Section 2.3 of RFC 3986. */
  predicate Unreserved(c: Byte) {
    || 'A' <= c <= 'Z' || 'a' <= c <= 'z' || '0' <= c <= '9'
    || c == '-' || c == '.' || c == '_' || c == '~'
  }

  /** Section 2.2 of RFC 3986. */
  predicate Reserved(c: Byte) {
    || c == ':' || c == '/' || c == '?' || c == '#' || c == '[' || c == ']' || c == '@' || c == '!' || c == '$'
    || c == '&' || c == '\'' || c == '(' || c == ')' || c == '*' || c == '+' || c == ',' || c == ';' || c == '='
  }

  predicate IsHex(c: Byte) {
    '0' <= c <= '9' || 'A' <= c <= 'F' || 'a' <= c <= 'f'
  }

  function HexValue(c: Byte): (r: nat)
    requires IsHex(c)
    ensures r < 16
  {
    if c <= '9' then c as int - '0' as int else if c <= 'F' then c as int - 'A' as int + 10 else c as int - 'a' as int + 10
  }

  function HexDigit(n: nat): (c: Byte)
    requires n < 16
    ensures IsHex(c) && HexValue(c) == n && Unreserved(c)
  {
    if n < 10 then '0' + n as char else 'A' + (n - 10) as char
  }

  function Escape(c: Byte): (r: Bytes) {
    ['%', HexDigit(c as int / 16), HexDigit(c as int % 16)]
  }

  /** A valid triplet starts at i. */
  predicate Triplet(s: Bytes, i: nat) {
    i + 2 < |s| && s[i] == '%' && IsHex(s[i + 1]) && IsHex(s[i + 2])
  }

  // ---- The encoder that keeps unreserved bytes, and '/' for wildcards ----

  predicate Keeps(wildcard: bool, c: Byte) {
    Unreserved(c) || (wildcard && c == '/')
  }

  function EncodeByte(c: Byte, wildcard: bool): (r: Bytes) {
    if Keeps(wildcard, c) then [c] else Escape(c)
  }

  function Encode(s: Bytes, wildcard: bool): (r: Bytes)
  {
    if s == [] then [] else EncodeByte(s[0], wildcard) + Encode(s[1..], wildcard)
  }

  lemma EncodeStep(s: Bytes, wildcard: bool, i: nat, r: Bytes)
    requires i < |s| && r + Encode(s[i..], wildcard) == Encode(s, wildcard)
    ensures r + EncodeByte(s[i], wildcard) + Encode(s[i + 1..], wildcard) == Encode(s, wildcard)
  {
    assert s[i..][1..] == s[i + 1..];
    var head, rest := EncodeByte(s[i], wildcard), Encode(s[i + 1..], wildcard);
    assert r + (head + rest) == r + head + rest;
  }

  method FmEncode(s: Bytes, wildcard: bool) returns (r: Bytes)
    ensures r == Encode(s, wildcard)
  {
    r := [];
    var i := 0;
    assert s[0..] == s;
    while i < |s|
      invariant 0 <= i <= |s| && r + Encode(s[i..], wildcard) == Encode(s, wildcard)
    {
      EncodeStep(s, wildcard, i, r);
      if Keeps(wildcard, s[i]) {
        r := r + [s[i]];
      } else {
        r := r + ['%', HexDigit(s[i] as int / 16), HexDigit(s[i] as int % 16)];
      }
      i := i + 1;
    }
    assert r + [] == r;
  }

  /** Encoded text holds only bytes the encoder keeps, and '%'. */
  lemma {:induction false} EncodeAlphabet(s: Bytes, wildcard: bool)
    ensures forall i :: 0 <= i < |Encode(s, wildcard)| ==>
              Keeps(wildcard, Encode(s, wildcard)[i]) || Encode(s, wildcard)[i] == '%'
    ensures s != [] ==> Encode(s, wildcard) != []
  {
    if s != [] {
      EncodeAlphabet(s[1..], wildcard);
    }
  }

  /** Kept bytes encode to themselves. */
  lemma {:induction false} EncodeKept(s: Bytes, wildcard: bool)
    requires forall i :: 0 <= i < |s| ==> Keeps(wildcard, s[i])
    ensures Encode(s, wildcard) == s
  {
    if s != [] {
      EncodeKept(s[1..], wildcard);
    }
  }

  // ---- Decoding ----

  /** None is an invalid escape. */
  function Decode(s: Bytes): (r: Option<Bytes>)
  {
    if s == [] then Some([])
    else if s[0] == '%' then
      if !Triplet(s, 0) then None
      else
        var rest := Decode(s[3..]);
        if rest.None? then None else Some([TripletByte(s)] + rest.value)
    else
      var rest := Decode(s[1..]);
      if rest.None? then None else Some([s[0]] + rest.value)
  }

  function TripletByte(s: Bytes): (c: Byte)
    requires Triplet(s, 0)
  {
    (HexValue(s[1]) * 16 + HexValue(s[2])) as char
  }

  method UtDecode(s: Bytes) returns (r: Option<Bytes>)
    ensures r == Decode(s)
  {
    var b: Bytes := [];
    var i := 0;
    PrependNothing(s);
    while i < |s|
      invariant 0 <= i <= |s|
      invariant Decode(s) == Prepend(b, Decode(s[i..]))
    {
      if s[i] == '%' {
        if i + 2 >= |s| || !IsHex(s[i + 1]) || !IsHex(s[i + 2]) {
          return None;
        }
        var c: Byte := (HexValue(s[i + 1]) * 16 + HexValue(s[i + 2])) as char;
        assert TripletByte(s[i..]) == c;
        PrependTwice(b, [c], Decode(s[i + 3..]));
        b := b + [c];
        assert s[i..][3..] == s[i + 3..];
        i := i + 3;
      } else {
        PrependTwice(b, [s[i]], Decode(s[i + 1..]));
        b := b + [s[i]];
        assert s[i..][1..] == s[i + 1..];
        i := i + 1;
      }
    }
    assert b + [] == b;
    r := Some(b);
  }

  function Prepend(b: Bytes, r: Option<Bytes>): (q: Option<Bytes>) {
    if r.None? then None else Some(b + r.value)
  }

  lemma PrependNothing(s: Bytes)
    ensures s[0..] == s && Prepend([], Decode(s)) == Decode(s)
  {
    assert s[0..] == s;
    assert Decode(s).Some? ==> [] + Decode(s).value == Decode(s).value;
  }

  lemma PrependTwice(a: Bytes, b: Bytes, r: Option<Bytes>)
    ensures Prepend(a, Prepend(b, r)) == Prepend(a + b, r)
  {
    assert r.Some? ==> a + (b + r.value) == a + b + r.value;
  }

  lemma DecodeEscape(c: Byte, rest: Bytes)
    ensures Decode(Escape(c) + rest) == Prepend([c], Decode(rest))
  {
    var e := Escape(c) + rest;
    assert e[3..] == rest && e[1] == Escape(c)[1] && e[2] == Escape(c)[2];
    assert TripletByte(e) == c;
  }

  lemma DecodePlain(c: Byte, rest: Bytes)
    requires c != '%'
    ensures Decode([c] + rest) == Prepend([c], Decode(rest))
  {
    assert ([c] + rest)[1..] == rest;
  }

  lemma {:induction false} DecodeEncode(s: Bytes, wildcard: bool)
    ensures Decode(Encode(s, wildcard)) == Some(s)
  {
    if s != [] {
      var rest := Encode(s[1..], wildcard);
      DecodeEncode(s[1..], wildcard);
      if Keeps(wildcard, s[0]) {
        DecodePlain(s[0], rest);
      } else {
        DecodeEscape(s[0], rest);
      }
      assert [s[0]] + s[1..] == s;
    }
  }

  // ---- The encoder that also keeps reserved bytes and valid triplets ----

  predicate Passes(s: Bytes, i: nat)
    requires i < |s|
  {
    Unreserved(s[i]) || Reserved(s[i]) || Triplet(s, i)
  }

  function EncodeReserved(s: Bytes): (r: Bytes)
  {
    if s == [] then [] else (if Passes(s, 0) then [s[0]] else Escape(s[0])) + EncodeReserved(s[1..])
  }

  /** utEncode in its modes "U" and "U+R". */
  function EncodeAs(s: Bytes, reserved: bool): (r: Bytes) {
    if reserved then EncodeReserved(s) else Encode(s, false)
  }

  /** What is written for the byte at i. */
  function WrittenFor(s: Bytes, reserved: bool, i: nat): (r: Bytes)
    requires i < |s|
  {
    if Unreserved(s[i]) || (reserved && (Reserved(s[i]) || Triplet(s, i))) then [s[i]] else Escape(s[i])
  }

  lemma EncodeAsHead(s: Bytes, reserved: bool, i: nat)
    requires i < |s|
    ensures EncodeAs(s[i..], reserved) == WrittenFor(s, reserved, i) + EncodeAs(s[i + 1..], reserved)
  {
    assert s[i..][1..] == s[i + 1..];
    assert Triplet(s[i..], 0) <==> Triplet(s, i);
  }

  lemma EncodeAsStep(s: Bytes, reserved: bool, i: nat, r: Bytes)
    requires i < |s| && r + EncodeAs(s[i..], reserved) == EncodeAs(s, reserved)
    ensures r + WrittenFor(s, reserved, i) + EncodeAs(s[i + 1..], reserved) == EncodeAs(s, reserved)
  {
    EncodeAsHead(s, reserved, i);
    Glue(EncodeAs(s, reserved), r, EncodeAs(s[i..], reserved), WrittenFor(s, reserved, i), EncodeAs(s[i + 1..], reserved));
  }

  method UtEncode(s: Bytes, reserved: bool) returns (r: Bytes)
    ensures r == EncodeAs(s, reserved)
  {
    r := [];
    var i := 0;
    assert s[0..] == s;
    while i < |s|
      invariant 0 <= i <= |s|
      invariant r + EncodeAs(s[i..], reserved) == EncodeAs(s, reserved)
    {
      EncodeAsStep(s, reserved, i, r);
      if Unreserved(s[i]) || (reserved && Reserved(s[i])) {
        r := r + [s[i]];
      } else if reserved && s[i] == '%' && i + 2 < |s| && IsHex(s[i + 1]) && IsHex(s[i + 2]) {
        r := r + [s[i]];
      } else {
        r := r + Escape(s[i]);
      }
      i := i + 1;
    }
    assert r + [] == r;
  }

  /** Every byte may stand in a URI, and every '%' starts a valid triplet. */
  ghost predicate UriText(s: Bytes) {
    forall i :: 0 <= i < |s| ==> Passes(s, i)
  }

  lemma UriTextAppend(head: Bytes, rest: Bytes)
    requires UriText(rest) && forall i :: 0 <= i < |head| ==> Passes(head + rest, i)
    ensures UriText(head + rest)
  {
    var e := head + rest;
    forall i | |head| <= i < |e|
      ensures Passes(e, i)
    {
      assert Passes(rest, i - |head|);
    }
  }

  lemma EscapePasses(c: Byte, rest: Bytes)
    ensures forall i :: 0 <= i < 3 ==> Passes(Escape(c) + rest, i)
  {
    var e := Escape(c) + rest;
    assert e[0] == '%' && e[1] == Escape(c)[1] && e[2] == Escape(c)[2];
  }

  /** Hexadecimal digits go through as they are, so a kept '%' keeps its digits. */
  lemma HexKept(s: Bytes)
    requires s != [] && IsHex(s[0])
    ensures EncodeReserved(s) == [s[0]] + EncodeReserved(s[1..])
  {
  }

  lemma {:induction false} EncodeReservedText(s: Bytes)
    ensures UriText(EncodeReserved(s))
  {
    if s != [] {
      var rest := EncodeReserved(s[1..]);
      EncodeReservedText(s[1..]);
      if Triplet(s, 0) {
        HexKept(s[1..]);
        HexKept(s[1..][1..]);
      } else if !Passes(s, 0) {
        EscapePasses(s[0], rest);
      }
      UriTextAppend(if Passes(s, 0) then [s[0]] else Escape(s[0]), rest);
    }
  }

  lemma {:induction false} EncodeReservedFixes(s: Bytes)
    requires UriText(s)
    ensures EncodeReserved(s) == s
  {
    if s != [] {
      assert Passes(s, 0);
      forall i | 0 <= i < |s[1..]|
        ensures Passes(s[1..], i)
      {
        assert Passes(s, i + 1);
      }
      EncodeReservedFixes(s[1..]);
    }
  }

  lemma EncodeReservedIdempotent(s: Bytes)
    ensures EncodeReserved(EncodeReserved(s)) == EncodeReserved(s)
  {
    EncodeReservedText(s);
    EncodeReservedFixes(EncodeReserved(s));
  }

  /** Decoding that leaves a stray '%' alone. */
  function LooseDecode(s: Bytes): (r: Bytes)
  {
    if s == [] then []
    else if Triplet(s, 0) then [TripletByte(s)] + LooseDecode(s[3..])
    else [s[0]] + LooseDecode(s[1..])
  }

  /** A valid triplet goes through as it is. */
  lemma TripletKept(s: Bytes)
    requires Triplet(s, 0)
    ensures EncodeReserved(s) == s[0..3] + EncodeReserved(s[3..])
  {
    HexKept(s[1..]);
    HexKept(s[2..]);
    assert s[1..][1..] == s[2..] && s[2..][1..] == s[3..];
    assert s[0..3] == [s[0]] + ([s[1]] + [s[2]]);
  }

  lemma DecodeTriplet(t: Bytes, rest: Bytes)
    requires |t| == 3 && Triplet(t, 0)
    ensures Decode(t + rest) == Prepend([TripletByte(t)], Decode(rest))
  {
    assert (t + rest)[3..] == rest;
  }

  /** What a reader of the text gets back. */
  lemma {:induction false} DecodeEncodeReserved(s: Bytes)
    ensures Decode(EncodeReserved(s)) == Some(LooseDecode(s))
  {
    if s != [] {
      var e := EncodeReserved(s);
      if Triplet(s, 0) {
        TripletKept(s);
        DecodeEncodeReserved(s[3..]);
        DecodeTriplet(s[0..3], EncodeReserved(s[3..]));
      } else {
        DecodeEncodeReserved(s[1..]);
        if Passes(s, 0) {
          DecodePlain(s[0], EncodeReserved(s[1..]));
        } else {
          DecodeEscape(s[0], EncodeReserved(s[1..]));
        }
      }
    }
  }

  // ---- The alphabets, byte by byte ----

  /** ALPHA and DIGIT by their codes, and four marks. */
  predicate IsUnreserved(c: Byte) {
    65 <= c as int <= 90 || 97 <= c as int <= 122 || 48 <= c as int <= 57 || c in "-._~"
  }

  const RESERVED: Bytes := ":/?#[]@!$&'()*+,;="
  const HEX: Bytes := "0123456789ABCDEF"

  lemma UnreservedAre(c: Byte)
    ensures Unreserved(c) <==> IsUnreserved(c)
  {
  }

  lemma ReservedAre(c: Byte)
    ensures Reserved(c) <==> c in RESERVED
  {
  }

  /** Escapes are written in upper case, and read in either. */
  lemma HexAre(c: Byte, n: nat)
    requires n < 16
    ensures HexDigit(n) == HEX[n]
    ensures IsHex(c) <==> c in HEX || c in "abcdef"
    ensures IsHex(c) ==> HEX[HexValue(c)] == if c in "abcdef" then (c as int - 32) as char else c
  {
  }

  /** What a client of the encoder sees: unreserved bytes stand for themselves, '/' does so in wildcards,
      and every other byte is an escape of its two hexadecimal digits. */
  lemma EncodesByte(c: Byte, wildcard: bool)
    ensures Encode([c], wildcard) == if IsUnreserved(c) || (wildcard && c == '/') then [c] else ['%', HEX[c as int / 16], HEX[c as int % 16]]
  {
    UnreservedAre(c);
    HexAre(c, c as int / 16);
    HexAre(c, c as int % 16);
    assert Encode([c], wildcard) == EncodeByte(c, wildcard) + Encode([c][1..], wildcard);
  }

  lemma {:induction false} EncodeAppend(a: Bytes, b: Bytes, wildcard: bool)
    ensures Encode(a + b, wildcard) == Encode(a, wildcard) + Encode(b, wildcard)
  {
    if a == [] {
      assert a + b == b;
    } else {
      EncodeAppend(a[1..], b, wildcard);
      assert (a + b)[1..] == a[1..] + b;
      Assoc(EncodeByte(a[0], wildcard), Encode(a[1..], wildcard), Encode(b, wildcard));
    }
  }

  /** Some '%' does not start two hexadecimal digits. */
  ghost predicate BadEscape(s: Bytes) {
    exists i: nat :: i < |s| && s[i] == '%' && !Triplet(s, i)
  }

  /** Decoding fails exactly on such a '%'. */
  lemma {:induction false} DecodeFailsIff(s: Bytes)
    ensures Decode(s).None? <==> BadEscape(s)
  {
    if s != [] && (s[0] != '%' || Triplet(s, 0)) {
      var n := if s[0] == '%' then 3 else 1;
      DecodeFailsIff(s[n..]);
      BadLater(s, n);
    }
  }

  lemma BadLater(s: Bytes, n: nat)
    requires n <= |s| && forall i: nat :: i < n ==> s[i] != '%' || Triplet(s, i)
    ensures BadEscape(s) <==> BadEscape(s[n..])
  {
    var rest := s[n..];
    if BadEscape(s) {
      var i: nat :| i < |s| && s[i] == '%' && !Triplet(s, i);
      assert rest[i - n] == '%' && !Triplet(rest, i - n);
    }
    if BadEscape(rest) {
      var i: nat :| i < |rest| && rest[i] == '%' && !Triplet(rest, i);
      assert s[i + n] == '%' && !Triplet(s, i + n);
    }
  }
}
