/**
 * JavaScript strings as sequences of UTF-16 code units, their UTF-8 encoding
 * as `TextEncoder` produces it (section 3 of RFC 3629, with each unpaired
 * surrogate replaced by U+FFFD), and `String.prototype.toWellFormed`.
 */
module Utf16 {
  import opened Wrappers

  type Unit = u: int | 0 <= u < 0x1_0000
  type Byte = b: int | 0 <= b < 0x100
  type Str = seq<Unit>
  type Bytes = seq<Byte>

  /** A Unicode scalar value: any code point that is not a surrogate. */
  type Scalar = c: int | 0 <= c < 0xD800 || 0xE000 <= c < 0x11_0000

  const REPLACEMENT: Scalar := 0xFFFD

  predicate IsHigh(u: Unit) { 0xD800 <= u < 0xDC00 }

  predicate IsLow(u: Unit) { 0xDC00 <= u < 0xE000 }

  /** The string starts with a surrogate pair. */
  predicate StartsWithPair(s: Str) { |s| >= 2 && IsHigh(s[0]) && IsLow(s[1]) }

  function PairScalar(high: Unit, low: Unit): Scalar
    requires IsHigh(high) && IsLow(low)
  {
    0x1_0000 + (high - 0xD800) * 0x400 + (low - 0xDC00)
  }

  /** A unit standing alone: an unpaired surrogate collapses to U+FFFD. */
  function LoneScalar(u: Unit): Scalar {
    if IsHigh(u) || IsLow(u) then REPLACEMENT else u
  }

  function EncodeScalar(c: Scalar): Bytes {
    if c < 0x80 then [c]
    else if c < 0x800 then [0xC0 + c / 0x40, 0x80 + c % 0x40]
    else if c < 0x1_0000 then [0xE0 + c / 0x1000, 0x80 + c / 0x40 % 0x40, 0x80 + c % 0x40]
    else [0xF0 + c / 0x4_0000, 0x80 + c / 0x1000 % 0x40, 0x80 + c / 0x40 % 0x40, 0x80 + c % 0x40]
  }

  /** What `TextEncoder.encode` and `createHash().update` turn a string into. */
  function Utf8(s: Str): Bytes {
    if s == [] then []
    else if StartsWithPair(s) then EncodeScalar(PairScalar(s[0], s[1])) + Utf8(s[2..])
    else EncodeScalar(LoneScalar(s[0])) + Utf8(s[1..])
  }

  /** `String.prototype.toWellFormed` (section 22.1.3.31 of ECMA-262 2024). */
  function WellFormed(s: Str): Str {
    if s == [] then []
    else if StartsWithPair(s) then s[..2] + WellFormed(s[2..])
    else [LoneScalar(s[0])] + WellFormed(s[1..])
  }

  /** A high surrogate that no low one follows, or a low one that no high one precedes. */
  predicate Unpaired(s: Str, i: nat)
    requires i < |s|
  {
    || (0xD800 <= s[i] <= 0xDBFF && !(i + 1 < |s| && 0xDC00 <= s[i + 1] <= 0xDFFF))
    || (0xDC00 <= s[i] <= 0xDFFF && !(i > 0 && 0xD800 <= s[i - 1] <= 0xDBFF))
  }

  /** Well-forming replaces just the unpaired surrogates, each by U+FFFD. */
  lemma {:induction false} WellFormedByUnit(s: Str, i: nat)
    requires i < |s|
    ensures |WellFormed(s)| == |s| && WellFormed(s)[i] == if Unpaired(s, i) then 0xFFFD else s[i]
  {
    if StartsWithPair(s) {
      if i >= 2 {
        WellFormedByUnit(s[2..], i - 2);
        assert Unpaired(s[2..], i - 2) <==> Unpaired(s, i);
      } else if |s| > 2 {
        WellFormedByUnit(s[2..], 0);
      }
    } else if i >= 1 {
      WellFormedByUnit(s[1..], i - 1);
      assert Unpaired(s[1..], i - 1) <==> Unpaired(s, i);
    } else if |s| > 1 {
      WellFormedByUnit(s[1..], 0);
    }
  }

  /** The UTF-16 form of one scalar value (section 2.1 of RFC 2781). */
  function ScalarUnits(c: Scalar): Str {
    if c < 0x1_0000 then [c]
    else [0xD800 + (c - 0x1_0000) / 0x400, 0xDC00 + (c - 0x1_0000) % 0x400]
  }

  predicate IsTail(b: Byte) { 0x80 <= b < 0xC0 }

  /**
   * Strict decoding of the first character (section 4 of RFC 3629): overlong
   * forms, surrogates, and values past U+10FFFF are all refused.
   */
  function DecodeFirst(b: Bytes): (r: Option<(Scalar, nat)>)
    requires b != []
    ensures r.Some? ==> 0 < r.value.1 <= |b|
  {
    if b[0] < 0x80 then Some((b[0], 1))
    else if 0xC2 <= b[0] < 0xE0 && |b| >= 2 && IsTail(b[1]) then
      Some(((b[0] as int - 0xC0) * 0x40 + (b[1] as int - 0x80), 2))
    else if 0xE0 <= b[0] < 0xF0 && |b| >= 3 && IsTail(b[1]) && IsTail(b[2]) then
      var c := (b[0] as int - 0xE0) * 0x1000 + (b[1] as int - 0x80) * 0x40 + (b[2] as int - 0x80);
      if c < 0x800 || 0xD800 <= c < 0xE000 then None else Some((c, 3))
    else if 0xF0 <= b[0] < 0xF5 && |b| >= 4 && IsTail(b[1]) && IsTail(b[2]) && IsTail(b[3]) then
      var c := (b[0] as int - 0xF0) * 0x4_0000 + (b[1] as int - 0x80) * 0x1000 + (b[2] as int - 0x80) * 0x40 + (b[3] as int - 0x80);
      if c < 0x1_0000 || 0x11_0000 <= c then None else Some((c, 4))
    else None
  }

  /** Strict decoding of a whole byte string back to UTF-16. */
  function DecodeUtf8(b: Bytes): Option<Str> {
    if b == [] then Some([])
    else
      match DecodeFirst(b)
      case None => None
      case Some((c, n)) =>
        match DecodeUtf8(b[n..])
        case None => None
        case Some(rest) => Some(ScalarUnits(c) + rest)
  }

  /** A six-bit digit read back from its continuation byte. */
  lemma SplitDigits(c: nat)
    ensures c == c / 0x40 * 0x40 + c % 0x40
    ensures c / 0x1000 == c / 0x40 / 0x40
    ensures c / 0x4_0000 == c / 0x1000 / 0x40
  {
  }

  lemma DecodeThreeBytes(c: Scalar, rest: Bytes)
    requires 0x800 <= c < 0x1_0000
    ensures DecodeFirst(EncodeScalar(c) + rest) == Some((c, 3))
  {
    var high, mid, low := c / 0x1000, c / 0x40 % 0x40, c % 0x40;
    SplitDigits(c);
    SplitDigits(c / 0x40);
    var b := EncodeScalar(c) + rest;
    assert b[0] == 0xE0 + high && b[1] == 0x80 + mid && b[2] == 0x80 + low;
    assert high * 0x1000 + mid * 0x40 + low == c;
  }

  lemma DecodeFourBytes(c: Scalar, rest: Bytes)
    requires 0x1_0000 <= c
    ensures DecodeFirst(EncodeScalar(c) + rest) == Some((c, 4))
  {
    var top, high, mid, low := c / 0x4_0000, c / 0x1000 % 0x40, c / 0x40 % 0x40, c % 0x40;
    SplitDigits(c);
    SplitDigits(c / 0x40);
    SplitDigits(c / 0x1000);
    var b := EncodeScalar(c) + rest;
    assert b[0] == 0xF0 + top && b[1] == 0x80 + high && b[2] == 0x80 + mid && b[3] == 0x80 + low;
    assert top * 0x4_0000 + high * 0x1000 + mid * 0x40 + low == c;
  }

  /** One encoded character, followed by anything, decodes to itself. */
  lemma DecodeEncodedScalar(c: Scalar, rest: Bytes)
    ensures DecodeFirst(EncodeScalar(c) + rest) == Some((c, |EncodeScalar(c)|))
  {
    if c >= 0x1_0000 {
      DecodeFourBytes(c, rest);
    } else if c >= 0x800 {
      DecodeThreeBytes(c, rest);
    }
  }

  lemma PairUnits(high: Unit, low: Unit)
    requires IsHigh(high) && IsLow(low)
    ensures ScalarUnits(PairScalar(high, low)) == [high, low]
  {
  }

  lemma DecodeOneMore(c: Scalar, rest: Bytes)
    requires DecodeUtf8(rest).Some?
    ensures DecodeUtf8(EncodeScalar(c) + rest) == Some(ScalarUnits(c) + DecodeUtf8(rest).value)
  {
    DecodeEncodedScalar(c, rest);
    assert (EncodeScalar(c) + rest)[|EncodeScalar(c)|..] == rest;
  }

  /** Decoding the bytes of any string gives back exactly its conditioned form. */
  lemma {:induction false} DecodeIsConditioning(s: Str)
    ensures DecodeUtf8(Utf8(s)) == Some(WellFormed(s))
  {
    if StartsWithPair(s) {
      DecodeIsConditioning(s[2..]);
      DecodeOneMore(PairScalar(s[0], s[1]), Utf8(s[2..]));
      PairUnits(s[0], s[1]);
      assert s[..2] == [s[0], s[1]];
    } else if s != [] {
      DecodeIsConditioning(s[1..]);
      DecodeOneMore(LoneScalar(s[0]), Utf8(s[1..]));
    }
  }

  /** Conditioning keeps the length and leaves nothing to condition. */
  lemma {:induction false} ConditioningIsIdempotent(s: Str)
    ensures |WellFormed(s)| == |s|
    ensures WellFormed(WellFormed(s)) == WellFormed(s)
  {
    if s != [] {
      var k := if StartsWithPair(s) then 2 else 1;
      ConditioningIsIdempotent(s[k..]);
      assert WellFormed(s)[k..] == WellFormed(s[k..]);
      assert k == 2 ==> WellFormed(s)[..2] == s[..2];
    }
  }

  /** Conditioning changes no byte. */
  lemma {:induction false} ConditioningKeepsBytes(s: Str)
    ensures Utf8(WellFormed(s)) == Utf8(s)
  {
    if s != [] {
      var k := if StartsWithPair(s) then 2 else 1;
      ConditioningKeepsBytes(s[k..]);
      assert WellFormed(s)[k..] == WellFormed(s[k..]);
      assert k == 2 ==> WellFormed(s)[..2] == s[..2];
    }
  }

  /** Equal bytes mean equal conditioned text, and conversely. */
  lemma SameBytesIffSameConditioned(s: Str, t: Str)
    ensures Utf8(s) == Utf8(t) <==> WellFormed(s) == WellFormed(t)
  {
    DecodeIsConditioning(s);
    DecodeIsConditioning(t);
    ConditioningKeepsBytes(s);
    ConditioningKeepsBytes(t);
  }

  /** A join splits no surrogate pair. */
  predicate CleanCut(a: Str, b: Str) {
    a != [] && b != [] ==> !(IsHigh(a[|a| - 1]) && IsLow(b[0]))
  }

  /** Encoding distributes over a join that splits no surrogate pair. */
  lemma {:induction false} Utf8OfJoin(a: Str, b: Str)
    requires CleanCut(a, b)
    ensures Utf8(a + b) == Utf8(a) + Utf8(b)
  {
    if a == [] {
      assert a + b == b;
    } else {
      var k := if StartsWithPair(a) then 2 else 1;
      assert (a + b)[k..] == a[k..] + b;
      Utf8OfJoin(a[k..], b);
    }
  }

  predicate IsAscii(s: Str) { forall i :: 0 <= i < |s| ==> s[i] < 0x80 }

  /** ASCII text encodes to its own code units. */
  lemma {:induction false} Utf8OfAscii(s: Str)
    requires IsAscii(s)
    ensures Utf8(s) == s
  {
    if s != [] {
      Utf8OfAscii(s[1..]);
      assert s == [s[0]] + s[1..];
    }
  }

  /** An ASCII literal as UTF-16 units. */
  function Ascii(s: string): (r: Str)
    requires forall i :: 0 <= i < |s| ==> s[i] as int < 0x80
    ensures |r| == |s| && IsAscii(r)
    ensures forall i :: 0 <= i < |s| ==> r[i] == s[i] as int
  {
    seq(|s|, i requires 0 <= i < |s| => s[i] as int)
  }

  /** JavaScript's `<` on strings: lexicographic by code unit. */
  predicate StrLess(a: Str, b: Str) {
    if b == [] then false
    else if a == [] then true
    else if a[0] != b[0] then a[0] < b[0]
    else StrLess(a[1..], b[1..])
  }

  /** `StrLess` is a strict total order. */
  lemma {:induction false} StrLessTrichotomy(a: Str, b: Str)
    ensures a == b <==> !StrLess(a, b) && !StrLess(b, a)
    ensures !(StrLess(a, b) && StrLess(b, a))
  {
    if a != [] && b != [] {
      StrLessTrichotomy(a[1..], b[1..]);
      assert a[0] == b[0] && a[1..] == b[1..] ==> a == [a[0]] + a[1..] == b;
    }
  }

  lemma {:induction false} StrLessTransitive(a: Str, b: Str, c: Str)
    requires StrLess(a, b) && StrLess(b, c)
    ensures StrLess(a, c)
  {
    if a != [] && a[0] == b[0] == c[0] {
      StrLessTransitive(a[1..], b[1..], c[1..]);
    }
  }
}
