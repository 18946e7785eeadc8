/**
 * Identifier generation of pkg/utils/id.go: FormatID mixes a timestamp and a
 * counter into one unsigned 64-bit value and writes it in base 36 from the back
 * of a 32-byte buffer; GenerateRandomID cuts the URL-safe base64 text of fresh
 * random bytes to the requested length.
 */
module Ids {
  import opened Wrappers
  import opened Constants

  newtype int64 = x: int | -0x8000_0000_0000_0000 <= x < 0x8000_0000_0000_0000

  newtype byte = x: int | 0 <= x < 256

  const TwoTo64: nat := 0x1_0000_0000_0000_0000

  // ---------------------------------------------------------------------------
  // The mixed value
  // ---------------------------------------------------------------------------

  /** The unsigned 64-bit reading of the low 64 bits of v in two's complement. */
  function Unsigned(v: int): (u: nat)
    ensures u < TwoTo64
    ensures 0 <= v < TwoTo64 ==> u == v
  {
    v % TwoTo64
  }

  function Pow2(n: nat): (p: nat)
    ensures p >= 1
  {
    if n == 0 then 1 else 2 * Pow2(n - 1)
  }

  lemma {:induction false} Pow2Add(m: nat, n: nat)
    ensures Pow2(m + n) == Pow2(m) * Pow2(n)
    decreases m
  {
    if m > 0 {
      Pow2Add(m - 1, n);
    }
  }

  lemma Pow2Of64()
    ensures Pow2(64) == TwoTo64
  {
    Pow2Of32();
    Pow2Add(32, 32);
  }

  lemma Pow2Of32()
    ensures Pow2(32) == 0x1_0000_0000
  {
    Pow2Of16();
    Pow2Add(16, 16);
  }

  lemma Pow2Of16()
    ensures Pow2(16) == 0x1_0000
  {
    assert Pow2(2) == 4;
    Pow2Add(2, 2);
    Pow2Add(4, 4);
    Pow2Add(8, 8);
  }

  /** Bitwise exclusive or of two naturals, lowest bit first. */
  function Xor(a: nat, b: nat): (r: nat)
    ensures b == 0 ==> r == a
    ensures a == 0 ==> r == b
    decreases a + b
  {
    if a == 0 then b
    else if b == 0 then a
    else 2 * Xor(a / 2, b / 2) + (a + b) % 2
  }

  /** Exclusive or never sets a bit above the highest bit of its operands. */
  lemma {:induction false} XorBound(a: nat, b: nat, n: nat)
    requires a < Pow2(n) && b < Pow2(n)
    ensures Xor(a, b) < Pow2(n)
    decreases n
  {
    if a != 0 && b != 0 {
      XorBound(a / 2, b / 2, n - 1);
    }
  }

  /**
   * uint64((timestamp << 13) ^ (timestamp >> 7) ^ counter). The left shift
   * keeps the low 64 bits of timestamp * 2^13; the arithmetic right shift of a
   * signed value is division by 128 rounded down, which is Dafny's division for
   * a positive divisor; exclusive or acts on the 64-bit patterns.
   */
  function Mix(timestamp: int64, counter: int64): (x: nat)
    ensures x < TwoTo64
  {
    var shl := Unsigned(timestamp as int * 8192);
    var shr := Unsigned(timestamp as int / 128);
    var c := Unsigned(counter as int);
    Pow2Of64();
    XorBound(shl, shr, 64);
    XorBound(Xor(shl, shr), c, 64);
    Xor(Xor(shl, shr), c)
  }

  /** Exclusive or with n one-bits flips every bit of an n-bit value. */
  lemma {:induction false} XorAllOnes(a: nat, n: nat)
    requires a < Pow2(n)
    ensures Xor(a, Pow2(n) - 1) == Pow2(n) - 1 - a
    decreases n
  {
    if n > 0 && a != 0 {
      XorAllOnes(a / 2, n - 1);
    }
  }

  /**
   * A timestamp of 2^60, the size of a present-day UnixNano value: the left
   * shift wraps to zero, so only timestamp >> 7 = 2^53 is left.
   */
  lemma MixWrapsLeftShift()
    ensures Mix(0x1000_0000_0000_0000, 0) == 0x20_0000_0000_0000
  {
    assert Unsigned(0x1000_0000_0000_0000 * 8192) == 0 by {
      assert 0x1000_0000_0000_0000 * 8192 == 0x200 * TwoTo64;
    }
    assert Unsigned(0x1000_0000_0000_0000 / 128) == 0x20_0000_0000_0000;
  }

  /**
   * A negative timestamp: -1 << 13 is the pattern of -8192, and the arithmetic
   * right shift -1 >> 7 stays -1 (all ones), so the mix is 8191, as in Go.
   */
  lemma MixSignExtends()
    ensures Mix(-1, 0) == 8191
  {
    assert Unsigned(-8192) == TwoTo64 - 8192;
    assert Unsigned(-1 / 128) == TwoTo64 - 1;
    Pow2Of64();
    XorAllOnes(TwoTo64 - 8192, 64);
  }

  /** Two distinct (timestamp, counter) pairs that mix to the same value. */
  lemma MixCollides()
    ensures Mix(1, 0) == Mix(0, 8192) == 8192
  {
  }

  // ---------------------------------------------------------------------------
  // Base 36
  // ---------------------------------------------------------------------------

  /** The value of an IDAlphabet character. */
  function DigitValue(c: char): (d: nat)
    ensures d < 36 <==> IsIdChar(c)
  {
    if '0' <= c <= '9' then c as nat - '0' as nat
    else if 'a' <= c <= 'z' then c as nat - 'a' as nat + 10
    else 36
  }

  predicate IsIdChar(c: char) {
    '0' <= c <= '9' || 'a' <= c <= 'z'
  }

  /** The digit of value d: a decimal digit below ten, a lower-case letter from ten on. */
  function DigitChar(d: nat): (c: char)
    requires d < 36
    ensures IsIdChar(c) && DigitValue(c) == d
    ensures c == '0' <==> d == 0
  {
    if d < 10 then ('0' as int + d) as char else ('a' as int + d - 10) as char
  }

  /** Every digit character is the digit of its value. */
  lemma DigitOfChar(c: char)
    requires IsIdChar(c)
    ensures DigitValue(c) < 36 && DigitChar(DigitValue(c)) == c
  {
  }

  /** IDAlphabet holds the ten decimal digits, then the lower-case letters. */
  lemma AlphabetDigit(d: nat)
    requires d < 36
    ensures IDAlphabet[d] == DigitChar(d)
  {
  }

  /** x in base 36, most significant digit first, with no leading zero. */
  function Base36(x: nat): (r: string)
    ensures forall k :: 0 <= k < |r| ==> IsIdChar(r[k])
    ensures r == [] <==> x == 0
    ensures r != [] ==> r[0] != '0'
    decreases x
  {
    if x == 0 then []
    else
      Base36(x / 36) + [DigitChar(x % 36)]
  }

  /** Reads a digit string as base 36, most significant digit first. */
  function ParseBase36(s: string): nat
    decreases |s|
  {
    if s == [] then 0
    else 36 * ParseBase36(s[..|s| - 1]) + DigitValue(s[|s| - 1])
  }

  /** Reading the digits back gives the value. */
  lemma {:induction false} Base36RoundTrip(x: nat)
    ensures ParseBase36(Base36(x)) == x
    decreases x
  {
    if x > 0 {
      Base36RoundTrip(x / 36);
      var r := Base36(x);
      assert r[..|r| - 1] == Base36(x / 36);
    }
  }

  /** Every digit string without a leading zero is the encoding of its value. */
  lemma {:induction false} Base36Canonical(s: string)
    requires forall k :: 0 <= k < |s| ==> IsIdChar(s[k])
    requires s != [] ==> s[0] != '0'
    ensures Base36(ParseBase36(s)) == s
    decreases |s|
  {
    if s != [] {
      var init, last := s[..|s| - 1], s[|s| - 1];
      if init != [] {
        assert init[0] == s[0];
        assert forall k :: 0 <= k < |init| ==> init[k] == s[k];
        Base36Canonical(init);
      }
      assert s == init + [last];
      CanonicalStep(init, last);
    }
  }

  /** One more digit after a canonical digit string keeps it canonical. */
  lemma CanonicalStep(init: string, last: char)
    requires IsIdChar(last)
    requires Base36(ParseBase36(init)) == init
    requires init == [] ==> last != '0'
    ensures Base36(ParseBase36(init + [last])) == init + [last]
  {
    var p, d := ParseBase36(init), DigitValue(last);
    ParseSnoc(init, last);
    DigitOfChar(last);
    assert init == [] ==> d != 0;
    LastDigit(p, d);
    assert Base36(36 * p + d) == init + [last];
  }

  /** Reading one more digit multiplies the value so far by 36 and adds the digit. */
  lemma ParseSnoc(init: string, last: char)
    ensures ParseBase36(init + [last]) == 36 * ParseBase36(init) + DigitValue(last)
  {
    var s := init + [last];
    assert s[..|s| - 1] == init;
  }

  /** Appending digit d to p: the value 36p + d ends in d and has p in front. */
  lemma LastDigit(p: nat, d: nat)
    requires d < 36 && (p == 0 ==> d != 0)
    ensures 36 * p + d > 0
    ensures Base36(36 * p + d) == Base36(p) + [DigitChar(d)]
  {
    var x := 36 * p + d;
    assert x / 36 == p && x % 36 == d;
  }

  /** Distinct values get distinct digit strings. */
  lemma Base36Injective(x: nat, y: nat)
    requires Base36(x) == Base36(y)
    ensures x == y
  {
    Base36RoundTrip(x);
    Base36RoundTrip(y);
  }

  function Pow36(n: nat): (p: nat)
    ensures p >= 1
  {
    if n == 0 then 1 else 36 * Pow36(n - 1)
  }

  /** A value below 36^n takes at most n digits. */
  lemma {:induction false} Base36Length(x: nat, n: nat)
    requires x < Pow36(n)
    ensures |Base36(x)| <= n
    decreases n
  {
    if x > 0 {
      assert n > 0;
      Base36Length(x / 36, n - 1);
    }
  }

  /** A value of at least 36^n takes more than n digits. */
  lemma {:induction false} Base36LengthAtLeast(x: nat, n: nat)
    requires Pow36(n) <= x
    ensures |Base36(x)| > n
    decreases n
  {
    if n > 0 {
      Base36LengthAtLeast(x / 36, n - 1);
    }
  }

  /** The largest unsigned 64-bit value takes all 13 digits. */
  lemma LargestTakes13()
    ensures |Base36(TwoTo64 - 1)| == 13
  {
    assert Pow36(12) <= TwoTo64 - 1;
    Base36LengthAtLeast(TwoTo64 - 1, 12);
    Base36Of64Bits(TwoTo64 - 1);
  }

  /** Every unsigned 64-bit value fits in 13 digits. */
  lemma Base36Of64Bits(x: nat)
    requires x < TwoTo64
    ensures x < Pow36(13) && |Base36(x)| <= 13
  {
    assert TwoTo64 <= Pow36(13);
    Base36Length(x, 13);
  }

  // ---------------------------------------------------------------------------
  // FormatID
  // ---------------------------------------------------------------------------

  /** The identifier of a moment and a counter: the mixed value in base 36. */
  method FormatID(timestamp: int64, counter: int64) returns (id: string)
    ensures id == Base36(Mix(timestamp, counter))
    ensures |id| <= 13
  {
    var x := Mix(timestamp, counter);
    Base36Of64Bits(x);
    id := WriteBase36(x);
  }

  /** The digits of x, written from the back of a 32-character buffer; the result is the filled tail. */
  method WriteBase36(x: nat) returns (digits: string)
    requires |Base36(x)| <= 32
    ensures digits == Base36(x)
  {
    var buf := new char[32];
    var i := buf.Length;
    var y := x;
    while y > 0
      invariant |Base36(y)| <= i <= 32
      invariant Base36(x) == Base36(y) + buf[i..]
    {
      ghost var rest := buf[i..];
      DigitStep(y);
      i := i - 1;
      AlphabetDigit(y % 36);
      buf[i] := IDAlphabet[y % 36];
      assert buf[i..] == [DigitChar(y % 36)] + rest;
      y := y / 36;
    }
    digits := buf[i..];
  }

  /** A positive value is its quotient by 36 followed by one more digit. */
  lemma DigitStep(x: nat)
    requires x > 0
    ensures Base36(x) == Base36(x / 36) + [DigitChar(x % 36)]
    ensures |Base36(x)| == |Base36(x / 36)| + 1
  {
  }

  /** The pairs (1, 0) and (0, 8192), which collide in the mix, give the same identifier. */
  lemma FormatIDCollision()
    ensures Base36(Mix(1, 0)) == Base36(Mix(0, 8192))
  {
    MixCollides();
  }

  // ---------------------------------------------------------------------------
  // GenerateRandomID
  // ---------------------------------------------------------------------------

  /** The n-th character of the URL-safe base64 alphabet A-Z a-z 0-9 - _. */
  function UrlDigit(n: nat): (c: char)
    requires n < 64
    ensures IsUrlChar(c)
  {
    if n < 26 then ('A' as int + n) as char
    else if n < 52 then ('a' as int + n - 26) as char
    else if n < 62 then ('0' as int + n - 52) as char
    else if n == 62 then '-'
    else '_'
  }

  predicate IsUrlChar(c: char) {
    'A' <= c <= 'Z' || 'a' <= c <= 'z' || '0' <= c <= '9' || c == '-' || c == '_'
  }

  /** Up to three bytes as four characters, padded with '=' when fewer than three are given. */
  function EncodeGroup(g: seq<byte>): (r: string)
    requires 1 <= |g| <= 3
    ensures |r| == 4
    ensures forall k :: 0 <= k < 4 ==> (r[k] == '=' <==> k > |g|)
    ensures forall k :: 0 <= k <= |g| ==> IsUrlChar(r[k])
  {
    var n := (g[0] as nat) * 65536
      + (if |g| > 1 then g[1] as nat * 256 else 0)
      + (if |g| > 2 then g[2] as nat else 0);
    [UrlDigit(n / 262144), UrlDigit(n / 4096 % 64)]
      + (if |g| > 1 then [UrlDigit(n / 64 % 64)] else ['='])
      + (if |g| > 2 then [UrlDigit(n % 64)] else ['='])
  }

  /** base64.URLEncoding.EncodeToString: padded URL-safe base64. */
  function Base64Url(b: seq<byte>): (r: string)
    ensures |r| == 4 * ((|b| + 2) / 3)
    decreases |b|
  {
    if b == [] then []
    else if |b| <= 3 then
      GroupArith(|b|);
      EncodeGroup(b)
    else
      GroupArith(|b| - 3);
      EncodeGroup(b[..3]) + Base64Url(b[3..])
  }

  /** The sizes of an encoding of n bytes, and of n + 3 bytes, in characters. */
  lemma GroupArith(n: nat)
    ensures 1 <= n <= 3 ==> (n + 2) / 3 == 1 && (4 * n + 2) / 3 == n + 1
    ensures (n + 5) / 3 == (n + 2) / 3 + 1
    ensures (4 * (n + 3) + 2) / 3 == (4 * n + 2) / 3 + 4
  {
  }

  /** The encoding is URL-safe characters, (4n + 2) / 3 of them for n bytes, then '=' padding. */
  lemma {:induction false} Base64UrlShape(b: seq<byte>)
    ensures forall k :: 0 <= k < |Base64Url(b)| ==>
      if k < (4 * |b| + 2) / 3 then IsUrlChar(Base64Url(b)[k]) else Base64Url(b)[k] == '='
    decreases |b|
  {
    if 1 <= |b| <= 3 {
      GroupArith(|b|);
    } else if |b| > 3 {
      var g, rest := b[..3], b[3..];
      Base64UrlShape(rest);
      GroupArith(|rest|);
      var e, t := EncodeGroup(g), Base64Url(rest);
      assert forall k :: 0 <= k < 4 ==> IsUrlChar(e[k]);
      PaddedAfterGroup(e, t, (4 * |rest| + 2) / 3);
      assert Base64Url(b) == e + t;
    }
  }

  /** A full group in front of a padded encoding moves the end of the characters by four. */
  lemma PaddedAfterGroup(e: string, t: string, n: nat)
    requires |e| == 4 && forall k :: 0 <= k < 4 ==> IsUrlChar(e[k])
    requires forall k :: 0 <= k < |t| ==> if k < n then IsUrlChar(t[k]) else t[k] == '='
    ensures forall k :: 0 <= k < |e + t| ==> if k < n + 4 then IsUrlChar((e + t)[k]) else (e + t)[k] == '='
  {
    forall k | 0 <= k < |e + t|
      ensures if k < n + 4 then IsUrlChar((e + t)[k]) else (e + t)[k] == '='
    {
      if k >= 4 {
        assert (e + t)[k] == t[k - 4];
      }
    }
  }

  /** The first n bytes of the random stream. */
  function Take(random: nat -> byte, n: nat): (bytes: seq<byte>)
    ensures |bytes| == n
    ensures forall k :: 0 <= k < n ==> bytes[k] == random(k)
  {
    if n == 0 then [] else Take(random, n - 1) + [random(n - 1)]
  }

  /** The encoded text is never shorter than the bytes it encodes, and its first n characters carry no padding. */
  lemma EncodedCoversLength(b: seq<byte>)
    ensures |b| <= (4 * |b| + 2) / 3 <= |Base64Url(b)|
  {
  }

  /**
   * A positive length gives exactly that many URL-safe characters taken from
   * the front of the encoding of the random bytes; a non-positive length or a
   * failed read gives an error and an empty identifier. The random bytes are
   * the stream random, and readFailure stands for an error of the read.
   */
  method GenerateRandomID(length: int, random: nat -> byte, readFailure: Option<string>)
    returns (id: string, err: Option<string>)
    ensures length <= 0 ==> id == [] && err == Some("length must be positive")
    ensures length > 0 && readFailure.Some? ==>
      id == [] && err == Some("failed to generate random bytes: " + readFailure.value)
    ensures length > 0 && readFailure.None? ==>
      && err.None?
      && |id| == length
      && id == Base64Url(Take(random, length))[..length]
      && forall k :: 0 <= k < |id| ==> IsUrlChar(id[k])
  {
    if length <= 0 {
      return [], Some("length must be positive");
    }
    var bytes := Take(random, length);
    if readFailure.Some? {
      return [], Some("failed to generate random bytes: " + readFailure.value);
    }
    var encoded := Base64Url(bytes);
    EncodedCoversLength(bytes);
    Base64UrlShape(bytes);
    id, err := encoded[..length], None;
  }
}
