/**
 * UTF-8 as section 3 of RFC 3629 defines it, which is what Python's strict
 * `bytes.decode('utf-8')` accepts: no overlong forms, no surrogates, nothing
 * above U+10FFFF. A Dafny `char` is a Unicode scalar value, so a decoded
 * string is exactly a sequence of scalar values.
 */
module Utf8 {
  import opened Common

  /** The bytes of one character, by the table in section 3 of RFC 3629. */
  function EncodeChar(c: char): (r: seq<Byte>)
    ensures 1 <= |r| <= 4
  {
    var n := c as int;
    if n < 0x80 then [n]
    else if n < 0x800 then [0xC0 + n / 64, 0x80 + n % 64]
    else if n < 0x1_0000 then [0xE0 + n / 4096, 0x80 + n / 64 % 64, 0x80 + n % 64]
    else [0xF0 + n / 0x4_0000, 0x80 + n / 4096 % 64, 0x80 + n / 64 % 64, 0x80 + n % 64]
  }

  function Encode(s: string): (r: seq<Byte>)
    ensures |s| <= |r| <= 4 * |s|
  {
    if s == [] then [] else EncodeChar(s[0]) + Encode(s[1..])
  }

  predicate IsContinuation(b: Byte) {
    0x80 <= b <= 0xBF
  }

  /** The second byte of a three-byte sequence led by b0 (excludes overlongs and surrogates). */
  predicate SecondOfThree(b0: Byte, b1: Byte) {
    if b0 == 0xE0 then 0xA0 <= b1 <= 0xBF
    else if b0 == 0xED then 0x80 <= b1 <= 0x9F
    else IsContinuation(b1)
  }

  /** The second byte of a four-byte sequence led by b0 (excludes overlongs and values above U+10FFFF). */
  predicate SecondOfFour(b0: Byte, b1: Byte) {
    if b0 == 0xF0 then 0x90 <= b1 <= 0xBF
    else if b0 == 0xF4 then 0x80 <= b1 <= 0x8F
    else IsContinuation(b1)
  }

  /** The character encoded at the start of b and the number of bytes it takes; None if ill-formed. */
  function DecodeFirst(b: seq<Byte>): (r: Option<(char, nat)>)
    requires |b| > 0
    ensures r.Some? ==> 1 <= r.value.1 <= |b| && r.value.1 <= 4
  {
    var b0 := b[0];
    if b0 < 0x80 then Some((b0 as char, 1))
    else if 0xC2 <= b0 <= 0xDF then
      if 2 <= |b| && IsContinuation(b[1])
      then Some((((b0 as int - 0xC0) * 64 + (b[1] as int - 0x80)) as char, 2))
      else None
    else if 0xE0 <= b0 <= 0xEF then
      if 3 <= |b| && SecondOfThree(b0, b[1]) && IsContinuation(b[2])
      then Some((((b0 as int - 0xE0) * 4096 + (b[1] as int - 0x80) * 64 + (b[2] as int - 0x80)) as char, 3))
      else None
    else if 0xF0 <= b0 <= 0xF4 then
      if 4 <= |b| && SecondOfFour(b0, b[1]) && IsContinuation(b[2]) && IsContinuation(b[3])
      then Some((((b0 as int - 0xF0) * 0x4_0000 + (b[1] as int - 0x80) * 4096 + (b[2] as int - 0x80) * 64 + (b[3] as int - 0x80)) as char, 4))
      else None
    else None
  }

  /** Strict decoding; None where Python raises `UnicodeDecodeError`. */
  function Decode(b: seq<Byte>): (r: Option<string>)
    ensures r.Some? ==> |r.value| <= |b| <= 4 * |r.value|
    decreases |b|
  {
    if |b| == 0 then Some("")
    else match DecodeFirst(b)
      case None => None
      case Some((c, k)) =>
        match Decode(b[k..])
        case None => None
        case Some(rest) => Some([c] + rest)
  }

  lemma DecodeFirstOfEncodeChar(c: char, rest: seq<Byte>)
    ensures DecodeFirst(EncodeChar(c) + rest) == Some((c, |EncodeChar(c)|))
  {
    var n := c as int;
    if n < 0x80 {
    } else if n < 0x800 {
      DecodeFirstTwo(c, rest);
    } else if n < 0x1_0000 {
      DecodeFirstThree(c, rest);
    } else {
      DecodeFirstFour(c, rest);
    }
  }

  lemma DecodeFirstTwo(c: char, rest: seq<Byte>)
    requires 0x80 <= c as int < 0x800
    ensures DecodeFirst(EncodeChar(c) + rest) == Some((c, 2))
  {
    var n := c as int;
    var q, r := n / 64, n % 64;
    var b := EncodeChar(c) + rest;
    assert b[0] == 0xC0 + q && b[1] == 0x80 + r;
    assert (b[0] as int - 0xC0) * 64 + (b[1] as int - 0x80) == n;
  }

  lemma DecodeFirstThree(c: char, rest: seq<Byte>)
    requires 0x800 <= c as int < 0x1_0000
    ensures DecodeFirst(EncodeChar(c) + rest) == Some((c, 3))
  {
    var n := c as int;
    var q, m, r := n / 4096, n / 64 % 64, n % 64;
    assert n == q * 4096 + m * 64 + r;
    var b := EncodeChar(c) + rest;
    assert b[0] == 0xE0 + q && b[1] == 0x80 + m && b[2] == 0x80 + r;
    assert SecondOfThree(b[0], b[1]);
    assert (b[0] as int - 0xE0) * 4096 + (b[1] as int - 0x80) * 64 + (b[2] as int - 0x80) == n;
  }

  /** The base-64 digits of a code point of four-byte length, and the ranges of the first two. */
  lemma FourByteDigits(n: int)
    requires 0x1_0000 <= n < 0x11_0000
    ensures var q, m1, m2, r := n / 0x4_0000, n / 4096 % 64, n / 64 % 64, n % 64;
      n == q * 0x4_0000 + m1 * 4096 + m2 * 64 + r &&
      0 <= q <= 4 && 0 <= m1 < 64 && 0 <= m2 < 64 && 0 <= r < 64 &&
      (q == 0 ==> 16 <= m1) && (q == 4 ==> m1 < 16)
  {
    var a := n / 64;
    NestedDivision(n);
    assert n == a * 64 + n % 64;
    assert a == a / 64 * 64 + a % 64;
    assert a / 64 == a / 64 / 64 * 64 + a / 64 % 64;
  }

  /** Dividing by 64 repeatedly is dividing by its powers. */
  lemma NestedDivision(n: nat)
    ensures n / 64 / 64 == n / 4096 && n / 4096 / 64 == n / 0x4_0000
  {
  }

  lemma DecodeFirstFour(c: char, rest: seq<Byte>)
    requires 0x1_0000 <= c as int
    ensures DecodeFirst(EncodeChar(c) + rest) == Some((c, 4))
  {
    var n := c as int;
    var q, m1, m2, r := n / 0x4_0000, n / 4096 % 64, n / 64 % 64, n % 64;
    FourByteDigits(n);
    var b := EncodeChar(c) + rest;
    assert b[0] == 0xF0 + q && b[1] == 0x80 + m1 && b[2] == 0x80 + m2 && b[3] == 0x80 + r;
    assert SecondOfFour(b[0], b[1]);
    assert (b[0] as int - 0xF0) * 0x4_0000 + (b[1] as int - 0x80) * 4096 + (b[2] as int - 0x80) * 64 + (b[3] as int - 0x80) == n;
  }

  /** Decoding the encoding of a string gives the string back. */
  lemma {:induction false} DecodeEncode(s: string)
    ensures Decode(Encode(s)) == Some(s)
  {
    if s != [] {
      var e := EncodeChar(s[0]);
      DecodeFirstOfEncodeChar(s[0], Encode(s[1..]));
      assert (e + Encode(s[1..]))[|e|..] == Encode(s[1..]);
      DecodeEncode(s[1..]);
      assert s == [s[0]] + s[1..];
    }
  }

  lemma EncodeCharOfDecodeFirst(b: seq<Byte>)
    requires |b| > 0 && DecodeFirst(b).Some?
    ensures var (c, k) := DecodeFirst(b).value; EncodeChar(c) == b[..k]
  {
    var b0 := b[0];
    if b0 < 0x80 {
    } else if b0 <= 0xDF {
      EncodeTwo(b[0], b[1]);
    } else if b0 <= 0xEF {
      EncodeThree(b[0], b[1], b[2]);
    } else {
      EncodeFour(b[0], b[1], b[2], b[3]);
    }
  }

  lemma EncodeTwo(b0: Byte, b1: Byte)
    requires 0xC2 <= b0 <= 0xDF && IsContinuation(b1)
    ensures var n := (b0 as int - 0xC0) * 64 + (b1 as int - 0x80);
      0x80 <= n < 0x800 && EncodeChar(n as char) == [b0, b1]
  {
    var x, y := b0 as int - 0xC0, b1 as int - 0x80;
    var n := x * 64 + y;
    assert n / 64 == x && n % 64 == y;
  }

  lemma EncodeThree(b0: Byte, b1: Byte, b2: Byte)
    requires 0xE0 <= b0 <= 0xEF && SecondOfThree(b0, b1) && IsContinuation(b2)
    ensures var n := (b0 as int - 0xE0) * 4096 + (b1 as int - 0x80) * 64 + (b2 as int - 0x80);
      0x800 <= n < 0x1_0000 && (n < 0xD800 || 0xE000 <= n) && EncodeChar(n as char) == [b0, b1, b2]
  {
    var x, y, z := b0 as int - 0xE0, b1 as int - 0x80, b2 as int - 0x80;
    var n := x * 4096 + y * 64 + z;
    assert n / 64 == x * 64 + y && n % 64 == z;
    assert n / 4096 == x && n / 64 % 64 == y;
  }

  lemma EncodeFour(b0: Byte, b1: Byte, b2: Byte, b3: Byte)
    requires 0xF0 <= b0 <= 0xF4 && SecondOfFour(b0, b1) && IsContinuation(b2) && IsContinuation(b3)
    ensures var n := (b0 as int - 0xF0) * 0x4_0000 + (b1 as int - 0x80) * 4096 + (b2 as int - 0x80) * 64 + (b3 as int - 0x80);
      0x1_0000 <= n < 0x11_0000 && EncodeChar(n as char) == [b0, b1, b2, b3]
  {
    var w, x, y, z := b0 as int - 0xF0, b1 as int - 0x80, b2 as int - 0x80, b3 as int - 0x80;
    var n := w * 0x4_0000 + x * 4096 + y * 64 + z;
    assert n / 64 == w * 4096 + x * 64 + y && n % 64 == z;
    assert n / 4096 == w * 64 + x && n / 64 % 64 == y;
    assert n / 0x4_0000 == w && n / 4096 % 64 == x;
  }

  /** The bytes of a character followed by those of a string are the bytes of the longer string. */
  lemma EncodeCons(c: char, t: string, b: seq<Byte>, k: nat)
    requires k <= |b| && EncodeChar(c) == b[..k] && Encode(t) == b[k..]
    ensures Encode([c] + t) == b
  {
    assert ([c] + t)[0] == c && ([c] + t)[1..] == t;
    assert b == b[..k] + b[k..];
  }

  /** A successful decoding is a first character, whose bytes are b[..k], followed by the decoding of b[k..]. */
  lemma DecodeCons(b: seq<Byte>) returns (c: char, k: nat)
    requires |b| > 0 && Decode(b).Some?
    ensures 1 <= k <= |b| && EncodeChar(c) == b[..k]
    ensures Decode(b[k..]).Some? && Decode(b).value == [c] + Decode(b[k..]).value
  {
    c, k := DecodeFirst(b).value.0, DecodeFirst(b).value.1;
    EncodeCharOfDecodeFirst(b);
  }

  /** Decoding accepts only canonical encodings: what it returns encodes back to its input. */
  lemma {:induction false} EncodeDecode(b: seq<Byte>)
    requires Decode(b).Some?
    ensures Encode(Decode(b).value) == b
    decreases |b|
  {
    if |b| > 0 {
      var c, k := DecodeCons(b);
      EncodeDecode(b[k..]);
      EncodeCons(c, Decode(b[k..]).value, b, k);
    }
  }
}
