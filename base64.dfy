/**
 * The Base64 codec of section 4 of RFC 4648, as Python's
 * `base64.b64decode(s, validate=True)` applies it to a str: the input must be
 * a run of alphabet characters followed by exactly the padding its length
 * calls for; unused low bits of the last character are ignored, as Python
 * ignores them.
 */
module Base64 {
  import opened Common

  predicate IsAlphabetChar(c: char) {
    ('A' <= c <= 'Z') || ('a' <= c <= 'z') || ('0' <= c <= '9') || c == '+' || c == '/'
  }

  /** The 6-bit value of an alphabet character (table 1 of RFC 4648). */
  function SextetOf(c: char): (v: nat)
    requires IsAlphabetChar(c)
    ensures v < 64
  {
    if 'A' <= c <= 'Z' then c as int - 'A' as int
    else if 'a' <= c <= 'z' then c as int - 'a' as int + 26
    else if '0' <= c <= '9' then c as int - '0' as int + 52
    else if c == '+' then 62
    else 63
  }

  /** The alphabet character of a 6-bit value. */
  function CharOf(v: nat): (c: char)
    requires v < 64
    ensures IsAlphabetChar(c) && SextetOf(c) == v
  {
    if v < 26 then (v + 'A' as int) as char
    else if v < 52 then (v - 26 + 'a' as int) as char
    else if v < 62 then (v - 52 + '0' as int) as char
    else if v == 62 then '+'
    else '/'
  }

  predicate AllAlphabet(d: string) {
    forall i :: 0 <= i < |d| ==> IsAlphabetChar(d[i])
  }

  /** Position of the first '=' in s, or |s| when there is none. */
  function DataLength(s: string): (n: nat)
    ensures n <= |s| && '=' !in s[..n]
    ensures n < |s| ==> s[n] == '='
  {
    match Find(s, '=')
    case None => assert s[..|s|] == s; |s|
    case Some(k) => k
  }

  /** The padding RFC 4648 section 4 prescribes after `dataLength` data characters. */
  predicate PaddingFits(dataLength: nat, pad: string) {
    (dataLength % 4 == 0 && pad == "") ||
    (dataLength % 4 == 2 && pad == "==") ||
    (dataLength % 4 == 3 && pad == "=")
  }

  /** Data and fitting padding fill whole groups of four, and the data never leaves a lone sextet. */
  lemma PaddedLength(dataLength: nat, pad: string)
    requires PaddingFits(dataLength, pad)
    ensures (dataLength + |pad|) % 4 == 0 && dataLength % 4 != 1
  {
  }

  predicate AreSextets(vs: seq<nat>) {
    forall i :: 0 <= i < |vs| ==> vs[i] < 64
  }

  /** The 6-bit values of a run of alphabet characters. */
  function Sextets(d: string): (vs: seq<nat>)
    requires AllAlphabet(d)
    ensures |vs| == |d| && AreSextets(vs)
    ensures forall i :: 0 <= i < |d| ==> vs[i] == SextetOf(d[i])
  {
    seq(|d|, i requires 0 <= i < |d| => SextetOf(d[i]))
  }

  /** The alphabet characters of a run of 6-bit values. */
  function Chars(vs: seq<nat>): (d: string)
    requires AreSextets(vs)
    ensures |d| == |vs| && AllAlphabet(d) && '=' !in d
    ensures Sextets(d) == vs
  {
    seq(|vs|, i requires 0 <= i < |vs| => CharOf(vs[i]))
  }

  /** The bytes of a group of four sextets; a group of 2 or 3 gives its first 1 or 2 bytes. */
  function DecodeGroup(vs: seq<nat>): (r: seq<Byte>)
    requires 2 <= |vs| <= 4 && AreSextets(vs)
    ensures |r| == |vs| - 1
  {
    var b0 := vs[0] * 4 + vs[1] / 16;
    if |vs| == 2 then [b0]
    else
      var b1 := vs[1] % 16 * 16 + vs[2] / 4;
      if |vs| == 3 then [b0, b1]
      else [b0, b1, vs[2] % 4 * 64 + vs[3]]
  }

  /** Decodes 6-bit values, 4 to 3 bytes; a final group of 2 or 3 gives 1 or 2 bytes. */
  function DecodeSextets(vs: seq<nat>): (r: seq<Byte>)
    requires AreSextets(vs) && |vs| % 4 != 1
    ensures |r| == |vs| / 4 * 3 + (if |vs| % 4 == 0 then 0 else |vs| % 4 - 1)
    decreases |vs|
  {
    if |vs| == 0 then []
    else if |vs| < 4 then DecodeGroup(vs)
    else DecodeGroup(vs[..4]) + DecodeSextets(vs[4..])
  }

  /** Strict decoding; None where Python raises `binascii.Error`. */
  function Decode(s: string): (r: Option<seq<Byte>>)
    ensures r.Some? ==> |s| % 4 == 0
  {
    var n := DataLength(s);
    if AllAlphabet(s[..n]) && PaddingFits(n, s[n..]) then
      PaddedLength(n, s[n..]);
      Some(DecodeSextets(Sextets(s[..n])))
    else None
  }

  /** The four sextets of three bytes. */
  function EncodeGroup(b0: Byte, b1: Byte, b2: Byte): (vs: seq<nat>)
    ensures |vs| == 4 && AreSextets(vs)
  {
    [b0 / 4, b0 % 4 * 16 + b1 / 16, b1 % 16 * 4 + b2 / 64, b2 % 64]
  }

  /** The sextets of the canonical encoding: a final 1 or 2 bytes give 2 or 3 sextets. */
  function EncodeSextets(bs: seq<Byte>): (vs: seq<nat>)
    ensures AreSextets(vs)
    ensures |vs| == |bs| / 3 * 4 + (if |bs| % 3 == 0 then 0 else |bs| % 3 + 1)
  {
    if |bs| == 0 then []
    else if |bs| == 1 then EncodeGroup(bs[0], 0, 0)[..2]
    else if |bs| == 2 then EncodeGroup(bs[0], bs[1], 0)[..3]
    else EncodeGroup(bs[0], bs[1], bs[2]) + EncodeSextets(bs[3..])
  }

  /** The '=' characters that complete the last group of n bytes. */
  function Padding(n: nat): (pad: string)
    ensures (n / 3 * 4 + (if n % 3 == 0 then 0 else n % 3 + 1) + |pad|) % 4 == 0
  {
    var q, m := n / 3, n % 3;
    assert n / 3 * 4 == q * 4;
    if m == 1 then "==" else if m == 2 then "=" else ""
  }

  /** Canonical encoding (Python's `base64.b64encode`), padded with '='. */
  function Encode(bs: seq<Byte>): (r: string)
    ensures |r| % 4 == 0
  {
    Chars(EncodeSextets(bs)) + Padding(|bs|)
  }

  lemma GroupRoundTrip(b0: Byte, b1: Byte, b2: Byte)
    ensures DecodeGroup(EncodeGroup(b0, 0, 0)[..2]) == [b0]
    ensures DecodeGroup(EncodeGroup(b0, b1, 0)[..3]) == [b0, b1]
    ensures DecodeGroup(EncodeGroup(b0, b1, b2)) == [b0, b1, b2]
  {
  }

  lemma {:induction false} DecodeEncodeSextets(bs: seq<Byte>)
    ensures DecodeSextets(EncodeSextets(bs)) == bs
    decreases |bs|
  {
    if |bs| == 0 {
    } else if |bs| == 1 {
      GroupRoundTrip(bs[0], 0, 0);
    } else if |bs| == 2 {
      GroupRoundTrip(bs[0], bs[1], 0);
    } else {
      var g, rest := EncodeGroup(bs[0], bs[1], bs[2]), EncodeSextets(bs[3..]);
      assert (g + rest)[..4] == g && (g + rest)[4..] == rest;
      GroupRoundTrip(bs[0], bs[1], bs[2]);
      DecodeEncodeSextets(bs[3..]);
      assert bs == [bs[0], bs[1], bs[2]] + bs[3..];
    }
  }

  /** Decoding the canonical encoding gives back the bytes. */
  lemma {:induction false} DecodeEncode(bs: seq<Byte>)
    ensures Decode(Encode(bs)) == Some(bs)
  {
    var d := Chars(EncodeSextets(bs));
    var s := Encode(bs);
    assert s[..|d|] == d;
    assert |d| < |s| ==> s[|d|] == '=';
    assert DataLength(s) == |d| by {
      var n := DataLength(s);
      assert n <= |d|;
    }
    DecodeEncodeSextets(bs);
  }

  /** Two alphabet characters and "==" decode to one byte: the first sextet and the top two bits of the second. */
  lemma DecodeOneByteGroup(x: string)
    requires |x| == 2 && AllAlphabet(x)
    ensures Decode(x + "==") == Some([SextetOf(x[0]) * 4 + SextetOf(x[1]) / 16])
  {
    var s := x + "==";
    assert s[..2] == x && s[2..] == "==";
    assert s[0] == x[0] && s[1] == x[1] && s[2] == '=';
    assert DataLength(s) == 2;
  }

  /** An alphabet character is the character of its own sextet. */
  lemma CharOfSextetOf(c: char)
    requires IsAlphabetChar(c)
    ensures CharOf(SextetOf(c)) == c
  {
  }

  /** The byte of a one-byte group splits back into the first sextet and the top bits of the second. */
  lemma OneByteDigits(s0: nat, s1: nat)
    requires s0 < 64 && s1 < 64
    ensures 0 <= s0 * 4 + s1 / 16 < 256
    ensures (s0 * 4 + s1 / 16) / 4 == s0 && (s0 * 4 + s1 / 16) % 4 * 16 == s1 / 16 * 16
  {
  }

  /** A single byte encodes as two characters and "==". */
  lemma EncodeOneByte(b: Byte)
    ensures Encode([b]) == Chars([b / 4, b % 4 * 16]) + "=="
  {
    assert EncodeSextets([b]) == [b / 4, b % 4 * 16];
  }

  /**
   * Decoding ignores the unused low four bits of the second character of a
   * one-byte group, so encoding the decoding gives the input back exactly
   * when those bits are zero (for example "QR==" decodes like "QQ==").
   */
  lemma ReencodeOneByteGroup(x: string)
    requires |x| == 2 && AllAlphabet(x)
    ensures Decode(x + "==").Some?
    ensures Encode(Decode(x + "==").value) == x + "==" <==> SextetOf(x[1]) % 16 == 0
  {
    DecodeOneByteGroup(x);
    var s0, s1 := SextetOf(x[0]), SextetOf(x[1]);
    OneByteDigits(s0, s1);
    EncodeOneByte(s0 * 4 + s1 / 16);
    var e := Chars([s0, s1 / 16 * 16]);
    CharOfSextetOf(x[0]);
    CharOfSextetOf(x[1]);
    assert e[0] == x[0];
    if s1 % 16 == 0 {
      assert e[1] == x[1];
      assert e == x;
    } else {
      assert SextetOf(e[1]) != s1;
      assert (e + "==")[1] != (x + "==")[1];
    }
  }

  /** Any character outside the alphabet other than '=' makes decoding fail. */
  lemma ForeignCharRejected(s: string, i: nat)
    requires i < |s| && !IsAlphabetChar(s[i]) && s[i] != '='
    ensures Decode(s).None?
  {
    var n := DataLength(s);
    if i < n {
      assert s[..n][i] == s[i];
    } else {
      assert s[n..][i - n] == s[i];
    }
  }

  /** A '=' followed by a non-'=' character (padding in the middle) makes decoding fail. */
  lemma InnerPaddingRejected(s: string, i: nat)
    requires i + 1 < |s| && s[i] == '=' && s[i + 1] != '='
    ensures Decode(s).None?
  {
    var n := DataLength(s);
    assert s[n..][i + 1 - n] == s[i + 1];
  }

  /** Decoded bytes number three per group, less one per '='. */
  lemma DecodedLength(s: string)
    requires Decode(s).Some?
    ensures var n := DataLength(s);
      |Decode(s).value| == |s| / 4 * 3 - (|s| - n)
  {
  }
}
