/** UTF-8 as json11 writes it, and the decoder of RFC 3629 to read it back. */
module Utf8 {
  import opened Options
  import opened Bytes

  predicate IsHigh(u: int) { 0xD800 <= u <= 0xDBFF }
  predicate IsLow(u: int) { 0xDC00 <= u <= 0xDFFF }

  /** A Unicode scalar value: any code point but a surrogate. */
  predicate IsScalar(c: int) { 0 <= c <= 0x10FFFF && !IsHigh(c) && !IsLow(c) }

  /** encode_utf8: nothing for the marker -1. The masks and shifts are written as / and %. */
  function EncodeUtf8(pt: int): (out: bytes)
    requires -1 <= pt <= 0x10FFFF
  {
    if pt < 0 then []
    else if pt < 0x80 then [pt]
    else if pt < 0x800 then [0xC0 + pt / 0x40, 0x80 + pt % 0x40]
    else if pt < 0x10000 then [0xE0 + pt / 0x1000, 0x80 + pt / 0x40 % 0x40, 0x80 + pt % 0x40]
    else [0xF0 + pt / 0x40000, 0x80 + pt / 0x1000 % 0x40, 0x80 + pt / 0x40 % 0x40, 0x80 + pt % 0x40]
  }

  /** The code point a surrogate pair stands for, per UTF-16. */
  function Pair(high: int, low: int): (c: int)
    requires IsHigh(high) && IsLow(low)
    ensures 0x10000 <= c <= 0x10FFFF
  {
    (high - 0xD800) * 0x400 + (low - 0xDC00) + 0x10000
  }

  predicate IsTail(b: byte) { 0x80 <= b <= 0xBF }

  datatype Decoded = Decoded(scalar: int, length: nat)

  /** The first character of s by the table of RFC 3629, section 4; None if s does not start with one. */
  function DecodeUtf8(s: bytes): (r: Option<Decoded>) {
    if |s| >= 1 && s[0] <= 0x7F then Some(Decoded(s[0], 1))
    else if |s| >= 2 && 0xC2 <= s[0] <= 0xDF && IsTail(s[1]) then
      Some(Decoded((s[0] as int - 0xC0) * 0x40 + (s[1] as int - 0x80), 2))
    else if |s| >= 3 && IsTail(s[1]) && IsTail(s[2])
      && ((s[0] == 0xE0 && 0xA0 <= s[1]) || 0xE1 <= s[0] <= 0xEC || (s[0] == 0xED && s[1] <= 0x9F) || 0xEE <= s[0] <= 0xEF) then
      Some(Decoded((s[0] as int - 0xE0) * 0x1000 + (s[1] as int - 0x80) * 0x40 + (s[2] as int - 0x80), 3))
    else if |s| >= 4 && IsTail(s[1]) && IsTail(s[2]) && IsTail(s[3])
      && ((s[0] == 0xF0 && 0x90 <= s[1]) || 0xF1 <= s[0] <= 0xF3 || (s[0] == 0xF4 && s[1] <= 0x8F)) then
      Some(Decoded((s[0] as int - 0xF0) * 0x40000 + (s[1] as int - 0x80) * 0x1000 + (s[2] as int - 0x80) * 0x40 + (s[3] as int - 0x80), 4))
    else None
  }

  lemma SixBits(n: nat)
    ensures n == (n / 0x40) * 0x40 + n % 0x40
    ensures n / 0x40 / 0x40 == n / 0x1000
    ensures n / 0x1000 / 0x40 == n / 0x40000
    ensures n == (n / 0x1000) * 0x1000 + (n / 0x40 % 0x40) * 0x40 + n % 0x40
    ensures n == (n / 0x40000) * 0x40000 + (n / 0x1000 % 0x40) * 0x1000 + (n / 0x40 % 0x40) * 0x40 + n % 0x40
  {
  }

  lemma Quotients(q: nat, r: nat)
    requires r < 0x40
    ensures (q * 0x40 + r) / 0x40 == q && (q * 0x40 + r) % 0x40 == r
  {
  }

  /** What is encoded for a scalar decodes to that scalar, whatever follows. */
  lemma DecodeEncode(c: int, rest: bytes)
    requires IsScalar(c)
    ensures DecodeUtf8(EncodeUtf8(c) + rest) == Some(Decoded(c, |EncodeUtf8(c)|))
  {
    SixBits(c);
    var s := EncodeUtf8(c) + rest;
    hide DecodeUtf8;
    if c < 0x80 {
      OneByteIs(s, c);
    } else if c < 0x800 {
      TwoBytesAre(s, c / 0x40, c % 0x40);
    } else if c < 0x10000 {
      ThreeBytesAre(s, c / 0x1000, c / 0x40 % 0x40, c % 0x40);
    } else {
      FourBytesAre(s, c / 0x40000, c / 0x1000 % 0x40, c / 0x40 % 0x40, c % 0x40);
    }
  }

  lemma OneByteIs(s: bytes, a: nat)
    requires |s| >= 1 && a < 0x80 && s[0] == a
    ensures DecodeUtf8(s) == Some(Decoded(a, 1))
  {
  }

  lemma TwoBytesAre(s: bytes, a: nat, b: nat)
    requires |s| >= 2 && 2 <= a < 0x20 && b < 0x40 && s[0] == 0xC0 + a && s[1] == 0x80 + b
    ensures DecodeUtf8(s) == Some(Decoded(a * 0x40 + b, 2))
  {
  }

  lemma ThreeBytesAre(s: bytes, a: nat, b: nat, c: nat)
    requires |s| >= 3 && a < 0x10 && b < 0x40 && c < 0x40 && s[0] == 0xE0 + a && s[1] == 0x80 + b && s[2] == 0x80 + c
    requires (a == 0 ==> b >= 0x20) && (a == 0xD ==> b < 0x20)
    ensures DecodeUtf8(s) == Some(Decoded(a * 0x1000 + b * 0x40 + c, 3))
  {
  }

  lemma FourBytesAre(s: bytes, a: nat, b: nat, c: nat, d: nat)
    requires |s| >= 4 && a <= 4 && b < 0x40 && c < 0x40 && d < 0x40
    requires s[0] == 0xF0 + a && s[1] == 0x80 + b && s[2] == 0x80 + c && s[3] == 0x80 + d
    requires (a == 0 ==> b >= 0x10) && (a == 4 ==> b < 0x10)
    ensures DecodeUtf8(s) == Some(Decoded(a * 0x40000 + b * 0x1000 + c * 0x40 + d, 4))
  {
  }

  /** Only the encoding of a scalar decodes to it: no overlong forms, no surrogates. */
  lemma EncodeDecode(s: bytes)
    requires DecodeUtf8(s).Some?
    ensures var d := DecodeUtf8(s).value;
      IsScalar(d.scalar) && d.length <= |s| && EncodeUtf8(d.scalar) == s[..d.length]
  {
    var d := DecodeUtf8(s).value;
    if d.length == 2 {
      Quotients(s[0] as int - 0xC0, s[1] as int - 0x80);
    } else if d.length == 3 {
      ThreeBytes(s[0] as int - 0xE0, s[1] as int - 0x80, s[2] as int - 0x80);
    } else if d.length == 4 {
      FourBytes(s[0] as int - 0xF0, s[1] as int - 0x80, s[2] as int - 0x80, s[3] as int - 0x80);
    }
  }

  lemma ThreeBytes(a: nat, b: nat, c: nat)
    requires b < 0x40 && c < 0x40
    ensures var n := a * 0x1000 + b * 0x40 + c; n / 0x1000 == a && n / 0x40 % 0x40 == b && n % 0x40 == c
  {
    Quotients(a * 0x40 + b, c);
    Quotients(a, b);
    SixBits(a * 0x1000 + b * 0x40 + c);
  }

  lemma FourBytes(a: nat, b: nat, c: nat, d: nat)
    requires b < 0x40 && c < 0x40 && d < 0x40
    ensures var n := a * 0x40000 + b * 0x1000 + c * 0x40 + d;
      n / 0x40000 == a && n / 0x1000 % 0x40 == b && n / 0x40 % 0x40 == c && n % 0x40 == d
  {
    Quotients(a * 0x1000 + b * 0x40 + c, d);
    ThreeBytes(a, b, c);
    SixBits(a * 0x40000 + b * 0x1000 + c * 0x40 + d);
  }

  /** A surrogate encoded alone is three bytes that are not UTF-8. */
  lemma LoneSurrogateIsNotUtf8(u: int, rest: bytes)
    requires IsHigh(u) || IsLow(u)
    ensures |EncodeUtf8(u)| == 3
    ensures DecodeUtf8(EncodeUtf8(u) + rest) == None
  {
    SixBits(u);
  }

  /** Every scalar beyond the BMP is the pair of exactly one high and one low surrogate. */
  lemma PairIsBijective(c: int)
    requires 0x10000 <= c <= 0x10FFFF
    ensures IsHigh(0xD800 + (c - 0x10000) / 0x400) && IsLow(0xDC00 + (c - 0x10000) % 0x400)
    ensures Pair(0xD800 + (c - 0x10000) / 0x400, 0xDC00 + (c - 0x10000) % 0x400) == c
    ensures forall h, l :: IsHigh(h) && IsLow(l) && Pair(h, l) == c ==>
      h == 0xD800 + (c - 0x10000) / 0x400 && l == 0xDC00 + (c - 0x10000) % 0x400
  {
  }
}
