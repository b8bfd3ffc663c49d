/** Byte strings, as std::string holds them. */
module Bytes {
  type byte = b: int | 0 <= b < 256
  type bytes = seq<byte>

  /** The bytes of an ASCII literal. */
  function Ascii(s: string): (r: bytes)
    ensures |r| == |s|
    ensures forall k :: 0 <= k < |s| ==> r[k] == s[k] as int % 256
  {
    seq(|s|, k requires 0 <= k < |s| => s[k] as int % 256)
  }

  /** str[i] of a std::string: reading at size() gives the terminating NUL. */
  function At(s: bytes, i: nat): (b: byte)
    requires i <= |s|
  {
    if i < |s| then s[i] else 0
  }

  /** s.substr(i, n): shorter than n when the string ends first. */
  function Substr(s: bytes, i: nat, n: nat): (r: bytes)
    requires i <= |s|
    ensures |r| <= n
    ensures |r| == n ==> i + n <= |s|
  {
    if i + n <= |s| then s[i..i + n] else s[i..]
  }

  function Least(a: nat, b: nat): nat { if a <= b then a else b }

  /** vector::resize: cut, or filled up with zeros. */
  function Resized(s: bytes, n: nat): (r: bytes)
    ensures |r| == n && (n >= |s| ==> s <= r) && (n <= |s| ==> r == s[..n])
    ensures forall k :: |s| <= k < n ==> r[k] == 0
  {
    if n <= |s| then s[..n] else s + seq(n - |s|, _ => 0)
  }

  /** operator< of std::string: lexicographic on unsigned bytes. */
  predicate LessBytes(a: bytes, b: bytes) {
    if b == [] then false
    else if a == [] then true
    else a[0] < b[0] || (a[0] == b[0] && LessBytes(a[1..], b[1..]))
  }

  lemma {:induction false} LessBytesTrichotomy(a: bytes, b: bytes)
    ensures LessBytes(a, b) || a == b || LessBytes(b, a)
    ensures !(LessBytes(a, b) && LessBytes(b, a))
    ensures a == b ==> !LessBytes(a, b)
  {
    if a != [] && b != [] && a[0] == b[0] {
      LessBytesTrichotomy(a[1..], b[1..]);
      assert a == [a[0]] + a[1..] && b == [b[0]] + b[1..];
    }
  }

  lemma {:induction false} LessBytesTransitive(a: bytes, b: bytes, c: bytes)
    requires LessBytes(a, b) && LessBytes(b, c)
    ensures LessBytes(a, c)
  {
    if a != [] && a[0] == b[0] == c[0] {
      LessBytesTransitive(a[1..], b[1..], c[1..]);
    }
  }

  predicate SameAt(s: bytes, i: nat, a: bytes, k: nat)
    requires k < |a| && i + |a| <= |s|
  {
    s[i + k] == a[k]
  }

  /** The text a stands in s from i to j. */
  ghost predicate Occurs(s: bytes, i: nat, j: nat, a: bytes) {
    j == i + |a| && j <= |s| && forall k :: 0 <= k < |a| ==> SameAt(s, i, a, k)
  }

  lemma Split(s: bytes, i: nat, k: nat, a: bytes, b: bytes) returns (j: nat)
    requires Occurs(s, i, k, a + b)
    ensures Occurs(s, i, j, a) && Occurs(s, j, k, b)
  {
    j := i + |a|;
    forall n | 0 <= n < |a| ensures SameAt(s, i, a, n) { assert SameAt(s, i, a + b, n); }
    forall n | 0 <= n < |b| ensures SameAt(s, j, b, n) { assert SameAt(s, i, a + b, |a| + n); }
  }

  lemma Join(s: bytes, i: nat, j: nat, k: nat, a: bytes, b: bytes)
    requires Occurs(s, i, j, a) && Occurs(s, j, k, b)
    ensures Occurs(s, i, k, a + b)
  {
    forall n | 0 <= n < |a + b| ensures SameAt(s, i, a + b, n) {
      if n < |a| { assert SameAt(s, i, a, n); } else { assert SameAt(s, j, b, n - |a|); }
    }
  }

  lemma OccursAt(s: bytes, i: nat, j: nat, a: bytes, k: nat)
    requires Occurs(s, i, j, a) && k < |a|
    ensures i + k < j && s[i + k] == a[k]
  {
    assert SameAt(s, i, a, k);
  }

  lemma Head(s: bytes, i: nat, j: nat, a: bytes)
    requires Occurs(s, i, j, a) && a != []
    ensures i < j && s[i] == a[0]
  {
    OccursAt(s, i, j, a, 0);
  }

  /** What occurs from i to j is the slice from i to j. */
  lemma OccursIsSlice(s: bytes, i: nat, j: nat)
    requires i <= j <= |s|
    ensures Occurs(s, i, j, s[i..j])
    ensures forall a :: Occurs(s, i, j, a) ==> a == s[i..j]
  {
    forall a | Occurs(s, i, j, a) ensures a == s[i..j] {
      forall k | 0 <= k < |a| ensures a[k] == s[i..j][k] { assert SameAt(s, i, a, k); }
    }
  }

  // The ASCII codes the parsers test for.
  const TAB: byte := 9
  const LF: byte := 10
  const CR: byte := 13
  const SPACE: byte := 32
  const QUOTE: byte := 34
  const STAR: byte := 42
  const PLUS: byte := 43
  const COMMA: byte := 44
  const MINUS: byte := 45
  const DOT: byte := 46
  const SLASH: byte := 47
  const ZERO: byte := 48
  const NINE: byte := 57
  const COLON: byte := 58
  const UPPER_E: byte := 69
  const UPPER_X: byte := 88
  const LBRACKET: byte := 91
  const BACKSLASH: byte := 92
  const RBRACKET: byte := 93
  const LOWER_B: byte := 98
  const LOWER_E: byte := 101
  const LOWER_F: byte := 102
  const LOWER_N: byte := 110
  const LOWER_R: byte := 114
  const LOWER_T: byte := 116
  const LOWER_U: byte := 117
  const LOWER_X: byte := 120
  const LBRACE: byte := 123
  const RBRACE: byte := 125

  /** They are the codes of these characters. */
  lemma CodesAreAscii()
    ensures Ascii("\t\n\r \"*+,-./09:EX") ==
      [TAB, LF, CR, SPACE, QUOTE, STAR, PLUS, COMMA, MINUS, DOT, SLASH, ZERO, NINE, COLON, UPPER_E, UPPER_X]
    ensures Ascii("[\\]befnrtux{}") ==
      [LBRACKET, BACKSLASH, RBRACKET, LOWER_B, LOWER_E, LOWER_F, LOWER_N, LOWER_R, LOWER_T, LOWER_U, LOWER_X, LBRACE, RBRACE]
  {
  }

  predicate IsDigit(b: byte) { ZERO <= b <= NINE }

  predicate AllDigits(s: bytes) { forall k :: 0 <= k < |s| ==> IsDigit(s[k]) }

  function DigitValue(b: byte): (v: nat) { if IsDigit(b) then b - ZERO else 0 }

  const DIGITS := "0123456789"

  /** The digits are the ten characters, in their order. */
  lemma DigitsAreAscii(b: byte)
    ensures IsDigit(b) <==> exists k :: 0 <= k < 10 && b == Ascii(DIGITS)[k]
    ensures forall k :: 0 <= k < 10 && b == Ascii(DIGITS)[k] ==> DigitValue(b) == k
  {
    assert Ascii(DIGITS) == [48, 49, 50, 51, 52, 53, 54, 55, 56, 57];
    if IsDigit(b) { assert b == Ascii(DIGITS)[b - 48]; }
  }

  /** The number that a run of decimal digits writes. */
  function Decimal(s: bytes): (n: nat) {
    if s == [] then 0 else Decimal(s[..|s| - 1]) * 10 + DigitValue(s[|s| - 1])
  }

  function Pow10(n: nat): (p: nat)
    ensures p > 0
  {
    if n == 0 then 1 else 10 * Pow10(n - 1)
  }

  lemma {:induction false} Pow10Monotone(a: nat, b: nat)
    requires a <= b
    ensures Pow10(a) <= Pow10(b)
  {
    if a < b { Pow10Monotone(a, b - 1); }
  }

  /** std::to_string of a non-negative number. */
  function ToDecimal(n: nat): (s: bytes)
    ensures s != [] && AllDigits(s)
    ensures Decimal(s) == n
    ensures n > 0 ==> s[0] != ZERO
    ensures n == 0 ==> s == [ZERO]
  {
    if n < 10 then
      assert [ZERO + n][..0] == [];
      [ZERO + n]
    else
      var front := ToDecimal(n / 10);
      var s := front + [ZERO + n % 10];
      assert s[..|s| - 1] == front;
      s
  }

  /** A run of digits without a leading zero is at least 10^(length - 1), and below 10^length. */
  lemma {:induction false} DecimalBounds(s: bytes)
    requires AllDigits(s)
    ensures Decimal(s) < Pow10(|s|)
    ensures s != [] && s[0] != ZERO ==> Decimal(s) >= Pow10(|s| - 1)
  {
    if |s| > 0 {
      var front := s[..|s| - 1];
      DecimalBounds(front);
      if |s| > 1 {
        assert front[0] == s[0];
      }
    }
  }
}
