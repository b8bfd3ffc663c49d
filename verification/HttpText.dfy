/** What the C and C++ libraries do to text: C strings, searching, trimming, numbers. */
module HttpText {
  import opened Bytes

  const CRLF: bytes := [CR, LF]

  /** string::find of one byte: its first index, or the length. */
  function IndexOf(s: bytes, b: byte): (i: nat)
    ensures i <= |s| && (i < |s| ==> s[i] == b)
    ensures forall k :: 0 <= k < i ==> s[k] != b
  {
    if s == [] || s[0] == b then 0 else 1 + IndexOf(s[1..], b)
  }

  /** What c_str() shows of the bytes: up to the first NUL. */
  function CString(s: bytes): (r: bytes)
    ensures 0 !in r && r <= s && (|r| < |s| ==> s[|r|] == 0)
  {
    s[..IndexOf(s, 0)]
  }

  predicate IsSpace(b: byte) { b == SPACE || 9 <= b <= 13 }

  /** isspace in the C locale: the blank, the tabs, the line feed, the form feed and the carriage return. */
  lemma SpacesAreAscii(b: byte)
    ensures IsSpace(b) <==> b in Ascii(" \t\n\U{000B}\U{000C}\r")
  {
    var spaces := Ascii(" \t\n\U{000B}\U{000C}\r");
    assert spaces == [32, 9, 10, 11, 12, 13];
  }

  function SkipSpaces(s: bytes): (r: bytes)
    ensures r != [] ==> !IsSpace(r[0])
  {
    if s != [] && IsSpace(s[0]) then SkipSpaces(s[1..]) else s
  }

  /** The digits a text begins with. */
  function LeadingDigits(s: bytes): (r: bytes)
    ensures AllDigits(r) && r <= s
    ensures |r| < |s| ==> !IsDigit(s[|r|])
  {
    if s != [] && IsDigit(s[0]) then [s[0]] + LeadingDigits(s[1..]) else []
  }

  /** atoi, whose value C leaves undefined when it is not an int. */
  function Atoi(s: bytes): (n: int) {
    var t := SkipSpaces(s);
    if t != [] && t[0] == MINUS then -(Decimal(LeadingDigits(t[1..])) as int)
    else if t != [] && t[0] == PLUS then Decimal(LeadingDigits(t[1..]))
    else Decimal(LeadingDigits(t))
  }

  /** atoi skips white space, takes one sign, and reads the digits up to the first other byte. */
  lemma AtoiReads(s: bytes, spaces: bytes, sign: bytes, digits: bytes, rest: bytes)
    requires s == spaces + (sign + (digits + rest)) && (sign == [] || sign == [MINUS] || sign == [PLUS])
    requires (forall k :: 0 <= k < |spaces| ==> IsSpace(spaces[k])) && digits != [] && AllDigits(digits)
    requires rest != [] ==> !IsDigit(rest[0])
    ensures Atoi(s) == if sign == [MINUS] then -(Decimal(digits) as int) else Decimal(digits)
  {
    var t := sign + (digits + rest);
    assert IsDigit(digits[0]) && !IsSpace(t[0]);
    SkipsSpaces(spaces, t);
    LeadingRun(digits, rest);
    if sign != [] { assert t[1..] == digits + rest; } else { assert t == digits + rest; }
  }

  lemma {:induction false} SkipsSpaces(spaces: bytes, t: bytes)
    requires (forall k :: 0 <= k < |spaces| ==> IsSpace(spaces[k])) && (t != [] ==> !IsSpace(t[0]))
    ensures SkipSpaces(spaces + t) == t
  {
    if spaces == [] {
      assert spaces + t == t;
    } else {
      assert (spaces + t)[1..] == spaces[1..] + t;
      SkipsSpaces(spaces[1..], t);
    }
  }

  lemma {:induction false} LeadingRun(digits: bytes, rest: bytes)
    requires AllDigits(digits) && (rest != [] ==> !IsDigit(rest[0]))
    ensures LeadingDigits(digits + rest) == digits
  {
    if digits == [] {
      assert digits + rest == rest;
    } else {
      assert (digits + rest)[1..] == digits[1..] + rest;
      LeadingRun(digits[1..], rest);
    }
  }

  const INT_MAX := 0x7FFF_FFFF
  const SIZE_MODULUS := 0x1_0000_0000_0000_0000

  /** An int converted to size_t, and a sum of such sizes. */
  function SizeT(n: int): (r: nat)
    ensures 0 <= n < SIZE_MODULUS ==> r == n
    ensures -SIZE_MODULUS <= n < 0 ==> r == n + SIZE_MODULUS
    ensures SIZE_MODULUS <= n < 2 * SIZE_MODULUS ==> r == n - SIZE_MODULUS
  {
    n % SIZE_MODULUS
  }

  /** max_size of a vector of char: resize to more throws. */
  const VECTOR_MAX := 0x7FFF_FFFF_FFFF_FFFF

  /**
   * How a call that works on a vector ends: it returns, resize throws, or it copies or starts to
   * read beyond the end, after which nothing is known.
   */
  datatype Ending = Returned | Thrown | Overrun

  lemma AllDigitsLead(digits: bytes)
    requires AllDigits(digits)
    ensures LeadingDigits(digits) == digits
  {
    var lead := LeadingDigits(digits);
    assert |lead| == |digits|;
  }

  lemma AtoiOfDecimal(n: nat)
    ensures Atoi(ToDecimal(n)) == n
  {
    var d := ToDecimal(n);
    assert IsDigit(d[0]);
    AllDigitsLead(d);
    AtoiOfDigits(d);
  }

  lemma AtoiOfDigits(d: bytes)
    requires d != [] && IsDigit(d[0])
    ensures Atoi(d) == Decimal(LeadingDigits(d))
  {
  }

  lemma {:induction false} IndexOfAppend(a: bytes, b: byte, rest: bytes)
    requires b !in a
    ensures IndexOf(a + [b] + rest, b) == |a|
  {
    var s := a + [b] + rest;
    if a != [] {
      assert s[1..] == a[1..] + [b] + rest;
      IndexOfAppend(a[1..], b, rest);
    }
  }
}
