/** What the strings and objects parsed mean: surrogate pairs and duplicate keys. */
module JsonProperties {
  import opened Options
  import opened Bytes
  import opened JsonValue
  import opened Utf8
  import opened JsonGrammar

  // ---- \u escapes ----

  /** The UTF-16 code units of a sequence of scalars. */
  function Units(scalars: seq<int>): (us: seq<int>) {
    if scalars == [] then []
    else (if scalars[0] < 0x10000 then [scalars[0]]
          else [0xD800 + (scalars[0] - 0x10000) / 0x400, 0xDC00 + (scalars[0] - 0x10000) % 0x400]) + Units(scalars[1..])
  }

  const LOWER_HEX := "0123456789abcdef"
  const UPPER_HEX := "0123456789ABCDEF"

  /** The byte prints a hexadecimal digit, in lower or upper case. */
  predicate PrintsDigit(b: byte, v: nat)
    requires v < 16
  {
    b == Ascii(LOWER_HEX)[v] || b == Ascii(UPPER_HEX)[v]
  }

  /** The four digits print the code unit, each of them in either case. */
  predicate Prints(d: bytes, u: int) {
    && |d| == 4 && 0 <= u < 0x10000
    && PrintsDigit(d[0], u / 0x1000) && PrintsDigit(d[1], u / 0x100 % 16) && PrintsDigit(d[2], u / 16 % 16) && PrintsDigit(d[3], u % 16)
  }

  lemma HexInCode()
    ensures Ascii(LOWER_HEX) == [48, 49, 50, 51, 52, 53, 54, 55, 56, 57, 97, 98, 99, 100, 101, 102]
    ensures Ascii(UPPER_HEX) == [48, 49, 50, 51, 52, 53, 54, 55, 56, 57, 65, 66, 67, 68, 69, 70]
  {
  }

  lemma HexDigitsAreAscii(b: byte, v: nat)
    requires v < 16
    ensures PrintsDigit(b, v) <==> IsHexDigit(b) && HexDigitValue(b) == v
  {
    hide Ascii;
    HexInCode();
  }

  lemma Nibbles(u: nat, a: nat, b: nat, c: nat, d: nat)
    requires a < 16 && b < 16 && c < 16 && d < 16 && u == ((a * 16 + b) * 16 + c) * 16 + d
    ensures u / 0x1000 == a && u / 0x100 % 16 == b && u / 16 % 16 == c && u % 16 == d
  {
  }

  lemma NibblesOf(u: nat)
    requires u < 0x10000
    ensures u / 0x1000 < 16 && u == ((u / 0x1000 * 16 + u / 0x100 % 16) * 16 + u / 16 % 16) * 16 + u % 16
  {
  }

  /** What the parser takes for four hexadecimal digits of a code unit is exactly what prints it. */
  lemma HexIsPrinted(d: bytes, u: int)
    ensures Prints(d, u) <==> IsHex4(d) && HexValue(d) == u
  {
    hide PrintsDigit, HexDigitValue;
    if |d| == 4 && 0 <= u < 0x10000 {
      NibblesOf(u);
      HexDigitsAreAscii(d[0], u / 0x1000);
      HexDigitsAreAscii(d[1], u / 0x100 % 16);
      HexDigitsAreAscii(d[2], u / 16 % 16);
      HexDigitsAreAscii(d[3], u % 16);
      Nibbles(HexValue(d), HexDigitValue(d[0]), HexDigitValue(d[1]), HexDigitValue(d[2]), HexDigitValue(d[3]));
    }
  }

  /** The case of the digits makes no difference. */
  lemma HexOfEitherCase(d: bytes, e: bytes)
    requires IsHex4(d) && |e| == 4 && forall k :: 0 <= k < 4 ==> e[k] == d[k] || (65 <= d[k] <= 90 && e[k] == d[k] + 32)
    ensures IsHex4(e) && HexValue(e) == HexValue(d)
  {
    hide HexDigitValue;
    forall k | 0 <= k < 4 ensures IsHexDigit(e[k]) && HexDigitValue(e[k]) == HexDigitValue(d[k]) {
      if e[k] != d[k] { CaseOfDigit(d[k]); }
    }
  }

  lemma CaseOfDigit(b: byte)
    requires 65 <= b <= 70
    ensures IsHexDigit(b + 32) && HexDigitValue(b + 32) == HexDigitValue(b)
  {
  }

  /** \u escapes, with hex digits of either case, that spell these code units. */
  predicate Spells(cs: seq<Char>, us: seq<int>) {
    |cs| == |us| && forall k :: 0 <= k < |cs| ==> cs[k].Hex? && Prints(cs[k].digits, us[k])
  }

  predicate AllScalars(scalars: seq<int>) { forall k :: 0 <= k < |scalars| ==> IsScalar(scalars[k]) }

  /** All the characters in UTF-8, one after the other; None if it is not UTF-8. */
  function DecodeAllUtf8(s: bytes): (r: Option<seq<int>>) {
    if s == [] then Some([])
    else
      var d := DecodeUtf8(s);
      if d.None? then None
      else
        var rest := DecodeAllUtf8(s[d.value.length..]);
        if rest.None? then None else Some([d.value.scalar] + rest.value)
  }

  /**
   * Text written entirely in \u escapes, characters beyond the BMP as surrogate pairs, is parsed
   * to the UTF-8 of exactly that text: the greedy pairing never pairs across characters.
   */
  lemma {:induction false} EscapesAreUtf16(cs: seq<Char>, scalars: seq<int>)
    requires AllScalars(scalars) && Spells(cs, Units(scalars))
    ensures ValidChars(cs) && DecodeAllUtf8(Decode(cs)) == Some(scalars)
    decreases |scalars|
  {
    hide Prints, HexValue, IsHex4, EncodeUtf8, DecodeUtf8;
    if scalars != [] {
      var c := scalars[0];
      assert IsScalar(c);
      var n := if c < 0x10000 then 1 else 2;
      var us, rest := Units(scalars), Units(scalars[1..]);
      assert us[..n] + us[n..] == us && us[n..] == rest;
      forall k | 0 <= k < |rest| ensures cs[n..][k].Hex? && Prints(cs[n..][k].digits, rest[k]) {
        assert cs[n..][k] == cs[k + n] && us[k + n] == rest[k];
      }
      forall k | 0 <= k < |cs| ensures IsHex4(cs[k].digits) && HexValue(cs[k].digits) == us[k] {
        HexIsPrinted(cs[k].digits, us[k]);
      }
      EscapesAreUtf16(cs[n..], scalars[1..]);
      OneScalar(cs, c, n);
      DecodeEncode(c, Decode(cs[n..]));
      assert (EncodeUtf8(c) + Decode(cs[n..]))[|EncodeUtf8(c)|..] == Decode(cs[n..]);
      assert scalars == [c] + scalars[1..];
    }
  }

  /** The first one or two escapes give the first scalar. */
  lemma OneScalar(cs: seq<Char>, c: int, n: nat)
    requires IsScalar(c) && n == (if c < 0x10000 then 1 else 2) && n <= |cs|
    requires cs[0].Hex? && (n == 2 ==> cs[1].Hex?)
    requires if n == 1 then HexValue(cs[0].digits) == c
      else HexValue(cs[0].digits) == 0xD800 + (c - 0x10000) / 0x400 && HexValue(cs[1].digits) == 0xDC00 + (c - 0x10000) % 0x400
    ensures Decode(cs) == EncodeUtf8(c) + Decode(cs[n..]) && EncodeUtf8(c) != []
  {
    if n == 2 { PairIsBijective(c); }
  }

  predicate IsSurrogate(u: int) { IsHigh(u) || IsLow(u) }

  predicate IsEscape(cs: seq<Char>, k: int) { 0 <= k < |cs| && cs[k].Hex? }

  /** A surrogate escape that has not its partner next to it. */
  predicate LoneAt(cs: seq<Char>, k: nat) {
    && IsEscape(cs, k) && IsSurrogate(HexValue(cs[k].digits))
    && !(IsHigh(HexValue(cs[k].digits)) && IsEscape(cs, k + 1) && IsLow(HexValue(cs[k + 1].digits)))
    && !(IsLow(HexValue(cs[k].digits)) && IsEscape(cs, k - 1) && IsHigh(HexValue(cs[k - 1].digits)))
  }

  /** A surrogate without its partner, wherever it stands, makes the string something that is not UTF-8. */
  lemma LoneSurrogate(cs: seq<Char>, k: nat)
    requires LoneAt(cs, k)
    ensures DecodeAllUtf8(Decode(cs)) == None
  {
    DecodeAround(cs, k);
    SurrogateSpoils(Decode(cs[..k]), HexValue(cs[k].digits), Decode(cs[k + 1..]));
  }

  /** It is encoded by itself. */
  lemma {:induction false} DecodeAround(cs: seq<Char>, k: nat)
    requires LoneAt(cs, k)
    ensures Decode(cs) == Decode(cs[..k]) + (EncodeUtf8(HexValue(cs[k].digits)) + Decode(cs[k + 1..]))
    decreases k
  {
    hide EncodeUtf8, HexValue, IsHigh, IsLow;
    if k > 0 {
      var n := if StartsWithPair(cs) then 2 else 1;
      var rest, front := cs[n..], cs[..k];
      DecodeAround(rest, k - n);
      assert front[n..] == rest[..k - n] && rest[k - n + 1..] == cs[k + 1..];
      assert StartsWithPair(front) == StartsWithPair(cs) && front[..n] == cs[..n];
      FirstChars(cs, n);
      FirstChars(front, n);
    }
  }

  /** A pair, or a char that begins none, is decoded by itself. */
  lemma FirstChars(cs: seq<Char>, n: nat)
    requires cs != [] && n == if StartsWithPair(cs) then 2 else 1
    ensures Decode(cs) == Decode(cs[..n]) + Decode(cs[n..])
  {
    hide EncodeUtf8, HexValue, IsHigh, IsLow;
    var front := cs[..n];
    assert Decode(front[n..]) == [];
    assert StartsWithPair(front) == StartsWithPair(cs);
  }

  /** Whatever bytes stand around it, the text cannot be read as UTF-8 past an encoded surrogate. */
  lemma {:induction false} SurrogateSpoils(a: bytes, u: int, b: bytes)
    requires IsSurrogate(u)
    ensures DecodeAllUtf8(a + (EncodeUtf8(u) + b)) == None
    decreases |a|
  {
    var tail := EncodeUtf8(u) + b;
    var s := a + tail;
    LoneSurrogateIsNotUtf8(u, b);
    if a == [] {
      assert s == tail;
    } else if DecodeUtf8(s).Some? {
      var n := DecodeUtf8(s).value.length;
      TailBytes(s);
      assert s[|a|] == tail[0] == 0xE0 + u / 0x1000;
      assert s[n..] == a[n..] + tail;
      SurrogateSpoils(a[n..], u, b);
    }
  }

  lemma TailBytes(s: bytes)
    requires DecodeUtf8(s).Some?
    ensures var n := DecodeUtf8(s).value.length; 0 < n <= |s| && forall k :: 1 <= k < n ==> IsTail(s[k])
  {
  }

  // ---- Duplicate keys ----

  /** The values of an object's members in reading order. */
  function MemberValues(lib: Libc, ms: seq<Member>, erange: bool): (vs: seq<Json>)
    ensures |vs| == |ms|
  {
    if ms == [] then []
    else
      var v := Eval(lib, ms[0].elem.value, erange);
      [v.value] + MemberValues(lib, ms[1..], v.erange)
  }

  predicate LastOfItsKey(ms: seq<Member>, k: nat)
    requires k < |ms|
  {
    forall j :: k < j < |ms| ==> Decode(ms[j].key) != Decode(ms[k].key)
  }

  lemma OtherKeys(ms: seq<Member>, key: bytes)
    requires ms != [] && forall k :: 0 <= k < |ms| ==> Decode(ms[k].key) != key
    ensures forall j :: 0 <= j < |ms[1..]| ==> Decode(ms[1..][j].key) != key
  {
    hide Decode;
  }

  lemma LaterLast(ms: seq<Member>, k: nat)
    requires 0 < k < |ms| && LastOfItsKey(ms, k)
    ensures ms[1..][k - 1] == ms[k] && LastOfItsKey(ms[1..], k - 1)
  {
    hide Decode;
    forall j | k - 1 < j < |ms[1..]| ensures Decode(ms[1..][j].key) != Decode(ms[1..][k - 1].key) { assert ms[1..][j] == ms[j + 1]; }
  }

  /**
   * Of several members with one key the last is the one found, keys that do not occur are not
   * found, and the object's keys ascend as a map's do.
   */
  lemma {:induction false} LastDuplicateWins(lib: Libc, ms: seq<Member>, fields: seq<Field>, erange: bool)
    requires SortedFields(fields)
    ensures var r, vs := EvalMembers(lib, ms, fields, erange), MemberValues(lib, ms, erange);
      SortedFields(r.fields)
      && (forall k :: 0 <= k < |ms| && LastOfItsKey(ms, k) ==> Lookup(r.fields, Decode(ms[k].key)) == Some(vs[k]))
      && (forall key :: (forall k :: 0 <= k < |ms| ==> Decode(ms[k].key) != key) ==>
            Lookup(r.fields, key) == Lookup(fields, key))
    decreases |ms|
  {
    hide Eval, Decode, Insert, Lookup, SortedFields;
    if ms != [] {
      var v, key0, rest := Eval(lib, ms[0].elem.value, erange), Decode(ms[0].key), ms[1..];
      var fields1 := Insert(fields, key0, v.value);
      InsertKeepsOrder(fields, key0, v.value);
      LastDuplicateWins(lib, rest, fields1, v.erange);
      var r, vs := EvalMembers(lib, ms, fields, erange), MemberValues(lib, ms, erange);
      forall k | 0 <= k < |ms| && LastOfItsKey(ms, k) ensures Lookup(r.fields, Decode(ms[k].key)) == Some(vs[k]) {
        if k == 0 {
          forall j | 0 <= j < |rest| ensures Decode(rest[j].key) != key0 { assert rest[j] == ms[j + 1]; }
          LookupInsert(fields, key0, v.value, key0);
        } else {
          LaterLast(ms, k);
        }
      }
      forall key | forall k :: 0 <= k < |ms| ==> Decode(ms[k].key) != key ensures Lookup(r.fields, key) == Lookup(fields, key) {
        OtherKeys(ms, key);
        LookupInsert(fields, key0, v.value, key);
      }
    }
  }

  /** Every value a derivation stands for keeps the invariant of std::map, at every depth. */
  lemma {:induction false} EvalIsValid(lib: Libc, t: Tree, erange: bool)
    ensures Valid(Eval(lib, t, erange).value)
    decreases t
  {
    match t
    case TArray(es) => EvalElemsValid(lib, es, [], erange);
    case TObject(ms) => EvalMembersValid(lib, ms, [], erange);
    case _ =>
  }

  lemma {:induction false} EvalElemsValid(lib: Libc, es: seq<Elem>, items: seq<Json>, erange: bool)
    requires Valid(Array(items))
    ensures Valid(Array(EvalElems(lib, es, items, erange).items))
    decreases es
  {
    if es != [] {
      assert es[0].value < es[0];
      EvalIsValid(lib, es[0].value, erange);
      var v := Eval(lib, es[0].value, erange);
      EvalElemsValid(lib, es[1..], items + [v.value], v.erange);
    }
  }

  lemma {:induction false} EvalMembersValid(lib: Libc, ms: seq<Member>, fields: seq<Field>, erange: bool)
    requires Valid(Object(fields))
    ensures Valid(Object(EvalMembers(lib, ms, fields, erange).fields))
    decreases ms
  {
    if ms != [] {
      assert ms[0].elem.value < ms[0].elem < ms[0];
      EvalIsValid(lib, ms[0].elem.value, erange);
      var v, key := Eval(lib, ms[0].elem.value, erange), Decode(ms[0].key);
      InsertKeepsOrder(fields, key, v.value);
      var next := Insert(fields, key, v.value);
      forall k | 0 <= k < |next| ensures Valid(next[k].value) { assert next[k] in next; }
      EvalMembersValid(lib, ms[1..], next, v.erange);
    }
  }
}
