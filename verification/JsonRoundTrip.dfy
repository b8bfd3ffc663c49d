/** dump and parse undo each other. */
module JsonRoundTrip {
  import opened Bytes
  import opened JsonNumber
  import opened JsonValue
  import opened Utf8
  import opened JsonGrammar
  import opened JsonParsing
  import opened JsonComplete
  import opened JsonDump
  import opened JsonOrder

  // ---- Strings ----

  /** The chars dump writes are valid and stand for the bytes they were made from. */
  lemma {:induction false} DecodeCharsOf(s: bytes, i: nat)
    requires i <= |s|
    ensures ValidChars(CharsOf(s, i)) && Decode(CharsOf(s, i)) == s[i..]
    decreases |s| - i
  {
    if i < |s| {
      var r := EscapeAt(s, i);
      var rest := CharsOf(s, i + r.1);
      DecodeCharsOf(s, i + r.1);
      OneEscape(s, i);
      assert ([r.0] + rest)[1..] == rest;
      assert s[i..] == s[i..i + r.1] + s[i + r.1..];
    }
  }

  /** One char written stands for the bytes it covers, and never for half of a surrogate pair. */
  lemma OneEscape(s: bytes, i: nat)
    requires i < |s|
    ensures var r := EscapeAt(s, i);
      ValidChar(r.0) && (r.0.Hex? ==> !IsHigh(HexValue(r.0.digits)) && EncodeUtf8(HexValue(r.0.digits)) == s[i..i + r.1])
      && (r.0.Short? ==> [ShortValue(r.0.letter)] == s[i..i + r.1])
      && (r.0.Unescaped? ==> [r.0.b] == s[i..i + r.1])
  {
    var r := EscapeAt(s, i);
    if r.1 == 3 {
      LineSeparators();
      assert s[i..i + 3] == [s[i], s[i + 1], s[i + 2]];
    } else {
      assert s[i..i + 1] == [s[i]];
    }
  }

  lemma LineSeparators()
    ensures EncodeUtf8(0x2028) == [0xE2, 0x80, 0xA8] && EncodeUtf8(0x2029) == [0xE2, 0x80, 0xA9]
  {
  }

  /**
   * A dumped string, wherever it stands in the input, is parsed back to the same bytes, and the
   * cursor stops just after the closing quote.
   */
  lemma StringRoundTrip(value: bytes, s: bytes, st: State)
    requires 0 < st.i && st.i - 1 + |StringText(CharsOf(value, 0))| <= |s|
    requires s[st.i - 1..st.i - 1 + |StringText(CharsOf(value, 0))|] == StringText(CharsOf(value, 0))
    ensures ParseString(s, st) == StringResult(value, st.(i := st.i - 1 + |StringText(CharsOf(value, 0))|))
  {
    var end := st.i - 1 + |StringText(CharsOf(value, 0))|;
    DecodeCharsOf(value, 0);
    OccursIsSlice(s, st.i - 1, end);
    StringOver(s, st, end, CharsOf(value, 0));
    assert value[0..] == value;
  }

  // ---- Integers ----

  function IntegerLit(n: int): (l: NumLit)
    ensures ValidNum(l)
  {
    if n < 0 then NumLit(true, ToDecimal(-n), [], NoExp) else NumLit(false, ToDecimal(n), [], NoExp)
  }

  lemma Powers()
    ensures Pow10(20) == 100000000000000000000 && Pow10(19) == 10000000000000000000
  {
    assert Pow10(5) == 100000;
    assert Pow10(10) == 10000000000 by {
      assert Pow10(6) == 1000000 && Pow10(7) == 10000000 && Pow10(8) == 100000000 && Pow10(9) == 1000000000;
    }
    assert Pow10(11) == 100000000000 && Pow10(12) == 1000000000000 && Pow10(13) == 10000000000000;
    assert Pow10(14) == 100000000000000 && Pow10(15) == 1000000000000000 && Pow10(16) == 10000000000000000;
    assert Pow10(17) == 100000000000000000 && Pow10(18) == 1000000000000000000;
  }

  /** The length gates let every representable integer through. */
  lemma ShortEnough(digits: bytes)
    requires AllDigits(digits) && digits != [] && (digits[0] == ZERO ==> |digits| == 1)
    ensures Decimal(digits) < 0x1_0000_0000_0000_0000 ==> |digits| <= 20
    ensures Decimal(digits) <= 0x8000_0000_0000_0000 ==> |digits| <= 19
  {
    Powers();
    if digits[0] != ZERO {
      DecimalBounds(digits);
      if |digits| > 20 { Pow10Monotone(20, |digits| - 1); }
      if |digits| > 19 { Pow10Monotone(19, |digits| - 1); }
    }
  }

  /**
   * With errno clear, an integer literal is exact if and only if 64 bits hold it: unsigned below
   * 2^64, or with a minus sign and at least -2^63. Any other literal is a double.
   */
  lemma ExactIntegers(lib: Libc, l: NumLit)
    requires ValidNum(l)
    ensures var n, r := Decimal(l.digits), ReadNumber(lib, l, false);
      var whole := l.frac == [] && l.exp == NoExp;
      (whole && !l.minus && n < 0x1_0000_0000_0000_0000 ==> r == Reading(UInt64(n), false))
      && (whole && l.minus && n <= 0x8000_0000_0000_0000 ==> r == Reading(Int64(0 - n as int), false))
      && (r.value.Number? <==> !(whole && n < if l.minus then 0x8000_0000_0000_0001 else 0x1_0000_0000_0000_0000))
      && (r.value.Number? ==> r.value.d == lib.strtod(NumText(l)).value)
  {
    if l.frac == [] && l.exp == NoExp {
      ShortEnough(l.digits);
      assert NumText(l) == SignText(l) + l.digits by {
        assert l.digits + ([] + []) == l.digits;
      }
      if l.minus {
        assert NumText(l)[1..] == l.digits;
      } else {
        assert NumText(l) == l.digits;
        assert NumText(l)[0] == l.digits[0];
      }
    }
  }

  // ---- Doubles ----

  /** 64 bits hold the literal. */
  predicate FitsInteger(l: NumLit) {
    IsWhole(l) && Decimal(l.digits) < if l.minus then 0x8000_0000_0000_0001 else 0x1_0000_0000_0000_0000
  }

  /** The integer that such a literal is. */
  function Exactly(l: NumLit): (v: Json)
    requires FitsInteger(l)
  {
    if l.minus then Int64(0 - Decimal(l.digits) as int) else UInt64(Decimal(l.digits))
  }

  /**
   * What %.17g prints for the number is a literal that strtod reads as the number, or, without
   * fraction and exponent, an integer that is converted to the number.
   */
  ghost predicate PrintsAs(lib: Libc, r: real, l: NumLit) {
    && ValidNum(l) && lib.g17(r) == NumText(l)
    && if FitsInteger(l) then lib.toDouble(IntegerIn(l)) == r && (l.minus ==> Decimal(l.digits) > 0)
       else !IsWhole(l) && lib.strtod(NumText(l)) == Strtod(Finite(r), false)
  }

  function IntegerIn(l: NumLit): (n: int) { if l.minus then -(Decimal(l.digits) as int) else Decimal(l.digits) }

  /**
   * The C library prints the number so that it can be read back. It does for the doubles that are
   * not subnormal, for which strtod sets ERANGE.
   */
  ghost predicate PrintsBack(lib: Libc, r: real) { exists l :: PrintsAs(lib, r, l) }

  ghost function DoubleLit(lib: Libc, r: real): (l: NumLit)
    requires PrintsBack(lib, r)
    ensures PrintsAs(lib, r, l)
  {
    var l :| PrintsAs(lib, r, l);
    l
  }

  /** What parsing the text of a double gives: the double, or the integer that the text is. */
  ghost function ReadBack(lib: Libc, r: real): (v: Json)
    requires PrintsBack(lib, r)
  {
    var l := DoubleLit(lib, r);
    if FitsInteger(l) then Exactly(l) else Number(Finite(r))
  }

  lemma ReadBackIsRead(lib: Libc, r: real)
    requires PrintsBack(lib, r)
    ensures ReadNumber(lib, DoubleLit(lib, r), false) == Reading(ReadBack(lib, r), false)
  {
    hide PrintsAs, ReadNumber;
    PrintedIsRead(lib, r, DoubleLit(lib, r));
  }

  lemma PrintedIsRead(lib: Libc, r: real, l: NumLit)
    requires PrintsAs(lib, r, l)
    ensures ReadNumber(lib, l, false) == Reading(if FitsInteger(l) then Exactly(l) else Number(Finite(r)), false)
  {
    hide ReadInteger, NumText, ValidNum;
    if FitsInteger(l) { ExactIntegers(lib, l); }
  }

  /** By operator== what comes back is the double that was dumped, and it dumps to the same text. */
  lemma ReadBackIsEqual(lib: Libc, r: real)
    requires PrintsBack(lib, r)
    ensures Equal(lib, ReadBack(lib, r), Number(Finite(r))) && Dumped(lib, ReadBack(lib, r)) == lib.g17(r)
  {
    hide NumText, ValidNum, DumpInteger;
    var l := DoubleLit(lib, r);
    if FitsInteger(l) { IntegerPrints(l); }
  }

  lemma IntegerPrints(l: NumLit)
    requires ValidNum(l) && IsWhole(l) && (l.minus ==> Decimal(l.digits) > 0)
    ensures DumpInteger(IntegerIn(l)) == NumText(l)
  {
    CanonicalDecimal(l.digits);
    hide ToDecimal;
    assert l.digits + ([] + []) == l.digits && [] + l.digits == l.digits;
  }

  /** Digits without a leading zero are what is printed for the number they write. */
  lemma {:induction false} CanonicalDecimal(d: bytes)
    requires AllDigits(d) && d != [] && (d[0] == ZERO ==> |d| == 1)
    ensures ToDecimal(Decimal(d)) == d
    decreases |d|
  {
    hide Pow10;
    var front, last := d[..|d| - 1], d[|d| - 1];
    if front == [] {
      assert d == [last] && Decimal(front) == 0;
    } else {
      assert front[0] == d[0];
      CanonicalDecimal(front);
      assert Decimal(front) > 0 by { DecimalBounds(front); }
      assert Decimal(d) == Decimal(front) * 10 + (last - ZERO) >= 10;
      assert d == front + [last];
    }
  }

  // ---- Values ----

  /** Every finite double in it is printed so that it can be read back. */
  ghost predicate Printable(lib: Libc, v: Json)
    decreases v
  {
    match v
    case Number(d) => d.Finite? ==> PrintsBack(lib, d.r)
    case Array(items) => forall k :: 0 <= k < |items| ==> Printable(lib, items[k])
    case Object(fields) => forall k :: 0 <= k < |fields| ==> Printable(lib, fields[k].value)
    case _ => true
  }

  /** What comes back: non-negative integers as UInt64, doubles as they are read, and null for what dump writes as null. */
  ghost function Retag(lib: Libc, v: Json): (r: Json)
    decreases v
  {
    match v
    case Int64(n) => if n < 0 then v else UInt64(n)
    case Number(d) => if d.Finite? && PrintsBack(lib, d.r) then ReadBack(lib, d.r) else Nul
    case Array(items) => Array(RetagItems(lib, items))
    case Object(fields) => Object(RetagFields(lib, fields))
    case _ => v
  }

  ghost function RetagItems(lib: Libc, items: seq<Json>): (r: seq<Json>)
    decreases items
  {
    if items == [] then [] else [Retag(lib, items[0])] + RetagItems(lib, items[1..])
  }

  ghost function RetagFields(lib: Libc, fields: seq<Field>): (r: seq<Field>)
    decreases fields
  {
    if fields == [] then [] else
    assert fields[0].value < fields[0];
    [Field(fields[0].key, Retag(lib, fields[0].value))] + RetagFields(lib, fields[1..])
  }

  /** The depth at which dump nests a value. */
  function Depth(v: Json): (h: nat)
    decreases v
  {
    match v
    case Array(items) => if items == [] then 0 else 1 + DepthItems(items)
    case Object(fields) => if fields == [] then 0 else 1 + DepthFields(fields)
    case _ => 0
  }

  function DepthItems(items: seq<Json>): (h: nat)
    decreases items
  {
    if items == [] then 0 else Max(Depth(items[0]), DepthItems(items[1..]))
  }

  function DepthFields(fields: seq<Field>): (h: nat)
    decreases fields
  {
    if fields == [] then 0 else
    assert fields[0].value < fields[0];
    Max(Depth(fields[0].value), DepthFields(fields[1..]))
  }

  // ---- The derivation that dump writes ----

  ghost function TreeOf(lib: Libc, v: Json): (t: Tree)
    decreases v
  {
    match v
    case Nul => TNull
    case Number(d) => if d.Finite? && PrintsBack(lib, d.r) then TNum(DoubleLit(lib, d.r)) else TNull
    case Int64(n) => TNum(IntegerLit(n))
    case UInt64(u) => TNum(IntegerLit(u))
    case Bool(b) => if b then TTrue else TFalse
    case Str(s) => TStr(CharsOf(s, 0))
    case Array(items) => if items == [] then TEmptyArray([]) else TArray(ElemsOf(lib, items, true))
    case Object(fields) => if fields == [] then TEmptyObject([]) else TObject(MembersOf(lib, fields, true))
  }

  function Pre(first: bool): bytes { if first then [] else [SPACE] }

  ghost function ElemsOf(lib: Libc, items: seq<Json>, first: bool): (es: seq<Elem>)
    ensures |es| == |items|
    decreases items
  {
    if items == [] then [] else [Elem(Pre(first), TreeOf(lib, items[0]), [])] + ElemsOf(lib, items[1..], false)
  }

  ghost function MembersOf(lib: Libc, fields: seq<Field>, first: bool): (ms: seq<Member>)
    ensures |ms| == |fields|
    decreases fields
  {
    if fields == [] then [] else
    assert fields[0].value < fields[0];
    [Member(Pre(first), CharsOf(fields[0].key, 0), [], Elem([SPACE], TreeOf(lib, fields[0].value), []))]
      + MembersOf(lib, fields[1..], false)
  }

  lemma {:induction false} TreeIsValid(mode: Strategy, lib: Libc, v: Json)
    ensures ValidTree(mode, TreeOf(lib, v)) && Height(TreeOf(lib, v)) == Depth(v)
    decreases v
  {
    match v
    case Str(s) => DecodeCharsOf(s, 0);
    case Array(items) => if items != [] { ElemsAreValid(mode, lib, items, true); }
    case Object(fields) => if fields != [] { MembersAreValid(mode, lib, fields, true); }
    case _ =>
  }

  lemma PreIsGap(mode: Strategy, first: bool)
    ensures IsGap(mode, Pre(first))
  {
    assert [SPACE][1..] == [];
  }

  lemma {:induction false} ElemsAreValid(mode: Strategy, lib: Libc, items: seq<Json>, first: bool)
    ensures var es := ElemsOf(lib, items, first);
      (forall k :: 0 <= k < |es| ==> ValidElem(mode, es[k])) && ElemsHeight(es) == DepthItems(items)
    decreases items
  {
    if items != [] {
      TreeIsValid(mode, lib, items[0]);
      PreIsGap(mode, first);
      ElemsAreValid(mode, lib, items[1..], false);
      var es := ElemsOf(lib, items, first);
      assert es[1..] == ElemsOf(lib, items[1..], false);
      forall k | 0 <= k < |es| ensures ValidElem(mode, es[k]) {
        if k > 0 { assert es[k] == es[1..][k - 1]; }
      }
    }
  }

  lemma {:induction false} MembersAreValid(mode: Strategy, lib: Libc, fields: seq<Field>, first: bool)
    ensures var ms := MembersOf(lib, fields, first);
      (forall k :: 0 <= k < |ms| ==> ValidMember(mode, ms[k])) && MembersHeight(ms) == DepthFields(fields)
    decreases fields
  {
    if fields != [] {
      assert fields[0].value < fields[0];
      TreeIsValid(mode, lib, fields[0].value);
      PreIsGap(mode, first);
      PreIsGap(mode, false);
      DecodeCharsOf(fields[0].key, 0);
      MembersAreValid(mode, lib, fields[1..], false);
      var ms := MembersOf(lib, fields, first);
      assert ms[1..] == MembersOf(lib, fields[1..], false);
      forall k | 0 <= k < |ms| ensures ValidMember(mode, ms[k]) {
        if k > 0 { assert ms[k] == ms[1..][k - 1]; } else { assert ValidElem(mode, ms[0].elem); }
      }
    }
  }

  /** The text of that derivation is what dump writes. */
  lemma {:induction false} TextIsDump(lib: Libc, v: Json)
    requires Printable(lib, v)
    ensures Text(TreeOf(lib, v)) == Dumped(lib, v)
    decreases v
  {
    hide NumText, IntegerLit, DumpInteger, PrintsAs;
    match v
    case Number(d) => if d.Finite? { DoubleText(lib, d.r); }
    case Int64(n) => IntegerLitText(n);
    case UInt64(u) => IntegerLitText(u);
    case Array(items) => ArrayText(lib, items);
    case Object(fields) => ObjectText(lib, fields);
    case _ =>
  }

  lemma {:induction false} ArrayText(lib: Libc, items: seq<Json>)
    requires forall k :: 0 <= k < |items| ==> Printable(lib, items[k])
    ensures Text(TreeOf(lib, Array(items))) == Dumped(lib, Array(items))
    decreases items, 1
  {
    if items != [] {
      ElemsAreItems(lib, items, true);
      InBrackets(LBRACKET, ElemsText(ElemsOf(lib, items, true)), DumpItems(lib, items, true), RBRACKET);
    }
  }

  lemma {:induction false} ObjectText(lib: Libc, fields: seq<Field>)
    requires forall k :: 0 <= k < |fields| ==> Printable(lib, fields[k].value)
    ensures Text(TreeOf(lib, Object(fields))) == Dumped(lib, Object(fields))
    decreases fields, 1
  {
    if fields != [] {
      MembersAreFields(lib, fields, true);
      InBrackets(LBRACE, MembersText(MembersOf(lib, fields, true)), DumpFields(lib, fields, true), RBRACE);
    }
  }

  lemma InBrackets(open: byte, a: bytes, b: bytes, close: byte)
    requires [] + a == b
    ensures [open] + ([] + (a + [close])) == [open] + (b + [close])
  {
  }

  lemma DoubleText(lib: Libc, r: real)
    requires PrintsBack(lib, r)
    ensures NumText(DoubleLit(lib, r)) == lib.g17(r)
  {
    hide NumText;
  }

  lemma IntegerLitText(n: int)
    ensures NumText(IntegerLit(n)) == DumpInteger(n)
  {
    var l := IntegerLit(n);
    assert l.digits + ([] + []) == l.digits;
    assert [] + l.digits == l.digits;
  }

  lemma {:induction false} ElemsAreItems(lib: Libc, items: seq<Json>, first: bool)
    requires items != [] && forall k :: 0 <= k < |items| ==> Printable(lib, items[k])
    ensures var es := ElemsOf(lib, items, first);
      Separator(first) + ElemsText(es) == DumpItems(lib, items, first) && es[0].pre == Pre(first)
    decreases items, 0
  {
    var tail, rest := items[1..], ElemsOf(lib, items[1..], false);
    TextIsDump(lib, items[0]);
    ElemsTextCons(Elem(Pre(first), TreeOf(lib, items[0]), []), rest);
    if tail != [] { ElemsAreItems(lib, tail, false); }
    ItemsText(Separator(first), Dumped(lib, items[0]), if tail == [] then [] else ElemsText(rest),
              DumpItems(lib, tail, false), tail == []);
  }

  lemma ElemsTextCons(e: Elem, rest: seq<Elem>)
    ensures ElemsText([e] + rest)
      == Text(e.value) + (e.post + if rest == [] then [] else [COMMA] + (rest[0].pre + ElemsText(rest)))
  {
    assert ([e] + rest)[1..] == rest;
  }

  lemma ItemsText(sep: bytes, d: bytes, rest: bytes, items: bytes, last: bool)
    requires items == if last then [] else COMMA_SPACE + rest
    ensures sep + (d + ([] + if last then [] else [COMMA] + ([SPACE] + rest))) == sep + (d + items)
  {
    if !last { assert [COMMA] + ([SPACE] + rest) == COMMA_SPACE + rest; }
  }

  lemma {:induction false} MembersAreFields(lib: Libc, fields: seq<Field>, first: bool)
    requires fields != [] && forall k :: 0 <= k < |fields| ==> Printable(lib, fields[k].value)
    ensures var ms := MembersOf(lib, fields, first);
      Separator(first) + MembersText(ms) == DumpFields(lib, fields, first) && ms[0].pre == Pre(first)
    decreases fields, 0
  {
    var f, tail, rest := fields[0], fields[1..], MembersOf(lib, fields[1..], false);
    assert f.value < f;
    TextIsDump(lib, f.value);
    MembersTextCons(Member(Pre(first), CharsOf(f.key, 0), [], Elem([SPACE], TreeOf(lib, f.value), [])), rest);
    if tail != [] { MembersAreFields(lib, tail, false); }
    FieldsText(Separator(first), StringText(CharsOf(f.key, 0)), Dumped(lib, f.value), if tail == [] then [] else MembersText(rest),
               DumpFields(lib, tail, false), tail == []);
  }

  lemma MembersTextCons(m: Member, rest: seq<Member>)
    ensures MembersText([m] + rest)
      == StringText(m.key) + (m.mid + ([COLON] + (m.elem.pre + (Text(m.elem.value) + (m.elem.post +
         if rest == [] then [] else [COMMA] + (rest[0].pre + MembersText(rest)))))))
  {
    assert ([m] + rest)[1..] == rest;
  }

  lemma FieldsText(sep: bytes, key: bytes, d: bytes, rest: bytes, fields: bytes, last: bool)
    requires fields == if last then [] else COMMA_SPACE + rest
    ensures sep + (key + ([] + ([COLON] + ([SPACE] + (d + ([] + if last then [] else [COMMA] + ([SPACE] + rest)))))))
      == sep + ((key + (COLON_SPACE + d)) + fields)
  {
    var tail := if last then [] else [COMMA] + ([SPACE] + rest);
    assert [] + tail == fields;
    var value := d + fields;
    assert [] + ([COLON] + ([SPACE] + value)) == COLON_SPACE + value;
    ReassociateField(key, COLON_SPACE, d, fields);
  }

  lemma ReassociateField(a: bytes, b: bytes, c: bytes, d: bytes)
    ensures (a + (b + c)) + d == a + (b + (c + d))
  {
  }

  /** The value of that derivation is the value dumped, but for the tags. */
  lemma {:induction false} EvalIsRetag(lib: Libc, v: Json)
    requires Valid(v)
    ensures Eval(lib, TreeOf(lib, v), false) == Reading(Retag(lib, v), false)
    decreases v
  {
    hide ReadNumberIn, ToDecimal;
    match v
    case Number(d) => if d.Finite? && PrintsBack(lib, d.r) { ReadBackIsRead(lib, d.r); }
    case Int64(n) => ExactIntegers(lib, IntegerLit(n));
    case UInt64(u) => ExactIntegers(lib, IntegerLit(u));
    case Str(s) => DecodeCharsOf(s, 0); assert s[0..] == s;
    case Array(items) => EvalArray(lib, items);
    case Object(fields) => EvalObject(lib, fields);
    case _ =>
  }

  lemma {:induction false} EvalArray(lib: Libc, items: seq<Json>)
    requires forall k :: 0 <= k < |items| ==> Valid(items[k])
    ensures Eval(lib, TreeOf(lib, Array(items)), false) == Reading(Retag(lib, Array(items)), false)
    decreases items, 1
  {
    hide EvalElems, ElemsOf, ReadNumberIn, PrintsBack, ReadBack, DoubleLit, Valid;
    if items != [] {
      EvalItems(lib, items, true, []);
      assert [] + RetagItems(lib, items) == RetagItems(lib, items);
    }
  }

  lemma NothingBefore(fields: seq<Field>)
    ensures [] + fields == fields
  {
  }

  lemma {:induction false} EvalObject(lib: Libc, fields: seq<Field>)
    requires SortedFields(fields) && forall k :: 0 <= k < |fields| ==> Valid(fields[k].value)
    ensures Eval(lib, TreeOf(lib, Object(fields)), false) == Reading(Retag(lib, Object(fields)), false)
    decreases fields, 1
  {
    hide EvalMembers, MembersOf, LessBytes, ReadNumberIn, SortedFields, PrintsBack, ReadBack, DoubleLit, Valid;
    if fields != [] {
      NothingBefore(fields);
      EvalFields(lib, [], fields, true, []);
      assert [] + RetagFields(lib, fields) == RetagFields(lib, fields);
    }
  }

  lemma {:induction false} EvalItems(lib: Libc, items: seq<Json>, first: bool, data: seq<Json>)
    requires forall k :: 0 <= k < |items| ==> Valid(items[k])
    ensures EvalElems(lib, ElemsOf(lib, items, first), data, false) == ArrayReading(data + RetagItems(lib, items), false)
    decreases items, 0
  {
    if items == [] {
      assert data + [] == data;
    } else {
      EvalIsRetag(lib, items[0]);
      EvalItems(lib, items[1..], false, data + [Retag(lib, items[0])]);
      assert ElemsOf(lib, items, first)[1..] == ElemsOf(lib, items[1..], false);
      assert data + [Retag(lib, items[0])] + RetagItems(lib, items[1..]) == data + RetagItems(lib, items);
    }
  }

  lemma {:induction false} EvalFields(lib: Libc, before: seq<Field>, fields: seq<Field>, first: bool, data: seq<Field>)
    requires SortedFields(before + fields) && data == RetagFields(lib, before)
    requires forall k :: 0 <= k < |fields| ==> Valid(fields[k].value)
    ensures EvalMembers(lib, MembersOf(lib, fields, first), data, false) == ObjectReading(data + RetagFields(lib, fields), false)
    decreases fields, 0
  {
    if fields == [] {
      assert data + [] == data;
    } else {
      var f := fields[0];
      OneField(lib, f, fields[1..], first, data);
      AppendField(lib, before, fields, data);
      EvalFields(lib, before + [f], fields[1..], false, data + [Field(f.key, Retag(lib, f.value))]);
      assert fields == [f] + fields[1..];
      RetagCons(lib, data, f, fields[1..]);
    }
  }

  lemma RetagCons(lib: Libc, data: seq<Field>, f: Field, rest: seq<Field>)
    ensures data + RetagFields(lib, [f] + rest) == (data + [Field(f.key, Retag(lib, f.value))]) + RetagFields(lib, rest)
  {
    assert ([f] + rest)[1..] == rest;
  }

  lemma {:induction false} OneField(lib: Libc, f: Field, rest: seq<Field>, first: bool, data: seq<Field>)
    requires Valid(f.value)
    ensures EvalMembers(lib, MembersOf(lib, [f] + rest, first), data, false)
      == EvalMembers(lib, MembersOf(lib, rest, false), Insert(data, f.key, Retag(lib, f.value)), false)
    decreases f
  {
    assert f.value < f;
    EvalIsRetag(lib, f.value);
    DecodeCharsOf(f.key, 0);
    assert f.key[0..] == f.key && ([f] + rest)[1..] == rest;
    EvalMembersCons(lib, Member(Pre(first), CharsOf(f.key, 0), [], Elem([SPACE], TreeOf(lib, f.value), [])), MembersOf(lib, rest, false), data);
  }

  lemma EvalMembersCons(lib: Libc, m: Member, rest: seq<Member>, data: seq<Field>)
    ensures var v := Eval(lib, m.elem.value, false);
      EvalMembers(lib, [m] + rest, data, false) == EvalMembers(lib, rest, Insert(data, Decode(m.key), v.value), v.erange)
  {
    assert ([m] + rest)[1..] == rest;
  }

  /** The next key of a sorted object is stored at the end. */
  lemma AppendField(lib: Libc, before: seq<Field>, fields: seq<Field>, data: seq<Field>)
    requires fields != [] && SortedFields(before + fields) && data == RetagFields(lib, before)
    ensures var f := fields[0]; var next := data + [Field(f.key, Retag(lib, f.value))];
      Insert(data, f.key, Retag(lib, f.value)) == next && next == RetagFields(lib, before + [f])
    ensures (before + [fields[0]]) + fields[1..] == before + fields
  {
    hide Retag, Insert;
    var f, all := fields[0], before + fields;
    RetagKeys(lib, before);
    forall k | 0 <= k < |data| ensures LessBytes(data[k].key, f.key) {
      assert all[k] == before[k] && all[|before|] == f;
    }
    InsertAtEnd(data, f.key, Retag(lib, f.value));
    RetagSnoc(lib, before, f);
  }

  lemma {:induction false} RetagKeys(lib: Libc, fields: seq<Field>)
    ensures |RetagFields(lib, fields)| == |fields|
    ensures forall k :: 0 <= k < |fields| ==> RetagFields(lib, fields)[k].key == fields[k].key
  {
    if fields != [] { RetagKeys(lib, fields[1..]); }
  }

  lemma {:induction false} RetagSnoc(lib: Libc, fields: seq<Field>, f: Field)
    ensures RetagFields(lib, fields + [f]) == RetagFields(lib, fields) + [Field(f.key, Retag(lib, f.value))]
  {
    if fields == [] {
      assert [] + [f] == [f];
      assert RetagFields(lib, [f][1..]) == [];
    } else {
      RetagSnoc(lib, fields[1..], f);
      assert (fields + [f])[1..] == fields[1..] + [f];
    }
  }

  // ---- The round trip ----

  /** A dumped number must not run into a suffix that would prolong it. */
  predicate Separated(v: Json, suffix: bytes) {
    var next := At(suffix, 0);
    v.Int64? || v.UInt64? || (v.Number? && v.d.Finite?) ==> !IsDigit(next) && next != DOT && next != LOWER_E && next != UPPER_E
  }

  /**
   * parse_json on dump(v) followed by a suffix returns v, up to the tags, and stops where the
   * suffix begins.
   */
  lemma RoundTrip(p: Source, v: Json, suffix: bytes, err: Error)
    requires p.text == Dumped(p.lib, v) + suffix
    requires Valid(v) && Printable(p.lib, v) && Depth(v) <= MAX_DEPTH && Separated(v, suffix)
    ensures ParseJson(p, 0, Start(err, false)) == Result(Retag(p.lib, v), State(|Dumped(p.lib, v)|, false, err, false))
  {
    var t, end := TreeOf(p.lib, v), |Dumped(p.lib, v)|;
    TreeIsValid(p.strategy, p.lib, v);
    TextIsDump(p.lib, v);
    EvalIsRetag(p.lib, v);
    OccursIsSlice(p.text, 0, end);
    assert p.text[0..end] == Text(t);
    assert At(p.text, end) == At(suffix, 0);
    CompleteValue(p, 0, Start(err, false), 0, end, [], t);
  }

  /** Json::parse(dump(v)) is v, up to the tags, without error. */
  lemma ParseDump(mode: Strategy, lib: Libc, v: Json, err: Error)
    requires Valid(v) && Printable(lib, v) && Depth(v) <= MAX_DEPTH
    ensures var p := Source(Dumped(lib, v), mode, lib);
      Parse(p, Start(err, false)) == Result(Retag(lib, v), State(|p.text|, false, err, false))
  {
    var p := Source(Dumped(lib, v), mode, lib);
    assert p.text == Dumped(lib, v) + [];
    RoundTrip(p, v, [], err);
  }

  /** Every double in it is finite, and is printed so that it can be read back. */
  ghost predicate AllFinite(lib: Libc, v: Json)
    decreases v
  {
    match v
    case Number(d) => d.Finite? && PrintsBack(lib, d.r)
    case Array(items) => forall k :: 0 <= k < |items| ==> AllFinite(lib, items[k])
    case Object(fields) => forall k :: 0 <= k < |fields| ==> AllFinite(lib, fields[k].value)
    case _ => true
  }

  /** By the library's own operator== the value that comes back is the value that was dumped. */
  lemma {:induction false} RetagIsEqual(lib: Libc, v: Json)
    requires AllFinite(lib, v)
    ensures Equal(lib, Retag(lib, v), v)
    decreases v
  {
    match v
    case Number(d) => ReadBackIsEqual(lib, d.r);
    case Array(items) => RetagItemsEqual(lib, items);
    case Object(fields) => RetagFieldsEqual(lib, fields);
    case _ =>
  }

  lemma {:induction false} RetagItemsEqual(lib: Libc, items: seq<Json>)
    requires forall k :: 0 <= k < |items| ==> AllFinite(lib, items[k])
    ensures |RetagItems(lib, items)| == |items| && EqualItems(lib, RetagItems(lib, items), items)
    decreases items
  {
    if items != [] {
      RetagIsEqual(lib, items[0]);
      RetagItemsEqual(lib, items[1..]);
      assert RetagItems(lib, items)[1..] == RetagItems(lib, items[1..]);
    }
  }

  lemma {:induction false} RetagFieldsEqual(lib: Libc, fields: seq<Field>)
    requires forall k :: 0 <= k < |fields| ==> AllFinite(lib, fields[k].value)
    ensures |RetagFields(lib, fields)| == |fields| && EqualFields(lib, RetagFields(lib, fields), fields)
    decreases fields
  {
    if fields != [] {
      assert fields[0].value < fields[0];
      RetagIsEqual(lib, fields[0].value);
      RetagFieldsEqual(lib, fields[1..]);
      assert RetagFields(lib, fields)[1..] == RetagFields(lib, fields[1..]);
    }
  }

  /** For values whose doubles are all finite the round trip is exact under operator==. */
  lemma ParseDumpEquals(mode: Strategy, lib: Libc, v: Json, err: Error)
    requires Valid(v) && AllFinite(lib, v) && Depth(v) <= MAX_DEPTH
    ensures var r := Parse(Source(Dumped(lib, v), mode, lib), Start(err, false));
      !r.st.failed && Equal(lib, r.value, v)
  {
    FiniteIsPrintable(lib, v);
    ParseDump(mode, lib, v, err);
    RetagIsEqual(lib, v);
  }

  lemma {:induction false} FiniteIsPrintable(lib: Libc, v: Json)
    requires AllFinite(lib, v)
    ensures Printable(lib, v)
    decreases v
  {
    match v
    case Array(items) =>
      forall k | 0 <= k < |items| ensures Printable(lib, items[k]) { FiniteIsPrintable(lib, items[k]); }
    case Object(fields) =>
      forall k | 0 <= k < |fields| ensures Printable(lib, fields[k].value) {
        assert fields[k].value < fields[k];
        FiniteIsPrintable(lib, fields[k].value);
      }
    case _ =>
  }

  /** What is parsed back dumps to the same text: one round trip is enough. */
  lemma {:induction false} DumpRetag(lib: Libc, v: Json)
    requires Printable(lib, v)
    ensures Dumped(lib, Retag(lib, v)) == Dumped(lib, v)
    decreases v
  {
    match v
    case Number(d) => if d.Finite? { ReadBackIsEqual(lib, d.r); }
    case Array(items) => DumpRetagItems(lib, items, true);
    case Object(fields) => DumpRetagFields(lib, fields, true);
    case _ =>
  }

  lemma {:induction false} DumpRetagItems(lib: Libc, items: seq<Json>, first: bool)
    requires forall k :: 0 <= k < |items| ==> Printable(lib, items[k])
    ensures DumpItems(lib, RetagItems(lib, items), first) == DumpItems(lib, items, first)
    decreases items
  {
    if items != [] {
      DumpRetag(lib, items[0]);
      DumpRetagItems(lib, items[1..], false);
      assert RetagItems(lib, items)[1..] == RetagItems(lib, items[1..]);
    }
  }

  lemma {:induction false} DumpRetagFields(lib: Libc, fields: seq<Field>, first: bool)
    requires forall k :: 0 <= k < |fields| ==> Printable(lib, fields[k].value)
    ensures DumpFields(lib, RetagFields(lib, fields), first) == DumpFields(lib, fields, first)
    decreases fields
  {
    if fields != [] {
      assert fields[0].value < fields[0];
      DumpRetag(lib, fields[0].value);
      DumpRetagFields(lib, fields[1..], false);
      assert RetagFields(lib, fields)[1..] == RetagFields(lib, fields[1..]);
    }
  }
}
