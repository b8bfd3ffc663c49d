/** Which numbers of a text are read exactly: errno is never cleared, and integers after an ERANGE become doubles. */
module JsonErrno {
  import opened Bytes
  import opened JsonNumber
  import opened JsonValue
  import opened JsonGrammar
  import opened JsonParsing
  import opened JsonComplete
  import opened JsonRoundTrip

  /** The number literals of a text in reading order. */
  function Literals(t: Tree): (ls: seq<NumLit>)
    decreases t
  {
    match t
    case TNum(l) => [l]
    case TArray(es) => ElemLiterals(es)
    case TObject(ms) => MemberLiterals(ms)
    case _ => []
  }

  function ElemLiterals(es: seq<Elem>): (ls: seq<NumLit>)
    decreases es
  {
    if es == [] then [] else
    assert es[0].value < es[0];
    Literals(es[0].value) + ElemLiterals(es[1..])
  }

  function MemberLiterals(ms: seq<Member>): (ls: seq<NumLit>)
    decreases ms
  {
    if ms == [] then [] else
    assert ms[0].elem.value < ms[0].elem < ms[0];
    Literals(ms[0].elem.value) + MemberLiterals(ms[1..])
  }

  /** The literal leaves ERANGE in errno. */
  predicate Raises(lib: Libc, l: NumLit) { ReadNumber(lib, l, false).erange }

  /**
   * A literal raises ERANGE exactly if it is an integer that 64 bits do not hold, of at most twenty
   * characters, or if strtod, which then reads it, raises it.
   */
  lemma RaisesIff(lib: Libc, l: NumLit)
    requires ValidNum(l)
    ensures Raises(lib, l) <==>
      !FitsInteger(l) && ((IsWhole(l) && |NumText(l)| <= 20) || lib.strtod(NumText(l)).erange)
  {
    if IsWhole(l) {
      ShortEnough(l.digits);
      assert NumText(l) == SignText(l) + l.digits by {
        assert l.digits + ([] + []) == l.digits;
      }
      if l.minus {
        assert NumText(l)[1..] == l.digits;
      } else {
        assert NumText(l) == l.digits;
      }
    }
  }

  predicate AnyRaises(lib: Libc, ls: seq<NumLit>) { exists k :: 0 <= k < |ls| && Raises(lib, ls[k]) }

  lemma AnyRaisesConcat(lib: Libc, a: seq<NumLit>, b: seq<NumLit>)
    ensures AnyRaises(lib, a + b) <==> AnyRaises(lib, a) || AnyRaises(lib, b)
  {
    if k :| 0 <= k < |a| && Raises(lib, a[k]) { assert Raises(lib, (a + b)[k]); }
    if k :| 0 <= k < |b| && Raises(lib, b[k]) { assert Raises(lib, (a + b)[|a| + k]); }
  }

  lemma ReadErange(lib: Libc, l: NumLit, erange: bool)
    ensures ReadNumber(lib, l, erange).erange <==> erange || Raises(lib, l)
  {
  }

  /** After a text, errno is ERANGE exactly if it was before or some literal raised it: nothing clears it. */
  lemma {:induction false} ErrnoIsSticky(lib: Libc, t: Tree, erange: bool)
    ensures Eval(lib, t, erange).erange <==> erange || AnyRaises(lib, Literals(t))
    decreases t
  {
    match t
    case TNum(l) =>
      ReadErange(lib, l, erange);
      assert Raises(lib, l) <==> Raises(lib, Literals(t)[0]);
    case TArray(es) => ElemsErrno(lib, es, [], erange);
    case TObject(ms) => MembersErrno(lib, ms, [], erange);
    case _ =>
  }

  lemma {:induction false} ElemsErrno(lib: Libc, es: seq<Elem>, items: seq<Json>, erange: bool)
    ensures EvalElems(lib, es, items, erange).erange <==> erange || AnyRaises(lib, ElemLiterals(es))
    decreases es
  {
    if es != [] {
      assert es[0].value < es[0];
      ErrnoIsSticky(lib, es[0].value, erange);
      var v := Eval(lib, es[0].value, erange);
      ElemsErrno(lib, es[1..], items + [v.value], v.erange);
      AnyRaisesConcat(lib, Literals(es[0].value), ElemLiterals(es[1..]));
    }
  }

  lemma {:induction false} MembersErrno(lib: Libc, ms: seq<Member>, fields: seq<Field>, erange: bool)
    ensures EvalMembers(lib, ms, fields, erange).erange <==> erange || AnyRaises(lib, MemberLiterals(ms))
    decreases ms
  {
    if ms != [] {
      assert ms[0].elem.value < ms[0].elem < ms[0];
      ErrnoIsSticky(lib, ms[0].elem.value, erange);
      var v := Eval(lib, ms[0].elem.value, erange);
      MembersErrno(lib, ms[1..], Insert(fields, Decode(ms[0].key), v.value), v.erange);
      AnyRaisesConcat(lib, Literals(ms[0].elem.value), MemberLiterals(ms[1..]));
    }
  }

  // ---- The numbers of a text one by one ----

  /** The values of literals read one after the other, errno carried on. */
  function Readings(lib: Libc, ls: seq<NumLit>, erange: bool): (vals: seq<Json>)
    ensures |vals| == |ls|
  {
    if ls == [] then []
    else
      var r := ReadNumber(lib, ls[0], erange);
      [r.value] + Readings(lib, ls[1..], r.erange)
  }

  /** The value of a derivation whose literals, in reading order, have the values vals. */
  function Fill(t: Tree, vals: seq<Json>): (v: Json)
    requires |vals| == |Literals(t)|
    decreases t
  {
    match t
    case TNull => Nul
    case TTrue => Bool(true)
    case TFalse => Bool(false)
    case TNum(_) => vals[0]
    case TStr(cs) => Str(Decode(cs))
    case TEmptyArray(_) => Array([])
    case TArray(es) => Array(FillElems(es, [], vals))
    case TEmptyObject(_) => Object([])
    case TObject(ms) => Object(FillMembers(ms, [], vals))
  }

  function FillElems(es: seq<Elem>, items: seq<Json>, vals: seq<Json>): (r: seq<Json>)
    requires |vals| == |ElemLiterals(es)|
    decreases es
  {
    if es == [] then items
    else
      assert es[0].value < es[0];
      var n := |Literals(es[0].value)|;
      FillElems(es[1..], items + [Fill(es[0].value, vals[..n])], vals[n..])
  }

  function FillMembers(ms: seq<Member>, fields: seq<Field>, vals: seq<Json>): (r: seq<Field>)
    requires |vals| == |MemberLiterals(ms)|
    decreases ms
  {
    if ms == [] then fields
    else
      assert ms[0].elem.value < ms[0].elem < ms[0];
      var n := |Literals(ms[0].elem.value)|;
      FillMembers(ms[1..], Insert(fields, Decode(ms[0].key), Fill(ms[0].elem.value, vals[..n])), vals[n..])
  }

  lemma {:induction false} ReadingsConcat(lib: Libc, a: seq<NumLit>, b: seq<NumLit>, erange: bool)
    ensures Readings(lib, a + b, erange) == Readings(lib, a, erange) + Readings(lib, b, erange || AnyRaises(lib, a))
  {
    hide ReadNumber, AnyRaises, Raises;
    NoneRaise(lib);
    if a == [] {
      assert a + b == b;
    } else {
      var r := ReadNumber(lib, a[0], erange);
      ReadErange(lib, a[0], erange);
      AnyRaisesConcat(lib, [a[0]], a[1..]);
      AnyRaisesOne(lib, a[0]);
      assert a == [a[0]] + a[1..] && (a + b)[1..] == a[1..] + b;
      ReadingsConcat(lib, a[1..], b, r.erange);
    }
  }

  lemma NoneRaise(lib: Libc)
    ensures !AnyRaises(lib, [])
  {
  }

  lemma AnyRaisesOne(lib: Libc, l: NumLit)
    ensures AnyRaises(lib, [l]) <==> Raises(lib, l)
  {
    if Raises(lib, l) { assert Raises(lib, [l][0]); }
  }

  /** The numbers of a value are its literals, read from left to right with errno carried from one to the next. */
  lemma {:induction false} EvalIsFill(lib: Libc, t: Tree, erange: bool)
    ensures Eval(lib, t, erange).value == Fill(t, Readings(lib, Literals(t), erange))
    decreases t
  {
    match t
    case TArray(es) => ElemsAreFill(lib, es, [], erange);
    case TObject(ms) => MembersAreFill(lib, ms, [], erange);
    case _ =>
  }

  lemma {:induction false} ElemsAreFill(lib: Libc, es: seq<Elem>, items: seq<Json>, erange: bool)
    ensures EvalElems(lib, es, items, erange).items == FillElems(es, items, Readings(lib, ElemLiterals(es), erange))
    decreases es
  {
    if es != [] {
      assert es[0].value < es[0];
      var ls, rest := Literals(es[0].value), ElemLiterals(es[1..]);
      var v := Eval(lib, es[0].value, erange);
      EvalIsFill(lib, es[0].value, erange);
      ErrnoIsSticky(lib, es[0].value, erange);
      ElemsAreFill(lib, es[1..], items + [v.value], v.erange);
      ReadingsConcat(lib, ls, rest, erange);
      Halves(Readings(lib, ls, erange), Readings(lib, rest, v.erange));
    }
  }

  lemma {:induction false} MembersAreFill(lib: Libc, ms: seq<Member>, fields: seq<Field>, erange: bool)
    ensures EvalMembers(lib, ms, fields, erange).fields == FillMembers(ms, fields, Readings(lib, MemberLiterals(ms), erange))
    decreases ms
  {
    if ms != [] {
      assert ms[0].elem.value < ms[0].elem < ms[0];
      var ls, rest := Literals(ms[0].elem.value), MemberLiterals(ms[1..]);
      var v := Eval(lib, ms[0].elem.value, erange);
      EvalIsFill(lib, ms[0].elem.value, erange);
      ErrnoIsSticky(lib, ms[0].elem.value, erange);
      MembersAreFill(lib, ms[1..], Insert(fields, Decode(ms[0].key), v.value), v.erange);
      ReadingsConcat(lib, ls, rest, erange);
      Halves(Readings(lib, ls, erange), Readings(lib, rest, v.erange));
    }
  }

  lemma Halves(a: seq<Json>, b: seq<Json>)
    ensures (a + b)[..|a|] == a && (a + b)[|a|..] == b
  {
  }

  // ---- Poisoned integers ----

  /** Exact if 64 bits hold it and errno is clear, and otherwise what strtod makes of it. */
  function ReadAs(lib: Libc, l: NumLit, poisoned: bool): (v: Json) {
    if FitsInteger(l) && !poisoned then Exactly(l) else Number(lib.strtod(NumText(l)).value)
  }

  /** The j-th literal comes when errno is ERANGE: from before the text, or raised by a literal before it. */
  ghost predicate Poisoned(lib: Libc, ls: seq<NumLit>, erange: bool, j: nat)
    requires j < |ls|
  {
    erange || AnyRaises(lib, ls[..j])
  }

  lemma {:induction false} ReadingAt(lib: Libc, ls: seq<NumLit>, erange: bool, j: nat)
    requires j < |ls|
    ensures Readings(lib, ls, erange)[j] == ReadNumber(lib, ls[j], Poisoned(lib, ls, erange, j)).value
    decreases j
  {
    hide ReadNumber, AnyRaises, Raises;
    if j == 0 {
      assert !AnyRaises(lib, ls[..0]) by { NoneRaise(lib); }
    } else {
      var rest := ls[1..];
      ReadErange(lib, ls[0], erange);
      ReadingAt(lib, rest, ReadNumber(lib, ls[0], erange).erange, j - 1);
      assert ls[..j] == [ls[0]] + rest[..j - 1];
      AnyRaisesConcat(lib, [ls[0]], rest[..j - 1]);
      AnyRaisesOne(lib, ls[0]);
    }
  }

  lemma PoisonedReading(lib: Libc, l: NumLit, erange: bool)
    requires ValidNum(l)
    ensures ReadNumber(lib, l, erange).value == ReadAs(lib, l, erange)
  {
    ExactIntegers(lib, l);
  }

  lemma {:induction false} LiteralsAreValid(mode: Strategy, t: Tree)
    requires ValidTree(mode, t)
    ensures forall l :: l in Literals(t) ==> ValidNum(l)
    decreases t
  {
    match t
    case TArray(es) => ElemLiteralsAreValid(mode, es);
    case TObject(ms) => MemberLiteralsAreValid(mode, ms);
    case _ =>
  }

  lemma {:induction false} ElemLiteralsAreValid(mode: Strategy, es: seq<Elem>)
    requires forall k :: 0 <= k < |es| ==> ValidElem(mode, es[k])
    ensures forall l :: l in ElemLiterals(es) ==> ValidNum(l)
    decreases es
  {
    if es != [] {
      assert es[0].value < es[0];
      LiteralsAreValid(mode, es[0].value);
      ElemLiteralsAreValid(mode, es[1..]);
    }
  }

  lemma {:induction false} MemberLiteralsAreValid(mode: Strategy, ms: seq<Member>)
    requires forall k :: 0 <= k < |ms| ==> ValidMember(mode, ms[k])
    ensures forall l :: l in MemberLiterals(ms) ==> ValidNum(l)
    decreases ms
  {
    if ms != [] {
      assert ms[0].elem.value < ms[0].elem < ms[0] && ValidMember(mode, ms[0]) && ValidElem(mode, ms[0].elem);
      LiteralsAreValid(mode, ms[0].elem.value);
      MemberLiteralsAreValid(mode, ms[1..]);
    }
  }

  /**
   * The value parsed has in the place of each literal its exact integer, if 64 bits hold it and no
   * literal before it raised ERANGE, and otherwise what strtod reads. So a text has all its 64-bit
   * integers read exactly if and only if none of them comes when errno is ERANGE.
   */
  lemma PoisonedIntegers(p: Source, err: Error, erange: bool, d: Document)
    requires Derives(p.strategy, p.text, d)
    ensures var ls := Literals(d.value);
      var vals := Readings(p.lib, ls, erange);
      && Parse(p, Start(err, erange)).value == Fill(d.value, vals)
      && (forall j :: 0 <= j < |ls| ==>
           vals[j] == ReadAs(p.lib, ls[j], Poisoned(p.lib, ls, erange, j)))
      && ((forall j :: 0 <= j < |ls| && FitsInteger(ls[j]) ==> vals[j] == Exactly(ls[j]))
          <==> forall j :: 0 <= j < |ls| && FitsInteger(ls[j]) ==> !Poisoned(p.lib, ls, erange, j))
  {
    var ls := Literals(d.value);
    Complete(p, err, erange, d);
    EvalIsFill(p.lib, d.value, erange);
    LiteralsAreValid(p.strategy, d.value);
    forall j | 0 <= j < |ls|
      ensures Readings(p.lib, ls, erange)[j] == ReadAs(p.lib, ls[j], Poisoned(p.lib, ls, erange, j))
    {
      ReadingAt(p.lib, ls, erange, j);
      PoisonedReading(p.lib, ls[j], Poisoned(p.lib, ls, erange, j));
    }
  }

  // ---- A stale errno ----

  /** [n, m] */
  function PairText(n: nat, m: nat): (s: bytes) {
    [LBRACKET] + (ToDecimal(n) + ([COMMA] + ([SPACE] + (ToDecimal(m) + [RBRACKET]))))
  }

  function Plain(n: nat): (l: NumLit)
    ensures ValidNum(l)
  {
    NumLit(false, ToDecimal(n), [], NoExp)
  }

  function PairTree(n: nat, m: nat): Tree { TArray([Elem([], TNum(Plain(n)), []), Elem([SPACE], TNum(Plain(m)), [])]) }

  /**
   * Not every integer is exact: parsing [18446744073709551616, 1], or any other pair of an integer
   * of twenty digits beyond 64 bits and one within them, gives the second as a double. Parsing the
   * second alone gives an integer.
   */
  lemma StaleErrno(mode: Strategy, lib: Libc, err: Error, n: nat, m: nat)
    requires m < 0x1_0000_0000_0000_0000 <= n < 100_000_000_000_000_000_000
    ensures Parse(Source(PairText(n, m), mode, lib), Start(err, false)).value
      == Array([Number(lib.strtod(ToDecimal(n)).value), Number(lib.strtod(ToDecimal(m)).value)])
    ensures Parse(Source(ToDecimal(m), mode, lib), Start(err, false)).value == UInt64(m)
  {
    hide Parse, Eval, ReadNumber, Text, Height;
    PairDerives(mode, n, m);
    Complete(Source(PairText(n, m), mode, lib), err, false, Document([], PairTree(n, m), []));
    TwoNumbers(lib, n, m);
    PlainDerives(mode, m);
    Complete(Source(ToDecimal(m), mode, lib), err, false, Document([], TNum(Plain(m)), []));
    NumberAlone(lib, m);
  }

  lemma PlainText(n: nat)
    ensures NumText(Plain(n)) == ToDecimal(n)
  {
    hide ToDecimal;
    var digits := ToDecimal(n);
    assert [] + (digits + ([] + [])) == digits;
  }

  lemma PairDerives(mode: Strategy, n: nat, m: nat)
    ensures Derives(mode, PairText(n, m), Document([], PairTree(n, m), []))
  {
    hide ToDecimal, NumText;
    var t := PairTree(n, m);
    PlainText(n);
    PlainText(m);
    TwoElems(t.elems);
    assert [SPACE][1..] == [];
    assert ValidElem(mode, t.elems[0]) && ValidElem(mode, t.elems[1]);
    assert Text(t) == [LBRACKET] + ([] + (ElemsText(t.elems) + [RBRACKET]));
    PairIsText(ToDecimal(n), ToDecimal(m));
  }

  lemma PairIsText(a: bytes, b: bytes)
    ensures [] + (([LBRACKET] + ([] + ((a + ([COMMA] + ([SPACE] + b))) + [RBRACKET]))) + [])
      == [LBRACKET] + (a + ([COMMA] + ([SPACE] + (b + [RBRACKET]))))
  {
  }

  lemma TwoElems(es: seq<Elem>)
    requires |es| == 2 && es[0].value.TNum? && es[1].value.TNum? && es[0].post == es[1].post == [] && es[1].pre == [SPACE]
    ensures ElemsText(es) == NumText(es[0].value.lit) + ([COMMA] + ([SPACE] + NumText(es[1].value.lit)))
    ensures ElemsHeight(es) == 0
  {
    hide NumText;
    var last := [es[1]];
    assert es[1..] == last && last[1..] == [];
    assert ElemsText(last) == NumText(es[1].value.lit) + ([] + []);
    assert ElemsText(es) == NumText(es[0].value.lit) + ([] + ([COMMA] + ([SPACE] + ElemsText(last))));
    assert ElemsHeight(last) == 0;
  }

  lemma PlainDerives(mode: Strategy, n: nat)
    ensures Derives(mode, ToDecimal(n), Document([], TNum(Plain(n)), []))
  {
    hide ToDecimal;
    PlainText(n);
  }

  lemma NumberAlone(lib: Libc, n: nat)
    requires n < 0x1_0000_0000_0000_0000
    ensures Eval(lib, TNum(Plain(n)), false) == Reading(UInt64(n), false)
  {
    ExactIntegers(lib, Plain(n));
  }

  /** The first number raises ERANGE, and the second one is poisoned by it. */
  lemma TwoNumbers(lib: Libc, n: nat, m: nat)
    requires 0x1_0000_0000_0000_0000 <= n < 100_000_000_000_000_000_000
    ensures Eval(lib, PairTree(n, m), false).value
      == Array([Number(lib.strtod(ToDecimal(n)).value), Number(lib.strtod(ToDecimal(m)).value)])
  {
    hide ReadNumber, ToDecimal;
    var t, ls := PairTree(n, m), [Plain(n), Plain(m)];
    var vals := Readings(lib, ls, false);
    LiteralsOfTwo(t.elems);
    EvalIsFill(lib, t, false);
    ReadingAt(lib, ls, false, 0);
    ReadingAt(lib, ls, false, 1);
    PairIsPoisoned(lib, n, m);
    PlainText(n);
    PlainText(m);
    PoisonedReading(lib, Plain(n), false);
    PoisonedReading(lib, Plain(m), true);
    FillPair(t.elems, vals);
  }

  /**
   * An integer of more than twenty digits goes to strtod, and errno stays clear: after it the second
   * number of such a pair is exact.
   */
  lemma LongInteger(mode: Strategy, lib: Libc, err: Error, n: nat, m: nat)
    requires n >= 100_000_000_000_000_000_000 && m < 0x1_0000_0000_0000_0000 && !lib.strtod(ToDecimal(n)).erange
    ensures Parse(Source(PairText(n, m), mode, lib), Start(err, false)).value
      == Array([Number(lib.strtod(ToDecimal(n)).value), UInt64(m)])
  {
    hide Parse, Eval, ReadNumber, Text, Height, Poisoned, ToDecimal;
    PairDerives(mode, n, m);
    Complete(Source(PairText(n, m), mode, lib), err, false, Document([], PairTree(n, m), []));
    var t, ls := PairTree(n, m), [Plain(n), Plain(m)];
    var vals := Readings(lib, ls, false);
    LiteralsOfTwo(t.elems);
    EvalIsFill(lib, t, false);
    ReadingAt(lib, ls, false, 0);
    ReadingAt(lib, ls, false, 1);
    LongIsNotPoisoned(lib, n, m);
    PlainText(n);
    PoisonedReading(lib, Plain(n), false);
    PoisonedReading(lib, Plain(m), false);
    FillPair(t.elems, vals);
  }

  lemma LongIsNotPoisoned(lib: Libc, n: nat, m: nat)
    requires n >= 100_000_000_000_000_000_000 && m < 0x1_0000_0000_0000_0000 && !lib.strtod(ToDecimal(n)).erange
    ensures !FitsInteger(Plain(n)) && FitsInteger(Plain(m)) && Exactly(Plain(m)) == UInt64(m)
    ensures var ls := [Plain(n), Plain(m)]; !Poisoned(lib, ls, false, 0) && !Poisoned(lib, ls, false, 1)
  {
    hide ReadNumber;
    PlainText(n);
    DecimalBounds(ToDecimal(n));
    Powers();
    if |ToDecimal(n)| <= 20 { Pow10Monotone(|ToDecimal(n)|, 20); }
    RaisesIff(lib, Plain(n));
    assert [Plain(n), Plain(m)][..1] == [Plain(n)];
    AnyRaisesOne(lib, Plain(n));
  }

  lemma FillPair(es: seq<Elem>, vals: seq<Json>)
    requires |es| == 2 && es[0].value.TNum? && es[1].value.TNum? && |vals| == |ElemLiterals(es)| == 2
    ensures FillElems(es, [], vals) == [vals[0], vals[1]]
  {
    LiteralsOfTwo(es);
    var last, rest := [es[1]], vals[1..];
    assert es[1..] == last && last[1..] == [];
    assert [] + [vals[0]] == [vals[0]] && [vals[0]] + [vals[1]] == [vals[0], vals[1]];
    assert FillElems(last, [vals[0]], rest) == [vals[0]] + [rest[..1][0]];
    assert FillElems(es, [], vals) == FillElems(last, [vals[0]], rest);
  }

  lemma LiteralsOfTwo(es: seq<Elem>)
    requires |es| == 2 && es[0].value.TNum? && es[1].value.TNum?
    ensures ElemLiterals(es) == [es[0].value.lit, es[1].value.lit] && ElemLiterals([es[1]]) == [es[1].value.lit]
  {
    assert es[1..] == [es[1]] && [es[1]][1..] == [];
    assert ElemLiterals([es[1]]) == Literals(es[1].value) + [];
    assert ElemLiterals(es) == Literals(es[0].value) + ElemLiterals([es[1]]);
  }

  lemma PairIsPoisoned(lib: Libc, n: nat, m: nat)
    requires 0x1_0000_0000_0000_0000 <= n < 100_000_000_000_000_000_000
    ensures !FitsInteger(Plain(n))
    ensures var ls := [Plain(n), Plain(m)]; !Poisoned(lib, ls, false, 0) && Poisoned(lib, ls, false, 1)
  {
    hide Raises, ToDecimal;
    var ls := [Plain(n), Plain(m)];
    OverflowRaises(lib, n);
    assert ls[..0] == [] && ls[..1] == [Plain(n)];
    assert Raises(lib, ls[..1][0]);
  }

  lemma OverflowRaises(lib: Libc, n: nat)
    requires 0x1_0000_0000_0000_0000 <= n < 100_000_000_000_000_000_000
    ensures !FitsInteger(Plain(n)) && Raises(lib, Plain(n))
  {
    hide ToDecimal, NumText;
    var digits := ToDecimal(n);
    PlainText(n);
    DecimalBounds(digits);
    Powers();
    if |digits| > 20 { Pow10Monotone(20, |digits| - 1); }
  }
}
