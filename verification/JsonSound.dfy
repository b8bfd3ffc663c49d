/** Soundness: what the parser accepts has a derivation, and the value returned is the derived one. */
module JsonSound {
  import opened Folding
  import opened Bytes
  import opened JsonNumber
  import opened JsonValue
  import opened JsonGrammar
  import opened JsonParsing
  import opened JsonGaps
  import opened JsonComplete

  // ---- Strings ----

  lemma Single(s: bytes, i: nat)
    requires i < |s|
    ensures Occurs(s, i, i + 1, [s[i]])
  {
    OccursIsSlice(s, i, i + 1);
    assert s[i..i + 1] == [s[i]];
  }

  /** One character of a literal that is read, and where it ends. */
  lemma NextChar(s: bytes, i: nat) returns (j: nat, c: Char)
    requires i < |s| && s[i] != QUOTE && LexString(s, i).Lexed?
    ensures i < j <= |s| && s[i..j] == CharText(c)
    ensures LexString(s, i) == Prepend([c], LexString(s, j)) && LexString(s, j).Lexed?
  {
    if s[i] != BACKSLASH {
      j, c := i + 1, Unescaped(s[i]);
    } else if s[i + 1] == LOWER_U {
      j, c := i + 6, Hex(Substr(s, i + 2, 4));
    } else {
      j, c := i + 2, Short(s[i + 1]);
    }
  }

  lemma {:induction false} CharsFrom(s: bytes, i: nat)
    requires i <= |s| && LexString(s, i).Lexed?
    ensures var r := LexString(s, i);
      (Occurs(s, i, r.end - 1, CharsText(r.chars)) && s[r.end - 1] == QUOTE)
    decreases |s| - i
  {
    if s[i] != QUOTE {
      var j, c := NextChar(s, i);
      CharsFrom(s, j);
      CharFrom(s, i, j, c);
    }
  }

  lemma CharFrom(s: bytes, i: nat, j: nat, c: Char)
    requires i < j <= |s| && s[i..j] == CharText(c)
    requires LexString(s, i) == Prepend([c], LexString(s, j)) && LexString(s, j).Lexed?
    requires var r := LexString(s, j); Occurs(s, j, r.end - 1, CharsText(r.chars))
    ensures var r := LexString(s, i); Occurs(s, i, r.end - 1, CharsText(r.chars))
  {
    var r := LexString(s, j);
    OccursIsSlice(s, i, j);
    Join(s, i, j, r.end - 1, CharText(c), CharsText(r.chars));
    assert ([c] + r.chars)[1..] == r.chars;
  }

  lemma StringFrom(s: bytes, st: State) returns (cs: seq<Char>)
    requires 0 < st.i <= |s| && s[st.i - 1] == QUOTE && !ParseString(s, st).st.failed
    ensures ValidChars(cs) && Occurs(s, st.i - 1, ParseString(s, st).st.i, StringText(cs))
  {
    var r := LexString(s, st.i);
    cs := r.chars;
    LexedIsValid(s, st.i);
    CharsFrom(s, st.i);
    Single(s, st.i - 1);
    Single(s, r.end - 1);
    JoinQuoted(s, st.i - 1, st.i, r.end - 1, r.end, CharsText(cs));
  }

  lemma JoinQuoted(s: bytes, i: nat, j: nat, k: nat, end: nat, chars: bytes)
    requires Occurs(s, i, j, [QUOTE]) && Occurs(s, j, k, chars) && Occurs(s, k, end, [QUOTE])
    ensures Occurs(s, i, end, [QUOTE] + (chars + [QUOTE]))
  {
    Join(s, j, k, end, chars, [QUOTE]);
    Join(s, i, j, end, [QUOTE], chars + [QUOTE]);
  }

  // ---- Numbers ----

  lemma DigitsFrom(s: bytes, i: nat) returns (j: nat, digits: bytes)
    requires i < |s| && IsDigit(s[i])
    ensures i < j <= |s| && digits == s[i..j] && AllDigits(digits) && Occurs(s, i, j, digits) && !IsDigit(At(s, j))
    ensures DigitsEnd(s, i) == j && DigitsEnd(s, i + 1) == j
  {
    DigitsEndStops(s, i);
    j := DigitsEnd(s, i);
    digits := s[i..j];
    OccursIsSlice(s, i, j);
  }

  lemma SignFrom(s: bytes, i: nat) returns (j: nat, sign: bytes)
    requires i <= |s|
    ensures Occurs(s, i, j, sign) && (sign == [] || sign == [PLUS] || sign == [MINUS])
    ensures j == if At(s, i) == PLUS || At(s, i) == MINUS then i + 1 else i
  {
    j, sign := i, [];
    if At(s, i) == PLUS || At(s, i) == MINUS {
      j, sign := i + 1, [s[i]];
      Single(s, i);
    }
  }

  lemma ExponentFrom(p: Source, st: State, start: nat) returns (end: nat, e: Exponent)
    requires start <= st.i <= |p.text| && !st.failed && !ParseExponent(p, st, start).st.failed && !IsDigit(At(p.text, st.i))
    ensures var l := NumLit(false, [ZERO], [], e);
      ValidNum(l) && Occurs(p.text, st.i, end, ExpText(l)) && ParseExponent(p, st, start).st.i == end
    ensures !IsDigit(At(p.text, end)) && (e == NoExp ==> At(p.text, end) != LOWER_E && At(p.text, end) != UPPER_E)
    ensures e == NoExp ==> end == st.i
  {
    hide FinishNumber;
    var s, i := p.text, st.i;
    if At(s, i) != LOWER_E && At(s, i) != UPPER_E {
      end, e := i, NoExp;
    } else {
      var j, sign := SignFrom(s, i + 1);
      var digits;
      end, digits := DigitsFrom(s, j);
      e := Exp(s[i], sign, digits);
      Single(s, i);
      Join(s, i + 1, j, end, sign, digits);
      Join(s, i, i + 1, end, [s[i]], sign + digits);
    }
  }

  /** Fraction and exponent, after an integer part that ended at st.i. */
  lemma FractionFrom(p: Source, st: State, start: nat) returns (mid: nat, end: nat, frac: bytes, e: Exponent)
    requires start < st.i <= |p.text| && !st.failed && !ParseAfterInteger(p, st, start).st.failed && !IsDigit(At(p.text, st.i))
    ensures var l := NumLit(false, [ZERO], frac, e);
      ValidNum(l) && Occurs(p.text, st.i, mid, FracText(l)) && Occurs(p.text, mid, end, ExpText(l))
      && ParseAfterInteger(p, st, start).st.i == end && NumEnds(l, At(p.text, end))
  {
    hide FinishNumber, ReadInteger, ParseExponent;
    var s, i := p.text, st.i;
    if At(s, i) == DOT {
      mid, frac := DigitsFrom(s, i + 1);
      Single(s, i);
      Join(s, i, i + 1, mid, [DOT], frac);
      end, e := ExponentFrom(p, st.(i := mid), start);
    } else {
      mid, frac := i, [];
      if At(s, i) == LOWER_E || At(s, i) == UPPER_E {
        end, e := ExponentFrom(p, st, start);
      } else {
        end, e := i, NoExp;
      }
    }
  }

  lemma IntegerFrom(p: Source, st: State) returns (i: nat, j: nat, digits: bytes)
    requires st.i < |p.text| && !st.failed && !ParseNumber(p, st).st.failed
    ensures st.i <= i < j <= |p.text| && AllDigits(digits) && digits != [] && (digits[0] == ZERO ==> |digits| == 1)
    ensures i == if p.text[st.i] == MINUS then st.i + 1 else st.i
    ensures Occurs(p.text, i, j, digits) && !IsDigit(At(p.text, j))
    ensures ParseNumber(p, st) == ParseAfterInteger(p, st.(i := j), st.i)
  {
    hide ParseAfterInteger;
    var s := p.text;
    i := if s[st.i] == MINUS then st.i + 1 else st.i;
    j, digits := DigitsFrom(s, i);
    if s[i] == ZERO {
      assert DigitsEnd(s, i + 1) == i + 1;
    }
  }

  lemma NumberFrom(p: Source, st: State) returns (l: NumLit)
    requires st.i < |p.text| && !st.failed && !ParseNumber(p, st).st.failed
    ensures ValidNum(l) && Occurs(p.text, st.i, ParseNumber(p, st).st.i, NumText(l))
    ensures NumEnds(l, At(p.text, ParseNumber(p, st).st.i))
  {
    var i, j, digits := IntegerFrom(p, st);
    var mid, end, frac, e := FractionFrom(p, st.(i := j), st.i);
    l := NumLit(p.text[st.i] == MINUS, digits, frac, e);
    if i == st.i {
      assert p.text[st.i..i] == [] == SignText(l);
    } else {
      assert p.text[st.i..i] == [MINUS] == SignText(l);
    }
    OccursIsSlice(p.text, st.i, i);
    JoinNumber(p.text, st.i, i, j, mid, end, SignText(l), digits, FracText(l), ExpText(l));
  }

  lemma JoinNumber(s: bytes, i: nat, a: nat, b: nat, c: nat, end: nat, sign: bytes, digits: bytes, frac: bytes, exp: bytes)
    requires Occurs(s, i, a, sign) && Occurs(s, a, b, digits) && Occurs(s, b, c, frac) && Occurs(s, c, end, exp)
    ensures Occurs(s, i, end, sign + (digits + (frac + exp)))
  {
    Join(s, b, c, end, frac, exp);
    Join(s, a, b, end, digits, frac + exp);
    Join(s, i, a, end, sign, digits + (frac + exp));
  }

  lemma WordFrom(p: Source, st: State, word: bytes, value: Json)
    requires 0 < st.i <= |p.text| && !st.failed && !Expect(p, st, word, value).st.failed
    ensures Occurs(p.text, st.i - 1, Expect(p, st, word, value).st.i, word)
  {
    OccursIsSlice(p.text, st.i - 1, st.i - 1 + |word|);
  }

  // ---- Values ----

  lemma {:induction false} ValueFrom(p: Source, depth: nat, st: State, r: Result) returns (i: nat, ws: bytes, t: Tree)
    requires Ready(p, st) && Yields(p, depth, st, r) && !r.st.failed
    ensures IsGap(p.strategy, ws) && ValidTree(p.strategy, t) && depth + Height(t) <= MAX_DEPTH
    ensures i < |p.text| && NoGap(p.strategy, p.text[i])
    ensures Occurs(p.text, st.i, i, ws) && Occurs(p.text, i, r.st.i, Text(t)) && Ready(p, r.st) && st.i < r.st.i
    ensures ValueEnds(t, At(p.text, r.st.i))
    decreases MAX_DEPTH + 1 - depth, 4, 0
  {
    i, ws := ValueToken(p, depth, st, r);
    var c := p.text[i];
    if c == LBRACE || c == LBRACKET {
      var k;
      k, t := ContainerFrom(p, depth, st, i, r);
      CloseContainer(p, i, k, t, r.st);
    } else {
      t := LeafFrom(p, depth, st, i, r);
    }
  }

  lemma ValueToken(p: Source, depth: nat, st: State, r: Result) returns (i: nat, ws: bytes)
    requires Ready(p, st) && Yields(p, depth, st, r) && (!r.st.failed || HasItems(r.value))
    ensures depth <= MAX_DEPTH && r.st.i <= |p.text|
    ensures IsGap(p.strategy, ws) && Occurs(p.text, st.i, i, ws) && i < |p.text| && NoGap(p.strategy, p.text[i])
    ensures GetNextToken(p, st) == Token(p.text[i], st.(i := i + 1))
    ensures !r.st.failed ==> st.i < r.st.i
    ensures r.st.failed ==> p.text[i] == LBRACE || p.text[i] == LBRACKET
  {
    hide ParseNumber, ParseString, Expect, ParseElements, ParseMembers, ConsumeGarbage, IsGap;
    assert Unfold(0);
    i, ws := TokenFrom(p, st);
  }

  lemma LeafFrom(p: Source, depth: nat, st: State, i: nat, r: Result) returns (t: Tree)
    requires Ready(p, st) && depth <= MAX_DEPTH && Yields(p, depth, st, r) && !r.st.failed && i < |p.text|
    requires GetNextToken(p, st) == Token(p.text[i], st.(i := i + 1)) && p.text[i] != LBRACE && p.text[i] != LBRACKET
    ensures ValidTree(p.strategy, t) && Height(t) == 0 && Occurs(p.text, i, r.st.i, Text(t))
    ensures ValueEnds(t, At(p.text, r.st.i))
  {
    hide GetNextToken, ParseNumber, ParseString, Expect, ParseMembers, ParseElements, NumText, ValidNum, CharsText;
    assert Unfold(0);
    var c, st1 := p.text[i], st.(i := i + 1);
    if c == MINUS || IsDigit(c) {
      var l := NumberFrom(p, st.(i := i));
      t := TNum(l);
    } else if c == QUOTE {
      var cs := StringFrom(p.text, st1);
      t := TStr(cs);
    } else if c == LOWER_T {
      WordFrom(p, st1, TRUE_TEXT, Bool(true));
      t := TTrue;
    } else if c == LOWER_F {
      WordFrom(p, st1, FALSE_TEXT, Bool(false));
      t := TFalse;
    } else {
      WordFrom(p, st1, NULL_TEXT, Nul);
      t := TNull;
    }
  }

  // ---- Containers ----

  /**
   * A container that the parser returns, be it after a comment that broke off before its closing
   * bracket: its text stands from i to k, and from k on the closing bracket is read.
   */
  lemma {:induction false} ContainerFrom(p: Source, depth: nat, st: State, i: nat, r: Result) returns (k: nat, t: Tree)
    requires Ready(p, st) && depth <= MAX_DEPTH && Yields(p, depth, st, r) && (!r.st.failed || HasItems(r.value))
    requires i < |p.text| && GetNextToken(p, st) == Token(p.text[i], st.(i := i + 1))
    requires p.text[i] == LBRACE || p.text[i] == LBRACKET
    ensures IsContainer(t) && ValidTree(p.strategy, t) && depth + Height(t) <= MAX_DEPTH
    ensures Occurs(p.text, i, k, OpenText(p.strategy, t)) && ClosesClean(p, k, st.err, Bracket(t), r.st)
    decreases MAX_DEPTH + 1 - depth, 3, 0
  {
    if p.text[i] == LBRACE {
      k, t := ObjectFrom(p, depth, st, i, r);
    } else {
      k, t := ArrayFrom(p, depth, st, i, r);
    }
  }

  /** From k, not failed, the closing bracket is read; if without failure then it stands at k. */
  ghost predicate ClosesClean(p: Source, k: nat, err: Error, ch: byte, close: State) {
    && Closes(p, State(k, false, err, close.erange), ch, close)
    && (!close.failed ==> k < |p.text| && p.text[k] == ch && close == State(k + 1, false, err, close.erange))
  }

  /** Up to its closing bracket without failure a container is whole. */
  lemma CloseContainer(p: Source, i: nat, k: nat, t: Tree, close: State)
    requires IsContainer(t) && ValidTree(p.strategy, t) && Occurs(p.text, i, k, OpenText(p.strategy, t))
    requires k < |p.text| && p.text[k] == Bracket(t)
    ensures Occurs(p.text, i, k + 1, Text(t))
  {
    TextIsClosed(p.strategy, t);
    Single(p.text, k);
    Join(p.text, i, k, k + 1, OpenText(p.strategy, t), [Bracket(t)]);
  }

  /** The gap before a closing bracket that is read without failure, or none. */
  lemma CloseFrom(p: Source, st: State, ch: byte, close: State) returns (k: nat, g: bytes)
    requires Ready(p, st) && GetNextToken(p, st) == Token(ch, close) && ch != 0
    ensures IsGap(p.strategy, g) && Occurs(p.text, st.i, k, g) && k <= |p.text|
    ensures ClosesClean(p, k, st.err, ch, close) && close.erange == st.erange
  {
    if close.failed {
      k, g := st.i, [];
    } else {
      k, g := TokenFrom(p, st);
      GarbageStays(p, st.(i := k));
    }
  }

  // ---- Arrays ----

  lemma {:induction false} ArrayFrom(p: Source, depth: nat, st: State, i: nat, r: Result) returns (k: nat, t: Tree)
    requires Ready(p, st) && depth <= MAX_DEPTH && Yields(p, depth, st, r) && (!r.st.failed || HasItems(r.value))
    requires i < |p.text| && GetNextToken(p, st) == Token(p.text[i], st.(i := i + 1)) && p.text[i] == LBRACKET
    ensures (t.TArray? || t.TEmptyArray?) && ValidTree(p.strategy, t) && depth + Height(t) <= MAX_DEPTH
    ensures Occurs(p.text, i, k, OpenText(p.strategy, t)) && ClosesClean(p, k, st.err, RBRACKET, r.st)
    decreases MAX_DEPTH + 1 - depth, 2, 0
  {
    var st1 := st.(i := i + 1);
    ArrayCase(p, depth, st, st1, r);
    Single(p.text, i);
    if GetNextToken(p, st1).ch == RBRACKET {
      var g;
      k, g := CloseFrom(p, st1, RBRACKET, r.st);
      t := TEmptyArray(g);
      Join(p.text, i, i + 1, k, [LBRACKET], g);
    } else {
      var es;
      k, es := MoreElemsFrom(p, depth, st1, GetNextToken(p, st1), [], r, |p.text| - i);
      t := TArray(es);
      UnfoldElems(p.strategy, p.text, i, k, es, MAX_DEPTH - depth - 1);
    }
  }

  lemma UnfoldElems(mode: Strategy, s: bytes, i: nat, k: nat, es: seq<Elem>, limit: int)
    requires i < |s| && s[i] == LBRACKET && ElemsFollow(mode, s, i + 1, k, es, limit)
    ensures ValidTree(mode, TArray(es)) && Height(TArray(es)) <= limit + 1 && Occurs(s, i, k, OpenText(mode, TArray(es)))
  {
    assert Unfold(0);
    Single(s, i);
    Join(s, i, i + 1, k, [LBRACKET], es[0].pre + ElemsText(es));
  }

  lemma ArrayCase(p: Source, depth: nat, st: State, st1: State, r: Result)
    requires depth <= MAX_DEPTH && Yields(p, depth, st, r) && (!r.st.failed || HasItems(r.value)) && !st1.failed
    requires GetNextToken(p, st) == Token(LBRACKET, st1) && st1.i <= |p.text|
    ensures var t := GetNextToken(p, st1);
      if t.ch == RBRACKET then r == Result(Array([]), t.st)
      else !t.st.failed && ElementsYield(p, depth, t.st, [], r) && r.value.Array?
  {
    hide ParseNumber, ParseString, Expect, ParseElements, ParseMembers, ConsumeGarbage;
    assert Unfold(0);
    var t := GetNextToken(p, st1);
    if t.ch != RBRACKET { ElementsNeedToken(p, depth, t.st, []); }
  }

  /** The element loop from a failed state returns null, and otherwise an array unless it fails. */
  lemma {:induction false} ElementsNeedToken(p: Source, depth: nat, st: State, data: seq<Json>)
    requires 0 < st.i <= |p.text| && depth <= MAX_DEPTH
    requires var r := ParseElements(p, depth, st, data); !r.st.failed || HasItems(r.value)
    ensures !st.failed && ParseElements(p, depth, st, data).value.Array?
    decreases |p.text| - st.i
  {
    var v := ParseJson(p, depth + 1, st.(i := st.i - 1));
    var t := GetNextToken(p, v.st);
    if t.ch == COMMA {
      ElementsNeedToken(p, depth, GetNextToken(p, t.st).st, data + [v.value]);
    }
  }

  /** One round of the element loop, read backwards. */
  lemma ElementRound(p: Source, depth: nat, st: State, data: seq<Json>, r: Result) returns (v: Result, t: Token)
    requires ElementsYield(p, depth, st, data, r) && r.value.Array? && !st.failed
    ensures Yields(p, depth + 1, st.(i := st.i - 1), v) && !v.st.failed && v.st.i <= |p.text| && v.st.err == st.err
    ensures t == GetNextToken(p, v.st) && (t.ch == RBRACKET || t.ch == COMMA)
    ensures if t.ch == RBRACKET then r == Result(Array(data + [v.value]), t.st)
      else !GetNextToken(p, t.st).st.failed && ElementsYield(p, depth, GetNextToken(p, t.st).st, data + [v.value], r)
  {
    assert Unfold(0);
    v, t := ElementsEquation(p, depth, st, data);
    if t.ch == COMMA {
      var next, data1 := GetNextToken(p, t.st).st, data + [v.value];
      ElementsNeedToken(p, depth, next, data1);
    }
  }

  lemma ElementsEquation(p: Source, depth: nat, st: State, data: seq<Json>) returns (v: Result, t: Token)
    requires 0 < st.i <= |p.text| && depth <= MAX_DEPTH && ParseElements(p, depth, st, data).value.Array?
    ensures v == ParseJson(p, depth + 1, st.(i := st.i - 1)) && !v.st.failed && v.st.i <= |p.text|
    ensures t == GetNextToken(p, v.st) && (t.ch == RBRACKET || t.ch == COMMA)
    ensures ParseElements(p, depth, st, data) ==
      if t.ch == RBRACKET then Result(Array(data + [v.value]), t.st)
      else ParseElements(p, depth, GetNextToken(p, t.st).st, data + [v.value])
  {
    v := ParseJson(p, depth + 1, st.(i := st.i - 1));
    t := GetNextToken(p, v.st);
  }

  /** The element a round of the loop reads, where its value ends, and the token after it. */
  lemma {:induction false} ElemFrom(p: Source, depth: nat, st: State, data: seq<Json>, r: Result)
    returns (t: Tree, v: Result, tok: Token)
    requires Ready(p, st) && ElementsYield(p, depth, st, data, r) && r.value.Array?
    requires NoGap(p.strategy, p.text[st.i - 1])
    ensures ValueStands(p.strategy, p.text, st.i - 1, v.st.i, t, MAX_DEPTH - depth - 1)
    ensures Ready(p, v.st) && st.i <= v.st.i && v.st.err == st.err
    ensures tok == GetNextToken(p, v.st) && (tok.ch == RBRACKET || tok.ch == COMMA)
    ensures if tok.ch == RBRACKET then r.st == tok.st
      else
        !tok.st.failed && !GetNextToken(p, tok.st).st.failed
        && ElementsYield(p, depth, GetNextToken(p, tok.st).st, data + [v.value], r)
    decreases MAX_DEPTH + 1 - depth, 0, 0
  {
    hide Text, Height, ParseElements, ParseJson, ConsumeGarbage, IsGap;
    v, tok := ElementRound(p, depth, st, data, r);
    var i, ws;
    i, ws, t := ValueFrom(p, depth + 1, st.(i := st.i - 1), v);
    NoGapHere(p.strategy, p.text, st.i - 1, i, ws);
  }

  lemma {:induction false} ElemsFrom(p: Source, depth: nat, st: State, data: seq<Json>, r: Result, pre: bytes)
    returns (k: nat, es: seq<Elem>)
    requires Ready(p, st) && ElementsYield(p, depth, st, data, r) && r.value.Array?
    requires IsGap(p.strategy, pre) && NoGap(p.strategy, p.text[st.i - 1])
    ensures ElemsStand(p.strategy, p.text, st.i - 1, k, es, MAX_DEPTH - depth - 1) && es != [] && es[0].pre == pre
    ensures ClosesClean(p, k, st.err, RBRACKET, r.st)
    decreases MAX_DEPTH + 1 - depth, 1, |p.text| - st.i
  {
    hide Text, ElemsText, Height, ParseElements, ParseJson, ConsumeGarbage, IsGap;
    var t, v, tok := ElemFrom(p, depth, st, data, r);
    if tok.ch == RBRACKET {
      k, es := ElemsEnd(p, st.i - 1, v.st, pre, t, r.st, MAX_DEPTH - depth - 1);
    } else {
      var rest;
      k, rest := MoreElemsFrom(p, depth, tok.st, GetNextToken(p, tok.st), data + [v.value], r, |p.text| - st.i);
      es := ElemsGoOn(p, st.i - 1, v.st, pre, t, tok.st, k, rest, MAX_DEPTH - depth - 1);
    }
  }

  lemma ElemsEnd(p: Source, i: nat, st: State, pre: bytes, t: Tree, close: State, limit: int) returns (k: nat, es: seq<Elem>)
    requires Ready(p, st) && IsGap(p.strategy, pre) && ValueStands(p.strategy, p.text, i, st.i, t, limit)
    requires GetNextToken(p, st) == Token(RBRACKET, close)
    ensures ElemsStand(p.strategy, p.text, i, k, es, limit) && es != [] && es[0].pre == pre
    ensures ClosesClean(p, k, st.err, RBRACKET, close)
  {
    hide Text, ElemsText, Height, ElemsHeight, GetNextToken, IsGap;
    var post;
    k, post := CloseFrom(p, st, RBRACKET, close);
    es := LastElem(p.strategy, p.text, i, st.i, k, Elem(pre, t, post), limit);
  }

  lemma ElemsGoOn(p: Source, i: nat, st: State, pre: bytes, t: Tree, st2: State, k: nat, rest: seq<Elem>, limit: int)
    returns (es: seq<Elem>)
    requires Ready(p, st) && IsGap(p.strategy, pre) && ValueStands(p.strategy, p.text, i, st.i, t, limit)
    requires GetNextToken(p, st) == Token(COMMA, st2) && !st2.failed
    requires ElemsFollow(p.strategy, p.text, st2.i, k, rest, limit)
    ensures ElemsStand(p.strategy, p.text, i, k, es, limit) && es != [] && es[0].pre == pre
  {
    hide Text, ElemsText, Height, ElemsHeight, GetNextToken, IsGap;
    var b, post := TokenFrom(p, st);
    es := ConsElem(p.strategy, p.text, i, st.i, b, k, Elem(pre, t, post), rest, limit);
  }

  /** The elements after the opening bracket or a comma. */
  lemma {:induction false} MoreElemsFrom(p: Source, depth: nat, st: State, t: Token, data: seq<Json>, r: Result, bound: int)
    returns (k: nat, es: seq<Elem>)
    requires Ready(p, st) && |p.text| - st.i < bound
    requires t == GetNextToken(p, st) && !t.st.failed && ElementsYield(p, depth, t.st, data, r) && r.value.Array?
    ensures ElemsFollow(p.strategy, p.text, st.i, k, es, MAX_DEPTH - depth - 1)
    ensures ClosesClean(p, k, st.err, RBRACKET, r.st)
    decreases MAX_DEPTH + 1 - depth, 1, bound, 0
  {
    hide Text, ElemsText, Height, ParseElements, ConsumeGarbage, IsGap;
    var j, pre := TokenFrom(p, st);
    k, es := ElemsFrom(p, depth, t.st, data, r, pre);
    PrependGap(p.strategy, p.text, st.i, j, k, es, MAX_DEPTH - depth - 1);
  }

  lemma PrependGap(mode: Strategy, s: bytes, i: nat, j: nat, k: nat, es: seq<Elem>, limit: int)
    requires es != [] && Occurs(s, i, j, es[0].pre) && ElemsStand(mode, s, j, k, es, limit)
    ensures ElemsFollow(mode, s, i, k, es, limit)
  {
    assert Unfold(0);
    Join(s, i, j, k, es[0].pre, ElemsText(es));
    FoldElems(mode, s, i, k, es, limit);
  }

  lemma LastElem(mode: Strategy, s: bytes, i: nat, a: nat, k: nat, e: Elem, limit: int) returns (es: seq<Elem>)
    requires IsGap(mode, e.pre) && IsGap(mode, e.post) && ValueStands(mode, s, i, a, e.value, limit) && Occurs(s, a, k, e.post)
    ensures es == [e] && ElemsStand(mode, s, i, k, es, limit)
  {
    assert Unfold(0);
    es := [e];
    assert es[1..] == [] && e.post + [] == e.post;
    Join(s, i, a, k, Text(e.value), e.post);
    assert ElemsHeight(es[1..]) == 0;
    assert ElemsText(es) == Text(e.value) + (e.post + []);
  }

  lemma ConsElem(mode: Strategy, s: bytes, i: nat, a: nat, b: nat, k: nat, e: Elem, rest: seq<Elem>, limit: int)
    returns (es: seq<Elem>)
    requires IsGap(mode, e.pre) && IsGap(mode, e.post) && ValueStands(mode, s, i, a, e.value, limit)
    requires Occurs(s, a, b, e.post) && b < |s| && s[b] == COMMA && ElemsFollow(mode, s, b + 1, k, rest, limit)
    ensures es == [e] + rest && ElemsStand(mode, s, i, k, es, limit)
  {
    assert Unfold(0);
    es := [e] + rest;
    assert es[1..] == rest && es[1] == rest[0];
    Single(s, b);
    Join(s, b, b + 1, k, [COMMA], rest[0].pre + ElemsText(rest));
    Join(s, a, b, k, e.post, ElemsRest(es));
    Join(s, i, a, k, Text(e.value), e.post + ElemsRest(es));
  }

  // ---- Objects ----

  lemma {:induction false} ObjectFrom(p: Source, depth: nat, st: State, i: nat, r: Result) returns (k: nat, t: Tree)
    requires Ready(p, st) && depth <= MAX_DEPTH && Yields(p, depth, st, r) && (!r.st.failed || HasItems(r.value))
    requires i < |p.text| && GetNextToken(p, st) == Token(p.text[i], st.(i := i + 1)) && p.text[i] == LBRACE
    ensures (t.TObject? || t.TEmptyObject?) && ValidTree(p.strategy, t) && depth + Height(t) <= MAX_DEPTH
    ensures Occurs(p.text, i, k, OpenText(p.strategy, t)) && ClosesClean(p, k, st.err, RBRACE, r.st)
    decreases MAX_DEPTH + 1 - depth, 2, 0
  {
    var st1 := st.(i := i + 1);
    ObjectCase(p, depth, st, st1, r);
    Single(p.text, i);
    if GetNextToken(p, st1).ch == RBRACE {
      var g;
      k, g := CloseFrom(p, st1, RBRACE, r.st);
      t := TEmptyObject(g);
      Join(p.text, i, i + 1, k, [LBRACE], g);
    } else {
      var ms;
      k, ms := MoreMembersFrom(p, depth, st1, GetNextToken(p, st1), [], r, |p.text| - i);
      t := TObject(ms);
      UnfoldMembers(p.strategy, p.text, i, k, ms, MAX_DEPTH - depth - 1);
    }
  }

  lemma UnfoldMembers(mode: Strategy, s: bytes, i: nat, k: nat, ms: seq<Member>, limit: int)
    requires i < |s| && s[i] == LBRACE && MembersFollow(mode, s, i + 1, k, ms, limit)
    ensures ValidTree(mode, TObject(ms)) && Height(TObject(ms)) <= limit + 1 && Occurs(s, i, k, OpenText(mode, TObject(ms)))
  {
    assert Unfold(0);
    Single(s, i);
    Join(s, i, i + 1, k, [LBRACE], ms[0].pre + MembersText(ms));
  }

  lemma ObjectCase(p: Source, depth: nat, st: State, st1: State, r: Result)
    requires depth <= MAX_DEPTH && Yields(p, depth, st, r) && (!r.st.failed || HasItems(r.value)) && !st1.failed
    requires GetNextToken(p, st) == Token(LBRACE, st1) && st1.i <= |p.text|
    ensures var t := GetNextToken(p, st1);
      if t.ch == RBRACE then r == Result(Object([]), t.st)
      else t.ch == QUOTE && !t.st.failed && MembersYield(p, depth, QUOTE, t.st, [], r) && r.value.Object?
  {
    hide ParseNumber, ParseString, Expect, ParseElements, ParseMembers, ConsumeGarbage;
    assert Unfold(0);
    var t := GetNextToken(p, st1);
    if t.ch != RBRACE { MembersNeedKey(p, depth, t.ch, t.st, []); }
  }

  /** The member loop from another byte or a failed state returns null, and otherwise an object unless it fails. */
  lemma {:induction false} MembersNeedKey(p: Source, depth: nat, ch: byte, st: State, data: seq<Field>)
    requires st.i <= |p.text| && depth <= MAX_DEPTH
    requires var r := ParseMembers(p, depth, ch, st, data); !r.st.failed || HasItems(r.value)
    ensures ch == QUOTE && !st.failed && ParseMembers(p, depth, ch, st, data).value.Object?
    decreases |p.text| - st.i
  {
    var key := ParseString(p.text, st);
    var t1 := GetNextToken(p, key.st);
    var v := ParseJson(p, depth + 1, t1.st);
    var t2 := GetNextToken(p, v.st);
    if t2.ch == COMMA {
      var t3 := GetNextToken(p, t2.st);
      MembersNeedKey(p, depth, t3.ch, t3.st, Insert(data, key.value, v.value));
    }
  }

  /** One round of the member loop, read backwards. */
  lemma MemberRound(p: Source, depth: nat, st: State, data: seq<Field>, r: Result)
    returns (key: StringResult, t1: Token, v: Result, t2: Token)
    requires MembersYield(p, depth, QUOTE, st, data, r) && r.value.Object? && !st.failed
    ensures key == ParseString(p.text, st) && !key.st.failed && key.st.i <= |p.text|
    ensures t1 == GetNextToken(p, key.st) && t1.ch == COLON && !t1.st.failed
    ensures Yields(p, depth + 1, t1.st, v) && !v.st.failed && v.st.i <= |p.text| && v.st.err == st.err
    ensures t2 == GetNextToken(p, v.st) && (t2.ch == RBRACE || t2.ch == COMMA)
    ensures var data1, t3 := Insert(data, key.value, v.value), GetNextToken(p, t2.st);
      if t2.ch == RBRACE then r == Result(Object(data1), t2.st)
      else t3.ch == QUOTE && !t3.st.failed && MembersYield(p, depth, QUOTE, t3.st, data1, r)
  {
    assert Unfold(0);
    key := ParseString(p.text, st);
    t1 := GetNextToken(p, key.st);
    v := ParseJson(p, depth + 1, t1.st);
    t2 := GetNextToken(p, v.st);
    if t2.ch == COMMA {
      var t3 := GetNextToken(p, t2.st);
      MembersNeedKey(p, depth, t3.ch, t3.st, Insert(data, key.value, v.value));
    }
  }

  lemma KeyFrom(p: Source, st: State, key: StringResult, t: Token) returns (colon: nat, cs: seq<Char>, mid: bytes)
    requires Ready(p, st) && 0 < st.i && p.text[st.i - 1] == QUOTE
    requires key == ParseString(p.text, st) && !key.st.failed && t == GetNextToken(p, key.st) && t.ch == COLON && !t.st.failed
    ensures ValidChars(cs) && IsGap(p.strategy, mid) && Ready(p, t.st) && st.i <= t.st.i == colon + 1
    ensures Occurs(p.text, st.i - 1, key.st.i, StringText(cs)) && Occurs(p.text, key.st.i, colon, mid)
    ensures p.text[colon] == COLON
  {
    cs := StringFrom(p.text, st);
    colon, mid := TokenFrom(p, key.st);
  }

  /** The member a round of the loop reads, with its parts up to its value, and the token after that. */
  lemma {:induction false} MemberFrom(p: Source, depth: nat, st: State, data: seq<Field>, r: Result)
    returns (m: Member, q: Places, v: Result, data1: seq<Field>, tok: Token)
    requires Ready(p, st) && 0 < st.i && MembersYield(p, depth, QUOTE, st, data, r) && r.value.Object?
    requires p.text[st.i - 1] == QUOTE
    ensures m.elem.post == [] && q.close == q.post == v.st.i
    ensures MemberStands(p.strategy, p.text, st.i - 1, m, q, MAX_DEPTH - depth - 1)
    ensures Ready(p, v.st) && st.i < v.st.i && v.st.err == st.err
    ensures tok == GetNextToken(p, v.st) && (tok.ch == RBRACE || tok.ch == COMMA)
    ensures if tok.ch == RBRACE then r.st == tok.st
      else var t := GetNextToken(p, tok.st);
        !tok.st.failed && t.ch == QUOTE && !t.st.failed && MembersYield(p, depth, QUOTE, t.st, data1, r)
    decreases MAX_DEPTH + 1 - depth, 0, 0
  {
    hide Text, Height, ParseMembers, ParseJson, ParseString, ConsumeGarbage, Decode, Insert;
    var key, t1;
    key, t1, v, tok := MemberRound(p, depth, st, data, r);
    var colon, cs, mid := KeyFrom(p, st, key, t1);
    var value, valuePre, tree := ValueFrom(p, depth + 1, t1.st, v);
    m := Member([], cs, mid, Elem(valuePre, tree, []));
    q := Places(key.st.i, colon, t1.st.i, value, v.st.i, v.st.i);
    data1 := Insert(data, key.value, v.value);
  }

  lemma {:induction false} MembersFrom(p: Source, depth: nat, st: State, data: seq<Field>, r: Result, pre: bytes)
    returns (k: nat, ms: seq<Member>)
    requires Ready(p, st) && 0 < st.i && MembersYield(p, depth, QUOTE, st, data, r) && r.value.Object?
    requires IsGap(p.strategy, pre) && p.text[st.i - 1] == QUOTE
    ensures MembersStand(p.strategy, p.text, st.i - 1, k, ms, MAX_DEPTH - depth - 1) && ms != [] && ms[0].pre == pre
    ensures ClosesClean(p, k, st.err, RBRACE, r.st)
    decreases MAX_DEPTH + 1 - depth, 1, |p.text| - st.i
  {
    hide Text, MembersText, Height, ParseMembers, ParseJson, ConsumeGarbage, IsGap;
    var m, q, v, data1, tok := MemberFrom(p, depth, st, data, r);
    if tok.ch == RBRACE {
      k, ms := MembersEnd(p, st.i - 1, v.st, pre, m, q, r.st, MAX_DEPTH - depth - 1);
    } else {
      var rest;
      k, rest := MoreMembersFrom(p, depth, tok.st, GetNextToken(p, tok.st), data1, r, |p.text| - st.i);
      ms := MembersGoOn(p, st.i - 1, v.st, pre, m, q, tok.st, k, rest, MAX_DEPTH - depth - 1);
    }
  }

  lemma MembersEnd(p: Source, i: nat, st: State, pre: bytes, m0: Member, q0: Places, close: State, limit: int)
    returns (k: nat, ms: seq<Member>)
    requires Ready(p, st) && IsGap(p.strategy, pre) && MemberStands(p.strategy, p.text, i, m0, q0, limit)
    requires m0.elem.post == [] && q0.close == q0.post == st.i && GetNextToken(p, st) == Token(RBRACE, close)
    ensures MembersStand(p.strategy, p.text, i, k, ms, limit) && ms != [] && ms[0].pre == pre
    ensures ClosesClean(p, k, st.err, RBRACE, close)
  {
    hide Text, MembersText, Height, MembersHeight, GetNextToken, IsGap;
    var post;
    k, post := CloseFrom(p, st, RBRACE, close);
    var m, q := WithGaps(p.strategy, p.text, i, m0, q0, pre, post, k, limit);
    ms := LastMember(p.strategy, p.text, i, q, m, limit);
  }

  lemma MembersGoOn(p: Source, i: nat, st: State, pre: bytes, m0: Member, q0: Places, st2: State, k: nat,
                    rest: seq<Member>, limit: int)
    returns (ms: seq<Member>)
    requires Ready(p, st) && IsGap(p.strategy, pre) && MemberStands(p.strategy, p.text, i, m0, q0, limit)
    requires m0.elem.post == [] && q0.close == q0.post == st.i && GetNextToken(p, st) == Token(COMMA, st2) && !st2.failed
    requires MembersFollow(p.strategy, p.text, st2.i, k, rest, limit)
    ensures MembersStand(p.strategy, p.text, i, k, ms, limit) && ms != [] && ms[0].pre == pre
  {
    hide Text, MembersText, Height, MembersHeight, GetNextToken, IsGap;
    var b, post := TokenFrom(p, st);
    var m, q := WithGaps(p.strategy, p.text, i, m0, q0, pre, post, b, limit);
    ms := ConsMember(p.strategy, p.text, i, q, k, m, rest, limit);
  }

  lemma WithGaps(mode: Strategy, s: bytes, i: nat, m0: Member, q0: Places, pre: bytes, post: bytes, close: nat, limit: int)
    returns (m: Member, q: Places)
    requires MemberStands(mode, s, i, m0, q0, limit) && m0.elem.post == [] && q0.close == q0.post
    requires IsGap(mode, post) && Occurs(s, q0.post, close, post)
    ensures MemberStands(mode, s, i, m, q, limit) && m.pre == pre && q.close == close
  {
    m, q := m0.(pre := pre, elem := m0.elem.(post := post)), q0.(close := close);
  }

  /** The members after the opening brace or a comma. */
  lemma {:induction false} MoreMembersFrom(p: Source, depth: nat, st: State, t: Token, data: seq<Field>, r: Result, bound: int)
    returns (k: nat, ms: seq<Member>)
    requires Ready(p, st) && |p.text| - st.i < bound && t == GetNextToken(p, st) && t.ch == QUOTE && !t.st.failed
    requires MembersYield(p, depth, QUOTE, t.st, data, r) && r.value.Object?
    ensures MembersFollow(p.strategy, p.text, st.i, k, ms, MAX_DEPTH - depth - 1)
    ensures ClosesClean(p, k, st.err, RBRACE, r.st)
    decreases MAX_DEPTH + 1 - depth, 1, bound, 0
  {
    hide Text, MembersText, Height, ParseMembers, ConsumeGarbage, IsGap;
    var j, pre := TokenFrom(p, st);
    k, ms := MembersFrom(p, depth, t.st, data, r, pre);
    PrependGapToMembers(p.strategy, p.text, st.i, j, k, ms, MAX_DEPTH - depth - 1);
  }

  lemma PrependGapToMembers(mode: Strategy, s: bytes, i: nat, j: nat, k: nat, ms: seq<Member>, limit: int)
    requires ms != [] && Occurs(s, i, j, ms[0].pre) && MembersStand(mode, s, j, k, ms, limit)
    ensures MembersFollow(mode, s, i, k, ms, limit)
  {
    assert Unfold(0);
    Join(s, i, j, k, ms[0].pre, MembersText(ms));
    FoldMembers(mode, s, i, k, ms, limit);
  }

  lemma LastMember(mode: Strategy, s: bytes, i: nat, q: Places, m: Member, limit: int) returns (ms: seq<Member>)
    requires IsGap(mode, m.pre) && MemberStands(mode, s, i, m, q, limit)
    ensures ms == [m] && MembersStand(mode, s, i, q.close, ms, limit)
  {
    assert Unfold(0);
    ms := [m];
    OccursIsSlice(s, q.close, q.close);
    assert s[q.close..q.close] == [];
    JoinMember(mode, s, i, q, q.close, m, ms, limit);
    assert ValidElem(mode, m.elem) && ValidMember(mode, m);
    assert MembersHeight(ms[1..]) == 0;
  }

  lemma ConsMember(mode: Strategy, s: bytes, i: nat, q: Places, k: nat, m: Member, rest: seq<Member>, limit: int)
    returns (ms: seq<Member>)
    requires IsGap(mode, m.pre) && MemberStands(mode, s, i, m, q, limit) && q.close < |s| && s[q.close] == COMMA
    requires MembersFollow(mode, s, q.close + 1, k, rest, limit)
    ensures ms == [m] + rest && MembersStand(mode, s, i, k, ms, limit)
  {
    assert Unfold(0);
    ms := [m] + rest;
    assert ms[1..] == rest && ms[1] == rest[0];
    Single(s, q.close);
    Join(s, q.close, q.close + 1, k, [COMMA], rest[0].pre + MembersText(rest));
    JoinMember(mode, s, i, q, k, m, ms, limit);
    assert ValidElem(mode, m.elem) && ValidMember(mode, m);
  }

  lemma JoinMember(mode: Strategy, s: bytes, i: nat, q: Places, k: nat, m: Member, ms: seq<Member>, limit: int)
    requires ms != [] && m == ms[0] && MemberStands(mode, s, i, m, q, limit) && Occurs(s, q.close, k, MembersRest(ms))
    ensures Occurs(s, i, k, MembersText(ms))
  {
    assert Unfold(0);
    JoinParts(s, i, q, k, StringText(m.key), m.mid, m.elem.pre, Text(m.elem.value), m.elem.post, MembersRest(ms));
  }

  lemma JoinParts(s: bytes, i: nat, q: Places, k: nat, key: bytes, mid: bytes, pre: bytes, value: bytes, post: bytes, rest: bytes)
    requires Occurs(s, i, q.mid, key) && Occurs(s, q.mid, q.colon, mid) && q.pre == q.colon + 1 <= |s| && s[q.colon] == COLON
    requires Occurs(s, q.pre, q.value, pre) && Occurs(s, q.value, q.post, value) && Occurs(s, q.post, q.close, post)
    requires Occurs(s, q.close, k, rest)
    ensures Occurs(s, i, k, key + (mid + ([COLON] + (pre + (value + (post + rest))))))
  {
    var fromPost := post + rest;
    var fromValue := value + fromPost;
    var fromColon := [COLON] + (pre + fromValue);
    Single(s, q.colon);
    Join(s, q.post, q.close, k, post, rest);
    Join(s, q.value, q.post, k, value, fromPost);
    Join(s, q.pre, q.value, k, pre, fromValue);
    Join(s, q.colon, q.pre, k, [COLON], pre + fromValue);
    Join(s, q.mid, q.colon, k, mid, fromColon);
    Join(s, i, q.mid, k, key, mid + fromColon);
  }

  // ---- The parser is the grammar ----

  lemma Sound(p: Source, err: Error, erange: bool) returns (d: Document)
    requires !Parse(p, Start(err, erange)).st.failed
    ensures Derives(p.strategy, p.text, d)
  {
    hide ParseJson, Text, Height, ValidTree, ValueEnds;
    var st, end := Start(err, erange), |p.text|;
    var r := ParseJson(p, 0, st);
    var i, pre, t := ValueFrom(p, 0, st, r);
    var j := r.st.i;
    GapFrom(p, r.st);
    OccursIsSlice(p.text, j, end);
    d := Document(pre, t, p.text[j..end]);
    Join(p.text, i, j, end, Text(t), d.post);
    Join(p.text, 0, i, end, pre, Text(t) + d.post);
    OccursIsSlice(p.text, 0, end);
    assert p.text[0..end] == p.text;
  }

  /**
   * Json::parse succeeds exactly on the texts RFC 8259 derives, in COMMENTS mode with comments
   * among the whitespace, nested at most 200 deep, and returns the value of the derivation,
   * whichever derivation one takes.
   */
  lemma ParserIsTheGrammar(p: Source, err: Error, erange: bool)
    ensures !Parse(p, Start(err, erange)).st.failed <==> exists d :: Derives(p.strategy, p.text, d)
    ensures forall d :: Derives(p.strategy, p.text, d) ==>
      Parse(p, Start(err, erange)).value == Eval(p.lib, d.value, erange).value
      && Parse(p, Start(err, erange)).st.i == |p.text|
  {
    if !Parse(p, Start(err, erange)).st.failed {
      var d := Sound(p, err, erange);
    }
    forall d | Derives(p.strategy, p.text, d)
      ensures var r := Eval(p.lib, d.value, erange);
        Parse(p, Start(err, erange)) == Result(r.value, State(|p.text|, false, err, r.erange))
    {
      Complete(p, err, erange, d);
    }
  }
}
