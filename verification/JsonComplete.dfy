/** Completeness: on the text of a derivation, the parser succeeds with the derived value. */
module JsonComplete {
  import opened Folding
  import opened Bytes
  import opened JsonNumber
  import opened JsonValue
  import opened JsonGrammar
  import opened JsonParsing
  import opened JsonGaps

  // ---- Strings ----

  lemma {:induction false} LexOver(s: bytes, i: nat, j: nat, cs: seq<Char>)
    requires ValidChars(cs) && Occurs(s, i, j, CharsText(cs)) && j < |s| && s[j] == QUOTE
    ensures LexString(s, i) == Lexed(cs, j + 1)
    decreases |cs|
  {
    if cs != [] {
      var k := Split(s, i, j, CharText(cs[0]), CharsText(cs[1..]));
      LexOver(s, k, j, cs[1..]);
      LexOne(s, i, k, cs[0]);
      assert [cs[0]] + cs[1..] == cs;
    }
  }

  lemma LexOne(s: bytes, i: nat, j: nat, c: Char)
    requires ValidChar(c) && Occurs(s, i, j, CharText(c))
    ensures LexString(s, i) == Prepend([c], LexString(s, j))
  {
    Head(s, i, j, CharText(c));
    if c.Hex? {
      OccursAt(s, i, j, CharText(c), 1);
      OccursIsSlice(s, i, j);
      assert Substr(s, i + 2, 4) == s[i..j][2..] == c.digits;
    } else if c.Short? {
      OccursAt(s, i, j, CharText(c), 1);
    }
  }

  lemma StringOver(s: bytes, st: State, end: nat, cs: seq<Char>)
    requires 0 < st.i && ValidChars(cs) && Occurs(s, st.i - 1, end, StringText(cs))
    ensures ParseString(s, st) == StringResult(Decode(cs), st.(i := end))
  {
    var i := Split(s, st.i - 1, end, [QUOTE], CharsText(cs) + [QUOTE]);
    var j := Split(s, i, end, CharsText(cs), [QUOTE]);
    Head(s, j, end, [QUOTE]);
    LexOver(s, i, j, cs);
  }

  // ---- Numbers ----

  lemma DigitsOver(s: bytes, i: nat, j: nat, digits: bytes)
    requires Occurs(s, i, j, digits) && AllDigits(digits) && !IsDigit(At(s, j))
    ensures DigitsEnd(s, i) == j
    ensures i < j ==> IsDigit(s[i]) && DigitsEnd(s, i + 1) == j
  {
    var j' := DigitsEnd(s, i);
    DigitsEndStops(s, i);
    if j' < j {
      OccursAt(s, i, j, digits, j' - i);
    }
    if i < j { Head(s, i, j, digits); }
  }

  lemma ExponentOver(p: Source, st: State, start: nat, end: nat, l: NumLit)
    requires start <= st.i && ValidNum(l) && Occurs(p.text, st.i, end, ExpText(l)) && NumEnds(l, At(p.text, end))
    ensures ParseExponent(p, st, start) == FinishNumber(p, st.(i := end), start)
  {
    hide FinishNumber, DigitsEnd, AllDigits;
    match l.exp
    case NoExp =>
    case Exp(e, sign, digits) =>
      var a := Split(p.text, st.i, end, [e], sign + digits);
      Head(p.text, st.i, a, [e]);
      var b := Split(p.text, a, end, sign, digits);
      Head(p.text, b, end, digits);
      if sign != [] { Head(p.text, a, b, sign); }
      DigitsOver(p.text, b, end, digits);
  }

  lemma FractionOver(p: Source, st: State, start: nat, mid: nat, end: nat, l: NumLit)
    requires start < st.i <= |p.text| && ValidNum(l)
    requires l.frac != [] || l.exp != NoExp
    requires Occurs(p.text, st.i, mid, FracText(l)) && Occurs(p.text, mid, end, ExpText(l)) && NumEnds(l, At(p.text, end))
    ensures ParseAfterInteger(p, st, start) == FinishNumber(p, st.(i := end), start)
  {
    hide FinishNumber, ParseExponent, ReadInteger, DigitsEnd, AllDigits;
    if l.frac == [] {
      Head(p.text, mid, end, ExpText(l));
      ExponentOver(p, st, start, end, l);
    } else {
      DotOver(p, st, start, mid, end, l);
      ExponentOver(p, st.(i := mid), start, end, l);
    }
  }

  lemma DotOver(p: Source, st: State, start: nat, mid: nat, end: nat, l: NumLit)
    requires start < st.i <= |p.text| && ValidNum(l) && l.frac != []
    requires Occurs(p.text, st.i, mid, FracText(l)) && Occurs(p.text, mid, end, ExpText(l)) && NumEnds(l, At(p.text, end))
    ensures ParseAfterInteger(p, st, start) == ParseExponent(p, st.(i := mid), start)
  {
    hide ParseExponent, ReadInteger, DigitsEnd, AllDigits;
    if l.exp != NoExp { Head(p.text, mid, end, ExpText(l)); }
    var a := Split(p.text, st.i, mid, [DOT], l.frac);
    Head(p.text, st.i, a, [DOT]);
    DigitsOver(p.text, a, mid, l.frac);
  }

  /** A literal with a fraction or an exponent is what strtod reads. */
  lemma PartOver(p: Source, st: State, start: nat, mid: nat, end: nat, l: NumLit)
    requires start < st.i <= |p.text| && ValidNum(l) && !IsWhole(l)
    requires Occurs(p.text, st.i, mid, FracText(l)) && Occurs(p.text, mid, end, ExpText(l)) && NumEnds(l, At(p.text, end))
    ensures var r := ReadNumberIn(p.lib, l, p.text[start..], st.erange);
      ParseAfterInteger(p, st, start) == Result(r.value, st.(i := end, erange := r.erange))
  {
    hide ParseAfterInteger, FracText, ExpText, NumEnds, AllDigits;
    FractionOver(p, st, start, mid, end, l);
  }

  lemma NumberOver(p: Source, st: State, end: nat, l: NumLit)
    requires ValidNum(l) && Occurs(p.text, st.i, end, NumText(l)) && NumEnds(l, At(p.text, end))
    ensures st.i < |p.text|
    ensures var r := ReadNumberIn(p.lib, l, p.text[st.i..], st.erange);
      ParseNumber(p, st) == Result(r.value, st.(i := end, erange := r.erange))
  {
    var s := p.text;
    var i := Split(s, st.i, end, SignText(l), l.digits + (FracText(l) + ExpText(l)));
    var j := Split(s, i, end, l.digits, FracText(l) + ExpText(l));
    var k := Split(s, j, end, FracText(l), ExpText(l));
    Head(s, i, j, l.digits);
    if l.minus { Head(s, st.i, i, SignText(l)); }
    OccursIsSlice(s, st.i, end);
    AfterIntegerOver(p, st, j, k, end, l);
    IntegerOver(p, st, i, j, l);
  }

  /** What follows a literal changes nothing, unless strtod is given a zero that turns hexadecimal. */
  lemma ReadsAsAlone(lib: Libc, l: NumLit, rest: bytes, erange: bool)
    requires ValidNum(l) && NumEnds(l, At(rest, 0)) && (erange ==> !HexFollows(l, At(rest, 0)))
    ensures ReadNumberIn(lib, l, NumText(l) + rest, erange) == ReadNumber(lib, l, erange)
  {
    if HexFollows(l, At(rest, 0)) {
      ZeroIsExact(lib, l, NumText(l) + rest);
    } else {
      assert ReadsLiteral(lib, l, rest);
    }
  }

  /** With errno clear, a zero needs no strtod. */
  lemma ZeroIsExact(lib: Libc, l: NumLit, tail: bytes)
    requires IsWhole(l) && l.digits == [ZERO]
    ensures ReadNumberIn(lib, l, tail, false) == ReadNumber(lib, l, false)
  {
    assert NumText(l) == SignText(l) + [ZERO];
    if l.minus { assert NumText(l)[1..] == [ZERO]; }
    assert [ZERO][..0] == [];
    assert Decimal([ZERO]) == 0;
  }

  /** The integer part is scanned to its end. */
  lemma IntegerOver(p: Source, st: State, i: nat, j: nat, l: NumLit)
    requires ValidNum(l) && st.i < |p.text| && i == if p.text[st.i] == MINUS then st.i + 1 else st.i
    requires Occurs(p.text, i, j, l.digits) && !IsDigit(At(p.text, j))
    ensures ParseNumber(p, st) == ParseAfterInteger(p, st.(i := j), st.i)
  {
    hide ParseAfterInteger, DigitsEnd, AllDigits, FracText, ExpText;
    Head(p.text, i, j, l.digits);
    DigitsOver(p.text, i, j, l.digits);
  }

  lemma WholeOver(p: Source, st: State, start: nat, l: NumLit)
    requires start < st.i <= |p.text| && ValidNum(l) && IsWhole(l) && NumEnds(l, At(p.text, st.i))
    requires p.text[start..st.i] == NumText(l) && st.i - start == |SignText(l)| + |l.digits|
    ensures var r := ReadNumberIn(p.lib, l, p.text[start..], st.erange);
      ParseAfterInteger(p, st, start) == Result(r.value, st.(erange := r.erange))
  {
    assert NumText(l) == SignText(l) + (l.digits + []);
  }

  lemma AfterDigits(s: bytes, j: nat, k: nat, end: nat, l: NumLit)
    requires ValidNum(l) && j <= k <= end <= |s| && NumEnds(l, At(s, end))
    requires Occurs(s, j, k, FracText(l)) && Occurs(s, k, end, ExpText(l))
    ensures !IsDigit(At(s, j)) && (IsWhole(l) ==> j == end)
  {
    if l.frac != [] {
      Head(s, j, k, FracText(l));
    } else if l.exp != NoExp {
      Head(s, k, end, ExpText(l));
    }
  }

  lemma AfterIntegerOver(p: Source, st: State, j: nat, k: nat, end: nat, l: NumLit)
    requires st.i < j <= k <= end <= |p.text| && ValidNum(l) && NumEnds(l, At(p.text, end))
    requires p.text[st.i..end] == NumText(l) && j - st.i == |SignText(l)| + |l.digits|
    requires Occurs(p.text, j, k, FracText(l)) && Occurs(p.text, k, end, ExpText(l))
    ensures !IsDigit(At(p.text, j))
    ensures var r := ReadNumberIn(p.lib, l, p.text[st.i..], st.erange);
      ParseAfterInteger(p, st.(i := j), st.i) == Result(r.value, st.(i := end, erange := r.erange))
  {
    hide ParseAfterInteger, ReadNumberIn, AllDigits, NumText, ValidNum, NumEnds, FracText, ExpText, SignText;
    AfterDigits(p.text, j, k, end, l);
    if IsWhole(l) {
      WholeOver(p, st.(i := j), st.i, l);
    } else {
      PartOver(p, st.(i := j), st.i, k, end, l);
    }
  }

  // ---- Values ----

  /** A number must not be prolonged by what follows; any other value may be followed by anything. */
  predicate ValueEnds(t: Tree, next: byte) { t.TNum? ==> NumEnds(t.lit, next) }

  /** What follows does not change the value: only a zero that strtod reads can turn hexadecimal. */
  predicate ReadsAlone(t: Tree, next: byte, erange: bool) { t.TNum? && erange ==> !HexFollows(t.lit, next) }

  predicate StartsValue(b: byte) {
    NoGap(Comments, b) && b != RBRACKET && b != RBRACE && b != LOWER_X && b != UPPER_X
  }

  lemma FirstByte(mode: Strategy, t: Tree)
    requires ValidTree(mode, t)
    ensures Text(t) != [] && StartsValue(Text(t)[0])
  {
  }

  ghost predicate Ready(p: Source, st: State) { !st.failed && st.i <= |p.text| }

  predicate IsContainer(t: Tree) { t.TEmptyArray? || t.TArray? || t.TEmptyObject? || t.TObject? }

  /** The text of a container up to its closing bracket, and the bracket. */
  function OpenText(mode: Strategy, t: Tree): (s: bytes)
    requires IsContainer(t) && ValidTree(mode, t)
  {
    match t
    case TEmptyArray(ws) => [LBRACKET] + ws
    case TArray(es) => [LBRACKET] + (es[0].pre + ElemsText(es))
    case TEmptyObject(ws) => [LBRACE] + ws
    case TObject(ms) => [LBRACE] + (ms[0].pre + MembersText(ms))
  }

  function Bracket(t: Tree): byte { if t.TEmptyArray? || t.TArray? then RBRACKET else RBRACE }

  lemma TextIsClosed(mode: Strategy, t: Tree)
    requires IsContainer(t) && ValidTree(mode, t)
    ensures Text(t) == OpenText(mode, t) + [Bracket(t)]
  {
    match t
    case TArray(es) => Close([LBRACKET], es[0].pre, ElemsText(es), [RBRACKET]);
    case TObject(ms) => Close([LBRACE], ms[0].pre, MembersText(ms), [RBRACE]);
    case _ =>
  }

  lemma Close(a: bytes, b: bytes, c: bytes, d: bytes)
    ensures a + (b + (c + d)) == a + (b + c) + d
  {
  }

  /** The parser on the text of a derivation from i to end, wherever in the input that text is. */
  lemma {:induction false} CompleteValue(p: Source, depth: nat, st: State, i: nat, end: nat, ws: bytes, t: Tree)
    requires Ready(p, st) && IsGap(p.strategy, ws) && ValidTree(p.strategy, t) && depth + Height(t) <= MAX_DEPTH
    requires Occurs(p.text, st.i, i, ws) && Occurs(p.text, i, end, Text(t))
    requires ValueEnds(t, At(p.text, end)) && ReadsAlone(t, At(p.text, end), st.erange)
    ensures var r := Eval(p.lib, t, st.erange);
      ParseJson(p, depth, st) == Result(r.value, st.(i := end, erange := r.erange))
    decreases t, 3
  {
    if IsContainer(t) {
      TextIsClosed(p.strategy, t);
      var k := Split(p.text, i, end, OpenText(p.strategy, t), [Bracket(t)]);
      Head(p.text, k, end, [Bracket(t)]);
      var close := st.(i := k, erange := Eval(p.lib, t, st.erange).erange);
      GarbageStays(p, close);
      CompleteContainer(p, depth, st, i, k, ws, t, close.(i := end));
    } else {
      FirstByte(p.strategy, t);
      Head(p.text, i, end, Text(t));
      TokenOver(p, st, i, ws);
      CompleteLeaf(p, depth, st, i, end, t);
    }
  }

  /** A container is parsed from its text up to k, whatever state its closing bracket is read in. */
  lemma {:induction false} CompleteContainer(p: Source, depth: nat, st: State, i: nat, k: nat, ws: bytes, t: Tree, close: State)
    requires Ready(p, st) && IsGap(p.strategy, ws) && IsContainer(t) && ValidTree(p.strategy, t) && depth + Height(t) <= MAX_DEPTH
    requires Occurs(p.text, st.i, i, ws) && Occurs(p.text, i, k, OpenText(p.strategy, t))
    requires Closes(p, st.(i := k, erange := Eval(p.lib, t, st.erange).erange), Bracket(t), close)
    ensures ParseJson(p, depth, st) == Result(Eval(p.lib, t, st.erange).value, close)
    decreases t, 2
  {
    hide ParseJson, GetNextToken, Occurs;
    var st1 := st.(i := i + 1);
    Head(p.text, i, k, OpenText(p.strategy, t));
    TokenOver(p, st, i, ws);
    match t
    case TArray(es) =>
      CompleteArray(p, depth, st1, k, t, close);
      OpensArray(p, depth, st, st1, Result(Eval(p.lib, t, st.erange).value, close));
    case TObject(ms) =>
      CompleteObject(p, depth, st1, k, t, close);
      OpensObject(p, depth, st, st1, Result(Eval(p.lib, t, st.erange).value, close));
    case TEmptyArray(g) =>
      EmptyOver(p, st1, k, LBRACKET, g, RBRACKET, close);
      OpensEmpty(p, depth, st, st1, Array([]), close);
    case TEmptyObject(g) =>
      EmptyOver(p, st1, k, LBRACE, g, RBRACE, close);
      OpensEmpty(p, depth, st, st1, Object([]), close);
  }

  // One step of the parser at a time, so that the inductions need not unfold it.

  // ---- Folded parses ----

  ghost predicate Yields(p: Source, depth: nat, st: State, r: Result) {
    st.i <= |p.text| && depth <= MAX_DEPTH + 1 && forall x: int :: Unfold(x) ==> ParseJson(p, depth, st) == r
  }

  ghost predicate ElementsYield(p: Source, depth: nat, st: State, data: seq<Json>, r: Result) {
    0 < st.i <= |p.text| && depth <= MAX_DEPTH && forall x: int :: Unfold(x) ==> ParseElements(p, depth, st, data) == r
  }

  ghost predicate MembersYield(p: Source, depth: nat, ch: byte, st: State, data: seq<Field>, r: Result) {
    st.i <= |p.text| && depth <= MAX_DEPTH && forall x: int :: Unfold(x) ==> ParseMembers(p, depth, ch, st, data) == r
  }

  /** The value, nested at most limit deep, stands in the text from i to j. */
  ghost predicate ValueStands(mode: Strategy, s: bytes, i: nat, j: nat, t: Tree, limit: int) {
    forall x: int :: Unfold(x) ==> ValidTree(mode, t) && Height(t) <= limit && Occurs(s, i, j, Text(t))
  }

  ghost predicate ElemsStand(mode: Strategy, s: bytes, i: nat, k: nat, es: seq<Elem>, limit: int) {
    forall x: int :: Unfold(x) ==> ValidElems(mode, es) && ElemsHeight(es) <= limit && Occurs(s, i, k, ElemsText(es))
  }

  /** The elements with the gap before the first of them. */
  ghost predicate ElemsFollow(mode: Strategy, s: bytes, i: nat, k: nat, es: seq<Elem>, limit: int) {
    forall x: int :: Unfold(x) ==>
      ValidElems(mode, es) && ElemsHeight(es) <= limit && Occurs(s, i, k, es[0].pre + ElemsText(es))
  }

  ghost predicate MembersStand(mode: Strategy, s: bytes, i: nat, k: nat, ms: seq<Member>, limit: int) {
    forall x: int :: Unfold(x) ==> ValidMembers(mode, ms) && MembersHeight(ms) <= limit && Occurs(s, i, k, MembersText(ms))
  }

  ghost predicate MembersFollow(mode: Strategy, s: bytes, i: nat, k: nat, ms: seq<Member>, limit: int) {
    forall x: int :: Unfold(x) ==>
      ValidMembers(mode, ms) && MembersHeight(ms) <= limit && Occurs(s, i, k, ms[0].pre + MembersText(ms))
  }

  /** A member whose parts stand at the places q. */
  ghost predicate MemberStands(mode: Strategy, s: bytes, i: nat, m: Member, q: Places, limit: int) {
    && IsGap(mode, m.mid) && ValidChars(m.key) && IsGap(mode, m.elem.pre) && IsGap(mode, m.elem.post)
    && Occurs(s, i, q.mid, StringText(m.key)) && Occurs(s, q.mid, q.colon, m.mid)
    && q.pre == q.colon + 1 <= |s| && s[q.colon] == COLON
    && Occurs(s, q.pre, q.value, m.elem.pre) && ValueStands(mode, s, q.value, q.post, m.elem.value, limit)
    && Occurs(s, q.post, q.close, m.elem.post)
  }

  /** The element loop from the gap before an element on. */
  ghost predicate MoreElementsYield(p: Source, depth: nat, st: State, data: seq<Json>, r: Result) {
    st.i <= |p.text| && depth <= MAX_DEPTH && forall x: int :: Unfold(x) ==>
      var t := GetNextToken(p, st); 0 < t.st.i && t.ch != RBRACKET && ParseElements(p, depth, t.st, data) == r
  }

  /** The member loop from the gap before a member on. */
  ghost predicate MoreMembersYield(p: Source, depth: nat, st: State, data: seq<Field>, r: Result) {
    st.i <= |p.text| && depth <= MAX_DEPTH && forall x: int :: Unfold(x) ==>
      var t := GetNextToken(p, st); t.ch == QUOTE && ParseMembers(p, depth, t.ch, t.st, data) == r
  }

  ghost predicate ValueRead(lib: Libc, t: Tree, erange: bool, v: Reading) {
    forall x: int :: Unfold(x) ==> Eval(lib, t, erange) == v
  }

  ghost predicate ElemsRead(lib: Libc, es: seq<Elem>, data: seq<Json>, erange: bool, e: ArrayReading) {
    forall x: int :: Unfold(x) ==> EvalElems(lib, es, data, erange) == e
  }

  ghost predicate MembersRead(lib: Libc, ms: seq<Member>, data: seq<Field>, erange: bool, e: ObjectReading) {
    forall x: int :: Unfold(x) ==> EvalMembers(lib, ms, data, erange) == e
  }

  /** From st on the next token is the byte ch, and reading it leaves close, be it a failed state. */
  ghost predicate Closes(p: Source, st: State, ch: byte, close: State) {
    st.i < |p.text| && forall x: int :: Unfold(x) ==> GetNextToken(p, st) == Token(ch, close)
  }

  /** A closing token that follows a gap follows its start. */
  lemma ClosesPast(p: Source, st: State, k: nat, g: bytes, ch: byte, close: State)
    requires IsGap(p.strategy, g) && Occurs(p.text, st.i, k, g) && Closes(p, st.(i := k), ch, close)
    ensures Closes(p, st, ch, close)
  {
    assert Unfold(0);
    GarbagePast(p, st, k, g);
  }

  lemma CommaOver(p: Source, st: State, k: nat, g: bytes)
    requires IsGap(p.strategy, g) && Occurs(p.text, st.i, k, g) && k < |p.text| && p.text[k] == COMMA
    ensures Closes(p, st, COMMA, st.(i := k + 1))
  {
    TokenOver(p, st, k, g);
  }

  lemma OpensArray(p: Source, depth: nat, st: State, st1: State, r: Result)
    requires st.i <= |p.text| && depth <= MAX_DEPTH && !st1.failed
    requires GetNextToken(p, st) == Token(LBRACKET, st1) && MoreElementsYield(p, depth, st1, [], r)
    ensures ParseJson(p, depth, st) == r
  {
    assert Unfold(0);
  }

  lemma OpensObject(p: Source, depth: nat, st: State, st1: State, r: Result)
    requires st.i <= |p.text| && depth <= MAX_DEPTH && !st1.failed
    requires GetNextToken(p, st) == Token(LBRACE, st1) && MoreMembersYield(p, depth, st1, [], r)
    ensures ParseJson(p, depth, st) == r
  {
    assert Unfold(0);
  }

  lemma OpensEmpty(p: Source, depth: nat, st: State, st1: State, value: Json, close: State)
    requires st.i <= |p.text| && depth <= MAX_DEPTH && !st1.failed && (value == Array([]) || value == Object([]))
    requires GetNextToken(p, st) == Token(if value.Array? then LBRACKET else LBRACE, st1)
    requires st1.i <= |p.text| && GetNextToken(p, st1) == Token(if value.Array? then RBRACKET else RBRACE, close)
    ensures ParseJson(p, depth, st) == Result(value, close)
  {
  }

  /** After an element's value: the list ends or goes on. */
  lemma ValueStep(p: Source, depth: nat, st: State, data: seq<Json>, v: Result, ch: byte, st2: State)
    requires 0 < st.i <= |p.text| && depth <= MAX_DEPTH && Yields(p, depth + 1, st.(i := st.i - 1), v)
    requires !v.st.failed && Closes(p, v.st, ch, st2) && (ch == COMMA || ch == RBRACKET)
    ensures st2.i <= |p.text|
    ensures if ch == RBRACKET then ElementsYield(p, depth, st, data, Result(Array(data + [v.value]), st2))
      else forall r :: MoreElementsYield(p, depth, st2, data + [v.value], r) ==> ElementsYield(p, depth, st, data, r)
  {
    assert Unfold(0);
  }

  /** After a member's key: a colon and the value, then the object ends or goes on. */
  lemma KeyStep(p: Source, depth: nat, st: State, data: seq<Field>, key: bytes, st1: State, v: Result, ch: byte, st2: State)
    requires st.i <= |p.text| && depth <= MAX_DEPTH && !st1.failed && st1.i <= |p.text|
    requires ParseString(p.text, st) == StringResult(key, st1) && GetNextToken(p, st1).ch == COLON
    requires Yields(p, depth + 1, GetNextToken(p, st1).st, v) && !v.st.failed
    requires Closes(p, v.st, ch, st2) && (ch == COMMA || ch == RBRACE)
    ensures st2.i <= |p.text|
    ensures var data1 := Insert(data, key, v.value);
      if ch == RBRACE then MembersYield(p, depth, QUOTE, st, data, Result(Object(data1), st2))
      else forall r :: MoreMembersYield(p, depth, st2, data1, r) ==> MembersYield(p, depth, QUOTE, st, data, r)
  {
    assert Unfold(0);
  }

  lemma MemberStep(p: Source, depth: nat, st: State, data: seq<Field>, m: Member, q: Places, v: Result, ch: byte, st2: State)
    requires 0 < st.i <= |p.text| && depth <= MAX_DEPTH && !st.failed
    requires MemberStands(p.strategy, p.text, st.i - 1, m, q, MAX_DEPTH - depth - 1)
    requires Yields(p, depth + 1, st.(i := q.pre), v) && !v.st.failed && Closes(p, v.st, ch, st2)
    requires ch == COMMA || ch == RBRACE
    ensures st2.i <= |p.text|
    ensures var data1 := Insert(data, Decode(m.key), v.value);
      if ch == RBRACE then MembersYield(p, depth, QUOTE, st, data, Result(Object(data1), st2))
      else forall r :: MoreMembersYield(p, depth, st2, data1, r) ==> MembersYield(p, depth, QUOTE, st, data, r)
  {
    hide Decode, Insert, ParseMembers, ParseJson, ConsumeGarbage, ValueStands, StringText, IsGap, ParseString;
    var key, st1 := Decode(m.key), st.(i := q.mid);
    KeyTokens(p, st, m.key, m.mid, q, key, st1);
    KeyStep(p, depth, st, data, key, st1, v, ch, st2);
  }

  lemma KeyTokens(p: Source, st: State, cs: seq<Char>, mid: bytes, q: Places, key: bytes, st1: State)
    requires 0 < st.i <= |p.text| && !st.failed && ValidChars(cs) && IsGap(p.strategy, mid)
    requires Occurs(p.text, st.i - 1, q.mid, StringText(cs)) && Occurs(p.text, q.mid, q.colon, mid)
    requires q.colon + 1 <= |p.text| && p.text[q.colon] == COLON && key == Decode(cs) && st1 == st.(i := q.mid)
    ensures ParseString(p.text, st) == StringResult(key, st1)
    ensures GetNextToken(p, st1) == Token(COLON, st.(i := q.colon + 1))
  {
    StringOver(p.text, st, q.mid, cs);
    TokenOver(p, st1, q.colon, mid);
  }

  lemma CompleteLeaf(p: Source, depth: nat, st: State, i: nat, end: nat, t: Tree)
    requires Ready(p, st) && ValidTree(p.strategy, t) && !IsContainer(t) && depth <= MAX_DEPTH
    requires Occurs(p.text, i, end, Text(t)) && ValueEnds(t, At(p.text, end)) && ReadsAlone(t, At(p.text, end), st.erange)
    requires GetNextToken(p, st) == Token(Text(t)[0], st.(i := i + 1))
    ensures var r := Eval(p.lib, t, st.erange);
      ParseJson(p, depth, st) == Result(r.value, st.(i := end, erange := r.erange))
  {
    hide ConsumeGarbage, ParseNumber, ParseElements, ParseMembers, NumText, LexString;
    match t
    case TNum(l) => CompleteNumber(p, depth, st, i, end, l);
    case TStr(cs) => StringOver(p.text, st.(i := i + 1), end, cs);
    case _ => OccursIsSlice(p.text, i, end);
  }

  /** A number as a value, whatever follows it. */
  lemma NumberHere(p: Source, depth: nat, st: State, i: nat, end: nat, l: NumLit)
    requires Ready(p, st) && ValidNum(l) && depth <= MAX_DEPTH && Occurs(p.text, i, end, NumText(l)) && NumEnds(l, At(p.text, end))
    requires GetNextToken(p, st) == Token(NumText(l)[0], st.(i := i + 1))
    ensures var r := ReadNumberIn(p.lib, l, p.text[i..], st.erange);
      ParseJson(p, depth, st) == Result(r.value, st.(i := end, erange := r.erange))
  {
    NumberOver(p, st.(i := i), end, l);
    NumberFirst(l);
  }

  lemma CompleteNumber(p: Source, depth: nat, st: State, i: nat, end: nat, l: NumLit)
    requires Ready(p, st) && ValidNum(l) && depth <= MAX_DEPTH && Occurs(p.text, i, end, NumText(l)) && NumEnds(l, At(p.text, end))
    requires st.erange ==> !HexFollows(l, At(p.text, end))
    requires GetNextToken(p, st) == Token(NumText(l)[0], st.(i := i + 1))
    ensures var r := ReadNumber(p.lib, l, st.erange);
      ParseJson(p, depth, st) == Result(r.value, st.(i := end, erange := r.erange))
  {
    hide ParseJson, ReadNumberIn, GetNextToken, NumText;
    NumberHere(p, depth, st, i, end, l);
    OccursIsSlice(p.text, i, end);
    assert p.text[i..] == NumText(l) + p.text[end..];
    ReadsAsAlone(p.lib, l, p.text[end..], st.erange);
  }

  lemma NumberFirst(l: NumLit)
    requires ValidNum(l)
    ensures NumText(l)[0] == MINUS || IsDigit(NumText(l)[0])
  {
  }

  lemma EmptyOver(p: Source, st: State, k: nat, open: byte, g: bytes, ch: byte, close: State)
    requires 0 < st.i && IsGap(p.strategy, g) && Occurs(p.text, st.i - 1, k, [open] + g) && Closes(p, st.(i := k), ch, close)
    ensures GetNextToken(p, st) == Token(ch, close)
  {
    var a := Split(p.text, st.i - 1, k, [open], g);
    ClosesPast(p, st, k, g, ch, close);
    assert Unfold(0);
  }

  /** Inside a container a value is followed by a gap, a comma or a closing bracket. */
  lemma Delimited(p: Source, st: State, ch: byte, st2: State, t: Tree)
    requires Closes(p, st, ch, st2) && (ch == COMMA || ch == RBRACKET || ch == RBRACE)
    ensures ValueEnds(t, At(p.text, st.i)) && ReadsAlone(t, At(p.text, st.i), true)
  {
    assert Unfold(0);
    if NoGap(p.strategy, p.text[st.i]) { GarbageStays(p, st); }
  }

  lemma {:induction false} DelimitedValue(p: Source, depth: nat, st: State, i: nat, j: nat, ws: bytes, t: Tree, v: Reading,
                                          ch: byte, st2: State)
    requires Ready(p, st) && depth <= MAX_DEPTH + 1 && IsGap(p.strategy, ws) && Occurs(p.text, st.i, i, ws)
    requires ValueStands(p.strategy, p.text, i, j, t, MAX_DEPTH - depth) && ValueRead(p.lib, t, st.erange, v)
    requires Closes(p, st.(i := j, erange := v.erange), ch, st2) && (ch == COMMA || ch == RBRACKET || ch == RBRACE)
    ensures Yields(p, depth, st, Result(v.value, st.(i := j, erange := v.erange)))
    decreases t, 4
  {
    assert Unfold(0);
    Delimited(p, st.(i := j, erange := v.erange), ch, st2, t);
    CompleteValue(p, depth, st, i, j, ws, t);
  }

  // ---- Arrays ----

  ghost predicate ValidElems(mode: Strategy, es: seq<Elem>) {
    es != [] && forall k :: 0 <= k < |es| ==> ValidElem(mode, es[k])
  }

  lemma {:induction false} CompleteArray(p: Source, depth: nat, st: State, k: nat, t: Tree, close: State)
    requires Ready(p, st) && 0 < st.i && t.TArray? && ValidTree(p.strategy, t) && depth + Height(t) <= MAX_DEPTH
    requires Occurs(p.text, st.i - 1, k, OpenText(p.strategy, t))
    requires Closes(p, st.(i := k, erange := Eval(p.lib, t, st.erange).erange), RBRACKET, close)
    ensures MoreElementsYield(p, depth, st, [], Result(Eval(p.lib, t, st.erange).value, close))
    decreases t, 1
  {
    var es := t.elems;
    var a := Split(p.text, st.i - 1, k, [LBRACKET], es[0].pre + ElemsText(es));
    CompleteMoreElems(p, depth, st, k, es, [], EvalElems(p.lib, es, [], st.erange), close);
  }

  /** The elements from the gap before the first of them on. */
  lemma {:induction false} CompleteMoreElems(p: Source, depth: nat, st: State, k: nat, es: seq<Elem>, data: seq<Json>,
                                             e: ArrayReading, close: State)
    requires Ready(p, st) && depth <= MAX_DEPTH && ElemsFollow(p.strategy, p.text, st.i, k, es, MAX_DEPTH - depth - 1)
    requires ElemsRead(p.lib, es, data, st.erange, e) && Closes(p, st.(i := k, erange := e.erange), RBRACKET, close)
    ensures MoreElementsYield(p, depth, st, data, Result(Array(e.items), close))
    decreases es, 2
  {
    hide Text, ElemsText, Height, ElemsHeight, Eval, EvalElems, ConsumeGarbage;
    var b := NextElem(p, st, k, es, MAX_DEPTH - depth - 1);
    CompleteElems(p, depth, st.(i := b + 1), k, es, data, e, close);
    assert Unfold(0);
  }

  /** Before an element: a gap is skipped and the first byte of its value is read. */
  lemma NextElem(p: Source, st: State, k: nat, es: seq<Elem>, limit: int) returns (b: nat)
    requires st.i <= |p.text| && ElemsFollow(p.strategy, p.text, st.i, k, es, limit)
    ensures ElemsStand(p.strategy, p.text, b, k, es, limit) && b < |p.text| && StartsValue(p.text[b])
    ensures GetNextToken(p, st) == Token(p.text[b], st.(i := b + 1))
  {
    assert Unfold(0);
    assert ValidElem(p.strategy, es[0]);
    FirstByte(p.strategy, es[0].value);
    b := Split(p.text, st.i, k, es[0].pre, ElemsText(es));
    Head(p.text, b, k, ElemsText(es));
    TokenOver(p, st, b, es[0].pre);
  }

  /** What follows an element: nothing, or a comma and the other elements. */
  function ElemsRest(es: seq<Elem>): (s: bytes)
    requires es != []
  {
    if |es| == 1 then [] else [COMMA] + (es[1].pre + ElemsText(es[1..]))
  }

  lemma ElemParts(mode: Strategy, s: bytes, i: nat, k: nat, es: seq<Elem>, limit: int) returns (e: Elem, a: nat, b: nat)
    requires ElemsStand(mode, s, i, k, es, limit)
    ensures es != [] && e == es[0] && ValueStands(mode, s, i, a, e.value, limit)
    ensures IsGap(mode, e.post) && Occurs(s, a, b, e.post)
    ensures b <= k <= |s| && if |es| == 1 then b == k else b < k && s[b] == COMMA
    ensures |es| > 1 ==> ElemsFollow(mode, s, b + 1, k, es[1..], limit)
  {
    hide Text, Height, IsGap;
    assert Unfold(0);
    e := es[0];
    assert ValidElem(mode, e);
    a := Split(s, i, k, Text(e.value), e.post + ElemsRest(es));
    b := Split(s, a, k, e.post, ElemsRest(es));
    if |es| > 1 { ElemsTail(mode, s, b, k, es, es[1..], limit); }
  }

  lemma ElemsTail(mode: Strategy, s: bytes, b: nat, k: nat, es: seq<Elem>, tail: seq<Elem>, limit: int)
    requires ValidElems(mode, es) && |es| > 1 && tail == es[1..] && ElemsHeight(es) <= limit && Occurs(s, b, k, ElemsRest(es))
    ensures b < k <= |s| && s[b] == COMMA && ElemsFollow(mode, s, b + 1, k, tail, limit)
  {
    hide Text, Height, ElemsText, ValidElem, ElemsFollow, ElemsHeight, ValidElems;
    ElemsTailIsValid(mode, es, tail, limit);
    assert tail[0] == es[1];
    Head(s, b, k, ElemsRest(es));
    var c := Split(s, b, k, [COMMA], tail[0].pre + ElemsText(tail));
    FoldElems(mode, s, b + 1, k, tail, limit);
  }

  lemma ElemsTailIsValid(mode: Strategy, es: seq<Elem>, tail: seq<Elem>, limit: int)
    requires ValidElems(mode, es) && |es| > 1 && tail == es[1..] && ElemsHeight(es) <= limit
    ensures ValidElems(mode, tail) && ElemsHeight(tail) <= limit
  {
    hide ValidElem, Height;
  }

  lemma FoldElems(mode: Strategy, s: bytes, i: nat, k: nat, es: seq<Elem>, limit: int)
    requires ValidElems(mode, es) && ElemsHeight(es) <= limit && Occurs(s, i, k, es[0].pre + ElemsText(es))
    ensures ElemsFollow(mode, s, i, k, es, limit)
  {
  }

  lemma {:induction false} CompleteElems(p: Source, depth: nat, st: State, k: nat, es: seq<Elem>, data: seq<Json>,
                                         e: ArrayReading, close: State)
    requires Ready(p, st) && 0 < st.i && depth <= MAX_DEPTH
    requires ElemsStand(p.strategy, p.text, st.i - 1, k, es, MAX_DEPTH - depth - 1)
    requires ElemsRead(p.lib, es, data, st.erange, e) && Closes(p, st.(i := k, erange := e.erange), RBRACKET, close)
    ensures ElementsYield(p, depth, st, data, Result(Array(e.items), close))
    decreases es, 1
  {
    hide Text, ElemsText, Height, ElemsHeight, Eval, EvalElems, ParseElements, ParseJson, ConsumeGarbage;
    var e0, a, b := ElemParts(p.strategy, p.text, st.i - 1, k, es, MAX_DEPTH - depth - 1);
    var v := EvalStep(p.lib, es, data, st.erange, e);
    var after := st.(i := a, erange := v.erange);
    if |es| == 1 {
      ClosesPast(p, after, k, e0.post, RBRACKET, close);
      OneElem(p, depth, st, a, e0, v, data, RBRACKET, close);
    } else {
      var st1, rest, data1 := after.(i := b + 1), es[1..], data + [v.value];
      CommaOver(p, after, b, e0.post);
      OneElem(p, depth, st, a, e0, v, data, COMMA, st1);
      CompleteMoreElems(p, depth, st1, k, rest, data1, e, close);
    }
  }

  lemma {:induction false} OneElem(p: Source, depth: nat, st: State, a: nat, e: Elem, v: Reading, data: seq<Json>,
                                   ch: byte, st2: State)
    requires Ready(p, st) && 0 < st.i && depth <= MAX_DEPTH
    requires ValueStands(p.strategy, p.text, st.i - 1, a, e.value, MAX_DEPTH - depth - 1) && ValueRead(p.lib, e.value, st.erange, v)
    requires Closes(p, st.(i := a, erange := v.erange), ch, st2) && (ch == COMMA || ch == RBRACKET)
    ensures st2.i <= |p.text|
    ensures if ch == RBRACKET then ElementsYield(p, depth, st, data, Result(Array(data + [v.value]), st2))
      else forall r :: MoreElementsYield(p, depth, st2, data + [v.value], r) ==> ElementsYield(p, depth, st, data, r)
    decreases e, 0
  {
    var before, ws := st.(i := st.i - 1), [];
    DelimitedValue(p, depth + 1, before, before.i, a, ws, e.value, v, ch, st2);
    ValueStep(p, depth, st, data, Result(v.value, st.(i := a, erange := v.erange)), ch, st2);
  }

  lemma EvalStep(lib: Libc, es: seq<Elem>, data: seq<Json>, erange: bool, e: ArrayReading) returns (v: Reading)
    requires es != [] && ElemsRead(lib, es, data, erange, e)
    ensures ValueRead(lib, es[0].value, erange, v)
    ensures if |es| == 1 then e == ArrayReading(data + [v.value], v.erange)
      else ElemsRead(lib, es[1..], data + [v.value], v.erange, e)
  {
    assert Unfold(0);
    v := Eval(lib, es[0].value, erange);
    assert e == EvalElems(lib, es[1..], data + [v.value], v.erange);
  }

  // ---- Objects ----

  ghost predicate ValidMembers(mode: Strategy, ms: seq<Member>) {
    ms != [] && forall k :: 0 <= k < |ms| ==> ValidMember(mode, ms[k])
  }

  lemma {:induction false} CompleteObject(p: Source, depth: nat, st: State, k: nat, t: Tree, close: State)
    requires Ready(p, st) && 0 < st.i && t.TObject? && ValidTree(p.strategy, t) && depth + Height(t) <= MAX_DEPTH
    requires Occurs(p.text, st.i - 1, k, OpenText(p.strategy, t))
    requires Closes(p, st.(i := k, erange := Eval(p.lib, t, st.erange).erange), RBRACE, close)
    ensures MoreMembersYield(p, depth, st, [], Result(Eval(p.lib, t, st.erange).value, close))
    decreases t, 1
  {
    var ms := t.members;
    var a := Split(p.text, st.i - 1, k, [LBRACE], ms[0].pre + MembersText(ms));
    CompleteMoreMembers(p, depth, st, k, ms, [], EvalMembers(p.lib, ms, [], st.erange), close);
  }

  /** The members from the gap before the first of them on. */
  lemma {:induction false} CompleteMoreMembers(p: Source, depth: nat, st: State, k: nat, ms: seq<Member>, data: seq<Field>,
                                               e: ObjectReading, close: State)
    requires Ready(p, st) && depth <= MAX_DEPTH && MembersFollow(p.strategy, p.text, st.i, k, ms, MAX_DEPTH - depth - 1)
    requires MembersRead(p.lib, ms, data, st.erange, e) && Closes(p, st.(i := k, erange := e.erange), RBRACE, close)
    ensures MoreMembersYield(p, depth, st, data, Result(Object(e.fields), close))
    decreases ms, 1
  {
    hide Text, MembersText, Height, MembersHeight, Eval, EvalMembers, ConsumeGarbage;
    var b := NextMember(p, st, k, ms, MAX_DEPTH - depth - 1);
    CompleteMembers(p, depth, st.(i := b + 1), k, ms, data, e, close);
    assert Unfold(0);
  }

  /** Before a member: a gap is skipped and the opening quote of its key is read. */
  lemma NextMember(p: Source, st: State, k: nat, ms: seq<Member>, limit: int) returns (b: nat)
    requires st.i <= |p.text| && MembersFollow(p.strategy, p.text, st.i, k, ms, limit)
    ensures MembersStand(p.strategy, p.text, b, k, ms, limit) && b < |p.text|
    ensures GetNextToken(p, st) == Token(QUOTE, st.(i := b + 1))
  {
    assert Unfold(0);
    assert ValidMember(p.strategy, ms[0]);
    assert MembersText(ms)[0] == QUOTE;
    b := Split(p.text, st.i, k, ms[0].pre, MembersText(ms));
    Head(p.text, b, k, MembersText(ms));
    TokenOver(p, st, b, ms[0].pre);
  }

  /** What follows a member: nothing, or a comma and the other members. */
  function MembersRest(ms: seq<Member>): (s: bytes)
    requires ms != []
  {
    if |ms| == 1 then [] else [COMMA] + (ms[1].pre + MembersText(ms[1..]))
  }

  /** Where the parts of a member are: key, gap, colon, gap, value, gap, the rest. */
  datatype Places = Places(mid: nat, colon: nat, pre: nat, value: nat, post: nat, close: nat)

  lemma SplitMember(s: bytes, i: nat, k: nat, key: bytes, mid: bytes, pre: bytes, value: bytes, post: bytes, rest: bytes)
    returns (q: Places)
    requires Occurs(s, i, k, key + (mid + ([COLON] + (pre + (value + (post + rest))))))
    ensures Occurs(s, i, q.mid, key) && Occurs(s, q.mid, q.colon, mid)
    ensures Occurs(s, q.colon, q.pre, [COLON]) && q.pre == q.colon + 1 && s[q.colon] == COLON
    ensures Occurs(s, q.pre, q.value, pre) && Occurs(s, q.value, q.post, value)
    ensures Occurs(s, q.post, q.close, post) && Occurs(s, q.close, k, rest)
  {
    var fromPost := post + rest;
    var fromValue := value + fromPost;
    var fromColon := [COLON] + (pre + fromValue);
    var midAt := Split(s, i, k, key, mid + fromColon);
    var colonAt := Split(s, midAt, k, mid, fromColon);
    var preAt := Split(s, colonAt, k, [COLON], pre + fromValue);
    Head(s, colonAt, preAt, [COLON]);
    var valueAt := Split(s, preAt, k, pre, fromValue);
    var postAt := Split(s, valueAt, k, value, fromPost);
    var closeAt := Split(s, postAt, k, post, rest);
    q := Places(midAt, colonAt, preAt, valueAt, postAt, closeAt);
  }

  lemma MemberParts(mode: Strategy, s: bytes, i: nat, k: nat, ms: seq<Member>, limit: int) returns (m: Member, q: Places)
    requires MembersStand(mode, s, i, k, ms, limit)
    ensures ms != [] && m == ms[0] && MemberStands(mode, s, i, m, q, limit)
    ensures q.close <= k <= |s| && if |ms| == 1 then q.close == k else q.close < k && s[q.close] == COMMA
    ensures |ms| > 1 ==> MembersFollow(mode, s, q.close + 1, k, ms[1..], limit)
  {
    hide Text, Height, IsGap, StringText, ValidMember, MemberStands, MembersFollow;
    assert Unfold(0);
    m := ms[0];
    assert ValidMember(mode, m);
    q := SplitMember(s, i, k, StringText(m.key), m.mid, m.elem.pre, Text(m.elem.value), m.elem.post, MembersRest(ms));
    PlaceMember(mode, s, i, m, q, limit);
    if |ms| > 1 { MembersTail(mode, s, q.close, k, ms, ms[1..], limit); }
  }

  lemma PlaceMember(mode: Strategy, s: bytes, i: nat, m: Member, q: Places, limit: int)
    requires ValidMember(mode, m) && Height(m.elem.value) <= limit
    requires Occurs(s, i, q.mid, StringText(m.key)) && Occurs(s, q.mid, q.colon, m.mid)
    requires q.pre == q.colon + 1 <= |s| && s[q.colon] == COLON
    requires Occurs(s, q.pre, q.value, m.elem.pre) && Occurs(s, q.value, q.post, Text(m.elem.value))
    requires Occurs(s, q.post, q.close, m.elem.post)
    ensures MemberStands(mode, s, i, m, q, limit)
  {
    hide Text, Height, IsGap, StringText;
    assert ValidElem(mode, m.elem);
  }

  lemma MembersTail(mode: Strategy, s: bytes, b: nat, k: nat, ms: seq<Member>, tail: seq<Member>, limit: int)
    requires ValidMembers(mode, ms) && |ms| > 1 && tail == ms[1..] && MembersHeight(ms) <= limit && Occurs(s, b, k, MembersRest(ms))
    ensures b < k <= |s| && s[b] == COMMA && MembersFollow(mode, s, b + 1, k, tail, limit)
  {
    hide Text, Height, MembersText, ValidMember, MembersFollow, MembersHeight, ValidMembers;
    MembersTailIsValid(mode, ms, tail, limit);
    assert tail[0] == ms[1];
    Head(s, b, k, MembersRest(ms));
    var c := Split(s, b, k, [COMMA], tail[0].pre + MembersText(tail));
    FoldMembers(mode, s, b + 1, k, tail, limit);
  }

  lemma MembersTailIsValid(mode: Strategy, ms: seq<Member>, tail: seq<Member>, limit: int)
    requires ValidMembers(mode, ms) && |ms| > 1 && tail == ms[1..] && MembersHeight(ms) <= limit
    ensures ValidMembers(mode, tail) && MembersHeight(tail) <= limit
  {
    hide ValidMember, Height;
  }

  lemma FoldMembers(mode: Strategy, s: bytes, i: nat, k: nat, ms: seq<Member>, limit: int)
    requires ValidMembers(mode, ms) && MembersHeight(ms) <= limit && Occurs(s, i, k, ms[0].pre + MembersText(ms))
    ensures MembersFollow(mode, s, i, k, ms, limit)
  {
  }

  lemma {:induction false} CompleteMembers(p: Source, depth: nat, st: State, k: nat, ms: seq<Member>, data: seq<Field>,
                                           e: ObjectReading, close: State)
    requires Ready(p, st) && 0 < st.i && depth <= MAX_DEPTH
    requires MembersStand(p.strategy, p.text, st.i - 1, k, ms, MAX_DEPTH - depth - 1)
    requires MembersRead(p.lib, ms, data, st.erange, e) && Closes(p, st.(i := k, erange := e.erange), RBRACE, close)
    ensures MembersYield(p, depth, QUOTE, st, data, Result(Object(e.fields), close))
    decreases ms, 0
  {
    hide Text, MembersText, Height, MembersHeight, Eval, EvalMembers, ParseMembers, ParseJson, ConsumeGarbage;
    var m, q := MemberParts(p.strategy, p.text, st.i - 1, k, ms, MAX_DEPTH - depth - 1);
    var v, data1 := EvalMemberStep(p.lib, ms, data, st.erange, e);
    var after := st.(i := q.post, erange := v.erange);
    if |ms| == 1 {
      ClosesPast(p, after, k, m.elem.post, RBRACE, close);
      OneMember(p, depth, st, m, v, q, data, data1, RBRACE, close);
    } else {
      CommaOver(p, after, q.close, m.elem.post);
      OneMember(p, depth, st, m, v, q, data, data1, COMMA, after.(i := q.close + 1));
      CompleteMoreMembers(p, depth, after.(i := q.close + 1), k, ms[1..], data1, e, close);
    }
  }

  lemma {:induction false} OneMember(p: Source, depth: nat, st: State, m: Member, v: Reading, q: Places, data: seq<Field>,
                                     data1: seq<Field>, ch: byte, st2: State)
    requires Ready(p, st) && 0 < st.i && depth <= MAX_DEPTH
    requires MemberStands(p.strategy, p.text, st.i - 1, m, q, MAX_DEPTH - depth - 1)
    requires ValueRead(p.lib, m.elem.value, st.erange, v) && Stored(data, m.key, v.value, data1)
    requires Closes(p, st.(i := q.post, erange := v.erange), ch, st2) && (ch == COMMA || ch == RBRACE)
    ensures st2.i <= |p.text|
    ensures if ch == RBRACE then MembersYield(p, depth, QUOTE, st, data, Result(Object(data1), st2))
      else forall r :: MoreMembersYield(p, depth, st2, data1, r) ==> MembersYield(p, depth, QUOTE, st, data, r)
    decreases m, 0
  {
    hide Text, Height, Eval, ParseMembers, ParseJson, ConsumeGarbage;
    assert Unfold(0);
    assert m.elem.value < m.elem < m;
    DelimitedValue(p, depth + 1, st.(i := q.pre), q.value, q.post, m.elem.pre, m.elem.value, v, ch, st2);
    MemberStep(p, depth, st, data, m, q, Result(v.value, st.(i := q.post, erange := v.erange)), ch, st2);
  }

  ghost predicate Stored(data: seq<Field>, key: seq<Char>, value: Json, data1: seq<Field>) {
    forall x: int :: Unfold(x) ==> data1 == Insert(data, Decode(key), value)
  }

  lemma EvalMemberStep(lib: Libc, ms: seq<Member>, data: seq<Field>, erange: bool, e: ObjectReading)
    returns (v: Reading, data1: seq<Field>)
    requires ms != [] && MembersRead(lib, ms, data, erange, e)
    ensures ValueRead(lib, ms[0].elem.value, erange, v) && Stored(data, ms[0].key, v.value, data1)
    ensures if |ms| == 1 then e == ObjectReading(data1, v.erange) else MembersRead(lib, ms[1..], data1, v.erange, e)
  {
    assert Unfold(0);
    v := Eval(lib, ms[0].elem.value, erange);
    data1 := Insert(data, Decode(ms[0].key), v.value);
    assert e == EvalMembers(lib, ms[1..], data1, v.erange);
  }

  // ---- Documents ----

  /** Where the value of a document begins and ends in its text. */
  lemma DocumentParts(mode: Strategy, s: bytes, d: Document) returns (i: nat, j: nat)
    requires Derives(mode, s, d)
    ensures Occurs(s, 0, i, d.pre) && Occurs(s, i, j, Text(d.value)) && Occurs(s, j, |s|, d.post)
    ensures ValueEnds(d.value, At(s, j)) && ReadsAlone(d.value, At(s, j), true)
  {
    hide Text, Height, ValidTree, MayEnd, ValueEnds, ReadsAlone;
    OccursIsSlice(s, 0, |s|);
    assert s[0..|s|] == s;
    i := Split(s, 0, |s|, d.pre, Text(d.value) + d.post);
    j := Split(s, i, |s|, Text(d.value), d.post);
    BeforeGap(mode, s, j, d.post, d.value);
  }

  lemma BeforeGap(mode: Strategy, s: bytes, j: nat, post: bytes, t: Tree)
    requires IsGap(mode, post) && Occurs(s, j, |s|, post)
    ensures ValueEnds(t, At(s, j)) && ReadsAlone(t, At(s, j), true)
  {
    if j < |s| {
      Head(s, j, |s|, post);
      GapHead(mode, post);
    }
  }

  lemma ParseStep(p: Source, st: State, v: Result, end: State)
    requires Yields(p, 0, st, v) && v.st.i <= |p.text| && ConsumeGarbage(p, v.st) == end && end.i == |p.text|
    ensures Parse(p, st) == Result(v.value, end)
  {
    assert Unfold(0);
  }

  /** A text with a derivation is parsed, whole and without error, to the value of that derivation. */
  lemma Complete(p: Source, err: Error, erange: bool, d: Document)
    requires Derives(p.strategy, p.text, d)
    ensures var r := Eval(p.lib, d.value, erange);
      Parse(p, Start(err, erange)) == Result(r.value, State(|p.text|, false, err, r.erange))
  {
    var st, r := Start(err, erange), Eval(p.lib, d.value, erange);
    var i, j := DocumentParts(p.strategy, p.text, d);
    CompleteValue(p, 0, st, i, j, d.pre, d.value);
    var after := st.(i := j, erange := r.erange);
    EndOver(p, after, d.post);
    ParseStep(p, st, Result(r.value, after), after.(i := |p.text|));
  }
}
