/**
 * What each step of the json11 parser does to the parser's state, as functions. The class in
 * JsonParser.dfy is proved to compute these; JsonSound.dfy and JsonComplete.dfy relate them to
 * the grammar.
 */
module JsonParsing {
  import opened Bytes
  import opened JsonValue
  import opened JsonGrammar

  /** The error messages, by the place that raises them. */
  datatype Error =
    | NoError
    | EndInComment
    | EndInInlineComment
    | EndInMultiLineComment
    | MalformedComment
    | EndOfInput
    | EndInString
    | UnescapedControl(b: byte)
    | BadUnicodeEscape(esc: bytes)
    | InvalidEscape(b: byte)
    | LeadingZero
    | InvalidInNumber(b: byte)
    | NoFractionDigit
    | NoExponentDigit
    | ExpectedWord(expected: bytes, got: bytes)
    | DepthExceeded
    | ExpectedKey(b: byte)
    | ExpectedColon(b: byte)
    | ExpectedCommaInObject(b: byte)
    | ExpectedCommaInList(b: byte)
    | ExpectedValue(b: byte)
    | Trailing(b: byte)

  /** What does not change during a parse. */
  datatype Source = Source(text: bytes, strategy: Strategy, lib: Libc)

  /** The cursor, the sticky failure flag with the message it keeps, and errno == ERANGE. */
  datatype State = State(i: nat, failed: bool, err: Error, erange: bool)

  /** fail(): only the first message is kept. */
  function Fail(st: State, msg: Error): (r: State)
    ensures r.failed && r.i == st.i && r.erange == st.erange
    ensures r.err == if st.failed then st.err else msg
  {
    if st.failed then st else st.(failed := true, err := msg)
  }

  /** A failure is never taken back, and the message changes only with the first failure. */
  predicate Sticky(before: State, after: State) {
    (before.failed ==> after.failed) && (before.failed == after.failed ==> after.err == before.err)
    && (before.erange ==> after.erange)
  }

  // ---- Whitespace and comments ----

  function SkipWs(s: bytes, i: nat): (j: nat)
    requires i <= |s|
    ensures i <= j <= |s|
    decreases |s| - i
  {
    if i < |s| && IsWs(s[i]) then SkipWs(s, i + 1) else i
  }

  lemma {:induction false} SkipWsStops(s: bytes, i: nat)
    requires i <= |s|
    ensures var j := SkipWs(s, i);
      (j < |s| ==> !IsWs(s[j])) && forall k :: i <= k < j ==> IsWs(s[k])
    decreases |s| - i
  {
    if i < |s| && IsWs(s[i]) { SkipWsStops(s, i + 1); }
  }

  datatype Found = Found(found: bool, st: State)

  function ConsumeComment(s: bytes, st: State): (r: Found)
    requires st.i <= |s|
    ensures st.i <= r.st.i <= |s| && Sticky(st, r.st) && r.st.erange == st.erange
    ensures r.found ==> st.i < r.st.i
  {
    var i := st.i;
    if At(s, i) != SLASH then Found(false, st)
    else if i + 1 == |s| then Found(false, Fail(st.(i := i + 1), EndInComment))
    else if s[i + 1] == SLASH then
      var j := FindNewline(s, i + 2);
      if j == |s| then Found(false, Fail(st.(i := j), EndInInlineComment)) else Found(true, st.(i := j))
    else if s[i + 1] == STAR then
      var j := FindClose(s, i + 2);
      if j + 1 >= |s| then Found(false, Fail(st.(i := j), EndInMultiLineComment))
      else if j + 2 == |s| then Found(false, Fail(st.(i := j + 2), EndInMultiLineComment))
      else Found(true, st.(i := j + 2))
    else Found(false, Fail(st.(i := i + 1), MalformedComment))
  }

  /** Comments and whitespace in turn, until no comment is found. */
  function ConsumeComments(s: bytes, st: State): (r: State)
    requires st.i <= |s|
    ensures st.i <= r.i <= |s| && Sticky(st, r) && r.erange == st.erange
    decreases |s| - st.i
  {
    var c := ConsumeComment(s, st);
    var next := c.st.(i := SkipWs(s, c.st.i));
    if c.found then ConsumeComments(s, next) else next
  }

  function ConsumeGarbage(p: Source, st: State): (r: State)
    requires st.i <= |p.text|
    ensures st.i <= r.i <= |p.text| && Sticky(st, r) && r.erange == st.erange
  {
    var st1 := st.(i := SkipWs(p.text, st.i));
    if p.strategy == Comments then ConsumeComments(p.text, st1) else st1
  }

  datatype Token = Token(ch: byte, st: State)

  function GetNextToken(p: Source, st: State): (r: Token)
    requires st.i <= |p.text|
    ensures st.i <= r.st.i <= |p.text| && Sticky(st, r.st) && r.st.erange == st.erange
    ensures !r.st.failed || r.ch != 0 ==> st.i < r.st.i && r.ch == p.text[r.st.i - 1]
  {
    var st1 := ConsumeGarbage(p, st);
    if st1.i == |p.text| then Token(0, Fail(st1, EndOfInput)) else Token(p.text[st1.i], st1.(i := st1.i + 1))
  }

  // ---- Strings ----

  /** The chars of a string up to its closing quote, or the error and the cursor it leaves. */
  datatype Lexed = Lexed(chars: seq<Char>, end: nat) | LexError(err: Error, pos: nat)

  function Prepend(cs: seq<Char>, r: Lexed): Lexed {
    match r
    case Lexed(chars, end) => Lexed(cs + chars, end)
    case LexError(_, _) => r
  }

  function LexString(s: bytes, i: nat): (r: Lexed)
    requires i <= |s|
    ensures r.Lexed? ==> i < r.end <= |s|
    ensures r.LexError? ==> i <= r.pos <= |s|
    decreases |s| - i
  {
    if i == |s| then LexError(EndInString, i)
    else if s[i] == QUOTE then Lexed([], i + 1)
    else if s[i] <= 0x1F then LexError(UnescapedControl(s[i]), i + 1)
    else if s[i] != BACKSLASH then Prepend([Unescaped(s[i])], LexString(s, i + 1))
    else if i + 1 == |s| then LexError(EndInString, i + 1)
    else if s[i + 1] == LOWER_U then
      var esc := Substr(s, i + 2, 4);
      if !IsHex4(esc) then LexError(BadUnicodeEscape(esc), i + 2)
      else Prepend([Hex(esc)], LexString(s, i + 6))
    else if IsShortLetter(s[i + 1]) then Prepend([Short(s[i + 1])], LexString(s, i + 2))
    else LexError(InvalidEscape(s[i + 1]), i + 2)
  }

  lemma {:induction false} LexedIsValid(s: bytes, i: nat)
    requires i <= |s|
    ensures var r := LexString(s, i); r.Lexed? ==> ValidChars(r.chars)
    decreases |s| - i
  {
    if i < |s| && s[i] > 0x1F && s[i] != QUOTE {
      if s[i] != BACKSLASH {
        LexedIsValid(s, i + 1);
      } else if i + 1 < |s| && s[i + 1] == LOWER_U && IsHex4(Substr(s, i + 2, 4)) {
        LexedIsValid(s, i + 6);
      } else if i + 1 < |s| && IsShortLetter(s[i + 1]) {
        LexedIsValid(s, i + 2);
      }
    }
  }

  datatype StringResult = StringResult(value: bytes, st: State)

  function ParseString(s: bytes, st: State): (r: StringResult)
    requires st.i <= |s|
    ensures st.i <= r.st.i <= |s| && Sticky(st, r.st)
    ensures !r.st.failed ==> st.i < r.st.i
  {
    match LexString(s, st.i)
    case Lexed(chars, end) => StringResult(Decode(chars), st.(i := end))
    case LexError(err, pos) => StringResult([], Fail(st.(i := pos), err))
  }

  // ---- Numbers and words ----

  function DigitsEnd(s: bytes, i: nat): (j: nat)
    requires i <= |s|
    ensures i <= j <= |s|
    decreases |s| - i
  {
    if i < |s| && IsDigit(s[i]) then DigitsEnd(s, i + 1) else i
  }

  lemma {:induction false} DigitsEndStops(s: bytes, i: nat)
    requires i <= |s|
    ensures var j := DigitsEnd(s, i);
      !IsDigit(At(s, j)) && forall k :: i <= k < j ==> IsDigit(s[k])
    decreases |s| - i
  {
    if i < |s| && IsDigit(s[i]) { DigitsEndStops(s, i + 1); }
  }

  datatype Result = Result(value: Json, st: State)

  predicate HasItems(v: Json) { v.Array? || v.Object? }

  /** The exponent part, if there is one, and strtod on the text from the literal on. */
  function ParseExponent(p: Source, st: State, start: nat): (r: Result)
    requires start <= st.i <= |p.text|
    ensures st.i <= r.st.i <= |p.text| && Sticky(st, r.st) && !HasItems(r.value)
  {
    var s, i := p.text, st.i;
    if At(s, i) != LOWER_E && At(s, i) != UPPER_E then FinishNumber(p, st, start)
    else
      var j := if At(s, i + 1) == PLUS || At(s, i + 1) == MINUS then i + 2 else i + 1;
      if !IsDigit(At(s, j)) then Result(Nul, Fail(st.(i := j), NoExponentDigit))
      else FinishNumber(p, st.(i := DigitsEnd(s, j)), start)
  }

  function FinishNumber(p: Source, st: State, start: nat): (r: Result)
    requires start <= st.i <= |p.text|
    ensures r.st == st.(erange := r.st.erange) && Sticky(st, r.st) && !HasItems(r.value)
  {
    var r := ReadDouble(p.lib, p.text[start..], st.erange);
    Result(r.value, st.(erange := r.erange))
  }

  /** What follows the integer part of a literal that began at start. */
  function ParseAfterInteger(p: Source, st: State, start: nat): (r: Result)
    requires start < st.i <= |p.text|
    ensures st.i <= r.st.i <= |p.text| && Sticky(st, r.st) && !HasItems(r.value)
  {
    var s, i := p.text, st.i;
    if At(s, i) == DOT then
      if !IsDigit(At(s, i + 1)) then Result(Nul, Fail(st.(i := i + 1), NoFractionDigit))
      else ParseExponent(p, st.(i := DigitsEnd(s, i + 1)), start)
    else if At(s, i) == LOWER_E || At(s, i) == UPPER_E then ParseExponent(p, st, start)
    else
      var r := ReadInteger(p.lib, s[start..i], s[start..], st.erange);
      Result(r.value, st.(erange := r.erange))
  }

  function ParseNumber(p: Source, st: State): (r: Result)
    requires st.i < |p.text|
    ensures st.i <= r.st.i <= |p.text| && Sticky(st, r.st) && !HasItems(r.value)
    ensures !r.st.failed ==> st.i < r.st.i
  {
    var s, start := p.text, st.i;
    var i := if s[start] == MINUS then start + 1 else start;
    if At(s, i) == ZERO then
      if IsDigit(At(s, i + 1)) then Result(Nul, Fail(st.(i := i + 1), LeadingZero))
      else ParseAfterInteger(p, st.(i := i + 1), start)
    else if IsDigit(At(s, i)) then
      ParseAfterInteger(p, st.(i := DigitsEnd(s, i + 1)), start)
    else Result(Nul, Fail(st.(i := i), InvalidInNumber(At(s, i))))
  }

  /** expect(): called with the first byte already read. */
  function Expect(p: Source, st: State, expected: bytes, value: Json): (r: Result)
    requires 0 < st.i <= |p.text|
    ensures st.i - 1 <= r.st.i <= |p.text| && Sticky(st, r.st)
    ensures !r.st.failed ==> r.st.i == st.i - 1 + |expected|
    ensures r.value == value || r.value == Nul
  {
    var i := st.i - 1;
    var got := Substr(p.text, i, |expected|);
    if got == expected then Result(value, st.(i := i + |expected|))
    else Result(Nul, Fail(st.(i := i), ExpectedWord(expected, got)))
  }

  // ---- Values ----

  function ParseJson(p: Source, depth: nat, st: State): (r: Result)
    requires st.i <= |p.text| && depth <= MAX_DEPTH + 1
    ensures r.st.i <= |p.text| && Sticky(st, r.st)
    ensures !r.st.failed ==> st.i < r.st.i
    decreases MAX_DEPTH + 1 - depth, 1, 0
  {
    if depth > MAX_DEPTH then Result(Nul, Fail(st, DepthExceeded)) else
    var t := GetNextToken(p, st);
    if t.st.failed then Result(Nul, t.st)
    else if t.ch == MINUS || IsDigit(t.ch) then ParseNumber(p, t.st.(i := t.st.i - 1))
    else if t.ch == LOWER_T then Expect(p, t.st, TRUE_TEXT, Bool(true))
    else if t.ch == LOWER_F then Expect(p, t.st, FALSE_TEXT, Bool(false))
    else if t.ch == LOWER_N then Expect(p, t.st, NULL_TEXT, Nul)
    else if t.ch == QUOTE then
      var r := ParseString(p.text, t.st);
      Result(Str(r.value), r.st)
    else if t.ch == LBRACE then
      var t1 := GetNextToken(p, t.st);
      if t1.ch == RBRACE then Result(Object([]), t1.st) else ParseMembers(p, depth, t1.ch, t1.st, [])
    else if t.ch == LBRACKET then
      var t1 := GetNextToken(p, t.st);
      if t1.ch == RBRACKET then Result(Array([]), t1.st) else ParseElements(p, depth, t1.st, [])
    else Result(Nul, Fail(t.st, ExpectedValue(t.ch)))
  }

  /** The loop over an object's members; ch is the token just read. */
  function ParseMembers(p: Source, depth: nat, ch: byte, st: State, data: seq<Field>): (r: Result)
    requires st.i <= |p.text| && depth <= MAX_DEPTH
    ensures r.st.i <= |p.text| && Sticky(st, r.st)
    ensures !r.st.failed ==> st.i < r.st.i
    decreases MAX_DEPTH + 1 - depth, 0, |p.text| - st.i
  {
    if ch != QUOTE then Result(Nul, Fail(st, ExpectedKey(ch))) else
    var key := ParseString(p.text, st);
    if key.st.failed then Result(Nul, key.st) else
    var t1 := GetNextToken(p, key.st);
    if t1.ch != COLON then Result(Nul, Fail(t1.st, ExpectedColon(t1.ch))) else
    var v := ParseJson(p, depth + 1, t1.st);
    if v.st.failed then Result(Nul, v.st) else
    var data1 := Insert(data, key.value, v.value);
    var t2 := GetNextToken(p, v.st);
    if t2.ch == RBRACE then Result(Object(data1), t2.st)
    else if t2.ch != COMMA then Result(Nul, Fail(t2.st, ExpectedCommaInObject(t2.ch)))
    else
      var t3 := GetNextToken(p, t2.st);
      ParseMembers(p, depth, t3.ch, t3.st, data1)
  }

  /** The loop over an array's elements; one byte of the element has been read. */
  function ParseElements(p: Source, depth: nat, st: State, data: seq<Json>): (r: Result)
    requires 0 < st.i <= |p.text| && depth <= MAX_DEPTH
    ensures r.st.i <= |p.text| && Sticky(st, r.st)
    ensures !r.st.failed ==> st.i < r.st.i
    decreases MAX_DEPTH + 1 - depth, 0, |p.text| - st.i
  {
    var v := ParseJson(p, depth + 1, st.(i := st.i - 1));
    if v.st.failed then Result(Nul, v.st) else
    var t := GetNextToken(p, v.st);
    if t.ch == RBRACKET then Result(Array(data + [v.value]), t.st)
    else if t.ch != COMMA then Result(Nul, Fail(t.st, ExpectedCommaInList(t.ch)))
    else
      var t1 := GetNextToken(p, t.st);
      ParseElements(p, depth, t1.st, data + [v.value])
  }

  // ---- Entry points ----

  /** Json::parse on parser state st: a value, then nothing but whitespace. */
  function Parse(p: Source, st: State): (r: Result)
    requires st.i <= |p.text|
    ensures r.st.i <= |p.text| && Sticky(st, r.st)
  {
    var v := ParseJson(p, 0, st);
    var st1 := ConsumeGarbage(p, v.st);
    if st1.i != |p.text| then Result(Nul, Fail(st1, Trailing(p.text[st1.i]))) else Result(v.value, st1)
  }

  datatype MultiResult = MultiResult(values: seq<Json>, stop: nat, st: State)

  /** The loop of Json::parse_multi. */
  function ParseMulti(p: Source, st: State, stop: nat, values: seq<Json>): (r: MultiResult)
    requires st.i <= |p.text| && stop <= |p.text|
    ensures r.st.i <= |p.text| && r.stop <= |p.text| && Sticky(st, r.st)
    ensures !r.st.failed ==> r.st.i == |p.text|
    decreases !st.failed, |p.text| - st.i
  {
    if st.i == |p.text| || st.failed then MultiResult(values, stop, st)
    else
      var v := ParseJson(p, 0, st);
      var st1 := ConsumeGarbage(p, v.st);
      ParseMulti(p, st1, if st1.failed then stop else st1.i, values + [v.value])
  }

  /** The state a parse begins in: whatever err holds, it is not a failure yet. */
  function Start(err: Error, erange: bool): State { State(0, false, err, erange) }
}
