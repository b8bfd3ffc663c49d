/** The json11 parser as the object it is: a cursor, a sticky failure flag, and loops that move them. */
module JsonParser {
  import opened Bytes
  import opened JsonValue
  import opened Utf8
  import opened JsonGrammar
  import opened JsonParsing

  class Parser {
    const src: Source
    const str: bytes
    var i: nat
    var err: Error
    var failed: bool
    var erange: bool   // errno == ERANGE, which the parser reads and never clears

    constructor (src: Source, err: Error, erange: bool)
      ensures Valid() && this.src == src && St() == Start(err, erange)
    {
      this.src, this.str := src, src.text;
      this.i, this.err, this.failed, this.erange := 0, err, false, erange;
    }

    ghost predicate Valid()
      reads this
    {
      str == src.text && i <= |str|
    }

    ghost function St(): State
      reads this
    {
      State(i, failed, err, erange)
    }

    method Fail(msg: Error)
      modifies this
      ensures St() == JsonParsing.Fail(old(St()), msg)
    {
      if !failed {
        err := msg;
      }
      failed := true;
    }

    method ConsumeWhitespace()
      requires Valid()
      modifies this`i
      ensures Valid() && i == SkipWs(str, old(i))
    {
      while At(str, i) == SPACE || At(str, i) == CR || At(str, i) == LF || At(str, i) == TAB
        invariant Valid() && SkipWs(str, i) == SkipWs(str, old(i))
        decreases |str| - i
      {
        i := i + 1;
      }
    }

    method ConsumeComment() returns (commentFound: bool)
      requires Valid()
      modifies this
      ensures Valid() && Found(commentFound, St()) == JsonParsing.ConsumeComment(str, old(St()))
    {
      commentFound := false;
      if At(str, i) == SLASH {
        i := i + 1;
        if i == |str| {
          Fail(EndInComment);
          return false;
        }
        if str[i] == SLASH {
          i := i + 1;
          if i == |str| {
            Fail(EndInInlineComment);
            return false;
          }
          ghost var from := i;
          while str[i] != LF
            invariant Valid() && i < |str| && FindNewline(str, i) == FindNewline(str, from)
            invariant failed == old(failed) && err == old(err) && erange == old(erange)
            decreases |str| - i
          {
            i := i + 1;
            if i == |str| {
              Fail(EndInInlineComment);
              return false;
            }
          }
          commentFound := true;
        } else if str[i] == STAR {
          i := i + 1;
          if i > |str| - 2 {
            Fail(EndInMultiLineComment);
            return false;
          }
          ghost var from := i;
          while !(str[i] == STAR && str[i + 1] == SLASH)
            invariant Valid() && i + 1 < |str| && FindClose(str, i) == FindClose(str, from)
            invariant failed == old(failed) && err == old(err) && erange == old(erange)
            decreases |str| - i
          {
            i := i + 1;
            if i > |str| - 2 {
              Fail(EndInMultiLineComment);
              return false;
            }
          }
          i := i + 2;
          if i == |str| {
            Fail(EndInMultiLineComment);
            return false;
          }
          commentFound := true;
        } else {
          Fail(MalformedComment);
          return false;
        }
      }
    }

    method ConsumeGarbage()
      requires Valid()
      modifies this
      ensures Valid() && St() == JsonParsing.ConsumeGarbage(src, old(St()))
    {
      ConsumeWhitespace();
      if src.strategy == Comments {
        ghost var st0 := St();
        var commentFound := ConsumeComment();
        ConsumeWhitespace();
        while commentFound
          invariant Valid()
          invariant ConsumeComments(str, st0) == if commentFound then ConsumeComments(str, St()) else St()
          decreases |str| - i, commentFound
        {
          commentFound := ConsumeComment();
          ConsumeWhitespace();
        }
      }
    }

    method GetNextToken() returns (ch: byte)
      requires Valid()
      modifies this
      ensures Valid() && Token(ch, St()) == JsonParsing.GetNextToken(src, old(St()))
    {
      ConsumeGarbage();
      if i == |str| {
        Fail(EndOfInput);
        return 0;
      }
      ch := str[i];
      i := i + 1;
    }

    /** The length check and the digit loop on a \u escape. */
    static method AllHex(esc: bytes) returns (ok: bool)
      requires |esc| <= 4
      ensures ok <==> IsHex4(esc)
    {
      if |esc| < 4 {
        return false;
      }
      for j := 0 to 4
        invariant forall k :: 0 <= k < j ==> IsHexDigit(esc[k])
      {
        if !IsHexDigit(esc[j]) {
          return false;
        }
      }
      return true;
    }

    /** The automaton of parse_string: last is the \u escape seen but not yet written, or -1. */
    method ParseString() returns (out: bytes)
      requires Valid()
      modifies this
      ensures Valid() && StringResult(out, St()) == JsonParsing.ParseString(str, old(St()))
    {
      out := [];
      var last: int := -1;
      ghost var pending: seq<Char> := [];
      ghost var goal := LexString(str, i);
      Begin(goal);
      while true
        invariant Valid()
        invariant failed == old(failed) && err == old(err) && erange == old(erange)
        invariant Awaits(last, pending) && Reaches(goal, out, pending, LexString(str, i))
        decreases |str| - i
      {
        if i == |str| {
          Fail(EndInString);
          return [];
        }
        var ch := str[i];
        i := i + 1;
        if ch == QUOTE {
          StepQuote(goal, out, last, pending, i);
          return out + EncodeUtf8(last);
        }
        if ch <= 0x1F {
          Fail(UnescapedControl(ch));
          return [];
        }
        if ch != BACKSLASH {
          StepByte(goal, out, last, pending, Unescaped(ch), LexString(str, i));
          out := out + EncodeUtf8(last) + [ch];
          last, pending := -1, [];
          continue;
        }
        var ok;
        out, last, pending, ok := ParseEscape(out, last, pending, goal);
        if !ok {
          return [];
        }
      }
    }

    /** parse_string after a backslash. */
    method ParseEscape(out0: bytes, last0: int, ghost pending0: seq<Char>, ghost goal: Lexed)
      returns (out: bytes, last: int, ghost pending: seq<Char>, ok: bool)
      requires Valid() && 0 < i && str[i - 1] == BACKSLASH
      requires Awaits(last0, pending0) && Reaches(goal, out0, pending0, LexString(str, i - 1))
      modifies this
      ensures Valid() && old(i) <= i
      ensures !ok ==> goal.LexError? && St() == JsonParsing.Fail(old(St()).(i := goal.pos), goal.err)
      ensures ok ==> failed == old(failed) && err == old(err) && erange == old(erange)
      ensures ok ==> Awaits(last, pending) && Reaches(goal, out, pending, LexString(str, i))
    {
      out, last, pending, ok := [], -1, [], false;
      if i == |str| {
        Fail(EndInString);
        return;
      }
      var ch := str[i];
      i := i + 1;
      if ch == LOWER_U {
        var esc := Substr(str, i, 4);
        ok := AllHex(esc);
        if !ok {
          Fail(BadUnicodeEscape(esc));
          return;
        }
        var codepoint := HexValue(esc);
        StepHex(goal, out0, last0, pending0, esc, LexString(str, i + 4));
        i := i + 4;
        if IsHigh(last0) && IsLow(codepoint) {
          out := out0 + EncodeUtf8(Pair(last0, codepoint));
        } else {
          out := out0 + EncodeUtf8(last0);
          last, pending := codepoint, [Hex(esc)];
        }
        return;
      }
      if !IsShortLetter(ch) {
        Fail(InvalidEscape(ch));
        return;
      }
      StepByte(goal, out0, last0, pending0, Short(ch), LexString(str, i));
      out := out0 + EncodeUtf8(last0) + [ShortValue(ch)];
      ok := true;
    }

    method SkipDigits()
      requires Valid()
      modifies this`i
      ensures Valid() && i == DigitsEnd(str, old(i))
    {
      while IsDigit(At(str, i))
        invariant Valid() && DigitsEnd(str, i) == DigitsEnd(str, old(i))
        decreases |str| - i
      {
        i := i + 1;
      }
    }

    method Strtod(start: nat) returns (v: Json)
      requires Valid() && start <= i
      modifies this`erange
      ensures Valid() && Result(v, St()) == FinishNumber(src, old(St()), start)
    {
      var r := src.lib.strtod(str[start..]);
      erange := erange || r.erange;
      v := Number(r.value);
    }

    method ParseNumber() returns (v: Json)
      requires Valid() && i < |str|
      modifies this
      ensures Valid() && Result(v, St()) == JsonParsing.ParseNumber(src, old(St()))
    {
      hide ParseAfterInteger, ReadInteger, FinishNumber, ReadDouble;
      var start := i;
      if At(str, i) == MINUS {
        i := i + 1;
      }
      if At(str, i) == ZERO {
        i := i + 1;
        if IsDigit(At(str, i)) {
          Fail(LeadingZero);
          return Nul;
        }
      } else if IsDigit(At(str, i)) {
        i := i + 1;
        SkipDigits();
      } else {
        Fail(InvalidInNumber(At(str, i)));
        return Nul;
      }
      v := AfterInteger(start);
    }

    /** parse_number from the end of the integer part on. */
    method AfterInteger(start: nat) returns (v: Json)
      requires Valid() && start < i
      modifies this
      ensures Valid() && Result(v, St()) == ParseAfterInteger(src, old(St()), start)
    {
      if At(str, i) != DOT && At(str, i) != LOWER_E && At(str, i) != UPPER_E {
        if str[start] == MINUS {
          if i - start <= INTEGER_CHARS {
            var value := 0 - Decimal(str[start..i][1..]) as int;
            if value < -0x8000_0000_0000_0000 {
              erange := true;
            }
            if !erange {
              return Int64(value);
            }
          }
        } else {
          if i - start <= INTEGER_CHARS {
            var value := Decimal(str[start..i]);
            if value >= 0x1_0000_0000_0000_0000 {
              erange := true;
            }
            if !erange {
              return UInt64(value);
            }
          }
        }
      }

      if At(str, i) == DOT {
        i := i + 1;
        if !IsDigit(At(str, i)) {
          Fail(NoFractionDigit);
          return Nul;
        }
        SkipDigits();
      }
      v := Exponent(start);
    }

    method Exponent(start: nat) returns (v: Json)
      requires Valid() && start <= i
      modifies this
      ensures Valid() && Result(v, St()) == ParseExponent(src, old(St()), start)
    {
      if At(str, i) == LOWER_E || At(str, i) == UPPER_E {
        i := i + 1;
        if At(str, i) == PLUS || At(str, i) == MINUS {
          i := i + 1;
        }
        if !IsDigit(At(str, i)) {
          Fail(NoExponentDigit);
          return Nul;
        }
        SkipDigits();
      }
      v := Strtod(start);
    }

    method Expect(expected: bytes, res: Json) returns (v: Json)
      requires Valid() && i > 0
      modifies this
      ensures Valid() && Result(v, St()) == JsonParsing.Expect(src, old(St()), expected, res)
    {
      i := i - 1;
      var got := Substr(str, i, |expected|);
      if got == expected {
        i := i + |expected|;
        return res;
      }
      Fail(ExpectedWord(expected, got));
      return Nul;
    }

    method ParseJson(depth: nat) returns (v: Json)
      requires Valid() && depth <= MAX_DEPTH + 1
      modifies this
      ensures Valid() && Result(v, St()) == JsonParsing.ParseJson(src, depth, old(St()))
      decreases MAX_DEPTH + 1 - depth, 1, 0
    {
      if depth > MAX_DEPTH {
        Fail(DepthExceeded);
        return Nul;
      }
      var ch := GetNextToken();
      if failed {
        return Nul;
      }
      if ch == MINUS || IsDigit(ch) {
        i := i - 1;
        v := ParseNumber();
        return;
      }
      if ch == LOWER_T {
        v := Expect(TRUE_TEXT, Bool(true));
        return;
      }
      if ch == LOWER_F {
        v := Expect(FALSE_TEXT, Bool(false));
        return;
      }
      if ch == LOWER_N {
        v := Expect(NULL_TEXT, Nul);
        return;
      }
      if ch == QUOTE {
        var s := ParseString();
        return Str(s);
      }
      if ch == LBRACE {
        ch := GetNextToken();
        if ch == RBRACE {
          return Object([]);
        }
        v := ParseObject(depth, ch);
        return;
      }
      if ch == LBRACKET {
        ch := GetNextToken();
        if ch == RBRACKET {
          return Array([]);
        }
        v := ParseArray(depth);
        return;
      }
      Fail(ExpectedValue(ch));
      return Nul;
    }

    /** The member loop of parse_json. */
    method ParseObject(depth: nat, first: byte) returns (v: Json)
      requires Valid() && depth <= MAX_DEPTH
      modifies this
      ensures Valid() && Result(v, St()) == ParseMembers(src, depth, first, old(St()), [])
      decreases MAX_DEPTH + 1 - depth, 0, 0
    {
      hide JsonParsing.ParseJson, JsonParsing.GetNextToken, JsonParsing.ParseString;
      var data: seq<Field> := [];
      var ch := first;
      ghost var goal := ParseMembers(src, depth, first, St(), []);
      while true
        invariant Valid()
        invariant ParseMembers(src, depth, ch, St(), data) == goal
        decreases |str| - i
      {
        if ch != QUOTE {
          Fail(ExpectedKey(ch));
          return Nul;
        }
        var key := ParseString();
        if failed {
          return Nul;
        }
        ch := GetNextToken();
        if ch != COLON {
          Fail(ExpectedColon(ch));
          return Nul;
        }
        var value := ParseJson(depth + 1);
        if failed {
          return Nul;
        }
        data := Insert(data, key, value);
        ch := GetNextToken();
        if ch == RBRACE {
          return Object(data);
        }
        if ch != COMMA {
          Fail(ExpectedCommaInObject(ch));
          return Nul;
        }
        ch := GetNextToken();
      }
    }

    /** The element loop of parse_json. */
    method ParseArray(depth: nat) returns (v: Json)
      requires Valid() && depth <= MAX_DEPTH && i > 0
      modifies this
      ensures Valid() && Result(v, St()) == ParseElements(src, depth, old(St()), [])
      decreases MAX_DEPTH + 1 - depth, 0, 0
    {
      hide JsonParsing.ParseJson, JsonParsing.GetNextToken, JsonParsing.ParseString;
      var data: seq<Json> := [];
      ghost var goal := ParseElements(src, depth, St(), []);
      while true
        invariant Valid() && i > 0
        invariant ParseElements(src, depth, St(), data) == goal
        decreases |str| - i
      {
        i := i - 1;
        var value := ParseJson(depth + 1);
        data := data + [value];
        if failed {
          return Nul;
        }
        var ch := GetNextToken();
        if ch == RBRACKET {
          return Array(data);
        }
        if ch != COMMA {
          Fail(ExpectedCommaInList(ch));
          return Nul;
        }
        ch := GetNextToken();
      }
    }
  }

  // ---- The automaton's state against the chars it has read ----

  ghost predicate Awaits(last: int, pending: seq<Char>) {
    if last == -1 then pending == []
    else |pending| == 1 && pending[0].Hex? && IsHex4(pending[0].digits) && last == HexValue(pending[0].digits)
  }

  /** What is written so far, with the pending escape and what is still to be read, makes up the goal. */
  ghost predicate Reaches(goal: Lexed, out: bytes, pending: seq<Char>, rest: Lexed) {
    match rest
    case LexError(_, _) => goal == rest
    case Lexed(chars, end) =>
      goal.Lexed? && goal.end == end && Decode(goal.chars) == out + Decode(pending + chars)
  }

  /** The pending escape is written by itself unless a low surrogate comes next. */
  lemma DecodePending(last: int, pending: seq<Char>, chars: seq<Char>)
    requires Awaits(last, pending)
    requires IsHigh(last) && chars != [] && chars[0].Hex? ==> !IsLow(HexValue(chars[0].digits))
    ensures Decode(pending + chars) == EncodeUtf8(last) + Decode(chars)
  {
    if last == -1 {
      assert pending + chars == chars;
    } else {
      assert (pending + chars)[1..] == chars;
    }
  }

  lemma Begin(goal: Lexed)
    ensures Reaches(goal, [], [], goal)
  {
    if goal.Lexed? { assert [] + goal.chars == goal.chars; }
  }

  lemma StepQuote(goal: Lexed, out: bytes, last: int, pending: seq<Char>, end: nat)
    requires Awaits(last, pending) && Reaches(goal, out, pending, Lexed([], end))
    ensures goal.Lexed? && goal.end == end && Decode(goal.chars) == out + EncodeUtf8(last)
  {
    DecodePending(last, pending, []);
  }

  lemma StepByte(goal: Lexed, out: bytes, last: int, pending: seq<Char>, c: Char, rest: Lexed)
    requires Awaits(last, pending) && ValidChar(c) && !c.Hex?
    requires Reaches(goal, out, pending, Prepend([c], rest))
    ensures Reaches(goal, out + EncodeUtf8(last) + [if c.Short? then ShortValue(c.letter) else c.b], [], rest)
  {
    hide EncodeUtf8, HexValue, Decode, ShortValue;
    if rest.Lexed? {
      var chars := [c] + rest.chars;
      DecodePending(last, pending, chars);
      DecodeByte(c, rest.chars);
      assert [] + rest.chars == rest.chars;
    }
  }

  lemma DecodeByte(c: Char, chars: seq<Char>)
    requires ValidChar(c) && !c.Hex?
    ensures Decode([c] + chars) == [if c.Short? then ShortValue(c.letter) else c.b] + Decode(chars)
  {
    assert ([c] + chars)[1..] == chars;
  }

  lemma StepHex(goal: Lexed, out: bytes, last: int, pending: seq<Char>, esc: bytes, rest: Lexed)
    requires Awaits(last, pending) && IsHex4(esc)
    requires Reaches(goal, out, pending, Prepend([Hex(esc)], rest))
    ensures IsHigh(last) && IsLow(HexValue(esc)) ==> Reaches(goal, out + EncodeUtf8(Pair(last, HexValue(esc))), [], rest)
    ensures !(IsHigh(last) && IsLow(HexValue(esc))) ==> Reaches(goal, out + EncodeUtf8(last), [Hex(esc)], rest)
  {
    hide EncodeUtf8, HexValue, Decode;
    if rest.Lexed? {
      var chars := [Hex(esc)] + rest.chars;
      if IsHigh(last) && IsLow(HexValue(esc)) {
        DecodePair(pending, esc, rest.chars);
        assert [] + rest.chars == rest.chars;
      } else {
        DecodePending(last, pending, chars);
      }
    }
  }

  lemma DecodePair(pending: seq<Char>, esc: bytes, chars: seq<Char>)
    requires |pending| == 1 && pending[0].Hex? && IsHex4(pending[0].digits) && IsHex4(esc)
    requires IsHigh(HexValue(pending[0].digits)) && IsLow(HexValue(esc))
    ensures Decode(pending + ([Hex(esc)] + chars))
      == EncodeUtf8(Pair(HexValue(pending[0].digits), HexValue(esc))) + Decode(chars)
  {
    var all := pending + ([Hex(esc)] + chars);
    assert all[0] == pending[0] && all[1] == Hex(esc) && all[2..] == chars;
  }

  /** Json::parse. err is not cleared first: it changes only when something fails. */
  method Parse(text: bytes, err: Error, strategy: Strategy, lib: Libc, erange: bool)
    returns (v: Json, outErr: Error, failed: bool, outErange: bool)
    ensures var r := JsonParsing.Parse(Source(text, strategy, lib), Start(err, erange));
      v == r.value && outErr == r.st.err && failed == r.st.failed && outErange == r.st.erange
  {
    var parser := new Parser(Source(text, strategy, lib), err, erange);
    v := parser.ParseJson(0);
    parser.ConsumeGarbage();
    if parser.i != |text| {
      parser.Fail(Trailing(text[parser.i]));
      v := Nul;
    }
    outErr, failed, outErange := parser.err, parser.failed, parser.erange;
  }

  /** Json::parse_multi. */
  method ParseMulti(text: bytes, err: Error, strategy: Strategy, lib: Libc, erange: bool)
    returns (vec: seq<Json>, stop: nat, outErr: Error, failed: bool)
    ensures var r := JsonParsing.ParseMulti(Source(text, strategy, lib), Start(err, erange), 0, []);
      vec == r.values && stop == r.stop && outErr == r.st.err && failed == r.st.failed
  {
    var parser := new Parser(Source(text, strategy, lib), err, erange);
    stop := 0;
    vec := [];
    while parser.i != |text| && !parser.failed
      invariant parser.Valid() && parser.src == Source(text, strategy, lib)
      invariant stop <= |text|
      invariant JsonParsing.ParseMulti(parser.src, parser.St(), stop, vec)
        == JsonParsing.ParseMulti(parser.src, Start(err, erange), 0, [])
      decreases !parser.failed, |text| - parser.i
    {
      var v := parser.ParseJson(0);
      vec := vec + [v];
      parser.ConsumeGarbage();
      if !parser.failed {
        stop := parser.i;
      }
    }
    outErr, failed := parser.err, parser.failed;
  }
}
