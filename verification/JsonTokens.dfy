/** What the parser makes of the tokens of JSON and of what stands between them, character by character. */
module JsonTokens {
  import opened Options
  import opened Bytes
  import opened JsonValue
  import opened Utf8
  import opened JsonGrammar
  import opened JsonParsing
  import opened JsonGaps
  import opened JsonDump
  import opened JsonComplete
  import opened JsonProperties

  /** The text is parsed, whole and without error, to the value, whatever err and errno held before. */
  ghost predicate ParsesTo(mode: Strategy, lib: Libc, text: bytes, v: Json) {
    forall err, erange :: Parse(Source(text, mode, lib), Start(err, erange)) == Result(v, State(|text|, false, err, erange))
  }

  ghost predicate Fails(mode: Strategy, lib: Libc, text: bytes) {
    forall err, erange :: Parse(Source(text, mode, lib), Start(err, erange)).st.failed
  }

  /** A text that is derived, and whose derivation reads no number, parses to the value of the derivation. */
  lemma DerivedParses(mode: Strategy, lib: Libc, text: bytes, d: Document, v: Json)
    requires Derives(mode, text, d) && forall erange :: Eval(lib, d.value, erange) == Reading(v, erange)
    ensures ParsesTo(mode, lib, text, v)
  {
    hide Derives, Eval, Parse;
    forall err, erange
      ensures Parse(Source(text, mode, lib), Start(err, erange)) == Result(v, State(|text|, false, err, erange))
    {
      Complete(Source(text, mode, lib), err, erange, d);
    }
  }

  // ---- Words ----

  lemma Keywords(mode: Strategy, lib: Libc)
    ensures ParsesTo(mode, lib, Ascii("null"), Nul)
    ensures ParsesTo(mode, lib, Ascii("true"), Bool(true))
    ensures ParsesTo(mode, lib, Ascii("false"), Bool(false))
  {
    hide ParsesTo;
    assert Ascii("null") == NULL_TEXT && Ascii("true") == TRUE_TEXT && Ascii("false") == FALSE_TEXT;
    WordDerives(mode, TNull, NULL_TEXT);
    WordDerives(mode, TTrue, TRUE_TEXT);
    WordDerives(mode, TFalse, FALSE_TEXT);
    DerivedParses(mode, lib, NULL_TEXT, Document([], TNull, []), Nul);
    DerivedParses(mode, lib, TRUE_TEXT, Document([], TTrue, []), Bool(true));
    DerivedParses(mode, lib, FALSE_TEXT, Document([], TFalse, []), Bool(false));
  }

  lemma WordDerives(mode: Strategy, t: Tree, text: bytes)
    requires ValidTree(mode, t) && Height(t) == 0 && Text(t) == text
    ensures Derives(mode, text, Document([], t, []))
  {
    assert text == [] + (text + []);
  }

  // ---- Strings ----

  function Quoted(inner: bytes): (text: bytes) { Ascii("\"") + (inner + Ascii("\"")) }

  lemma StringDerives(mode: Strategy, cs: seq<Char>)
    requires ValidChars(cs)
    ensures Derives(mode, Quoted(CharsText(cs)), Document([], TStr(cs), []))
  {
    assert Ascii("\"") == [QUOTE];
    assert Text(TStr(cs)) == Quoted(CharsText(cs));
    WordDerives(mode, TStr(cs), Quoted(CharsText(cs)));
  }

  lemma StringParses(mode: Strategy, lib: Libc, cs: seq<Char>)
    requires ValidChars(cs)
    ensures ParsesTo(mode, lib, Quoted(CharsText(cs)), Str(Decode(cs)))
  {
    hide ParsesTo, Derives;
    StringDerives(mode, cs);
    DerivedParses(mode, lib, Quoted(CharsText(cs)), Document([], TStr(cs), []), Str(Decode(cs)));
  }

  lemma BadString(mode: Strategy, lib: Libc, text: bytes)
    requires text != [] && text[0] == QUOTE && LexString(text, 1).LexError?
    ensures Fails(mode, lib, text)
  {
    hide LexString;
    forall err, erange ensures Parse(Source(text, mode, lib), Start(err, erange)).st.failed {
      var p, st := Source(text, mode, lib), Start(err, erange);
      GarbageStays(p, st);
      assert GetNextToken(p, st) == Token(QUOTE, st.(i := 1));
      assert ParseJson(p, 0, st).st.failed;
    }
  }

  /** One character of a string by itself. */
  lemma OneChar(mode: Strategy, lib: Libc, c: Char)
    requires ValidChar(c)
    ensures ParsesTo(mode, lib, Quoted(CharText(c)), Str(Decode([c])))
  {
    hide ParsesTo;
    assert CharsText([c]) == CharText(c) + [] == CharText(c);
    StringParses(mode, lib, [c]);
  }

  /** A byte of a string stands for itself; control bytes are an error, and so is a string without an end. */
  lemma RawByte(mode: Strategy, lib: Libc, b: byte)
    requires b != QUOTE && b != BACKSLASH
    ensures if b >= 32 then ParsesTo(mode, lib, Quoted([b]), Str([b])) else Fails(mode, lib, Quoted([b]))
    ensures Fails(mode, lib, Ascii("\"") + [b])
  {
    hide ParsesTo, Fails;
    assert Ascii("\"") == [QUOTE];
    assert Quoted([b]) == [QUOTE, b, QUOTE] && Ascii("\"") + [b] == [QUOTE, b];
    if b >= 32 {
      OneChar(mode, lib, Unescaped(b));
      assert Decode([Unescaped(b)]) == [b] + [] == [b];
      assert LexString([QUOTE, b], 2).LexError?;
    } else {
      BadString(mode, lib, Quoted([b]));
    }
    BadString(mode, lib, [QUOTE, b]);
  }

  const ESCAPES := "\"\\/bfnrt"
  const ESCAPED: bytes := [34, 92, 47, 8, 12, 10, 13, 9]

  /** The eight escapes of two characters and what they stand for; any other letter but u is an error. */
  lemma ShortEscapes(mode: Strategy, lib: Libc, b: byte)
    ensures forall k :: 0 <= k < 8 && b == Ascii(ESCAPES)[k] ==> ParsesTo(mode, lib, Quoted([BACKSLASH, b]), Str([ESCAPED[k]]))
    ensures b !in Ascii(ESCAPES) ==> Fails(mode, lib, Quoted([BACKSLASH, b]))
  {
    hide ParsesTo, Fails;
    assert Ascii("\"") == [QUOTE];
    assert Ascii(ESCAPES) == [34, 92, 47, 98, 102, 110, 114, 116];
    var text := Quoted([BACKSLASH, b]);
    if b in Ascii(ESCAPES) {
      OneChar(mode, lib, Short(b));
      assert Decode([Short(b)]) == [ShortValue(b)] + [] == [ShortValue(b)];
      assert forall k :: 0 <= k < 8 && b == Ascii(ESCAPES)[k] ==> [ShortValue(b)] == [ESCAPED[k]];
    } else {
      assert text == [QUOTE, BACKSLASH, b, QUOTE];
      assert !IsHex4(Substr(text, 3, 4));
      BadString(mode, lib, text);
    }
  }

  /** The text of \u escapes with these digits. */
  function EscapesText(ds: seq<bytes>): (text: bytes) {
    if ds == [] then [] else Ascii("\\u") + (ds[0] + EscapesText(ds[1..]))
  }

  lemma {:induction false} EscapesAreChars(ds: seq<bytes>) returns (cs: seq<Char>)
    ensures |cs| == |ds| && CharsText(cs) == EscapesText(ds) && forall k :: 0 <= k < |cs| ==> cs[k] == Hex(ds[k])
  {
    assert Ascii("\\u") == [BACKSLASH, LOWER_U];
    if ds == [] {
      cs := [];
    } else {
      var rest := EscapesAreChars(ds[1..]);
      cs := [Hex(ds[0])] + rest;
      assert cs[1..] == rest;
      assert ([BACKSLASH, LOWER_U] + ds[0]) + EscapesText(ds[1..]) == [BACKSLASH, LOWER_U] + (ds[0] + EscapesText(ds[1..]));
    }
  }

  /**
   * Any sequence of Unicode scalars, printed in \u escapes with digits of either case, and as pairs of
   * surrogates beyond the BMP, is parsed to the UTF-8 of that sequence.
   */
  lemma EscapedText(mode: Strategy, lib: Libc, ds: seq<bytes>, scalars: seq<int>) returns (s: bytes)
    requires AllScalars(scalars) && |ds| == |Units(scalars)| && forall k :: 0 <= k < |ds| ==> Prints(ds[k], Units(scalars)[k])
    ensures ParsesTo(mode, lib, Quoted(EscapesText(ds)), Str(s)) && DecodeAllUtf8(s) == Some(scalars)
  {
    hide ParsesTo, Prints, Decode, DecodeAllUtf8;
    var cs := EscapesAreChars(ds);
    EscapesAreUtf16(cs, scalars);
    StringParses(mode, lib, cs);
    s := Decode(cs);
  }

  /** An input: \u00E9 and \u00e9 are the two bytes of e with an acute accent. */
  lemma AcuteAccent(mode: Strategy, lib: Libc)
    ensures ParsesTo(mode, lib, Quoted(Ascii("\\u00E9")), Str([0xC3, 0xA9]))
    ensures ParsesTo(mode, lib, Quoted(Ascii("\\u00e9")), Str([0xC3, 0xA9]))
  {
    hide ParsesTo;
    var upper, lower: bytes := [48, 48, 69, 57], [48, 48, 101, 57];
    assert Ascii("\\u00E9") == CharText(Hex(upper)) && Ascii("\\u00e9") == CharText(Hex(lower));
    AcuteUnit(upper);
    AcuteUnit(lower);
    OneChar(mode, lib, Hex(upper));
    OneChar(mode, lib, Hex(lower));
  }

  lemma AcuteUnit(d: bytes)
    requires d == [48, 48, 69, 57] || d == [48, 48, 101, 57]
    ensures ValidChar(Hex(d)) && Decode([Hex(d)]) == [0xC3, 0xA9]
  {
    assert HexValue(d) == 0xE9;
    assert Decode([Hex(d)]) == EncodeUtf8(0xE9) + [];
  }

  // ---- Numbers ----

  /** What looks like a number and is none: a leading zero or plus, a sign or a dot or an exponent without digits. */
  lemma BadNumbers(mode: Strategy, lib: Libc)
    ensures Fails(mode, lib, Ascii("01")) && Fails(mode, lib, Ascii("-")) && Fails(mode, lib, Ascii("1."))
    ensures Fails(mode, lib, Ascii("1e")) && Fails(mode, lib, Ascii("1e+"))
    ensures Fails(mode, lib, Ascii("+1")) && Fails(mode, lib, Ascii(".5"))
  {
    hide Fails;
    LeadingBytes();
    BadNumber(mode, lib, [48, 49]);
    BadNumber(mode, lib, [45]);
    BadNumber(mode, lib, [49, 46]);
    BadNumber(mode, lib, [49, 101]);
    BadNumber(mode, lib, [49, 101, 43]);
    NoValue(mode, lib, [43, 49]);
    NoValue(mode, lib, [46, 53]);
  }

  lemma LeadingBytes()
    ensures Ascii("01") == [48, 49] && Ascii("-") == [45] && Ascii("1.") == [49, 46] && Ascii("1e") == [49, 101]
    ensures Ascii("1e+") == [49, 101, 43] && Ascii("+1") == [43, 49] && Ascii(".5") == [46, 53]
  {
  }

  lemma BadNumber(mode: Strategy, lib: Libc, text: bytes)
    requires text == [48, 49] || text == [45] || text == [49, 46] || text == [49, 101] || text == [49, 101, 43]
    ensures Fails(mode, lib, text)
  {
    forall err, erange ensures Parse(Source(text, mode, lib), Start(err, erange)).st.failed {
      var p, st := Source(text, mode, lib), Start(err, erange);
      NumberBreaks(p, st);
      NumberFirst(p, st);
    }
  }

  lemma NumberFirst(p: Source, st: State)
    requires st.i < |p.text| && !st.failed && (p.text[st.i] == MINUS || IsDigit(p.text[st.i])) && ParseNumber(p, st).st.failed
    ensures ParseJson(p, 0, st).st.failed
  {
    hide ConsumeGarbage, ParseNumber, ParseString, Expect, ParseMembers, ParseElements;
    GarbageStays(p, st);
  }

  lemma NumberBreaks(p: Source, st: State)
    requires st.i == 0
    requires p.text == [48, 49] || p.text == [45] || p.text == [49, 46] || p.text == [49, 101] || p.text == [49, 101, 43]
    ensures ParseNumber(p, st).st.failed
  {
    hide ReadInteger, FinishNumber;
    if |p.text| > 1 { assert DigitsEnd(p.text, 1) == if p.text[0] == 48 then 2 else 1; }
  }

  lemma NoValue(mode: Strategy, lib: Libc, text: bytes)
    requires text != [] && (text[0] == PLUS || text[0] == DOT)
    ensures Fails(mode, lib, text)
  {
    forall err, erange ensures Parse(Source(text, mode, lib), Start(err, erange)).st.failed {
      var p, st := Source(text, mode, lib), Start(err, erange);
      GarbageStays(p, st);
      assert GetNextToken(p, st) == Token(text[0], st.(i := 1));
      assert ParseJson(p, 0, st).st.failed;
    }
  }

  // ---- Between the tokens ----

  lemma NullFirst(p: Source, st: State)
    requires !st.failed && st.i < |p.text| && p.text[st.i] == LOWER_N && Substr(p.text, st.i, 4) == NULL_TEXT
    ensures ParseJson(p, 0, st) == Result(Nul, st.(i := st.i + 4))
  {
    hide ConsumeGarbage, ParseNumber, ParseString, ParseMembers, ParseElements;
    GarbageStays(p, st);
  }

  /** In STANDARD mode exactly the blank, the tab and the line ends may follow a value. */
  lemma Whitespace(lib: Libc, b: byte)
    ensures if b in Ascii(" \t\n\r") then ParsesTo(Standard, lib, Ascii("null") + [b], Nul)
            else Fails(Standard, lib, Ascii("null") + [b])
  {
    var text := Ascii("null") + [b];
    assert Ascii(" \t\n\r") == [32, 9, 10, 13] && Ascii("null") == NULL_TEXT;
    forall err, erange
      ensures Parse(Source(text, Standard, lib), Start(err, erange)) ==
        if IsWs(b) then Result(Nul, State(5, false, err, erange))
        else Result(Nul, Fail(State(4, false, err, erange), Trailing(b)))
    {
      var p, st := Source(text, Standard, lib), Start(err, erange);
      assert Substr(text, 0, 4) == NULL_TEXT;
      NullFirst(p, st);
      hide ParseJson;
      assert SkipWs(text, 5) == 5;
    }
  }

  /** Before its own end, what is written in a block comment does not close it. */
  predicate StaysOpen(c: bytes) {
    forall k :: 0 <= k < |c| ==> !(c[k] == STAR && (c + [STAR, SLASH])[k + 1] == SLASH)
  }

  /** In COMMENTS mode a line comment and a block comment before a value are skipped. */
  lemma CommentsBefore(lib: Libc, c: bytes)
    ensures LF !in c ==> ParsesTo(Comments, lib, Ascii("//") + c + Ascii("\n") + Ascii("null"), Nul)
    ensures StaysOpen(c) ==>
      ParsesTo(Comments, lib, Ascii("/*") + c + Ascii("*/") + Ascii("null"), Nul)
  {
    hide ParsesTo;
    assert Ascii("//") == [SLASH, SLASH] && Ascii("\n") == [LF] && Ascii("/*") == [SLASH, STAR] && Ascii("*/") == [STAR, SLASH];
    assert Ascii("null") == NULL_TEXT;
    if LF !in c {
      var g := [SLASH, SLASH] + c + [LF];
      LineComment(g, c);
      GapBefore(lib, g);
    }
    if StaysOpen(c) {
      var g := [SLASH, STAR] + c + [STAR, SLASH];
      BlockComment(g, c);
      GapBefore(lib, g);
    }
  }

  lemma GapBefore(lib: Libc, g: bytes)
    requires IsGap(Comments, g)
    ensures ParsesTo(Comments, lib, g + NULL_TEXT, Nul)
  {
    hide ParsesTo;
    assert g + NULL_TEXT == g + (NULL_TEXT + []);
    DerivedParses(Comments, lib, g + NULL_TEXT, Document(g, TNull, []), Nul);
  }

  lemma LineComment(g: bytes, c: bytes)
    requires g == [SLASH, SLASH] + c + [LF] && LF !in c
    ensures IsGap(Comments, g)
  {
    NewlineAt(g, 2, 2 + |c|);
    assert CommentLength(g) == 2 + |c| && g[2 + |c|..] == [LF] && [LF][1..] == [];
  }

  lemma {:induction false} NewlineAt(s: bytes, i: nat, j: nat)
    requires i <= j < |s| && s[j] == LF && forall k :: i <= k < j ==> s[k] != LF
    ensures FindNewline(s, i) == j
    decreases j - i
  {
    if i < j { NewlineAt(s, i + 1, j); }
  }

  lemma BlockComment(g: bytes, c: bytes)
    requires g == [SLASH, STAR] + c + [STAR, SLASH]
    requires StaysOpen(c)
    ensures IsGap(Comments, g)
  {
    forall k | 2 <= k < 2 + |c| ensures !(g[k] == STAR && g[k + 1] == SLASH) {
      var s := c + [STAR, SLASH];
      assert g[k] == s[k - 2] && g[k + 1] == s[k - 1] && s[k - 2] == c[k - 2];
    }
    CloseAt(g, 2, 2 + |c|);
    assert CommentLength(g) == |g| && g[|g|..] == [];
  }

  lemma {:induction false} CloseAt(s: bytes, i: nat, j: nat)
    requires i <= j && j + 1 < |s| && s[j] == STAR && s[j + 1] == SLASH
    requires forall k :: i <= k < j ==> !(s[k] == STAR && s[k + 1] == SLASH)
    ensures FindClose(s, i) == j
    decreases j - i
  {
    if i < j { CloseAt(s, i + 1, j); }
  }

  /** In STANDARD mode nothing begins with a slash. */
  lemma NoCommentsInStandard(lib: Libc, rest: bytes)
    ensures Fails(Standard, lib, Ascii("/") + rest)
  {
    var text := Ascii("/") + rest;
    assert Ascii("/") == [SLASH];
    forall err, erange ensures Parse(Source(text, Standard, lib), Start(err, erange)).st.failed {
      var p, st := Source(text, Standard, lib), Start(err, erange);
      assert SkipWs(text, 0) == 0;
      assert GetNextToken(p, st) == Token(SLASH, st.(i := 1));
      assert ParseJson(p, 0, st).st.failed;
    }
  }

  // ---- What dump writes ----

  lemma DumpedWords(lib: Libc, b: bool, r: real)
    ensures Dumped(lib, Nul) == Ascii("null") && Dumped(lib, Bool(b)) == if b then Ascii("true") else Ascii("false")
    ensures Dumped(lib, Number(NaN)) == Dumped(lib, Number(PosInf)) == Dumped(lib, Number(NegInf)) == Ascii("null")
    ensures Dumped(lib, Number(Finite(r))) == lib.g17(r)
  {
    assert Ascii("null") == NULL_TEXT && Ascii("true") == TRUE_TEXT && Ascii("false") == FALSE_TEXT;
  }

  /** The parts with the separator between them. */
  function Joined(parts: seq<bytes>, sep: bytes): (text: bytes) {
    if parts == [] then [] else if |parts| == 1 then parts[0] else parts[0] + (sep + Joined(parts[1..], sep))
  }

  /** An array is written as its elements, a comma and a blank between them, in brackets. */
  lemma DumpedArray(lib: Libc, items: seq<Json>)
    ensures var parts := seq(|items|, k requires 0 <= k < |items| => Dumped(lib, items[k]));
      Dumped(lib, Array(items)) == Ascii("[") + (Joined(parts, Ascii(", ")) + Ascii("]"))
  {
    assert Ascii("[") == [LBRACKET] && Ascii("]") == [RBRACKET];
    hide Ascii, Joined, DumpItems;
    var parts := seq(|items|, k requires 0 <= k < |items| => Dumped(lib, items[k]));
    ItemsAreJoined(lib, items, parts, true);
    assert Separator(true) + Joined(parts, Ascii(", ")) == Joined(parts, Ascii(", "));
  }

  lemma {:induction false} ItemsAreJoined(lib: Libc, items: seq<Json>, parts: seq<bytes>, first: bool)
    requires |parts| == |items| && forall k :: 0 <= k < |items| ==> parts[k] == Dumped(lib, items[k])
    ensures items != [] ==> DumpItems(lib, items, first) == Separator(first) + Joined(parts, Ascii(", "))
    ensures items == [] ==> DumpItems(lib, items, first) == Joined(parts, Ascii(", "))
    decreases |items|
  {
    assert Ascii(", ") == COMMA_SPACE;
    if items != [] {
      ItemsAreJoined(lib, items[1..], parts[1..], false);
      assert |items| == 1 ==> parts[0] + [] == parts[0];
    }
  }

  /** An object is written as its members, each a key, a colon, a blank and a value, in braces. */
  lemma DumpedObject(lib: Libc, fields: seq<Field>)
    ensures Dumped(lib, Object(fields)) == Ascii("{") + (Joined(MembersDumped(lib, fields), Ascii(", ")) + Ascii("}"))
  {
    assert Ascii("{") == [LBRACE] && Ascii("}") == [RBRACE];
    hide Ascii, MembersDumped, Joined, CharsOf, DumpFields;
    FieldsAreJoined(lib, fields, true);
    var joined := Joined(MembersDumped(lib, fields), Ascii(", "));
    assert Separator(true) + joined == joined;
  }

  function MembersDumped(lib: Libc, fields: seq<Field>): (parts: seq<bytes>) {
    if fields == [] then [] else
    [Dumped(lib, Str(fields[0].key)) + (Ascii(": ") + Dumped(lib, fields[0].value))] + MembersDumped(lib, fields[1..])
  }

  lemma {:induction false} FieldsAreJoined(lib: Libc, fields: seq<Field>, first: bool)
    ensures fields != [] ==> DumpFields(lib, fields, first) == Separator(first) + Joined(MembersDumped(lib, fields), Ascii(", "))
    ensures fields == [] ==> DumpFields(lib, fields, first) == Joined(MembersDumped(lib, fields), Ascii(", "))
    decreases |fields|
  {
    assert Ascii(", ") == COMMA_SPACE && Ascii(": ") == COLON_SPACE;
    if fields != [] {
      FieldsAreJoined(lib, fields[1..], false);
      assert MembersDumped(lib, fields)[1..] == MembersDumped(lib, fields[1..]);
      assert DumpedField(lib, fields[0]) == MembersDumped(lib, fields)[0];
      assert |fields| == 1 ==> DumpedField(lib, fields[0]) + [] == DumpedField(lib, fields[0]);
    }
  }

  /**
   * A byte is written as its escape of two characters, if it has one, but a slash as itself; another
   * control byte as a \u escape in lower case, and any other byte as itself.
   */
  lemma DumpedByte(lib: Libc, b: byte)
    ensures forall k :: 0 <= k < 8 && k != 2 && b == ESCAPED[k] ==> Dumped(lib, Str([b])) == Quoted([BACKSLASH, Ascii(ESCAPES)[k]])
    ensures b < 32 && b !in ESCAPED ==>
      Dumped(lib, Str([b])) == Quoted(Ascii("\\u00") + [Ascii(LOWER_HEX)[b / 16], Ascii(LOWER_HEX)[b % 16]])
    ensures b >= 32 && b != QUOTE && b != BACKSLASH ==> Dumped(lib, Str([b])) == Quoted([b])
  {
    hide Dumped, Quoted, Hex4, Ascii;
    OneByteDumped(lib, b);
    EscapesInCode();
    if b < 32 && b !in ESCAPED { ControlText(b); }
  }

  lemma EscapesInCode()
    ensures Ascii(ESCAPES) == [34, 92, 47, 98, 102, 110, 114, 116]
  {
  }

  lemma OneByteDumped(lib: Libc, b: byte)
    ensures Dumped(lib, Str([b])) == Quoted(CharText(EscapeAt([b], 0).0))
  {
    hide EscapeLetter, Hex4, IsLineSeparator;
    assert Ascii("\"") == [QUOTE];
    var c := EscapeAt([b], 0).0;
    assert CharsOf([b], 1) == [] && CharsOf([b], 0) == [c];
    assert CharsText([c]) == CharText(c) + [] == CharText(c);
  }

  lemma LowerDigit(n: nat)
    requires n < 16
    ensures HexDigit(n) == Ascii(LOWER_HEX)[n]
  {
    hide Ascii;
    HexInCode();
  }

  lemma ControlText(b: byte)
    requires b < 32
    ensures CharText(Hex(Hex4(b))) == Ascii("\\u00") + [Ascii(LOWER_HEX)[b / 16], Ascii(LOWER_HEX)[b % 16]]
  {
    LowerDigit(b / 16);
    LowerDigit(b % 16);
    hide HexDigit;
    assert HexDigit(0) == 48 by { ZeroDigit(); }
    assert b / 16 / 16 == 0 && b / 16 % 16 == b / 16;
    assert Hex4(b) == [48, 48, HexDigit(b / 16), HexDigit(b % 16)];
    assert Ascii("\\u00") == [BACKSLASH, LOWER_U, 48, 48];
  }

  lemma ZeroDigit()
    ensures HexDigit(0) == 48
  {
  }

  /** The two line separators of Unicode are written as escapes. */
  lemma DumpedSeparators(lib: Libc)
    ensures Dumped(lib, Str([0xE2, 0x80, 0xA8])) == Quoted(Ascii("\\u2028"))
    ensures Dumped(lib, Str([0xE2, 0x80, 0xA9])) == Quoted(Ascii("\\u2029"))
  {
    hide Dumped, Quoted, Hex4;
    SeparatorDumped(lib, [0xE2, 0x80, 0xA8], 0x2028);
    SeparatorDumped(lib, [0xE2, 0x80, 0xA9], 0x2029);
    SeparatorDigits();
    assert Ascii("\\u2028") == [BACKSLASH, LOWER_U, 50, 48, 50, 56] && Ascii("\\u2029") == [BACKSLASH, LOWER_U, 50, 48, 50, 57];
    assert [BACKSLASH, LOWER_U] + Hex4(0x2028) == Ascii("\\u2028") && [BACKSLASH, LOWER_U] + Hex4(0x2029) == Ascii("\\u2029");
  }

  lemma SeparatorDigits()
    ensures Hex4(0x2028) == [50, 48, 50, 56] && Hex4(0x2029) == [50, 48, 50, 57]
  {
    assert HexDigit(2) == 50 && HexDigit(0) == 48 && HexDigit(8) == 56 && HexDigit(9) == 57;
    hide HexDigit;
    assert 0x2028 / 16 == 0x202 && 0x202 / 16 == 0x20 && 0x20 / 16 == 2 && 0x2029 / 16 == 0x202;
  }

  lemma NoLetter(b: byte)
    requires b == 0xE2
    ensures EscapeLetter(b) == None
  {
  }

  lemma SeparatorDumped(lib: Libc, s: bytes, u: int)
    requires s == [0xE2, 0x80, if u == 0x2028 then 0xA8 else 0xA9] && (u == 0x2028 || u == 0x2029)
    ensures Dumped(lib, Str(s)) == Quoted([BACKSLASH, LOWER_U] + Hex4(u))
  {
    hide Hex4, EscapeLetter;
    assert Ascii("\"") == [QUOTE] && EscapeLetter(s[0]) == None by { NoLetter(s[0]); }
    var c := Hex(Hex4(u));
    assert EscapeAt(s, 0) == (c, 3);
    assert CharsOf(s, 3) == [] && CharsOf(s, 0) == [c];
    assert CharsText([c]) == CharText(c) + [] == CharText(c);
  }

  // ---- Depth ----

  function Repeat(b: byte, n: nat): (s: bytes) { seq(n, _ => b) }

  /** n opening brackets and as many closing ones. */
  function Brackets(n: nat): (text: bytes) { Repeat(LBRACKET, n) + Repeat(RBRACKET, n) }

  function Nested(n: nat): (v: Json) { if n <= 1 then Array([]) else Array([Nested(n - 1)]) }

  function NestedTree(n: nat): (t: Tree) { if n <= 1 then TEmptyArray([]) else TArray([Elem([], NestedTree(n - 1), [])]) }

  /** Arrays may be nested 201 deep, the innermost one empty, and not deeper. */
  lemma DepthLimit(mode: Strategy, lib: Libc, n: nat)
    requires n > 0
    ensures if n <= 201 then ParsesTo(mode, lib, Brackets(n), Nested(n)) else Fails(mode, lib, Brackets(n))
  {
    hide ParsesTo, Fails, Derives;
    if n <= 201 {
      NestedDerives(mode, n);
      WordsAround(mode, NestedTree(n), Brackets(n));
      forall erange ensures Eval(lib, NestedTree(n), erange) == Reading(Nested(n), erange) { NestedValue(lib, n, erange); }
      DerivedParses(mode, lib, Brackets(n), Document([], NestedTree(n), []), Nested(n));
    } else {
      TooManyBrackets(mode, lib, n);
    }
  }

  lemma WordsAround(mode: Strategy, t: Tree, text: bytes)
    requires ValidTree(mode, t) && Height(t) <= MAX_DEPTH && Text(t) == text
    ensures Derives(mode, text, Document([], t, []))
  {
    assert text == [] + (text + []);
  }

  lemma {:induction false} NestedDerives(mode: Strategy, n: nat)
    requires 0 < n
    ensures ValidTree(mode, NestedTree(n)) && Height(NestedTree(n)) == n - 1 && Text(NestedTree(n)) == Brackets(n)
  {
    if n == 1 {
      assert Brackets(1) == [LBRACKET] + ([] + [RBRACKET]);
    } else {
      var e := Elem([], NestedTree(n - 1), []);
      NestedDerives(mode, n - 1);
      assert ValidElem(mode, e);
      assert [e][1..] == [] && ElemsHeight([]) == 0;
      assert ElemsHeight([e]) == Max(n - 2, 0) == n - 2;
      assert ElemsText([e]) == Brackets(n - 1) + ([] + []);
      BracketsAround(n);
    }
  }

  lemma BracketsAround(n: nat)
    requires n > 1
    ensures [LBRACKET] + ([] + ((Brackets(n - 1) + ([] + [])) + [RBRACKET])) == Brackets(n)
  {
    assert Repeat(LBRACKET, n) == [LBRACKET] + Repeat(LBRACKET, n - 1);
    assert Repeat(RBRACKET, n) == Repeat(RBRACKET, n - 1) + [RBRACKET];
  }

  lemma {:induction false} NestedValue(lib: Libc, n: nat, erange: bool)
    ensures Eval(lib, NestedTree(n), erange) == Reading(Nested(n), erange)
  {
    if n > 1 {
      var e := Elem([], NestedTree(n - 1), []);
      NestedValue(lib, n - 1, erange);
      assert [e][1..] == [];
      assert EvalElems(lib, [], [] + [Nested(n - 1)], erange) == ArrayReading([Nested(n - 1)], erange);
      assert EvalElems(lib, [e], [], erange) == ArrayReading([Nested(n - 1)], erange);
    }
  }

  lemma TooManyBrackets(mode: Strategy, lib: Libc, n: nat)
    requires n > 201
    ensures Fails(mode, lib, Brackets(n))
  {
    hide ParseJson;
    forall err, erange ensures Parse(Source(Brackets(n), mode, lib), Start(err, erange)).st.failed {
      TooDeep(Source(Brackets(n), mode, lib), 0, Start(err, erange));
    }
  }

  lemma {:induction false} TooDeep(p: Source, depth: nat, st: State)
    requires depth <= 201 && st.i + (201 - depth) < |p.text| && !st.failed
    requires forall k :: st.i <= k <= st.i + (201 - depth) ==> p.text[k] == LBRACKET
    ensures ParseJson(p, depth, st).st.failed
    decreases 201 - depth
  {
    hide ParseJson;
    if depth < 201 {
      var st1 := st.(i := st.i + 1);
      TooDeep(p, depth + 1, st1);
      BracketFails(p, depth, st, st1);
    } else {
      BeyondDepth(p, st);
    }
  }

  lemma BeyondDepth(p: Source, st: State)
    requires st.i <= |p.text|
    ensures ParseJson(p, 201, st).st.failed
  {
  }

  lemma BracketFails(p: Source, depth: nat, st: State, st1: State)
    requires depth <= MAX_DEPTH && !st.failed && st.i + 1 < |p.text| && p.text[st.i] == p.text[st.i + 1] == LBRACKET
    requires st1 == st.(i := st.i + 1) && ParseJson(p, depth + 1, st1).st.failed
    ensures ParseJson(p, depth, st).st.failed
  {
    hide ConsumeGarbage, ParseJson;
    GarbageStays(p, st);
    GarbageStays(p, st1);
    var st2 := st1.(i := st.i + 2);
    assert GetNextToken(p, st) == Token(LBRACKET, st1) && GetNextToken(p, st1) == Token(LBRACKET, st2);
    ElementsFail(p, depth, st2);
    ArrayFails(p, depth, st, st1, st2);
  }

  lemma ArrayFails(p: Source, depth: nat, st: State, st1: State, st2: State)
    requires depth <= MAX_DEPTH && st.i <= |p.text| && st1.i <= |p.text| && 0 < st2.i <= |p.text| && !st1.failed
    requires GetNextToken(p, st) == Token(LBRACKET, st1) && GetNextToken(p, st1) == Token(LBRACKET, st2)
    requires ParseElements(p, depth, st2, []).st.failed
    ensures ParseJson(p, depth, st).st.failed
  {
    hide GetNextToken, ParseElements, ParseMembers, ParseString, ParseNumber, Expect;
  }

  lemma ElementsFail(p: Source, depth: nat, st: State)
    requires depth <= MAX_DEPTH && 0 < st.i <= |p.text| && ParseJson(p, depth + 1, st.(i := st.i - 1)).st.failed
    ensures ParseElements(p, depth, st, []).st.failed
  {
    hide ParseJson;
  }

  // ---- Depth of objects ----

  const LEVEL: bytes := [LBRACE, QUOTE, QUOTE, COLON]

  /** n braces, each but the innermost one around a member with an empty key. */
  function Braces(n: nat): (text: bytes) { if n <= 1 then [LBRACE, RBRACE] else LEVEL + (Braces(n - 1) + [RBRACE]) }

  function NestedObject(n: nat): (v: Json) { if n <= 1 then Object([]) else Object([Field([], NestedObject(n - 1))]) }

  function BracesTree(n: nat): (t: Tree) {
    if n <= 1 then TEmptyObject([]) else TObject([Member([], [], [], Elem([], BracesTree(n - 1), []))])
  }

  /** Objects may be nested as deep as arrays. */
  lemma DepthOfObjects(mode: Strategy, lib: Libc, n: nat)
    requires n > 0
    ensures if n <= 201 then ParsesTo(mode, lib, Braces(n), NestedObject(n)) else Fails(mode, lib, Braces(n))
  {
    hide ParsesTo, Fails, Derives;
    if n <= 201 {
      BracesDerive(mode, n);
      WordsAround(mode, BracesTree(n), Braces(n));
      forall erange ensures Eval(lib, BracesTree(n), erange) == Reading(NestedObject(n), erange) { BracesValue(lib, n, erange); }
      DerivedParses(mode, lib, Braces(n), Document([], BracesTree(n), []), NestedObject(n));
    } else {
      TooManyBraces(mode, lib, n);
    }
  }

  lemma {:induction false} BracesDerive(mode: Strategy, n: nat)
    requires 0 < n
    ensures ValidTree(mode, BracesTree(n)) && Height(BracesTree(n)) == n - 1 && Text(BracesTree(n)) == Braces(n)
  {
    if n == 1 {
      assert Braces(1) == [LBRACE] + ([] + [RBRACE]);
    } else {
      var e := Elem([], BracesTree(n - 1), []);
      var m := Member([], [], [], e);
      BracesDerive(mode, n - 1);
      assert ValidElem(mode, e) && ValidMember(mode, m);
      assert [m][1..] == [] && MembersHeight([]) == 0;
      assert MembersHeight([m]) == Max(n - 2, 0) == n - 2;
      MemberText(m, Braces(n - 1));
    }
  }

  lemma MemberText(m: Member, inner: bytes)
    requires m.pre == [] && m.key == [] && m.mid == [] && m.elem.pre == [] && m.elem.post == [] && Text(m.elem.value) == inner
    ensures Text(TObject([m])) == LEVEL + (inner + [RBRACE])
  {
    hide Text;
    var ms := [m];
    assert ms[1..] == [];
    assert StringText([]) == [QUOTE] + ([] + [QUOTE]);
    LevelText(inner, MembersText(ms));
    OneMember(ms);
  }

  lemma LevelText(inner: bytes, members: bytes)
    requires members == ([QUOTE] + ([] + [QUOTE])) + ([] + ([COLON] + ([] + (inner + ([] + [])))))
    ensures [LBRACE] + ([] + (members + [RBRACE])) == LEVEL + (inner + [RBRACE])
  {
    assert inner + ([] + []) == inner;
    assert members == [QUOTE, QUOTE, COLON] + inner;
  }

  lemma OneMember(ms: seq<Member>)
    requires |ms| == 1 && ms[0].pre == []
    ensures Text(TObject(ms)) == [LBRACE] + ([] + (MembersText(ms) + [RBRACE]))
  {
    hide MembersText;
  }

  lemma {:induction false} BracesValue(lib: Libc, n: nat, erange: bool)
    ensures Eval(lib, BracesTree(n), erange) == Reading(NestedObject(n), erange)
  {
    if n > 1 {
      var m := Member([], [], [], Elem([], BracesTree(n - 1), []));
      BracesValue(lib, n - 1, erange);
      assert [m][1..] == [] && Decode([]) == [];
      var fields := Insert([], [], NestedObject(n - 1));
      assert fields == [Field([], NestedObject(n - 1))];
      assert EvalMembers(lib, [], fields, erange) == ObjectReading(fields, erange);
      assert EvalMembers(lib, [m], [], erange) == ObjectReading(fields, erange);
    }
  }

  /** At i the text opens k levels, one after the other, and one more brace. */
  ghost predicate Opens(s: bytes, i: nat, k: nat)
    decreases k
  {
    if k == 0 then i < |s| && s[i] == LBRACE
    else i + 4 <= |s| && s[i..i + 4] == LEVEL && Opens(s, i + 4, k - 1)
  }

  lemma {:induction false} BracesOpen(s: bytes, i: nat, n: nat, k: nat)
    requires k < n && i + |Braces(n)| <= |s| && s[i..i + |Braces(n)|] == Braces(n)
    ensures Opens(s, i, k)
    decreases k
  {
    var b := Braces(n);
    assert s[i] == s[i..i + |b|][0] == b[0] == LBRACE;
    if k > 0 {
      var inner := Braces(n - 1);
      Inside(s, i, LEVEL, inner, [RBRACE]);
      BracesOpen(s, i + 4, n - 1, k - 1);
    }
  }

  lemma Inside(s: bytes, i: nat, a: bytes, b: bytes, c: bytes)
    requires var t := a + (b + c); i + |t| <= |s| && s[i..i + |t|] == t
    ensures s[i..i + |a|] == a && s[i + |a|..i + |a| + |b|] == b
  {
    hide Occurs;
    OccursIsSlice(s, i, i + |a + (b + c)|);
    var j := Split(s, i, i + |a + (b + c)|, a, b + c);
    var k := Split(s, j, i + |a + (b + c)|, b, c);
    assert j == i + |a| && k == j + |b| by { OccursLength(s, i, j, a); OccursLength(s, j, k, b); }
    OccursIsSlice(s, i, j);
    OccursIsSlice(s, j, k);
  }

  lemma OccursLength(s: bytes, i: nat, j: nat, a: bytes)
    requires Occurs(s, i, j, a)
    ensures j == i + |a| <= |s|
  {
  }

  lemma TooManyBraces(mode: Strategy, lib: Libc, n: nat)
    requires n > 201
    ensures Fails(mode, lib, Braces(n))
  {
    hide ParseJson, ConsumeGarbage;
    var text := Braces(n);
    assert text[0..|text|] == text;
    BracesOpen(text, 0, n, 201);
    hide Opens, Braces;
    forall err, erange ensures Parse(Source(text, mode, lib), Start(err, erange)).st.failed {
      TooManyLevels(Source(text, mode, lib), 0, Start(err, erange));
    }
  }

  lemma {:induction false} TooManyLevels(p: Source, depth: nat, st: State)
    requires depth <= 201 && st.i <= |p.text| && !st.failed && Opens(p.text, st.i, 201 - depth)
    ensures ParseJson(p, depth, st).st.failed
    decreases 201 - depth
  {
    hide ParseJson;
    if depth < 201 {
      TooManyLevels(p, depth + 1, st.(i := st.i + 4));
      BraceFails(p, depth, st);
    } else {
      BeyondDepth(p, st);
    }
  }

  lemma BraceFails(p: Source, depth: nat, st: State)
    requires depth <= MAX_DEPTH && !st.failed && st.i + 4 <= |p.text| && p.text[st.i..st.i + 4] == LEVEL
    requires ParseJson(p, depth + 1, st.(i := st.i + 4)).st.failed
    ensures ParseJson(p, depth, st).st.failed
  {
    hide ConsumeGarbage, ParseJson, ParseString;
    var s1, s2, s3 := st.(i := st.i + 1), st.(i := st.i + 2), st.(i := st.i + 3);
    assert p.text[st.i] == LBRACE && p.text[st.i + 1] == QUOTE && p.text[st.i + 2] == QUOTE && p.text[st.i + 3] == COLON by {
      assert p.text[st.i..st.i + 4][0] == LBRACE && p.text[st.i..st.i + 4][1] == QUOTE
        && p.text[st.i..st.i + 4][2] == QUOTE && p.text[st.i..st.i + 4][3] == COLON;
    }
    GarbageStays(p, st);
    GarbageStays(p, s1);
    GarbageStays(p, s3);
    assert GetNextToken(p, st) == Token(LBRACE, s1) && GetNextToken(p, s1) == Token(QUOTE, s2);
    assert GetNextToken(p, s3) == Token(COLON, st.(i := st.i + 4));
    EmptyKey(p.text, s2);
    MemberFails(p, depth, s2, s3);
    ObjectFails(p, depth, st, s1, s2);
  }

  lemma EmptyKey(s: bytes, st: State)
    requires st.i < |s| && s[st.i] == QUOTE
    ensures ParseString(s, st) == StringResult([], st.(i := st.i + 1))
  {
  }

  lemma MemberFails(p: Source, depth: nat, st: State, st1: State)
    requires depth <= MAX_DEPTH && st.i <= |p.text| && !st1.failed && st1.i <= |p.text|
    requires ParseString(p.text, st) == StringResult([], st1)
    requires var t := GetNextToken(p, st1); t.ch == COLON && ParseJson(p, depth + 1, t.st).st.failed
    ensures ParseMembers(p, depth, QUOTE, st, []).st.failed
  {
    hide ParseJson, ParseString, GetNextToken;
  }

  lemma ObjectFails(p: Source, depth: nat, st: State, st1: State, st2: State)
    requires depth <= MAX_DEPTH && st.i <= |p.text| && st1.i <= |p.text| && st2.i <= |p.text| && !st1.failed
    requires GetNextToken(p, st) == Token(LBRACE, st1) && GetNextToken(p, st1) == Token(QUOTE, st2)
    requires ParseMembers(p, depth, QUOTE, st2, []).st.failed
    ensures ParseJson(p, depth, st).st.failed
  {
    hide GetNextToken, ParseElements, ParseMembers, ParseString, ParseNumber, Expect;
  }
}
