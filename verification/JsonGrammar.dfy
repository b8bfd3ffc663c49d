/**
 * The JSON grammar of RFC 8259, sections 2 to 7, as derivation trees with the text each one
 * spells and the value it stands for.
 */
module JsonGrammar {
  import opened Bytes
  import opened JsonNumber
  import opened JsonValue
  import opened Utf8

  // ---- Section 2: whitespace, and the comments of COMMENTS mode ----

  datatype Strategy = Standard | Comments

  predicate IsWs(b: byte) { b == SPACE || b == TAB || b == LF || b == CR }

  /** The first newline from i on, or the end. */
  function FindNewline(s: bytes, i: nat): (j: nat)
    requires i <= |s|
    ensures i <= j <= |s| && (j < |s| ==> s[j] == LF)
    decreases |s| - i
  {
    if i == |s| || s[i] == LF then i else FindNewline(s, i + 1)
  }

  /** The first closing star-slash from i on, or where the search stops for lack of two bytes. */
  function FindClose(s: bytes, i: nat): (j: nat)
    requires i <= |s|
    ensures i <= j <= |s| && (i < |s| ==> j < |s|)
    decreases |s| - i
  {
    if i + 1 >= |s| || (s[i] == STAR && s[i + 1] == SLASH) then i else FindClose(s, i + 1)
  }

  /**
   * The length of the comment a text begins with, or 0: two slashes up to a newline that must
   * follow, or slash-star up to and with the first star-slash.
   */
  function CommentLength(s: bytes): (n: nat)
    ensures n <= |s|
  {
    if |s| < 2 || s[0] != SLASH then 0
    else if s[1] == SLASH then
      var j := FindNewline(s, 2);
      if j < |s| then j else 0
    else if s[1] == STAR then
      var j := FindClose(s, 2);
      if j + 1 < |s| then j + 2 else 0
    else 0
  }

  /** What may stand between two tokens: whitespace, and in COMMENTS mode comments. */
  predicate IsGap(mode: Strategy, g: bytes)
    decreases |g|
  {
    if g == [] then true
    else if IsWs(g[0]) then IsGap(mode, g[1..])
    else mode == Comments && CommentLength(g) > 0 && IsGap(mode, g[CommentLength(g)..])
  }

  /** The gap may be the end of a text: its last piece is not a slash-star comment. */
  predicate MayEnd(g: bytes)
    decreases |g|
  {
    if g == [] then true
    else if IsWs(g[0]) then MayEnd(g[1..])
    else 0 < CommentLength(g) < |g| && MayEnd(g[CommentLength(g)..])
  }

  /** The byte does not begin a gap. */
  predicate NoGap(mode: Strategy, b: byte) { !IsWs(b) && (mode == Comments ==> b != SLASH) }

  // ---- Section 7: strings ----

  /** One char of a string: a raw byte, a two-character escape, or \u with four hex digits. */
  datatype Char = Unescaped(b: byte) | Short(letter: byte) | Hex(digits: bytes)

  predicate IsHexDigit(b: byte) { IsDigit(b) || 97 <= b <= 102 || 65 <= b <= 70 }

  predicate IsHex4(d: bytes) { |d| == 4 && forall k :: 0 <= k < 4 ==> IsHexDigit(d[k]) }

  function HexDigitValue(b: byte): (v: nat)
    ensures v < 16
  {
    if IsDigit(b) then b - ZERO
    else if 97 <= b <= 102 then b - 87
    else if 65 <= b <= 70 then b - 55
    else 0
  }

  /** strtol(d, nullptr, 16). */
  function HexValue(d: bytes): (v: nat)
    ensures v < 0x10000
  {
    if |d| != 4 then 0 else
    ((HexDigitValue(d[0]) * 16 + HexDigitValue(d[1])) * 16 + HexDigitValue(d[2])) * 16 + HexDigitValue(d[3])
  }

  predicate IsShortLetter(b: byte) {
    b == QUOTE || b == BACKSLASH || b == SLASH || b == LOWER_B || b == LOWER_F || b == LOWER_N || b == LOWER_R || b == LOWER_T
  }

  function ShortValue(letter: byte): (b: byte) {
    if letter == LOWER_B then 8
    else if letter == LOWER_F then 12
    else if letter == LOWER_N then LF
    else if letter == LOWER_R then CR
    else if letter == LOWER_T then TAB
    else letter
  }

  predicate ValidChar(c: Char) {
    match c
    case Unescaped(b) => b >= 0x20 && b != QUOTE && b != BACKSLASH
    case Short(letter) => IsShortLetter(letter)
    case Hex(d) => IsHex4(d)
  }

  predicate ValidChars(cs: seq<Char>) { forall k :: 0 <= k < |cs| ==> ValidChar(cs[k]) }

  function CharText(c: Char): (s: bytes) {
    match c
    case Unescaped(b) => [b]
    case Short(letter) => [BACKSLASH, letter]
    case Hex(d) => [BACKSLASH, LOWER_U] + d
  }

  function CharsText(cs: seq<Char>): (s: bytes) {
    if cs == [] then [] else CharText(cs[0]) + CharsText(cs[1..])
  }

  function StringText(cs: seq<Char>): (s: bytes) { [QUOTE] + (CharsText(cs) + [QUOTE]) }

  /** Two \u escapes side by side that form a surrogate pair. */
  predicate StartsWithPair(cs: seq<Char>) {
    |cs| >= 2 && cs[0].Hex? && cs[1].Hex? && IsHigh(HexValue(cs[0].digits)) && IsLow(HexValue(cs[1].digits))
  }

  /**
   * The bytes a string stands for: escapes are read left to right, a high surrogate with the low
   * one right after it is one character, and any other \u escape is encoded by itself.
   */
  function Decode(cs: seq<Char>): (out: bytes) {
    if cs == [] then []
    else if StartsWithPair(cs) then
      EncodeUtf8(Pair(HexValue(cs[0].digits), HexValue(cs[1].digits))) + Decode(cs[2..])
    else
      (match cs[0]
       case Unescaped(b) => [b]
       case Short(letter) => [ShortValue(letter)]
       case Hex(d) => EncodeUtf8(HexValue(d))) + Decode(cs[1..])
  }

  // ---- Section 6: numbers ----

  datatype Reading = Reading(value: Json, erange: bool)

  /** strtod on a text. ERANGE, once in errno, stays. */
  function ReadDouble(lib: Libc, text: bytes, erange: bool): (r: Reading) {
    Reading(Number(lib.strtod(text).value), erange || lib.strtod(text).erange)
  }

  /** ceil(63 * log10(2) + 1) and ceil(64 * log10(2)): the longest text handed to atoll or strtoull. */
  const INTEGER_CHARS := 20

  /**
   * A literal without fraction and exponent: atoll or strtoull if it is short enough, and strtod
   * if it was not, if it was out of range, or if errno was already ERANGE. strtod is given tail,
   * which begins with the literal.
   */
  function ReadInteger(lib: Libc, text: bytes, tail: bytes, erange: bool): (r: Reading) {
    if |text| > INTEGER_CHARS then ReadDouble(lib, tail, erange)
    else if At(text, 0) == MINUS then
      var n := 0 - Decimal(text[1..]) as int;
      if n < -0x8000_0000_0000_0000 then ReadDouble(lib, tail, true)
      else if erange then ReadDouble(lib, tail, true)
      else Reading(Int64(n), false)
    else
      var n := Decimal(text);
      if n >= 0x1_0000_0000_0000_0000 then ReadDouble(lib, tail, true)
      else if erange then ReadDouble(lib, tail, true)
      else Reading(UInt64(n), false)
  }

  /** A literal with tail from it to the end of the text. */
  function ReadNumberIn(lib: Libc, l: NumLit, tail: bytes, erange: bool): (r: Reading) {
    if IsWhole(l) then ReadInteger(lib, NumText(l), tail, erange) else ReadDouble(lib, tail, erange)
  }

  /** A literal by itself. */
  function ReadNumber(lib: Libc, l: NumLit, erange: bool): (r: Reading) { ReadNumberIn(lib, l, NumText(l), erange) }

  // ---- Sections 3 to 5: values, objects, arrays ----

  datatype Tree =
    | TNull | TTrue | TFalse
    | TNum(lit: NumLit)
    | TStr(chars: seq<Char>)
    | TEmptyArray(ws: bytes)
    | TArray(elems: seq<Elem>)
    | TEmptyObject(ws: bytes)
    | TObject(members: seq<Member>)

  /** A value with the gaps before and after it. */
  datatype Elem = Elem(pre: bytes, value: Tree, post: bytes)

  /** "key" : value with its gaps: pre "key" mid : elem. */
  datatype Member = Member(pre: bytes, key: seq<Char>, mid: bytes, elem: Elem)

  predicate ValidTree(mode: Strategy, t: Tree)
    decreases t
  {
    match t
    case TNum(l) => ValidNum(l)
    case TStr(cs) => ValidChars(cs)
    case TEmptyArray(ws) => IsGap(mode, ws)
    case TArray(es) => es != [] && forall k :: 0 <= k < |es| ==> ValidElem(mode, es[k])
    case TEmptyObject(ws) => IsGap(mode, ws)
    case TObject(ms) => ms != [] && forall k :: 0 <= k < |ms| ==> ValidMember(mode, ms[k])
    case _ => true
  }

  predicate ValidElem(mode: Strategy, e: Elem)
    decreases e
  {
    IsGap(mode, e.pre) && IsGap(mode, e.post) && ValidTree(mode, e.value)
  }

  predicate ValidMember(mode: Strategy, m: Member)
    decreases m
  {
    IsGap(mode, m.pre) && IsGap(mode, m.mid) && ValidChars(m.key) && ValidElem(mode, m.elem)
  }

  const NULL_TEXT: bytes := [110, 117, 108, 108]
  const TRUE_TEXT: bytes := [116, 114, 117, 101]
  const FALSE_TEXT: bytes := [102, 97, 108, 115, 101]

  /** The text a derivation spells. */
  function Text(t: Tree): (s: bytes)
    decreases t
  {
    match t
    case TNull => NULL_TEXT
    case TTrue => TRUE_TEXT
    case TFalse => FALSE_TEXT
    case TNum(l) => NumText(l)
    case TStr(cs) => StringText(cs)
    case TEmptyArray(ws) => [LBRACKET] + (ws + [RBRACKET])
    case TArray(es) => [LBRACKET] + (if es == [] then [] else es[0].pre + (ElemsText(es) + [RBRACKET]))
    case TEmptyObject(ws) => [LBRACE] + (ws + [RBRACE])
    case TObject(ms) => [LBRACE] + (if ms == [] then [] else ms[0].pre + (MembersText(ms) + [RBRACE]))
  }

  /** The elements from the first value on, without the closing bracket. */
  function ElemsText(es: seq<Elem>): (s: bytes)
    requires es != []
    decreases es
  {
    assert es[0].value < es[0];
    Text(es[0].value) + (es[0].post +
      if |es| == 1 then [] else [COMMA] + (es[1].pre + ElemsText(es[1..])))
  }

  /** The members from the first key on, without the closing brace. */
  function MembersText(ms: seq<Member>): (s: bytes)
    requires ms != []
    decreases ms
  {
    assert ms[0].elem.value < ms[0].elem < ms[0];
    StringText(ms[0].key) + (ms[0].mid + ([COLON] + (ms[0].elem.pre + (Text(ms[0].elem.value) + (ms[0].elem.post +
      if |ms| == 1 then [] else [COMMA] + (ms[1].pre + MembersText(ms[1..])))))))
  }

  function Max(a: nat, b: nat): nat { if a < b then b else a }

  /** How deep containers with something in them are nested. */
  function Height(t: Tree): (h: nat)
    decreases t
  {
    match t
    case TArray(es) => 1 + ElemsHeight(es)
    case TObject(ms) => 1 + MembersHeight(ms)
    case _ => 0
  }

  function ElemsHeight(es: seq<Elem>): (h: nat)
    decreases es
  {
    if es == [] then 0 else
    assert es[0].value < es[0];
    Max(Height(es[0].value), ElemsHeight(es[1..]))
  }

  function MembersHeight(ms: seq<Member>): (h: nat)
    decreases ms
  {
    if ms == [] then 0 else
    assert ms[0].elem.value < ms[0].elem < ms[0];
    Max(Height(ms[0].elem.value), MembersHeight(ms[1..]))
  }

  datatype ArrayReading = ArrayReading(items: seq<Json>, erange: bool)
  datatype ObjectReading = ObjectReading(fields: seq<Field>, erange: bool)

  /**
   * The value a derivation stands for. errno is carried from literal to literal in reading order,
   * as the code never clears it.
   */
  function Eval(lib: Libc, t: Tree, erange: bool): (r: Reading)
    decreases t
  {
    match t
    case TNull => Reading(Nul, erange)
    case TTrue => Reading(Bool(true), erange)
    case TFalse => Reading(Bool(false), erange)
    case TNum(l) => ReadNumber(lib, l, erange)
    case TStr(cs) => Reading(Str(Decode(cs)), erange)
    case TEmptyArray(_) => Reading(Array([]), erange)
    case TArray(es) => var r := EvalElems(lib, es, [], erange); Reading(Array(r.items), r.erange)
    case TEmptyObject(_) => Reading(Object([]), erange)
    case TObject(ms) => var r := EvalMembers(lib, ms, [], erange); Reading(Object(r.fields), r.erange)
  }

  function EvalElems(lib: Libc, es: seq<Elem>, items: seq<Json>, erange: bool): (r: ArrayReading)
    decreases es
  {
    if es == [] then ArrayReading(items, erange)
    else
      assert es[0].value < es[0];
      var v := Eval(lib, es[0].value, erange);
      EvalElems(lib, es[1..], items + [v.value], v.erange)
  }

  /** Members are stored one after the other, so the last of several with one key stays. */
  function EvalMembers(lib: Libc, ms: seq<Member>, fields: seq<Field>, erange: bool): (r: ObjectReading)
    decreases ms
  {
    if ms == [] then ObjectReading(fields, erange)
    else
      assert ms[0].elem.value < ms[0].elem < ms[0];
      var v := Eval(lib, ms[0].elem.value, erange);
      EvalMembers(lib, ms[1..], Insert(fields, Decode(ms[0].key), v.value), v.erange)
  }

  /** A whole JSON text: gap value gap. */
  datatype Document = Document(pre: bytes, value: Tree, post: bytes)

  /** The text derives from the grammar by d, within the depth limit of section 9. */
  ghost predicate Derives(mode: Strategy, s: bytes, d: Document) {
    IsGap(mode, d.pre) && IsGap(mode, d.post) && MayEnd(d.post) && ValidTree(mode, d.value) && Height(d.value) <= MAX_DEPTH
    && s == d.pre + (Text(d.value) + d.post)
  }

  const MAX_DEPTH := 200
}
