/** The serializer: what dump appends for each value, and the loops that append it. */
module JsonDump {
  import opened Options
  import opened Bytes
  import opened JsonValue
  import opened JsonGrammar

  function HexDigit(n: nat): (b: byte)
    requires n < 16
    ensures IsHexDigit(b) && HexDigitValue(b) == n
  {
    if n < 10 then ZERO + n else 87 + n
  }

  /** The four digits printf writes for %04x. */
  function Hex4(n: nat): (d: bytes)
    requires n < 0x10000
    ensures IsHex4(d) && HexValue(d) == n
  {
    [HexDigit(n / 16 / 16 / 16), HexDigit(n / 16 / 16 % 16), HexDigit(n / 16 % 16), HexDigit(n % 16)]
  }

  /** The escape letter for a control byte that has one. */
  function EscapeLetter(b: byte): (letter: Option<byte>) {
    if b == BACKSLASH || b == QUOTE then Some(b)
    else if b == 8 then Some(LOWER_B)
    else if b == 12 then Some(LOWER_F)
    else if b == LF then Some(LOWER_N)
    else if b == CR then Some(LOWER_R)
    else if b == TAB then Some(LOWER_T)
    else None
  }

  /** U+2028 or U+2029 in UTF-8 stands at i. */
  predicate IsLineSeparator(s: bytes, i: nat)
    requires i < |s|
  {
    s[i] == 0xE2 && At(s, i + 1) == 0x80 && (At(s, i + 2) == 0xA8 || At(s, i + 2) == 0xA9)
  }

  /** The char that writes what stands at i, and how many bytes it covers. */
  function EscapeAt(s: bytes, i: nat): (r: (Char, nat))
    requires i < |s|
    ensures 0 < r.1 <= |s| - i
  {
    if EscapeLetter(s[i]).Some? then (Short(EscapeLetter(s[i]).value), 1)
    else if s[i] <= 0x1F then (Hex(Hex4(s[i])), 1)
    else if IsLineSeparator(s, i) then (Hex(Hex4(if s[i + 2] == 0xA8 then 0x2028 else 0x2029)), 3)
    else (Unescaped(s[i]), 1)
  }

  /** The chars that write s from i on. */
  function CharsOf(s: bytes, i: nat): (cs: seq<Char>)
    requires i <= |s|
    decreases |s| - i
  {
    if i == |s| then [] else [EscapeAt(s, i).0] + CharsOf(s, i + EscapeAt(s, i).1)
  }

  function DumpInteger(n: int): (s: bytes) {
    if n < 0 then [MINUS] + ToDecimal(-n) else ToDecimal(n)
  }

  function Dumped(lib: Libc, v: Json): (s: bytes)
    decreases v
  {
    match v
    case Nul => NULL_TEXT
    case Number(d) => if d.Finite? then lib.g17(d.r) else NULL_TEXT
    case Int64(n) => DumpInteger(n)
    case UInt64(u) => DumpInteger(u)
    case Bool(b) => if b then TRUE_TEXT else FALSE_TEXT
    case Str(s) => StringText(CharsOf(s, 0))
    case Array(items) => [LBRACKET] + (DumpItems(lib, items, true) + [RBRACKET])
    case Object(fields) => [LBRACE] + (DumpFields(lib, fields, true) + [RBRACE])
  }

  const COMMA_SPACE: bytes := [COMMA, SPACE]
  const COLON_SPACE: bytes := [COLON, SPACE]

  function Separator(first: bool): bytes { if first then [] else COMMA_SPACE }

  /** The elements from here on, each but the very first after a comma and a space. */
  function DumpItems(lib: Libc, items: seq<Json>, first: bool): (s: bytes)
    decreases items
  {
    if items == [] then [] else Separator(first) + (Dumped(lib, items[0]) + DumpItems(lib, items[1..], false))
  }

  function DumpFields(lib: Libc, fields: seq<Field>, first: bool): (s: bytes)
    decreases fields
  {
    if fields == [] then [] else Separator(first) + (DumpedField(lib, fields[0]) + DumpFields(lib, fields[1..], false))
  }

  function DumpedField(lib: Libc, f: Field): (s: bytes)
    decreases f
  {
    assert f.value < f;
    StringText(CharsOf(f.key, 0)) + (COLON_SPACE + Dumped(lib, f.value))
  }

  /** The string dump appends to. */
  class Writer {
    var out: bytes

    method DumpString(value: bytes)
      modifies this
      ensures out == old(out) + StringText(CharsOf(value, 0))
    {
      ghost var before := out;
      out := out + [QUOTE];
      var i := 0;
      while i < |value|
        invariant i <= |value|
        invariant out + CharsText(CharsOf(value, i)) == before + [QUOTE] + CharsText(CharsOf(value, 0))
      {
        ghost var base, r := out, EscapeAt(value, i);
        i := DumpByte(value, i);
        CharsTextCons(r.0, CharsOf(value, i), base);
      }
      Enclose(before, QUOTE, CharsText(CharsOf(value, 0)), QUOTE, out, CharsText(CharsOf(value, i)));
      out := out + [QUOTE];
    }

    /** One round of the loop in dump(const string &): the look-ahead may take three bytes at once. */
    method DumpByte(value: bytes, i: nat) returns (next: nat)
      requires i < |value|
      modifies this
      ensures out == old(out) + CharText(EscapeAt(value, i).0) && next == i + EscapeAt(value, i).1
    {
      var ch := value[i];
      next := i + 1;
      if ch == BACKSLASH {
        out := out + [BACKSLASH, BACKSLASH];
      } else if ch == QUOTE {
        out := out + [BACKSLASH, QUOTE];
      } else if ch == 8 {
        out := out + [BACKSLASH, LOWER_B];
      } else if ch == 12 {
        out := out + [BACKSLASH, LOWER_F];
      } else if ch == LF {
        out := out + [BACKSLASH, LOWER_N];
      } else if ch == CR {
        out := out + [BACKSLASH, LOWER_R];
      } else if ch == TAB {
        out := out + [BACKSLASH, LOWER_T];
      } else if ch <= 0x1F {
        out := out + ([BACKSLASH, LOWER_U] + Hex4(ch));
      } else if ch == 0xE2 && At(value, i + 1) == 0x80 && At(value, i + 2) == 0xA8 {
        out := out + ([BACKSLASH, LOWER_U] + Hex4(0x2028));
        next := i + 3;
      } else if ch == 0xE2 && At(value, i + 1) == 0x80 && At(value, i + 2) == 0xA9 {
        out := out + ([BACKSLASH, LOWER_U] + Hex4(0x2029));
        next := i + 3;
      } else {
        out := out + [ch];
      }
    }

    method Dump(lib: Libc, v: Json)
      modifies this
      ensures out == old(out) + Dumped(lib, v)
      decreases v
    {
      match v
      case Nul => out := out + NULL_TEXT;
      case Number(d) =>
        if d.Finite? {
          out := out + lib.g17(d.r);
        } else {
          out := out + NULL_TEXT;
        }
      case Int64(n) => out := out + DumpInteger(n);
      case UInt64(u) => out := out + DumpInteger(u);
      case Bool(b) => out := out + if b then TRUE_TEXT else FALSE_TEXT;
      case Str(s) => DumpString(s);
      case Array(items) => DumpArray(lib, items);
      case Object(fields) => DumpObject(lib, fields);
    }

    method DumpArray(lib: Libc, values: seq<Json>)
      modifies this
      ensures out == old(out) + ([LBRACKET] + (DumpItems(lib, values, true) + [RBRACKET]))
      decreases values
    {
      ghost var before := out;
      var first := true;
      out := out + [LBRACKET];
      ghost var inner := DumpItems(lib, values, true);
      ghost var goal := out + inner;
      assert values[0..] == values;
      for k := 0 to |values|
        invariant first <==> k == 0
        invariant out + DumpItems(lib, values[k..], first) == goal
      {
        ghost var base, rest := out, values[k..];
        assert rest[0] == values[k] && rest[1..] == values[k + 1..];
        if !first {
          out := out + COMMA_SPACE;
        }
        Dump(lib, values[k]);
        ItemsCons(lib, rest, first, base);
        first := false;
      }
      Enclose(before, LBRACKET, inner, RBRACKET, out, DumpItems(lib, values[|values|..], first));
      out := out + [RBRACKET];
    }

    method DumpMember(lib: Libc, kv: Field)
      modifies this
      ensures out == old(out) + DumpedField(lib, kv)
      decreases kv
    {
      ghost var before := out;
      DumpString(kv.key);
      out := out + COLON_SPACE;
      assert kv.value < kv;
      Dump(lib, kv.value);
      FieldIsDumped(lib, kv, before, out);
    }

    /** One round of the loop over a map. */
    method DumpEntry(lib: Libc, values: seq<Field>, k: nat, first: bool)
      requires k < |values|
      modifies this
      ensures out + DumpFields(lib, values[k + 1..], false) == old(out) + DumpFields(lib, values[k..], first)
      decreases values, 0
    {
      ghost var base := out;
      if !first {
        out := out + COMMA_SPACE;
      }
      DumpMember(lib, values[k]);
      assert base + Separator(first) == if first then base else base + COMMA_SPACE;
      NextField(lib, values, k, first, base);
    }

    method DumpObject(lib: Libc, values: seq<Field>)
      modifies this
      ensures out == old(out) + ([LBRACE] + (DumpFields(lib, values, true) + [RBRACE]))
      decreases values, 1
    {
      ghost var before := out;
      var first := true;
      out := out + [LBRACE];
      ghost var inner := DumpFields(lib, values, true);
      ghost var goal := out + inner;
      assert values[0..] == values;
      for k := 0 to |values|
        invariant first <==> k == 0
        invariant out + DumpFields(lib, values[k..], first) == goal
      {
        DumpEntry(lib, values, k, first);
        first := false;
      }
      Enclose(before, LBRACE, inner, RBRACE, out, DumpFields(lib, values[|values|..], first));
      out := out + [RBRACE];
    }
  }

  lemma Enclose(before: bytes, open: byte, inner: bytes, close: byte, out: bytes, left: bytes)
    requires left == [] && out + left == before + [open] + inner
    ensures out + [close] == before + ([open] + (inner + [close]))
  {
    assert out + left == out;
  }

  lemma CharsTextCons(c: Char, cs: seq<Char>, base: bytes)
    ensures base + CharText(c) + CharsText(cs) == base + CharsText([c] + cs)
  {
    assert ([c] + cs)[1..] == cs;
  }

  lemma Append3(base: bytes, a: bytes, b: bytes, c: bytes)
    ensures base + a + b + c == base + (a + (b + c))
  {
  }

  lemma ItemsCons(lib: Libc, items: seq<Json>, first: bool, base: bytes)
    requires items != []
    ensures base + Separator(first) + Dumped(lib, items[0]) + DumpItems(lib, items[1..], false)
      == base + DumpItems(lib, items, first)
  {
    Append3(base, Separator(first), Dumped(lib, items[0]), DumpItems(lib, items[1..], false));
  }

  lemma FieldsCons(lib: Libc, fields: seq<Field>, first: bool, base: bytes)
    requires fields != []
    ensures base + Separator(first) + DumpedField(lib, fields[0]) + DumpFields(lib, fields[1..], false)
      == base + DumpFields(lib, fields, first)
  {
    Append3(base, Separator(first), DumpedField(lib, fields[0]), DumpFields(lib, fields[1..], false));
  }

  lemma NextField(lib: Libc, values: seq<Field>, k: nat, first: bool, base: bytes)
    requires k < |values|
    ensures base + Separator(first) + DumpedField(lib, values[k]) + DumpFields(lib, values[k + 1..], false)
      == base + DumpFields(lib, values[k..], first)
  {
    var rest := values[k..];
    assert rest[0] == values[k] && rest[1..] == values[k + 1..];
    FieldsCons(lib, rest, first, base);
  }

  lemma FieldIsDumped(lib: Libc, kv: Field, before: bytes, out: bytes)
    requires out == before + StringText(CharsOf(kv.key, 0)) + COLON_SPACE + Dumped(lib, kv.value)
    ensures out == before + DumpedField(lib, kv)
  {
    Append3(before, StringText(CharsOf(kv.key, 0)), COLON_SPACE, Dumped(lib, kv.value));
  }
}
