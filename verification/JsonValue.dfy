/** The values of json11: what a Json object can hold. */
module JsonValue {
  import opened Options
  import opened Bytes
  import opened JsonNumber

  type int64 = n: int | -0x8000_0000_0000_0000 <= n < 0x8000_0000_0000_0000
  type uint64 = n: int | 0 <= n < 0x1_0000_0000_0000_0000

  /** A double: only its place in the order matters here. */
  datatype Double = NaN | NegInf | Finite(r: real) | PosInf

  /** An object is a std::map, so a list of pairs with strictly ascending keys. */
  datatype Json =
    | Nul
    | Number(d: Double)
    | Int64(n: int64)
    | UInt64(u: uint64)
    | Bool(b: bool)
    | Str(s: bytes)
    | Array(items: seq<Json>)
    | Object(fields: seq<Field>)

  datatype Field = Field(key: bytes, value: Json)

  datatype Strtod = Strtod(value: Double, erange: bool)

  /**
   * The C library as the code calls it: strtod with the ERANGE it leaves in errno,
   * printf's %.17g, and the conversion of a 64-bit integer to double.
   */
  datatype Clib = Clib(strtod: bytes -> Strtod, g17: real -> bytes, toDouble: int -> real)

  /**
   * strtod reads the literal that a text begins with, whatever follows it, unless an x after a
   * zero makes a hexadecimal number of it.
   */
  ghost predicate ReadsLiteral(c: Clib, l: NumLit, rest: bytes) {
    ValidNum(l) && NumEnds(l, At(rest, 0)) && !HexFollows(l, At(rest, 0)) ==>
      c.strtod(NumText(l) + rest) == c.strtod(NumText(l))
  }

  type Libc = c: Clib | forall l, rest :: ReadsLiteral(c, l, rest)
    witness Clib(_ => Strtod(NaN, false), _ => [], _ => 0.0)

  predicate SortedFields(fs: seq<Field>) {
    forall i, j :: 0 <= i < j < |fs| ==> LessBytes(fs[i].key, fs[j].key)
  }

  /** What the std::map in an object guarantees, all the way down. */
  predicate Valid(v: Json)
    decreases v
  {
    match v
    case Array(items) => forall k :: 0 <= k < |items| ==> Valid(items[k])
    case Object(fields) => SortedFields(fields) && forall k :: 0 <= k < |fields| ==> Valid(fields[k].value)
    case _ => true
  }

  /** data[key] = value of a std::map. */
  function Insert(fs: seq<Field>, key: bytes, value: Json): (r: seq<Field>) {
    if fs == [] then [Field(key, value)]
    else if fs[0].key == key then [Field(key, value)] + fs[1..]
    else if LessBytes(key, fs[0].key) then [Field(key, value)] + fs
    else [fs[0]] + Insert(fs[1..], key, value)
  }

  /** map::find. */
  function Lookup(fs: seq<Field>, key: bytes): (r: Option<Json>) {
    if fs == [] then None
    else if fs[0].key == key then Some(fs[0].value)
    else Lookup(fs[1..], key)
  }

  lemma {:induction false} InsertKeepsOrder(fs: seq<Field>, key: bytes, value: Json)
    requires SortedFields(fs)
    ensures SortedFields(Insert(fs, key, value))
    ensures forall f :: f in Insert(fs, key, value) ==> f in fs || f == Field(key, value)
  {
    var r := Insert(fs, key, value);
    if fs == [] {
    } else if fs[0].key == key {
    } else if LessBytes(key, fs[0].key) {
      forall j | 0 < j < |r| ensures LessBytes(key, r[j].key) {
        if j > 1 { LessBytesTransitive(key, fs[0].key, fs[j - 1].key); }
      }
    } else {
      LessBytesTrichotomy(key, fs[0].key);
      InsertKeepsOrder(fs[1..], key, value);
      forall j | 0 < j < |r| ensures LessBytes(fs[0].key, r[j].key) {
        assert r[j] in Insert(fs[1..], key, value);
      }
    }
  }

  /** Storing under one key changes what is found under that key and nothing else. */
  lemma {:induction false} LookupInsert(fs: seq<Field>, key: bytes, value: Json, other: bytes)
    requires SortedFields(fs)
    ensures Lookup(Insert(fs, key, value), other) == if other == key then Some(value) else Lookup(fs, other)
  {
    if fs != [] && fs[0].key != key && !LessBytes(key, fs[0].key) {
      LookupInsert(fs[1..], key, value, other);
    } else if fs != [] && fs[0].key == key {
      assert Insert(fs, key, value)[1..] == fs[1..];
    } else if fs != [] {
      assert Insert(fs, key, value)[1..] == fs;
    }
  }

  /** A key above all others goes to the end. */
  lemma {:induction false} InsertAtEnd(fs: seq<Field>, key: bytes, value: Json)
    requires forall k :: 0 <= k < |fs| ==> LessBytes(fs[k].key, key)
    ensures Insert(fs, key, value) == fs + [Field(key, value)]
  {
    if fs != [] {
      LessBytesTrichotomy(fs[0].key, key);
      InsertAtEnd(fs[1..], key, value);
    }
  }
}
