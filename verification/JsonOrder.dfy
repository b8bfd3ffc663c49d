/** operator== and operator< of Json. */
module JsonOrder {
  import opened Bytes
  import opened JsonValue

  /** Json::Type, in the order of the enum. */
  function Type(v: Json): (t: nat) {
    match v
    case Nul => 0
    case Number(_) => 1
    case Int64(_) => 1
    case UInt64(_) => 1
    case Bool(_) => 2
    case Str(_) => 3
    case Array(_) => 4
    case Object(_) => 5
  }

  /** number_value(): an integer is converted to double before it is compared. */
  function NumberValue(lib: Libc, v: Json): (d: Double)
    requires Type(v) == 1
  {
    match v
    case Number(d) => d
    case Int64(n) => Finite(lib.toDouble(n))
    case UInt64(u) => Finite(lib.toDouble(u))
  }

  predicate EqualDouble(x: Double, y: Double) { x != NaN && x == y }

  predicate LessDouble(x: Double, y: Double) {
    match (x, y)
    case (NegInf, Finite(_)) => true
    case (NegInf, PosInf) => true
    case (Finite(a), Finite(b)) => a < b
    case (Finite(_), PosInf) => true
    case _ => false
  }

  function Size(v: Json): (n: nat)
    decreases v
  {
    match v
    case Array(items) => 1 + SizeItems(items)
    case Object(fields) => 1 + SizeFields(fields)
    case _ => 0
  }

  function SizeItems(items: seq<Json>): (n: nat)
    decreases items
  {
    if items == [] then 0 else 1 + Size(items[0]) + SizeItems(items[1..])
  }

  function SizeFields(fields: seq<Field>): (n: nat)
    decreases fields
  {
    if fields == [] then 0 else 1 + Size(fields[0].value) + SizeFields(fields[1..])
  }

  // ---- operator== ----

  predicate Equal(lib: Libc, a: Json, b: Json)
    decreases a
  {
    Type(a) == Type(b) &&
    match a
    case Nul => true
    case Number(_) => EqualDouble(NumberValue(lib, a), NumberValue(lib, b))
    case Int64(_) => EqualDouble(NumberValue(lib, a), NumberValue(lib, b))
    case UInt64(_) => EqualDouble(NumberValue(lib, a), NumberValue(lib, b))
    case Bool(x) => x == b.b
    case Str(s) => s == b.s
    case Array(items) => |items| == |b.items| && EqualItems(lib, items, b.items)
    case Object(fields) => |fields| == |b.fields| && EqualFields(lib, fields, b.fields)
  }

  predicate EqualItems(lib: Libc, a: seq<Json>, b: seq<Json>)
    requires |a| == |b|
    decreases a
  {
    a == [] || (Equal(lib, a[0], b[0]) && EqualItems(lib, a[1..], b[1..]))
  }

  predicate EqualFields(lib: Libc, a: seq<Field>, b: seq<Field>)
    requires |a| == |b|
    decreases a
  {
    a == [] ||
    (a[0].key == b[0].key && Equal(lib, a[0].value, b[0].value) && EqualFields(lib, a[1..], b[1..]))
  }

  // ---- operator< ----

  predicate Less(lib: Libc, a: Json, b: Json)
    decreases Size(a) + Size(b), 1
  {
    if Type(a) != Type(b) then Type(a) < Type(b) else
    match a
    case Nul => false
    case Number(_) => LessDouble(NumberValue(lib, a), NumberValue(lib, b))
    case Int64(_) => LessDouble(NumberValue(lib, a), NumberValue(lib, b))
    case UInt64(_) => LessDouble(NumberValue(lib, a), NumberValue(lib, b))
    case Bool(x) => !x && b.b
    case Str(s) => LessBytes(s, b.s)
    case Array(items) => LessItems(lib, items, b.items)
    case Object(fields) => LessFields(lib, fields, b.fields)
  }

  /** std::lexicographical_compare over the vectors. */
  predicate LessItems(lib: Libc, a: seq<Json>, b: seq<Json>)
    decreases SizeItems(a) + SizeItems(b), 0
  {
    if b == [] then false
    else if a == [] then true
    else if Less(lib, a[0], b[0]) then true
    else if Less(lib, b[0], a[0]) then false
    else LessItems(lib, a[1..], b[1..])
  }

  /** operator< of std::pair. */
  predicate LessField(lib: Libc, f: Field, g: Field)
    decreases Size(f.value) + Size(g.value), 2
  {
    LessBytes(f.key, g.key) || (!LessBytes(g.key, f.key) && Less(lib, f.value, g.value))
  }

  /** std::lexicographical_compare over the maps' pairs. */
  predicate LessFields(lib: Libc, a: seq<Field>, b: seq<Field>)
    decreases SizeFields(a) + SizeFields(b), 0
  {
    if b == [] then false
    else if a == [] then true
    else if LessField(lib, a[0], b[0]) then true
    else if LessField(lib, b[0], a[0]) then false
    else LessFields(lib, a[1..], b[1..])
  }

  // ---- A three-way comparison to measure them against ----

  predicate NaNFree(v: Json)
    decreases v
  {
    match v
    case Number(d) => d != NaN
    case Array(items) => forall k :: 0 <= k < |items| ==> NaNFree(items[k])
    case Object(fields) => forall k :: 0 <= k < |fields| ==> NaNFree(fields[k].value)
    case _ => true
  }

  function Sign(less: bool, greater: bool): int {
    if less then -1 else if greater then 1 else 0
  }

  function CompareBytes(a: bytes, b: bytes): (c: int) {
    Sign(LessBytes(a, b), LessBytes(b, a))
  }

  /** The sign of a against b: types first, then numbers by value and containers element by element. */
  function Compare(lib: Libc, a: Json, b: Json): (c: int)
    decreases a
  {
    if Type(a) != Type(b) then Sign(Type(a) < Type(b), Type(b) < Type(a)) else
    match a
    case Nul => 0
    case Bool(x) => Sign(!x && b.b, x && !b.b)
    case Str(s) => CompareBytes(s, b.s)
    case Array(items) => CompareItems(lib, items, b.items)
    case Object(fields) => CompareFields(lib, fields, b.fields)
    case _ => Sign(LessDouble(NumberValue(lib, a), NumberValue(lib, b)),
                   LessDouble(NumberValue(lib, b), NumberValue(lib, a)))
  }

  function CompareItems(lib: Libc, a: seq<Json>, b: seq<Json>): (c: int)
    decreases a
  {
    if a == [] || b == [] then Sign(|a| < |b|, |b| < |a|)
    else
      var c := Compare(lib, a[0], b[0]);
      if c != 0 then c else CompareItems(lib, a[1..], b[1..])
  }

  function CompareFields(lib: Libc, a: seq<Field>, b: seq<Field>): (c: int)
    decreases a
  {
    if a == [] || b == [] then Sign(|a| < |b|, |b| < |a|)
    else
      var k := CompareBytes(a[0].key, b[0].key);
      var c := if k != 0 then k else Compare(lib, a[0].value, b[0].value);
      if c != 0 then c else CompareFields(lib, a[1..], b[1..])
  }

  lemma CompareBytesLaws(a: bytes, b: bytes, c: bytes)
    ensures CompareBytes(b, a) == -CompareBytes(a, b)
    ensures CompareBytes(a, b) == 0 <==> a == b
    ensures CompareBytes(a, b) <= 0 && CompareBytes(b, c) <= 0 ==> CompareBytes(a, c) <= 0
    ensures CompareBytes(a, b) < 0 && CompareBytes(b, c) < 0 ==> CompareBytes(a, c) < 0
  {
    LessBytesTrichotomy(a, b);
    LessBytesTrichotomy(b, c);
    LessBytesTrichotomy(a, c);
    if LessBytes(a, b) && LessBytes(b, c) { LessBytesTransitive(a, b, c); }
  }

  /** Swapping the arguments flips the sign. */
  lemma {:induction false} CompareFlips(lib: Libc, a: Json, b: Json)
    ensures Compare(lib, b, a) == -Compare(lib, a, b)
    decreases a
  {
    if Type(a) == Type(b) {
      match a
      case Str(s) => CompareBytesLaws(s, b.s, s);
      case Array(items) => CompareItemsFlips(lib, items, b.items);
      case Object(fields) => CompareFieldsFlips(lib, fields, b.fields);
      case _ =>
    }
  }

  lemma {:induction false} CompareItemsFlips(lib: Libc, a: seq<Json>, b: seq<Json>)
    ensures CompareItems(lib, b, a) == -CompareItems(lib, a, b)
    decreases a
  {
    if a != [] && b != [] {
      CompareFlips(lib, a[0], b[0]);
      CompareItemsFlips(lib, a[1..], b[1..]);
    }
  }

  lemma {:induction false} CompareFieldsFlips(lib: Libc, a: seq<Field>, b: seq<Field>)
    ensures CompareFields(lib, b, a) == -CompareFields(lib, a, b)
    decreases a
  {
    if a != [] && b != [] {
      CompareBytesLaws(a[0].key, b[0].key, []);
      CompareFlips(lib, a[0].value, b[0].value);
      CompareFieldsFlips(lib, a[1..], b[1..]);
    }
  }

  ghost predicate Chains(x: int, y: int, z: int) {
    (x <= 0 && y <= 0 ==> z <= 0) && (x <= 0 && y < 0 ==> z < 0) && (x < 0 && y <= 0 ==> z < 0) &&
    (x == 0 && y == 0 ==> z == 0)
  }

  /** The comparison is transitive, and strictly so when either step is strict. */
  lemma {:induction false} CompareChains(lib: Libc, a: Json, b: Json, c: Json)
    requires NaNFree(a) && NaNFree(b) && NaNFree(c)
    ensures Chains(Compare(lib, a, b), Compare(lib, b, c), Compare(lib, a, c))
    decreases a
  {
    if Type(a) == Type(b) == Type(c) {
      match a
      case Str(s) => CompareBytesLaws(s, b.s, c.s); CompareBytesLaws(b.s, c.s, s); CompareBytesLaws(c.s, s, b.s);
      case Array(items) => CompareItemsChains(lib, items, b.items, c.items);
      case Object(fields) => CompareFieldsChains(lib, fields, b.fields, c.fields);
      case _ =>
    }
  }

  lemma {:induction false} CompareItemsChains(lib: Libc, a: seq<Json>, b: seq<Json>, c: seq<Json>)
    requires forall k :: 0 <= k < |a| ==> NaNFree(a[k])
    requires forall k :: 0 <= k < |b| ==> NaNFree(b[k])
    requires forall k :: 0 <= k < |c| ==> NaNFree(c[k])
    ensures Chains(CompareItems(lib, a, b), CompareItems(lib, b, c), CompareItems(lib, a, c))
    decreases a
  {
    if a != [] && b != [] && c != [] {
      CompareChains(lib, a[0], b[0], c[0]);
      CompareItemsChains(lib, a[1..], b[1..], c[1..]);
    }
  }

  lemma {:induction false} CompareFieldsChains(lib: Libc, a: seq<Field>, b: seq<Field>, c: seq<Field>)
    requires forall k :: 0 <= k < |a| ==> NaNFree(a[k].value)
    requires forall k :: 0 <= k < |b| ==> NaNFree(b[k].value)
    requires forall k :: 0 <= k < |c| ==> NaNFree(c[k].value)
    ensures Chains(CompareFields(lib, a, b), CompareFields(lib, b, c), CompareFields(lib, a, c))
    decreases a
  {
    if a != [] && b != [] && c != [] {
      CompareBytesLaws(a[0].key, b[0].key, c[0].key);
      CompareBytesLaws(b[0].key, c[0].key, a[0].key);
      CompareBytesLaws(c[0].key, a[0].key, b[0].key);
      CompareChains(lib, a[0].value, b[0].value, c[0].value);
      CompareFieldsChains(lib, a[1..], b[1..], c[1..]);
    }
  }

  /** The code's operators are the sign of the comparison. */
  lemma {:induction false} OperatorsAreCompare(lib: Libc, a: Json, b: Json)
    requires NaNFree(a) && NaNFree(b)
    ensures Less(lib, a, b) <==> Compare(lib, a, b) < 0
    ensures Less(lib, b, a) <==> Compare(lib, b, a) < 0
    ensures Equal(lib, a, b) <==> Compare(lib, a, b) == 0
    decreases a
  {
    if Type(a) == Type(b) {
      match a
      case Str(s) => CompareBytesLaws(s, b.s, s);
      case Array(items) => ItemsOperatorsAreCompare(lib, items, b.items);
      case Object(fields) => FieldsOperatorsAreCompare(lib, fields, b.fields);
      case _ =>
    }
  }

  lemma {:induction false} ItemsOperatorsAreCompare(lib: Libc, a: seq<Json>, b: seq<Json>)
    requires forall k :: 0 <= k < |a| ==> NaNFree(a[k])
    requires forall k :: 0 <= k < |b| ==> NaNFree(b[k])
    ensures LessItems(lib, a, b) <==> CompareItems(lib, a, b) < 0
    ensures LessItems(lib, b, a) <==> CompareItems(lib, b, a) < 0
    ensures (|a| == |b| && EqualItems(lib, a, b)) <==> CompareItems(lib, a, b) == 0
    decreases a
  {
    if a != [] && b != [] {
      OperatorsAreCompare(lib, a[0], b[0]);
      CompareFlips(lib, a[0], b[0]);
      ItemsOperatorsAreCompare(lib, a[1..], b[1..]);
    }
  }

  lemma {:induction false} FieldsOperatorsAreCompare(lib: Libc, a: seq<Field>, b: seq<Field>)
    requires forall k :: 0 <= k < |a| ==> NaNFree(a[k].value)
    requires forall k :: 0 <= k < |b| ==> NaNFree(b[k].value)
    ensures LessFields(lib, a, b) <==> CompareFields(lib, a, b) < 0
    ensures LessFields(lib, b, a) <==> CompareFields(lib, b, a) < 0
    ensures (|a| == |b| && EqualFields(lib, a, b)) <==> CompareFields(lib, a, b) == 0
    decreases a
  {
    if a != [] && b != [] {
      CompareBytesLaws(a[0].key, b[0].key, []);
      OperatorsAreCompare(lib, a[0].value, b[0].value);
      CompareFlips(lib, a[0].value, b[0].value);
      FieldsOperatorsAreCompare(lib, a[1..], b[1..]);
    }
  }

  // ---- The order laws ----

  /** Over NaN-free values exactly one of a < b, a == b and b < a holds. */
  lemma Trichotomy(lib: Libc, a: Json, b: Json)
    requires NaNFree(a) && NaNFree(b)
    ensures Less(lib, a, b) || Equal(lib, a, b) || Less(lib, b, a)
    ensures !(Less(lib, a, b) && Equal(lib, a, b))
    ensures !(Less(lib, b, a) && Equal(lib, a, b))
    ensures !(Less(lib, a, b) && Less(lib, b, a))
    ensures Equal(lib, a, b) <==> Equal(lib, b, a)
  {
    OperatorsAreCompare(lib, a, b);
    OperatorsAreCompare(lib, b, a);
    CompareFlips(lib, a, b);
  }

  /** operator< is transitive, and operator== is a congruence for it. */
  lemma LessTransitive(lib: Libc, a: Json, b: Json, c: Json)
    requires NaNFree(a) && NaNFree(b) && NaNFree(c)
    ensures Less(lib, a, b) && Less(lib, b, c) ==> Less(lib, a, c)
    ensures Equal(lib, a, b) && Less(lib, b, c) ==> Less(lib, a, c)
    ensures Less(lib, a, b) && Equal(lib, b, c) ==> Less(lib, a, c)
    ensures Equal(lib, a, b) && Equal(lib, b, c) ==> Equal(lib, a, c)
  {
    OperatorsAreCompare(lib, a, b);
    OperatorsAreCompare(lib, b, c);
    OperatorsAreCompare(lib, a, c);
    CompareChains(lib, a, b, c);
  }

  // operator<= and operator>= as json11.hpp derives them from operator<.
  predicate LessOrEqual(lib: Libc, a: Json, b: Json) { !Less(lib, b, a) }
  predicate GreaterOrEqual(lib: Libc, a: Json, b: Json) { !Less(lib, a, b) }

  /** The derived operators are the ones of a total preorder whose ties are operator==. */
  lemma DerivedOperators(lib: Libc, a: Json, b: Json, c: Json)
    requires NaNFree(a) && NaNFree(b) && NaNFree(c)
    ensures LessOrEqual(lib, a, b) <==> Less(lib, a, b) || Equal(lib, a, b)
    ensures GreaterOrEqual(lib, a, b) <==> LessOrEqual(lib, b, a)
    ensures LessOrEqual(lib, a, b) || LessOrEqual(lib, b, a)
    ensures LessOrEqual(lib, a, b) && LessOrEqual(lib, b, a) ==> Equal(lib, a, b)
    ensures LessOrEqual(lib, a, b) && LessOrEqual(lib, b, c) ==> LessOrEqual(lib, a, c)
  {
    Trichotomy(lib, a, b);
    Trichotomy(lib, b, c);
    Trichotomy(lib, a, c);
    LessTransitive(lib, a, b, c);
  }

  /** NaN-free is exactly the condition: a value equals itself if and only if no NaN is inside it. */
  lemma {:induction false} ReflexiveIffNaNFree(lib: Libc, v: Json)
    ensures Equal(lib, v, v) <==> NaNFree(v)
    decreases v
  {
    match v
    case Array(items) => ItemsReflexiveIffNaNFree(lib, items);
    case Object(fields) => FieldsReflexiveIffNaNFree(lib, fields);
    case _ =>
  }

  lemma {:induction false} ItemsReflexiveIffNaNFree(lib: Libc, items: seq<Json>)
    ensures EqualItems(lib, items, items) <==> forall k :: 0 <= k < |items| ==> NaNFree(items[k])
    decreases items
  {
    if items != [] {
      ReflexiveIffNaNFree(lib, items[0]);
      ItemsReflexiveIffNaNFree(lib, items[1..]);
      assert items == [items[0]] + items[1..];
    }
  }

  lemma {:induction false} FieldsReflexiveIffNaNFree(lib: Libc, fields: seq<Field>)
    ensures EqualFields(lib, fields, fields) <==> forall k :: 0 <= k < |fields| ==> NaNFree(fields[k].value)
    decreases fields
  {
    if fields != [] {
      ReflexiveIffNaNFree(lib, fields[0].value);
      FieldsReflexiveIffNaNFree(lib, fields[1..]);
      assert fields == [fields[0]] + fields[1..];
    }
  }

  // ---- What the operators mean for each type ----

  predicate IsNumber(v: Json) { v.Number? || v.Int64? || v.UInt64? }

  predicate IsInteger(v: Json) { v.Int64? || v.UInt64? }

  function IntegerOf(v: Json): (n: int)
    requires IsInteger(v)
  {
    if v.Int64? then v.n else v.u
  }

  /** a comes before b, by every operator. */
  predicate Before(lib: Libc, a: Json, b: Json) { Less(lib, a, b) && !Less(lib, b, a) && !Equal(lib, a, b) && !Equal(lib, b, a) }

  /** Null, numbers, bools, strings, arrays, objects, in that order; false is before true. */
  lemma TypesInOrder(lib: Libc, a: Json, b: Json)
    ensures a.Nul? && !b.Nul? ==> Before(lib, a, b)
    ensures IsNumber(a) && (b.Bool? || b.Str? || b.Array? || b.Object?) ==> Before(lib, a, b)
    ensures a.Bool? && (b.Str? || b.Array? || b.Object?) ==> Before(lib, a, b)
    ensures a.Str? && (b.Array? || b.Object?) ==> Before(lib, a, b)
    ensures a.Array? && b.Object? ==> Before(lib, a, b)
    ensures a.Nul? && b.Nul? ==> Equal(lib, a, b)
    ensures a == Bool(false) && b == Bool(true) ==> Before(lib, a, b)
    ensures a.Bool? && a == b ==> Equal(lib, a, b)
  {
  }

  /** Finite doubles are in the order of the real numbers, and NaN is in no order with anything. */
  lemma DoublesByValue(lib: Libc, x: real, y: real, v: Json)
    requires IsNumber(v)
    ensures Less(lib, Number(Finite(x)), Number(Finite(y))) <==> x < y
    ensures Equal(lib, Number(Finite(x)), Number(Finite(y))) <==> x == y
    ensures Before(lib, Number(NegInf), Number(Finite(x))) && Before(lib, Number(Finite(x)), Number(PosInf))
    ensures Before(lib, Number(NegInf), Number(PosInf))
    ensures Equal(lib, Number(NegInf), Number(NegInf)) && Equal(lib, Number(PosInf), Number(PosInf))
    ensures !Less(lib, Number(NaN), v) && !Less(lib, v, Number(NaN)) && !Equal(lib, Number(NaN), v) && !Equal(lib, v, Number(NaN))
  {
  }

  /** The conversion to double keeps m and n apart and in their order; it need not beyond 53 bits. */
  predicate KeepsOrder(lib: Libc, m: int, n: int) {
    (m < n ==> lib.toDouble(m) < lib.toDouble(n)) && (n < m ==> lib.toDouble(n) < lib.toDouble(m))
  }

  /** Integers of either tag are in their own order as far as the conversion to double keeps it, and among doubles by their double. */
  lemma IntegersByValue(lib: Libc, a: Json, b: Json, x: real)
    requires IsInteger(a) && IsInteger(b)
    ensures KeepsOrder(lib, IntegerOf(a), IntegerOf(b)) ==>
      (Less(lib, a, b) <==> IntegerOf(a) < IntegerOf(b)) && (Equal(lib, a, b) <==> IntegerOf(a) == IntegerOf(b))
    ensures Less(lib, a, Number(Finite(x))) <==> lib.toDouble(IntegerOf(a)) < x
    ensures Less(lib, Number(Finite(x)), a) <==> x < lib.toDouble(IntegerOf(a))
    ensures Equal(lib, a, Number(Finite(x))) <==> lib.toDouble(IntegerOf(a)) == x
    ensures Before(lib, Number(NegInf), a) && Before(lib, a, Number(PosInf))
  {
  }

  /** Strings are in the order of their first different bytes, unsigned, and a proper prefix comes first. */
  lemma StringsByBytes(lib: Libc, s: bytes, t: bytes, k: nat)
    requires k <= |s| && k <= |t| && s[..k] == t[..k]
    ensures k < |s| && k < |t| && s[k] < t[k] ==> Before(lib, Str(s), Str(t))
    ensures k == |s| < |t| ==> Before(lib, Str(s), Str(t))
    ensures k == |s| == |t| ==> Equal(lib, Str(s), Str(t))
  {
    BytesByBytes(s, t, k);
    LessBytesTrichotomy(s, t);
    if k == |s| == |t| { assert s == s[..k] == t[..k] == t; }
  }

  lemma {:induction false} BytesByBytes(s: bytes, t: bytes, k: nat)
    requires k <= |s| && k <= |t| && s[..k] == t[..k]
    ensures k < |s| && k < |t| && s[k] < t[k] ==> LessBytes(s, t)
    ensures k == |s| < |t| ==> LessBytes(s, t)
    decreases k
  {
    if k > 0 {
      assert s[0] == s[..k][0] == t[..k][0] == t[0];
      assert s[1..][..k - 1] == s[..k][1..] == t[..k][1..] == t[1..][..k - 1];
      BytesByBytes(s[1..], t[1..], k - 1);
    }
  }

  predicate Ties(lib: Libc, a: Json, b: Json) { !Less(lib, a, b) && !Less(lib, b, a) }

  /** Arrays are in the order of their first elements that are not ties, or, without one, of their lengths. */
  lemma {:induction false} ArraysByElements(lib: Libc, a: seq<Json>, b: seq<Json>, k: nat)
    requires k <= |a| && k <= |b| && forall j :: 0 <= j < k ==> Ties(lib, a[j], b[j])
    ensures k < |a| && k < |b| && !Ties(lib, a[k], b[k]) ==> (Less(lib, Array(a), Array(b)) <==> Less(lib, a[k], b[k]))
    ensures k == |a| || k == |b| ==> (Less(lib, Array(a), Array(b)) <==> |a| < |b|)
    decreases k
  {
    if k > 0 {
      assert Ties(lib, a[0], b[0]);
      forall j | 0 <= j < k - 1 ensures Ties(lib, a[1..][j], b[1..][j]) { assert Ties(lib, a[j + 1], b[j + 1]); }
      ArraysByElements(lib, a[1..], b[1..], k - 1);
    }
  }

  /** The entries have one key and values that are ties. */
  predicate FieldsTie(lib: Libc, f: Field, g: Field) { f.key == g.key && Ties(lib, f.value, g.value) }

  /** Objects are in the order of their first entries that differ: by the keys as strings, and with one key by the values. */
  lemma {:induction false} ObjectsByEntries(lib: Libc, a: seq<Field>, b: seq<Field>, k: nat)
    requires k <= |a| && k <= |b| && forall j :: 0 <= j < k ==> FieldsTie(lib, a[j], b[j])
    ensures k < |a| && k < |b| && a[k].key != b[k].key ==>
      (Less(lib, Object(a), Object(b)) <==> Less(lib, Str(a[k].key), Str(b[k].key)))
    ensures k < |a| && k < |b| && a[k].key == b[k].key && !Ties(lib, a[k].value, b[k].value) ==>
      (Less(lib, Object(a), Object(b)) <==> Less(lib, a[k].value, b[k].value))
    ensures k == |a| || k == |b| ==> (Less(lib, Object(a), Object(b)) <==> |a| < |b|)
    decreases k
  {
    if k == 0 {
      if a != [] && b != [] { FirstEntries(lib, a, b); }
    } else {
      assert FieldsTie(lib, a[0], b[0]);
      FirstEntries(lib, a, b);
      forall j | 0 <= j < k - 1 ensures FieldsTie(lib, a[1..][j], b[1..][j]) { assert FieldsTie(lib, a[j + 1], b[j + 1]); }
      ObjectsByEntries(lib, a[1..], b[1..], k - 1);
    }
  }

  lemma FirstEntries(lib: Libc, a: seq<Field>, b: seq<Field>)
    requires a != [] && b != []
    ensures LessFields(lib, a, b) <==>
      if FieldsTie(lib, a[0], b[0]) then LessFields(lib, a[1..], b[1..])
      else if a[0].key != b[0].key then LessBytes(a[0].key, b[0].key)
      else Less(lib, a[0].value, b[0].value)
  {
    LessBytesTrichotomy(a[0].key, b[0].key);
  }

  /** Strings and bools are equal if they are the same, arrays element by element, objects entry by entry. */
  lemma {:induction false} EqualByParts(lib: Libc, a: Json, b: Json)
    ensures (a.Str? && b.Str?) || (a.Bool? && b.Bool?) ==> (Equal(lib, a, b) <==> a == b)
    ensures a.Array? && b.Array? ==>
      (Equal(lib, a, b) <==> |a.items| == |b.items| && forall k :: 0 <= k < |a.items| ==> Equal(lib, a.items[k], b.items[k]))
    ensures a.Object? && b.Object? ==>
      (Equal(lib, a, b) <==> |a.fields| == |b.fields| && forall k :: 0 <= k < |a.fields| ==>
        a.fields[k].key == b.fields[k].key && Equal(lib, a.fields[k].value, b.fields[k].value))
  {
    if a.Array? && b.Array? && |a.items| == |b.items| {
      EqualItemwise(lib, a.items, b.items);
    } else if a.Object? && b.Object? && |a.fields| == |b.fields| {
      EqualFieldwise(lib, a.fields, b.fields);
    }
  }

  lemma {:induction false} EqualItemwise(lib: Libc, a: seq<Json>, b: seq<Json>)
    requires |a| == |b|
    ensures EqualItems(lib, a, b) <==> forall k :: 0 <= k < |a| ==> Equal(lib, a[k], b[k])
    decreases |a|
  {
    if a != [] {
      EqualItemwise(lib, a[1..], b[1..]);
      assert a == [a[0]] + a[1..] && b == [b[0]] + b[1..];
    }
  }

  lemma {:induction false} EqualFieldwise(lib: Libc, a: seq<Field>, b: seq<Field>)
    requires |a| == |b|
    ensures EqualFields(lib, a, b) <==>
      forall k :: 0 <= k < |a| ==> a[k].key == b[k].key && Equal(lib, a[k].value, b[k].value)
    decreases |a|
  {
    if a != [] {
      EqualFieldwise(lib, a[1..], b[1..]);
      assert a == [a[0]] + a[1..] && b == [b[0]] + b[1..];
    }
  }
}
