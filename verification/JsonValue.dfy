/**
 JSON values as jsoncpp's json_value.cpp holds them, and their order.
 */
module JsonValue {
  import opened Octets

  /** `CZString`: the key of an array element or of an object member. */
  datatype Key = Index(index: nat) | Name(text: seq<byte>)

  /** IEEE numbers as comparisons see them. */
  datatype Double = NaN | NegativeInfinity | Finite(value: real) | PositiveInfinity

  /** Arrays and objects both hold a map, here in key order. */
  datatype Value =
    | Null
    | Int(signed: int)
    | UInt(unsigned: nat)
    | Real(double: Double)
    | String(text: seq<byte>)
    | Bool(flag: bool)
    | Array(entries: seq<Entry>)
    | Object(entries: seq<Entry>)

  datatype Entry = Entry(key: Key, value: Value)

  /** The numbers of the enumeration `ValueType`. */
  function TypeNumber(v: Value): nat {
    match v
    case Null => 0
    case Int(_) => 1
    case UInt(_) => 2
    case Real(_) => 3
    case String(_) => 4
    case Bool(_) => 5
    case Array(_) => 6
    case Object(_) => 7
  }

  function Height(v: Value): nat
    decreases v
  {
    if v.Array? || v.Object? then 1 + HeightOf(v.entries) else 0
  }

  function HeightOf(entries: seq<Entry>): (h: nat)
    ensures entries != [] ==> h >= EntryHeight(entries[0]) && h >= HeightOf(entries[1..])
    decreases entries
  {
    if entries == [] then 0 else
      var first, rest := EntryHeight(entries[0]), HeightOf(entries[1..]);
      if first > rest then first else rest
  }

  function EntryHeight(e: Entry): (h: nat)
    ensures h == Height(e.value)
    decreases e
  {
    Height(e.value)
  }

  // ------------------------------------------------------------------
  // Comparisons, as in the code
  // ------------------------------------------------------------------

  /** The sign of `memcmp` over the first `n` octets. */
  function MemCmp(a: seq<byte>, b: seq<byte>, n: nat): int
    requires n <= |a| && n <= |b|
    decreases n
  {
    if n == 0 then 0
    else if a[0] != b[0] then (if a[0] < b[0] then -1 else 1)
    else MemCmp(a[1..], b[1..], n - 1)
  }

  predicate BytesLess(a: seq<byte>, b: seq<byte>) {
    var n := if |a| < |b| then |a| else |b|;
    var comp := MemCmp(a, b, n);
    comp < 0 || (comp == 0 && |a| < |b|)
  }

  /** `CZString::operator<`; within one map all keys are of the same kind. */
  predicate KeyLess(a: Key, b: Key) {
    match (a, b)
    case (Index(m), Index(n)) => m < n
    case (Name(s), Name(t)) => BytesLess(s, t)
    case _ => a.Index?
  }

  predicate DoubleLess(a: Double, b: Double) {
    match (a, b)
    case (NaN, _) => false
    case (_, NaN) => false
    case (Finite(x), Finite(y)) => x < y
    case (NegativeInfinity, _) => !b.NegativeInfinity?
    case (_, PositiveInfinity) => !a.PositiveInfinity?
    case _ => false
  }

  predicate DoubleEqual(a: Double, b: Double) {
    a == b && !a.NaN?
  }

  /** `Value::operator<` */
  predicate Less(a: Value, b: Value)
    decreases Height(a) + Height(b), 0
  {
    if TypeNumber(a) != TypeNumber(b) then TypeNumber(a) < TypeNumber(b)
    else match a
      case Null => false
      case Int(m) => m < b.signed
      case UInt(m) => m < b.unsigned
      case Real(x) => DoubleLess(x, b.double)
      case Bool(p) => !p && b.flag
      case String(s) => BytesLess(s, b.text)
      case Array(_) =>
        if |a.entries| != |b.entries| then |a.entries| < |b.entries| else EntriesLess(a.entries, b.entries)
      case Object(_) =>
        if |a.entries| != |b.entries| then |a.entries| < |b.entries| else EntriesLess(a.entries, b.entries)
  }

  /** `std::pair`'s operator< on the nodes of two maps */
  predicate EntryLess(a: Entry, b: Entry)
    decreases Height(a.value) + Height(b.value), 1
  {
    KeyLess(a.key, b.key) || (!KeyLess(b.key, a.key) && Less(a.value, b.value))
  }

  /** `std::map`'s operator<: lexicographical comparison */
  predicate EntriesLess(s: seq<Entry>, t: seq<Entry>)
    decreases HeightOf(s) + HeightOf(t), 2, |s|
  {
    if t == [] then false
    else if s == [] then true
    else if EntryLess(s[0], t[0]) then true
    else if EntryLess(t[0], s[0]) then false
    else EntriesLess(s[1..], t[1..])
  }

  /** `Value::operator==` */
  predicate Equal(a: Value, b: Value)
    decreases a
  {
    if TypeNumber(a) != TypeNumber(b) then false
    else match a
      case Null => true
      case Int(m) => m == b.signed
      case UInt(m) => m == b.unsigned
      case Real(x) => DoubleEqual(x, b.double)
      case Bool(p) => p == b.flag
      case String(s) => |s| == |b.text| && MemCmp(s, b.text, |s|) == 0
      case Array(_) => |a.entries| == |b.entries| && EntriesEqual(a.entries, b.entries)
      case Object(_) => |a.entries| == |b.entries| && EntriesEqual(a.entries, b.entries)
  }

  predicate EntriesEqual(s: seq<Entry>, t: seq<Entry>)
    requires |s| == |t|
    decreases s
  {
    forall i :: 0 <= i < |s| ==> EntryEqual(s[i], t[i])
  }

  predicate EntryEqual(a: Entry, b: Entry)
    decreases a
  {
    KeyEqual(a.key, b.key) && Equal(a.value, b.value)
  }

  predicate KeyEqual(a: Key, b: Key) {
    match (a, b)
    case (Index(m), Index(n)) => m == n
    case (Name(s), Name(t)) => |s| == |t| && MemCmp(s, t, |s|) == 0
    case _ => false
  }

  /** `Value::compare` */
  function Compare(a: Value, b: Value): int {
    if Less(a, b) then -1 else if Less(b, a) then 1 else 0
  }

  /** Which way the order runs: kinds first, then numbers upwards, false before true, shorter containers first. */
  lemma OrderRuns(m: int, n: int, x: real, y: real, j: nat, k: nat, s: seq<Entry>, t: seq<Entry>)
    ensures Less(Null, Int(m)) && Less(Int(m), UInt(j)) && Less(UInt(j), Real(Finite(x)))
            && Less(Real(Finite(x)), String([]))
    ensures Less(String([]), Bool(false)) && Less(Bool(false), Bool(true)) && Less(Bool(true), Array(s))
            && Less(Array(s), Object(t))
    ensures (Less(Int(m), Int(n)) <==> m < n) && (Less(UInt(j), UInt(k)) <==> j < k)
    ensures Less(Real(Finite(x)), Real(Finite(y))) <==> x < y
    ensures |s| < |t| ==> Less(Array(s), Array(t)) && Less(Object(s), Object(t))
    ensures KeyLess(Index(j), Index(k)) <==> j < k
  {
  }

  // ------------------------------------------------------------------
  // Keys and octet strings
  // ------------------------------------------------------------------

  lemma {:induction false} MemCmpIs(a: seq<byte>, b: seq<byte>, n: nat)
    requires n <= |a| && n <= |b|
    ensures MemCmp(b, a, n) == -MemCmp(a, b, n)
    ensures MemCmp(a, b, n) == 0 <==> a[..n] == b[..n]
    decreases n
  {
    if n > 0 {
      MemCmpIs(a[1..], b[1..], n - 1);
      assert a[..n] == [a[0]] + a[1..][..n - 1] && b[..n] == [b[0]] + b[1..][..n - 1];
    }
  }

  lemma {:induction false} BytesLessUnfolds(a: seq<byte>, b: seq<byte>)
    ensures BytesLess(a, b)
       <==> b != [] && (a == [] || a[0] < b[0] || (a[0] == b[0] && BytesLess(a[1..], b[1..])))
  {
  }

  lemma {:induction false} BytesTransitive(a: seq<byte>, b: seq<byte>, c: seq<byte>)
    requires BytesLess(a, b) && BytesLess(b, c)
    ensures BytesLess(a, c)
    decreases |a|
  {
    hide BytesLess;
    BytesLessUnfolds(a, b);
    BytesLessUnfolds(b, c);
    BytesLessUnfolds(a, c);
    if a != [] && a[0] == b[0] == c[0] {
      BytesTransitive(a[1..], b[1..], c[1..]);
    }
  }

  lemma BytesTotal(a: seq<byte>, b: seq<byte>)
    ensures !(BytesLess(a, b) && BytesLess(b, a))
    ensures !BytesLess(a, b) && !BytesLess(b, a) <==> a == b
  {
    var n := if |a| < |b| then |a| else |b|;
    MemCmpIs(a, b, n);
    assert |a| == |b| ==> a[..n] == a && b[..n] == b;
  }

  lemma KeyOrder(a: Key, b: Key)
    ensures !(KeyLess(a, b) && KeyLess(b, a))
    ensures !KeyLess(a, b) && !KeyLess(b, a) <==> a == b
    ensures KeyEqual(a, b) <==> a == b
  {
    if a.Name? && b.Name? {
      BytesTotal(a.text, b.text);
      if |a.text| == |b.text| {
        MemCmpIs(a.text, b.text, |a.text|);
        assert a.text[..|a.text|] == a.text && b.text[..|a.text|] == b.text;
      }
    }
  }

  lemma KeyTransitive(a: Key, b: Key, c: Key)
    requires KeyLess(a, b) && KeyLess(b, c)
    ensures KeyLess(a, c)
  {
    if a.Name? {
      BytesTransitive(a.text, b.text, c.text);
    }
  }

  // ------------------------------------------------------------------
  // Values
  // ------------------------------------------------------------------

  predicate NaNFree(v: Value) {
    match v
    case Real(x) => !x.NaN?
    case Array(entries) => forall i :: 0 <= i < |entries| ==> NaNFree(entries[i].value)
    case Object(entries) => forall i :: 0 <= i < |entries| ==> NaNFree(entries[i].value)
    case _ => true
  }

  /** Equality is identity, and a value equals itself exactly when no NaN is in it. */
  lemma {:induction false} EqualIsIdentity(a: Value, b: Value)
    ensures Equal(a, b) <==> a == b && NaNFree(a)
    decreases a
  {
    if TypeNumber(a) == TypeNumber(b) {
      if a.String? && |a.text| == |b.text| {
        MemCmpIs(a.text, b.text, |a.text|);
        assert a.text[..|a.text|] == a.text && b.text[..|a.text|] == b.text;
      } else if (a.Array? || a.Object?) && |a.entries| == |b.entries| {
        forall i | 0 <= i < |a.entries|
          ensures EntryEqual(a.entries[i], b.entries[i]) <==>
                  a.entries[i] == b.entries[i] && NaNFree(a.entries[i].value)
        {
          KeyOrder(a.entries[i].key, b.entries[i].key);
          EqualIsIdentity(a.entries[i].value, b.entries[i].value);
        }
      }
    }
  }

  /** At most one of two values is the smaller, and neither is exactly when they are the same. */
  lemma {:induction false} LessIsTotal(a: Value, b: Value)
    requires NaNFree(a) && NaNFree(b)
    ensures !(Less(a, b) && Less(b, a))
    ensures !Less(a, b) && !Less(b, a) <==> a == b
    decreases Height(a) + Height(b), 0
  {
    if TypeNumber(a) == TypeNumber(b) {
      if a.String? {
        BytesTotal(a.text, b.text);
      } else if (a.Array? || a.Object?) && |a.entries| == |b.entries| {
        EntriesTotal(a.entries, b.entries);
      }
    }
  }

  lemma {:induction false} EntriesTotal(s: seq<Entry>, t: seq<Entry>)
    requires |s| == |t|
    requires forall i :: 0 <= i < |s| ==> NaNFree(s[i].value) && NaNFree(t[i].value)
    ensures !(EntriesLess(s, t) && EntriesLess(t, s))
    ensures !EntriesLess(s, t) && !EntriesLess(t, s) <==> s == t
    decreases HeightOf(s) + HeightOf(t), 1, |s|
  {
    if s != [] {
      KeyOrder(s[0].key, t[0].key);
      LessIsTotal(s[0].value, t[0].value);
      EntriesTotal(s[1..], t[1..]);
      assert s == [s[0]] + s[1..] && t == [t[0]] + t[1..];
    }
  }

  lemma {:induction false} LessIsTransitive(a: Value, b: Value, c: Value)
    requires NaNFree(a) && NaNFree(b) && NaNFree(c)
    requires Less(a, b) && Less(b, c)
    ensures Less(a, c)
    decreases Height(a), 0
  {
    if TypeNumber(a) == TypeNumber(b) == TypeNumber(c) {
      if a.String? {
        BytesTransitive(a.text, b.text, c.text);
      } else if (a.Array? || a.Object?) && |a.entries| == |b.entries| == |c.entries| {
        EntriesTransitive(a.entries, b.entries, c.entries);
      }
    }
  }

  lemma {:induction false} EntriesTransitive(s: seq<Entry>, t: seq<Entry>, u: seq<Entry>)
    requires |s| == |t| == |u|
    requires forall i :: 0 <= i < |s| ==> NaNFree(s[i].value) && NaNFree(t[i].value) && NaNFree(u[i].value)
    requires EntriesLess(s, t) && EntriesLess(t, u)
    ensures EntriesLess(s, u)
    decreases HeightOf(s), 2, |s|
  {
    var a, b, c := s[0], t[0], u[0];
    EntryOrder(a, b);
    EntryOrder(b, c);
    EntryOrder(a, c);
    if EntryLess(a, b) && EntryLess(b, c) {
      EntryTransitive(a, b, c);
    } else if a == b && b == c {
      EntriesTransitive(s[1..], t[1..], u[1..]);
    }
  }

  lemma EntryOrder(a: Entry, b: Entry)
    requires NaNFree(a.value) && NaNFree(b.value)
    ensures !(EntryLess(a, b) && EntryLess(b, a))
    ensures !EntryLess(a, b) && !EntryLess(b, a) <==> a == b
  {
    KeyOrder(a.key, b.key);
    LessIsTotal(a.value, b.value);
  }

  lemma {:induction false} EntryTransitive(a: Entry, b: Entry, c: Entry)
    requires NaNFree(a.value) && NaNFree(b.value) && NaNFree(c.value)
    requires EntryLess(a, b) && EntryLess(b, c)
    ensures EntryLess(a, c)
    decreases Height(a.value), 1
  {
    KeyOrder(a.key, b.key);
    KeyOrder(b.key, c.key);
    KeyOrder(a.key, c.key);
    if KeyLess(a.key, b.key) && KeyLess(b.key, c.key) {
      KeyTransitive(a.key, b.key, c.key);
    } else if a.key == b.key == c.key {
      LessIsTransitive(a.value, b.value, c.value);
    }
  }

  /** On values without NaN `compare` is a total order that agrees with `==`. */
  lemma CompareIsAnOrder(a: Value, b: Value, c: Value)
    requires NaNFree(a) && NaNFree(b) && NaNFree(c)
    ensures Compare(a, b) == -Compare(b, a)
    ensures Compare(a, b) == 0 <==> Equal(a, b)
    ensures Compare(a, b) <= 0 && Compare(b, c) <= 0 ==> Compare(a, c) <= 0
  {
    hide Less, Equal, NaNFree;
    LessIsTotal(a, b);
    LessIsTotal(b, c);
    LessIsTotal(a, c);
    EqualIsIdentity(a, b);
    if Less(a, b) && Less(b, c) {
      LessIsTransitive(a, b, c);
    }
  }

  /** NaN compares as neither smaller nor greater than any real, so it links reals that do differ. */
  lemma NaNBreaksTheOrder(x: real, y: real)
    requires x > y
    ensures Compare(Real(Finite(x)), Real(NaN)) == 0 == Compare(Real(NaN), Real(Finite(y)))
    ensures Compare(Real(Finite(x)), Real(Finite(y))) == 1
  {
  }
}
