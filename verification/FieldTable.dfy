/**
 AMQP field tables (section 4.2.5.5 of the AMQP 0-9-1 specification) as
 rabbitmq-c's amqp_table.c keeps, writes and reads them.
 */
module FieldTable {
  import opened Wrappers
  import opened Octets
  import opened Status

  datatype NumberKind = I8 | U8 | I16 | U16 | I32 | U32 | F32 | I64 | U64 | F64 | Timestamp

  /** The tagged union of field values; floats are kept as their bits. */
  datatype FieldValue =
    | Boolean(flag: bool)
    | Number(kind: NumberKind, number: int)
    | Decimal(decimals: byte, unscaled: nat)
    | Bytes(utf8: bool, data: seq<byte>)
    | Array(items: seq<FieldValue>)
    | Table(entries: seq<Entry>)
    | Void
    | Unknown(tag: byte)

  datatype Entry = Entry(key: seq<byte>, value: FieldValue)

  const TWO_TO_32 := 0x1_0000_0000

  function NumberTag(kind: NumberKind): byte {
    match kind
    case I8 => 'b' as int
    case U8 => 'B' as int
    case I16 => 's' as int
    case U16 => 'u' as int
    case I32 => 'I' as int
    case U32 => 'i' as int
    case F32 => 'f' as int
    case I64 => 'l' as int
    case U64 => 'L' as int
    case F64 => 'd' as int
    case Timestamp => 'T' as int
  }

  function NumberKindOf(tag: byte): Option<NumberKind> {
    if tag == 'b' as int then Some(I8)
    else if tag == 'B' as int then Some(U8)
    else if tag == 's' as int then Some(I16)
    else if tag == 'u' as int then Some(U16)
    else if tag == 'I' as int then Some(I32)
    else if tag == 'i' as int then Some(U32)
    else if tag == 'f' as int then Some(F32)
    else if tag == 'l' as int then Some(I64)
    else if tag == 'L' as int then Some(U64)
    else if tag == 'd' as int then Some(F64)
    else if tag == 'T' as int then Some(Timestamp)
    else None
  }

  function Width(kind: NumberKind): nat {
    match kind
    case I8 | U8 => 1
    case I16 | U16 => 2
    case I32 | U32 | F32 => 4
    case _ => 8
  }

  predicate IsSigned(kind: NumberKind) {
    kind.I8? || kind.I16? || kind.I32? || kind.I64?
  }

  /** The C type of the union member can hold the number. */
  predicate InRange(kind: NumberKind, number: int) {
    var size := Pow256(Width(kind));
    if IsSigned(kind) then -(size / 2) <= number < size / 2 else 0 <= number < size
  }

  /** Conversion to the unsigned type of the same width. */
  function ToUnsigned(kind: NumberKind, number: int): nat {
    number % Pow256(Width(kind))
  }

  /** Conversion back to the union member's type. */
  function FromUnsigned(kind: NumberKind, bits: nat): int {
    var size := Pow256(Width(kind));
    if IsSigned(kind) && bits >= size / 2 then bits - size else bits
  }

  /** What received octets stand for, kind by kind: the signed kinds wrap around, the others do not. */
  lemma NumbersReceived(n: nat)
    ensures n < 0x100 ==> FromUnsigned(I8, n) == (if n < 0x80 then n else n - 0x100) && FromUnsigned(U8, n) == n
    ensures n < 0x1_0000 ==>
              FromUnsigned(I16, n) == (if n < 0x8000 then n else n - 0x1_0000) && FromUnsigned(U16, n) == n
    ensures n < 0x1_0000_0000 ==>
              && FromUnsigned(I32, n) == (if n < 0x8000_0000 then n else n - 0x1_0000_0000)
              && FromUnsigned(U32, n) == n && FromUnsigned(F32, n) == n
    ensures n < 0x1_0000_0000_0000_0000 ==>
              && FromUnsigned(I64, n) == (if n < 0x8000_0000_0000_0000 then n else n - 0x1_0000_0000_0000_0000)
              && FromUnsigned(U64, n) == n && FromUnsigned(F64, n) == n && FromUnsigned(Timestamp, n) == n
  {
    Pow256Values();
  }

  function Tag(v: FieldValue): byte {
    match v
    case Boolean(_) => 't' as int
    case Number(kind, _) => NumberTag(kind)
    case Decimal(_, _) => 'D' as int
    case Bytes(utf8, _) => if utf8 then 'S' as int else 'x' as int
    case Array(_) => 'A' as int
    case Table(_) => 'F' as int
    case Void => 'V' as int
    case Unknown(tag) => tag
  }

  // ------------------------------------------------------------------
  // The pure serialiser
  // ------------------------------------------------------------------

  /** A body preceded by its length, cast to 32 bits. */
  function Sized(body: seq<byte>): seq<byte> {
    BigEndian(4, |body| % TWO_TO_32) + body
  }

  function Payload(v: FieldValue): seq<byte>
    decreases v, 0
  {
    match v
    case Boolean(flag) => [if flag then 1 else 0]
    case Number(kind, number) => BigEndian(Width(kind), ToUnsigned(kind, number))
    case Decimal(decimals, unscaled) => [decimals] + BigEndian(4, unscaled % TWO_TO_32)
    case Bytes(_, data) => Sized(data)
    case Array(items) => Sized(SerializeAll(items))
    case Table(entries) => Sized(SerializeEntries(entries))
    case Void => []
    case Unknown(_) => []
  }

  function Serialize(v: FieldValue): (s: seq<byte>)
    ensures |s| >= 1
    decreases v, 1
  {
    [Tag(v)] + Payload(v)
  }

  function SerializeAll(items: seq<FieldValue>): seq<byte>
    decreases items, 0
  {
    if items == [] then [] else Serialize(items[0]) + SerializeAll(items[1..])
  }

  function SerializeEntry(e: Entry): (s: seq<byte>)
    ensures |s| >= 2
    decreases e, 0
  {
    [|e.key| % 256] + e.key + Serialize(e.value)
  }

  function SerializeEntries(entries: seq<Entry>): seq<byte>
    decreases entries, 0
  {
    if entries == [] then [] else SerializeEntry(entries[0]) + SerializeEntries(entries[1..])
  }

  function SerializeTable(entries: seq<Entry>): seq<byte> {
    Sized(SerializeEntries(entries))
  }

  /**
   What a number of each kind looks like on the wire: its letter, and its octets, two's complement
   if it is signed.
   */
  lemma NumbersOnTheWire(kind: NumberKind, n: int)
    ensures Serialize(Number(kind, n))
         == match kind
            case I8 => ['b' as int, n % 0x100]
            case U8 => ['B' as int, n % 0x100]
            case I16 => ['s' as int, n % 0x1_0000 / 0x100, n % 0x1_0000 % 0x100]
            case U16 => ['u' as int, n % 0x1_0000 / 0x100, n % 0x1_0000 % 0x100]
            case I32 => ['I' as int] + BigEndian(4, n % 0x1_0000_0000)
            case U32 => ['i' as int] + BigEndian(4, n % 0x1_0000_0000)
            case F32 => ['f' as int] + BigEndian(4, n % 0x1_0000_0000)
            case I64 => ['l' as int] + BigEndian(8, n % 0x1_0000_0000_0000_0000)
            case U64 => ['L' as int] + BigEndian(8, n % 0x1_0000_0000_0000_0000)
            case F64 => ['d' as int] + BigEndian(8, n % 0x1_0000_0000_0000_0000)
            case Timestamp => ['T' as int] + BigEndian(8, n % 0x1_0000_0000_0000_0000)
  {
    hide BigEndian, Pow256;
    Pow256Values();
    OneOctet(n % 0x100);
    TwoOctets(n % 0x1_0000);
  }

  /** And one of any other kind. */
  lemma OthersOnTheWire(flag: bool, decimals: byte, n: nat, data: seq<byte>, items: seq<FieldValue>,
                        entries: seq<Entry>)
    requires n < 0x1_0000_0000 && |data| < 0x100
    ensures Serialize(Boolean(flag)) == ['t' as int, if flag then 1 else 0] && Serialize(Void) == ['V' as int]
    ensures Serialize(Decimal(decimals, n)) == ['D' as int, decimals] + BigEndian(4, n)
    ensures Serialize(Bytes(true, data)) == ['S' as int, 0, 0, 0, |data|] + data
    ensures Serialize(Bytes(false, data)) == ['x' as int, 0, 0, 0, |data|] + data
    ensures Serialize(Array(items))
            == ['A' as int] + (BigEndian(4, |SerializeAll(items)| % TWO_TO_32) + SerializeAll(items))
    ensures Serialize(Table(entries))
         == ['F' as int] + (BigEndian(4, |SerializeEntries(entries)| % TWO_TO_32) + SerializeEntries(entries))
  {
    hide BigEndian, SerializeAll, SerializeEntries;
    FourOctets(|data|);
  }

  // ------------------------------------------------------------------
  // The reader
  // ------------------------------------------------------------------

  /** `amqp_decode_8/16/32/64`. */
  function DecodeInteger(buffer: seq<byte>, offset: nat, width: nat): (r: Result<(nat, nat), Status>)
    ensures r.Ok? ==> r.value.1 == offset + width <= |buffer|
  {
    if offset + width <= |buffer| then
      Ok((Natural(buffer[offset..offset + width]), offset + width))
    else
      Err(BadData)
  }

  /** `amqp_decode_8` into an octet. */
  function DecodeOctet(buffer: seq<byte>, offset: nat): (r: Result<(byte, nat), Status>)
    ensures r.Ok? ==> r.value.1 == offset + 1 <= |buffer|
  {
    if offset + 1 <= |buffer| then Ok((buffer[offset], offset + 1)) else Err(BadData)
  }

  /** `amqp_decode_bytes`. */
  function DecodeBytes(buffer: seq<byte>, offset: nat, length: nat): (r: Result<(seq<byte>, nat), Status>)
    ensures r.Ok? ==> r.value.1 == offset + length <= |buffer| && |r.value.0| == length
  {
    if offset + length <= |buffer| then
      Ok((buffer[offset..offset + length], offset + length))
    else
      Err(BadData)
  }

  function DecodeValue(buffer: seq<byte>, offset: nat): (r: Result<(FieldValue, nat), Status>)
    ensures r.Ok? ==> offset < r.value.1 <= |buffer|
    decreases |buffer| - offset, 0
  {
    var (tag, at) :- DecodeOctet(buffer, offset);
    if tag == 't' as int then
      var (b, next) :- DecodeOctet(buffer, at);
      Ok((Boolean(b != 0), next))
    else if NumberKindOf(tag).Some? then
      var kind := NumberKindOf(tag).value;
      var (bits, next) :- DecodeInteger(buffer, at, Width(kind));
      Ok((Number(kind, FromUnsigned(kind, bits)), next))
    else if tag == 'D' as int then
      var (decimals, after) :- DecodeOctet(buffer, at);
      var (unscaled, next) :- DecodeInteger(buffer, after, 4);
      Ok((Decimal(decimals, unscaled), next))
    else if tag == 'S' as int || tag == 'x' as int then
      var (length, after) :- DecodeInteger(buffer, at, 4);
      var (data, next) :- DecodeBytes(buffer, after, length);
      Ok((Bytes(tag == 'S' as int, data), next))
    else if tag == 'A' as int then
      var (items, next) :- DecodeArray(buffer, at);
      Ok((Array(items), next))
    else if tag == 'F' as int then
      var (entries, next) :- DecodeTable(buffer, at);
      Ok((Table(entries), next))
    else if tag == 'V' as int then
      Ok((Void, at))
    else
      Err(BadData)
  }

  function DecodeArray(buffer: seq<byte>, offset: nat): (r: Result<(seq<FieldValue>, nat), Status>)
    ensures r.Ok? ==> offset < r.value.1 <= |buffer|
    decreases |buffer| - offset, 0
  {
    var (size, at) :- DecodeInteger(buffer, offset, 4);
    if size + at > |buffer| then Err(BadData) else DecodeItems(buffer, at, at + size)
  }

  function DecodeTable(buffer: seq<byte>, offset: nat): (r: Result<(seq<Entry>, nat), Status>)
    ensures r.Ok? ==> offset < r.value.1 <= |buffer|
    decreases |buffer| - offset, 0
  {
    var (size, at) :- DecodeInteger(buffer, offset, 4);
    if size + at > |buffer| then Err(BadData) else DecodeEntries(buffer, at, at + size)
  }

  /** The values from `offset` on, until `limit` is reached or passed. */
  function DecodeItems(buffer: seq<byte>, offset: nat, limit: nat): (r: Result<(seq<FieldValue>, nat), Status>)
    requires offset <= |buffer|
    ensures r.Ok? ==> offset <= r.value.1 <= |buffer| && limit <= r.value.1
    decreases |buffer| - offset, 1
  {
    if offset >= limit then Ok(([], offset)) else
      var (v, next) :- DecodeValue(buffer, offset);
      var (rest, end) :- DecodeItems(buffer, next, limit);
      Ok(([v] + rest, end))
  }

  function DecodeEntry(buffer: seq<byte>, offset: nat): (r: Result<(Entry, nat), Status>)
    requires offset <= |buffer|
    ensures r.Ok? ==> offset < r.value.1 <= |buffer|
    decreases |buffer| - offset, 1
  {
    var (length, at) :- DecodeOctet(buffer, offset);
    var (key, after) :- DecodeBytes(buffer, at, length);
    var (v, next) :- DecodeValue(buffer, after);
    Ok((Entry(key, v), next))
  }

  function DecodeEntries(buffer: seq<byte>, offset: nat, limit: nat): (r: Result<(seq<Entry>, nat), Status>)
    requires offset <= |buffer|
    ensures r.Ok? ==> offset <= r.value.1 <= |buffer| && limit <= r.value.1
    decreases |buffer| - offset, 2
  {
    if offset >= limit then Ok(([], offset)) else
      var (e, next) :- DecodeEntry(buffer, offset);
      var (rest, end) :- DecodeEntries(buffer, next, limit);
      Ok(([e] + rest, end))
  }

  // ------------------------------------------------------------------
  // Round trip
  // ------------------------------------------------------------------

  /** What a C table can say and the reader can return: keys of at most 255 octets, known kinds. */
  predicate Representable(v: FieldValue)
    decreases v
  {
    match v
    case Boolean(_) => true
    case Number(kind, number) => InRange(kind, number)
    case Decimal(_, unscaled) => unscaled < TWO_TO_32
    case Bytes(_, data) => |data| < TWO_TO_32
    case Array(items) => forall i :: 0 <= i < |items| ==> Representable(items[i])
    case Table(entries) => forall i :: 0 <= i < |entries| ==> RepresentableEntry(entries[i])
    case Void => true
    case Unknown(_) => false
  }

  predicate RepresentableEntry(e: Entry)
    decreases e
  {
    |e.key| <= 255 && Representable(e.value)
  }

  predicate RepresentableTable(entries: seq<Entry>) {
    forall i :: 0 <= i < |entries| ==> RepresentableEntry(entries[i])
  }

  lemma KindOfTag(kind: NumberKind)
    ensures NumberKindOf(NumberTag(kind)) == Some(kind)
  {
  }

  lemma SignedRoundTrip(kind: NumberKind, number: int)
    requires InRange(kind, number)
    ensures ToUnsigned(kind, number) < Pow256(Width(kind))
    ensures FromUnsigned(kind, ToUnsigned(kind, number)) == number
  {
    Pow256Values();
  }

  lemma IntegerAt(buffer: seq<byte>, offset: nat, width: nat, v: nat)
    requires Holds(buffer, offset, BigEndian(width, v)) && v < Pow256(width)
    ensures DecodeInteger(buffer, offset, width) == Ok((v, offset + width))
  {
    NaturalOfBigEndian(width, v);
  }

  lemma OctetAt(buffer: seq<byte>, offset: nat, b: byte)
    requires Holds(buffer, offset, [b])
    ensures DecodeOctet(buffer, offset) == Ok((b, offset + 1))
  {
    assert buffer[offset..offset + 1][0] == buffer[offset];
  }

  lemma DataAt(buffer: seq<byte>, offset: nat, data: seq<byte>)
    requires Holds(buffer, offset, data)
    ensures DecodeBytes(buffer, offset, |data|) == Ok((data, offset + |data|))
  {
  }

  lemma LengthAt(buffer: seq<byte>, offset: nat, body: seq<byte>)
    requires Holds(buffer, offset, Sized(body)) && |body| < TWO_TO_32
    ensures DecodeInteger(buffer, offset, 4) == Ok((|body|, offset + 4))
    ensures Holds(buffer, offset + 4, body)
  {
    hide Holds, BigEndian, Natural, DecodeInteger;
    HoldsConcat(buffer, offset, BigEndian(4, |body|), body);
    Pow256Values();
    IntegerAt(buffer, offset, 4, |body|);
  }

  lemma TagAt(v: FieldValue, buffer: seq<byte>, offset: nat)
    requires Holds(buffer, offset, Serialize(v))
    ensures DecodeOctet(buffer, offset) == Ok((Tag(v), offset + 1))
    ensures Holds(buffer, offset + 1, Payload(v))
  {
    HoldsConcat(buffer, offset, [Tag(v)], Payload(v));
    assert buffer[offset..offset + 1][0] == buffer[offset];
  }

  lemma NumberRoundTrip(v: FieldValue, buffer: seq<byte>, offset: nat)
    requires v.Number? && Representable(v)
    requires Holds(buffer, offset, Serialize(v))
    ensures DecodeValue(buffer, offset) == Ok((v, offset + |Serialize(v)|))
  {
    hide Holds;
    TagAt(v, buffer, offset);
    KindOfTag(v.kind);
    SignedRoundTrip(v.kind, v.number);
    assert NumberTag(v.kind) != 't' as int;
    IntegerAt(buffer, offset + 1, Width(v.kind), ToUnsigned(v.kind, v.number));
  }

  lemma OtherLeafRoundTrip(v: FieldValue, buffer: seq<byte>, offset: nat)
    requires Representable(v) && !v.Array? && !v.Table? && !v.Number?
    requires Holds(buffer, offset, Serialize(v))
    ensures DecodeValue(buffer, offset) == Ok((v, offset + |Serialize(v)|))
  {
    hide Holds;
    TagAt(v, buffer, offset);
    var at := offset + 1;
    match v
    case Boolean(flag) =>
      OctetAt(buffer, at, if flag then 1 else 0);
    case Decimal(decimals, unscaled) =>
      HoldsConcat(buffer, at, [decimals], BigEndian(4, unscaled));
      OctetAt(buffer, at, decimals);
      Pow256Values();
      IntegerAt(buffer, at + 1, 4, unscaled);
    case Bytes(utf8, data) =>
      LengthAt(buffer, at, data);
      DataAt(buffer, at + 4, data);
    case Void =>
  }

  lemma {:induction false} ValueRoundTrip(v: FieldValue, buffer: seq<byte>, offset: nat)
    requires Representable(v) && |Serialize(v)| < TWO_TO_32
    requires Holds(buffer, offset, Serialize(v))
    ensures DecodeValue(buffer, offset) == Ok((v, offset + |Serialize(v)|))
    decreases v, 1
  {
    hide Holds;
    if v.Array? {
      TagAt(v, buffer, offset);
      LengthAt(buffer, offset + 1, SerializeAll(v.items));
      ItemsRoundTrip(v.items, buffer, offset + 5);
    } else if v.Table? {
      TagAt(v, buffer, offset);
      TableRoundTrip(v.entries, buffer, offset + 1);
    } else if v.Number? {
      NumberRoundTrip(v, buffer, offset);
    } else {
      OtherLeafRoundTrip(v, buffer, offset);
    }
  }

  lemma {:induction false} ItemsRoundTrip(items: seq<FieldValue>, buffer: seq<byte>, offset: nat)
    requires forall i :: 0 <= i < |items| ==> Representable(items[i])
    requires |SerializeAll(items)| < TWO_TO_32
    requires Holds(buffer, offset, SerializeAll(items))
    ensures DecodeItems(buffer, offset, offset + |SerializeAll(items)|) == Ok((items, offset + |SerializeAll(items)|))
    decreases items, 0
  {
    hide Holds;
    if items != [] {
      HoldsConcat(buffer, offset, Serialize(items[0]), SerializeAll(items[1..]));
      ValueRoundTrip(items[0], buffer, offset);
      ItemsRoundTrip(items[1..], buffer, offset + |Serialize(items[0])|);
      assert [items[0]] + items[1..] == items;
    }
  }

  lemma {:induction false} EntryRoundTrip(e: Entry, buffer: seq<byte>, offset: nat)
    requires RepresentableEntry(e) && |SerializeEntry(e)| < TWO_TO_32
    requires Holds(buffer, offset, SerializeEntry(e))
    ensures DecodeEntry(buffer, offset) == Ok((e, offset + |SerializeEntry(e)|))
    decreases e, 0
  {
    hide Holds;
    var value := Serialize(e.value);
    assert SerializeEntry(e) == [|e.key|] + (e.key + value);
    HoldsConcat(buffer, offset, [|e.key|], e.key + value);
    HoldsConcat(buffer, offset + 1, e.key, value);
    OctetAt(buffer, offset, |e.key|);
    DataAt(buffer, offset + 1, e.key);
    ValueRoundTrip(e.value, buffer, offset + 1 + |e.key|);
  }

  lemma {:induction false} EntriesRoundTrip(entries: seq<Entry>, buffer: seq<byte>, offset: nat)
    requires RepresentableTable(entries) && |SerializeEntries(entries)| < TWO_TO_32
    requires Holds(buffer, offset, SerializeEntries(entries))
    ensures DecodeEntries(buffer, offset, offset + |SerializeEntries(entries)|)
         == Ok((entries, offset + |SerializeEntries(entries)|))
    decreases entries, 0
  {
    if entries != [] {
      var e := entries[0];
      HoldsConcat(buffer, offset, SerializeEntry(e), SerializeEntries(entries[1..]));
      EntryRoundTrip(e, buffer, offset);
      EntriesRoundTrip(entries[1..], buffer, offset + |SerializeEntry(e)|);
      assert [entries[0]] + entries[1..] == entries;
    }
  }

  /** Reading where a table was written gives back the same nested table and the position after it. */
  lemma {:induction false} TableRoundTrip(entries: seq<Entry>, buffer: seq<byte>, offset: nat)
    requires RepresentableTable(entries) && |SerializeTable(entries)| < TWO_TO_32
    requires Holds(buffer, offset, SerializeTable(entries))
    ensures DecodeTable(buffer, offset) == Ok((entries, offset + |SerializeTable(entries)|))
    decreases entries, 1
  {
    LengthAt(buffer, offset, SerializeEntries(entries));
    EntriesRoundTrip(entries, buffer, offset + 4);
  }

  // ------------------------------------------------------------------
  // Whatever the octets, the reader only returns representable tables
  // ------------------------------------------------------------------

  lemma IntegerBound(buffer: seq<byte>, offset: nat, width: nat)
    ensures var r := DecodeInteger(buffer, offset, width); r.Ok? ==> r.value.0 < Pow256(width)
  {
    if offset + width <= |buffer| {
      BigEndianOfNatural(buffer[offset..offset + width]);
    }
  }

  lemma FromUnsignedInRange(kind: NumberKind, bits: nat)
    requires bits < Pow256(Width(kind))
    ensures InRange(kind, FromUnsigned(kind, bits))
  {
    Pow256Values();
  }

  lemma {:induction false} DecodedValueRepresentable(buffer: seq<byte>, offset: nat)
    requires DecodeValue(buffer, offset).Ok?
    ensures Representable(DecodeValue(buffer, offset).value.0)
    decreases |buffer| - offset, 0
  {
    Pow256Values();
    var tag, at := buffer[offset], offset + 1;
    if NumberKindOf(tag).Some? {
      var kind := NumberKindOf(tag).value;
      IntegerBound(buffer, at, Width(kind));
      FromUnsignedInRange(kind, DecodeInteger(buffer, at, Width(kind)).value.0);
    } else if tag == 'D' as int {
      IntegerBound(buffer, at + 1, 4);
    } else if tag == 'S' as int || tag == 'x' as int {
      IntegerBound(buffer, at, 4);
    } else if tag == 'A' as int {
      var size := DecodeInteger(buffer, at, 4).value.0;
      DecodedItemsRepresentable(buffer, at + 4, at + 4 + size);
    } else if tag == 'F' as int {
      DecodedTableRepresentable(buffer, at);
    }
  }

  lemma {:induction false} DecodedItemsRepresentable(buffer: seq<byte>, offset: nat, limit: nat)
    requires offset <= |buffer| && DecodeItems(buffer, offset, limit).Ok?
    ensures forall i :: 0 <= i < |DecodeItems(buffer, offset, limit).value.0|
              ==> Representable(DecodeItems(buffer, offset, limit).value.0[i])
    decreases |buffer| - offset, 1
  {
    if offset < limit {
      DecodedValueRepresentable(buffer, offset);
      DecodedItemsRepresentable(buffer, DecodeValue(buffer, offset).value.1, limit);
    }
  }

  lemma {:induction false} DecodedEntriesRepresentable(buffer: seq<byte>, offset: nat, limit: nat)
    requires offset <= |buffer| && DecodeEntries(buffer, offset, limit).Ok?
    ensures RepresentableTable(DecodeEntries(buffer, offset, limit).value.0)
    decreases |buffer| - offset, 1
  {
    if offset < limit {
      DecodedValueRepresentable(buffer, offset + 1 + buffer[offset]);
      DecodedEntriesRepresentable(buffer, DecodeEntry(buffer, offset).value.1, limit);
    }
  }

  lemma {:induction false} DecodedTableRepresentable(buffer: seq<byte>, offset: nat)
    requires DecodeTable(buffer, offset).Ok?
    ensures RepresentableTable(DecodeTable(buffer, offset).value.0)
    decreases |buffer| - offset, 0
  {
    var size := DecodeInteger(buffer, offset, 4).value.0;
    DecodedEntriesRepresentable(buffer, offset + 4, offset + 4 + size);
  }

  /**
   A table survives the wire exactly when its keys have at most 255 octets (the
   writer casts the key length to one octet), its numbers fit their C types and
   its kinds are known.
   */
  lemma TableSurvivesExactlyWhenRepresentable(entries: seq<Entry>, buffer: seq<byte>, offset: nat)
    requires |SerializeTable(entries)| < TWO_TO_32
    requires Holds(buffer, offset, SerializeTable(entries))
    ensures DecodeTable(buffer, offset) == Ok((entries, offset + |SerializeTable(entries)|))
       <==> RepresentableTable(entries)
  {
    if RepresentableTable(entries) {
      TableRoundTrip(entries, buffer, offset);
    } else if DecodeTable(buffer, offset).Ok? {
      DecodedTableRepresentable(buffer, offset);
    }
  }
}
