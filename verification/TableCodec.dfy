/**
 The loops of amqp_table.c: writing a table in place, leaving a hole for each
 length and filling it in afterwards, and reading a table value by value.
 */
module TableCodec {
  import opened Wrappers
  import opened Octets
  import opened Status
  import opened FieldTable

  const INITIAL_TABLE_SIZE := 16

  // ------------------------------------------------------------------
  // The status of a write, from sizes alone
  // ------------------------------------------------------------------

  /** The status of writing `v` when `room` octets are left; the first octet that does not fit decides. */
  function ValueStatus(v: FieldValue, room: int): Status
    decreases v, 1
  {
    if room < 1 then BadData else PayloadStatus(v, room - 1)
  }

  function PayloadStatus(v: FieldValue, room: nat): Status
    decreases v, 0
  {
    match v
    case Array(items) => HoleStatus(ItemsStatus(items, room - 4), room)
    case Table(entries) => HoleStatus(EntriesStatus(entries, room - 4), room)
    case Unknown(_) => InvalidParameter
    case _ => if room < |Payload(v)| then TableTooBig else Success
  }

  /** The length is written last, into the hole. */
  function HoleStatus(body: Status, room: int): Status {
    if body != Success then body else if room < 4 then TableTooBig else Success
  }

  function ItemsStatus(items: seq<FieldValue>, room: int): Status
    decreases items, 0
  {
    if items == [] then Success else
      var first := ValueStatus(items[0], room);
      if first != Success then first else ItemsStatus(items[1..], room - |Serialize(items[0])|)
  }

  function EntryStatus(e: Entry, room: int): Status
    decreases e, 0
  {
    if room < 1 + |e.key| then TableTooBig else ValueStatus(e.value, room - 1 - |e.key|)
  }

  function EntriesStatus(entries: seq<Entry>, room: int): Status
    decreases entries, 0
  {
    if entries == [] then Success else
      var first := EntryStatus(entries[0], room);
      if first != Success then first else EntriesStatus(entries[1..], room - |SerializeEntry(entries[0])|)
  }

  function TableStatus(entries: seq<Entry>, room: int): Status {
    HoleStatus(EntriesStatus(entries, room - 4), room)
  }

  /** No value, at any depth, has a kind the library does not know. */
  predicate KnownKinds(v: FieldValue)
    decreases v
  {
    match v
    case Array(items) => forall i :: 0 <= i < |items| ==> KnownKinds(items[i])
    case Table(entries) => forall i :: 0 <= i < |entries| ==> KnownKindsEntry(entries[i])
    case Unknown(_) => false
    case _ => true
  }

  predicate KnownKindsEntry(e: Entry)
    decreases e
  {
    KnownKinds(e.value)
  }

  lemma {:induction false} ValueFits(v: FieldValue, room: int)
    ensures ValueStatus(v, room) == Success <==> KnownKinds(v) && |Serialize(v)| <= room
    decreases v, 0
  {
    assert |Serialize(v)| == 1 + |Payload(v)|;
    if v.Array? {
      ItemsFit(v.items, room - 5);
      assert |Payload(v)| == 4 + |SerializeAll(v.items)|;
    } else if v.Table? {
      EntriesFit(v.entries, room - 5);
      assert |Payload(v)| == 4 + |SerializeEntries(v.entries)|;
    } else {
      assert KnownKinds(v) <==> !v.Unknown?;
    }
  }

  lemma {:induction false} ItemsFit(items: seq<FieldValue>, room: int)
    ensures ItemsStatus(items, room) == Success
       <==> (forall i :: 0 <= i < |items| ==> KnownKinds(items[i])) && (items == [] || |SerializeAll(items)| <= room)
    decreases items, 0
  {
    if items != [] {
      ValueFits(items[0], room);
      ItemsFit(items[1..], room - |Serialize(items[0])|);
      assert forall i :: 1 <= i < |items| ==> items[i] == items[1..][i - 1];
    }
  }

  lemma {:induction false} EntriesFit(entries: seq<Entry>, room: int)
    ensures EntriesStatus(entries, room) == Success
       <==> (forall i :: 0 <= i < |entries| ==> KnownKindsEntry(entries[i]))
            && (entries == [] || |SerializeEntries(entries)| <= room)
    decreases entries, 0
  {
    if entries != [] {
      ValueFits(entries[0].value, room - 1 - |entries[0].key|);
      EntriesFit(entries[1..], room - |SerializeEntry(entries[0])|);
      assert forall i :: 1 <= i < |entries| ==> entries[i] == entries[1..][i - 1];
    }
  }

  /** A table is written exactly when its kinds are known and its serialised form fits. */
  lemma TableFits(entries: seq<Entry>, room: int)
    ensures TableStatus(entries, room) == Success
       <==> (forall i :: 0 <= i < |entries| ==> KnownKindsEntry(entries[i])) && |SerializeTable(entries)| <= room
  {
    EntriesFit(entries, room - 4);
  }

  lemma {:induction false} RepresentableIsKnown(v: FieldValue)
    requires Representable(v)
    ensures KnownKinds(v)
    decreases v
  {
    match v
    case Array(items) =>
      forall i | 0 <= i < |items| ensures KnownKinds(items[i]) {
        RepresentableIsKnown(items[i]);
      }
    case Table(entries) =>
      forall i | 0 <= i < |entries| ensures KnownKindsEntry(entries[i]) {
        assert RepresentableEntry(entries[i]);
        RepresentableIsKnown(entries[i].value);
      }
    case _ =>
  }

  // ------------------------------------------------------------------
  // Writing
  // ------------------------------------------------------------------

  /** `amqp_encode_field_value`. */
  method EncodeValue(buffer: array<byte>, end: nat, v: FieldValue, offset: nat) returns (status: Status, next: nat)
    requires end <= buffer.Length
    modifies buffer
    ensures status == ValueStatus(v, end - offset)
    ensures status == Success ==> next == offset + |Serialize(v)| <= end
    ensures Written(old(buffer[..]), buffer[..], offset, end, Serialize(v), status == Success)
    decreases v, 1
  {
    hide Written;
    var ok;
    ok, next := EncodeInteger(buffer, end, offset, 1, Tag(v));
    ghost var tagged := buffer[..];
    assert BigEndian(1, Tag(v)) == [Tag(v)];
    if !ok {
      WrittenThenFailed(old(buffer[..]), tagged, offset, end, [Tag(v)], Serialize(v), false);
      return BadData, next;
    }
    status, next := EncodePayload(buffer, end, v, next);
    WrittenThen(old(buffer[..]), tagged, buffer[..], offset, end, [Tag(v)], Payload(v), status == Success);
  }

  /** The switch of `amqp_encode_field_value`. */
  method EncodePayload(buffer: array<byte>, end: nat, v: FieldValue, offset: nat) returns (status: Status, next: nat)
    requires offset <= end <= buffer.Length
    modifies buffer
    ensures status == PayloadStatus(v, end - offset)
    ensures status == Success ==> next == offset + |Payload(v)| <= end
    ensures Written(old(buffer[..]), buffer[..], offset, end, Payload(v), status == Success)
    decreases v, 0
  {
    hide Written;
    var ok := true;
    next := offset;
    match v {
      case Boolean(flag) =>
        ok, next := EncodeInteger(buffer, end, offset, 1, if flag then 1 else 0);
        assert BigEndian(1, if flag then 1 else 0) == Payload(v);
      case Number(kind, number) =>
        ok, next := EncodeInteger(buffer, end, offset, Width(kind), ToUnsigned(kind, number));
      case Decimal(decimals, unscaled) =>
        ok, next := EncodePair(buffer, end, offset, 1, decimals, BigEndian(4, unscaled % TWO_TO_32));
        assert BigEndian(1, decimals) == [decimals];
      case Bytes(_, data) =>
        ok, next := EncodePair(buffer, end, offset, 4, |data| % TWO_TO_32, data);
      case Array(items) =>
        status, next := EncodeArray(buffer, end, items, offset);
        return;
      case Table(entries) =>
        status, next := EncodeTable(buffer, end, entries, offset);
        return;
      case Void =>
        WrittenNothing(buffer[..], offset, end);
      case Unknown(_) =>
        WrittenNothing(buffer[..], offset, end);
        WrittenThenFailed(buffer[..], buffer[..], offset, end, [], [], true);
        return InvalidParameter, next;
    }
    status := if ok then Success else TableTooBig;
  }

  /** An integer followed by octets; both must fit. */
  method EncodePair(buffer: array<byte>, end: nat, offset: nat, width: nat, v: nat, rest: seq<byte>)
    returns (ok: bool, next: nat)
    requires end <= buffer.Length
    modifies buffer
    ensures ok <==> offset + width + |rest| <= end
    ensures ok ==> next == offset + width + |rest|
    ensures Written(old(buffer[..]), buffer[..], offset, end, BigEndian(width, v) + rest, ok)
  {
    hide Written;
    ok, next := EncodeInteger(buffer, end, offset, width, v);
    ghost var middle := buffer[..];
    if ok {
      ok, next := EncodeBytes(buffer, end, next, rest);
      WrittenThen(old(buffer[..]), middle, buffer[..], offset, end, BigEndian(width, v), rest, ok);
    } else {
      WrittenThenFailed(old(buffer[..]), middle, offset, end, BigEndian(width, v), BigEndian(width, v) + rest, false);
    }
  }

  /** `amqp_encode_array`. */
  method EncodeArray(buffer: array<byte>, end: nat, items: seq<FieldValue>, offset: nat)
    returns (status: Status, next: nat)
    requires end <= buffer.Length
    modifies buffer
    ensures status == HoleStatus(ItemsStatus(items, end - offset - 4), end - offset)
    ensures status == Success ==> next == offset + |Sized(SerializeAll(items))| <= end
    ensures Written(old(buffer[..]), buffer[..], offset, end, Sized(SerializeAll(items)), status == Success)
    decreases items, 2
  {
    hide Written;
    next := offset + 4;
    status, next := EncodeArrayBody(buffer, end, items, next);
    if status == Success {
      status := FillHole(buffer, end, offset, SerializeAll(items), next, old(buffer[..]));
    } else {
      WrittenWider(old(buffer[..]), buffer[..], offset, offset + 4, end, SerializeAll(items),
                   Sized(SerializeAll(items)));
    }
  }

  /** Its loop, which starts behind the hole. */
  method EncodeArrayBody(buffer: array<byte>, end: nat, items: seq<FieldValue>, start: nat)
    returns (status: Status, next: nat)
    requires end <= buffer.Length
    modifies buffer
    ensures status == ItemsStatus(items, end - start)
    ensures status == Success ==> next == start + |SerializeAll(items)| && (items == [] || next <= end)
    ensures Written(old(buffer[..]), buffer[..], start, end, SerializeAll(items), status == Success)
    decreases items, 1
  {
    hide Written;
    next := start;
    ghost var done: seq<byte> := [];
    WrittenNothing(buffer[..], start, end);
    var i := 0;
    while i < |items|
      invariant 0 <= i <= |items|
      invariant ItemsStatus(items, end - start) == ItemsStatus(items[i..], end - next)
      invariant SerializeAll(items) == done + SerializeAll(items[i..])
      invariant next == start + |done| && (i > 0 ==> next <= end)
      invariant Written(old(buffer[..]), buffer[..], start, end, done, true)
    {
      ghost var before := buffer[..];
      assert items[i..][1..] == items[i + 1..];
      status, next := EncodeValue(buffer, end, items[i], next);
      WrittenThen(old(buffer[..]), before, buffer[..], start, end, done, Serialize(items[i]), status == Success);
      done := done + Serialize(items[i]);
      if status != Success {
        WrittenThenFailed(old(buffer[..]), buffer[..], start, end, done, SerializeAll(items), false);
        return;
      }
      i := i + 1;
    }
    assert done == SerializeAll(items);
    status := Success;
  }

  /** `amqp_encode_table`. */
  method EncodeTable(buffer: array<byte>, end: nat, entries: seq<Entry>, offset: nat)
    returns (status: Status, next: nat)
    requires end <= buffer.Length
    modifies buffer
    ensures status == TableStatus(entries, end - offset)
    ensures status == Success ==> next == offset + |SerializeTable(entries)| <= end
    ensures Written(old(buffer[..]), buffer[..], offset, end, SerializeTable(entries), status == Success)
    decreases entries, 2
  {
    hide Written;
    next := offset + 4;
    status, next := EncodeTableBody(buffer, end, entries, next);
    if status == Success {
      status := FillHole(buffer, end, offset, SerializeEntries(entries), next, old(buffer[..]));
    } else {
      WrittenWider(old(buffer[..]), buffer[..], offset, offset + 4, end, SerializeEntries(entries),
                   SerializeTable(entries));
    }
  }

  /** Its loop, which starts behind the hole. */
  method EncodeTableBody(buffer: array<byte>, end: nat, entries: seq<Entry>, start: nat)
    returns (status: Status, next: nat)
    requires end <= buffer.Length
    modifies buffer
    ensures status == EntriesStatus(entries, end - start)
    ensures status == Success ==> next == start + |SerializeEntries(entries)| && (entries == [] || next <= end)
    ensures Written(old(buffer[..]), buffer[..], start, end, SerializeEntries(entries), status == Success)
    decreases entries, 1
  {
    hide Written;
    next := start;
    ghost var done: seq<byte> := [];
    WrittenNothing(buffer[..], start, end);
    var i := 0;
    while i < |entries|
      invariant 0 <= i <= |entries|
      invariant EntriesStatus(entries, end - start) == EntriesStatus(entries[i..], end - next)
      invariant SerializeEntries(entries) == done + SerializeEntries(entries[i..])
      invariant next == start + |done| && (i > 0 ==> next <= end)
      invariant Written(old(buffer[..]), buffer[..], start, end, done, true)
    {
      ghost var before := buffer[..];
      assert entries[i..][1..] == entries[i + 1..];
      status, next := EncodeEntry(buffer, end, entries[i], next);
      WrittenThen(old(buffer[..]), before, buffer[..], start, end, done, SerializeEntry(entries[i]), status == Success);
      done := done + SerializeEntry(entries[i]);
      if status != Success {
        WrittenThenFailed(old(buffer[..]), buffer[..], start, end, done, SerializeEntries(entries), false);
        return;
      }
      i := i + 1;
    }
    assert done == SerializeEntries(entries);
    status := Success;
  }

  /** The body of the loop in `amqp_encode_table`: key length cast to an octet, key, value. */
  method EncodeEntry(buffer: array<byte>, end: nat, e: Entry, offset: nat) returns (status: Status, next: nat)
    requires end <= buffer.Length
    modifies buffer
    ensures status == EntryStatus(e, end - offset)
    ensures status == Success ==> next == offset + |SerializeEntry(e)| <= end
    ensures Written(old(buffer[..]), buffer[..], offset, end, SerializeEntry(e), status == Success)
    decreases e, 1
  {
    hide Written;
    ghost var header := [|e.key| % 256] + e.key;
    assert BigEndian(1, |e.key| % 256) == [|e.key| % 256];
    var ok;
    ok, next := EncodePair(buffer, end, offset, 1, |e.key| % 256, e.key);
    ghost var middle := buffer[..];
    if !ok {
      WrittenThenFailed(old(buffer[..]), middle, offset, end, header, SerializeEntry(e), false);
      return TableTooBig, next;
    }
    status, next := EncodeValue(buffer, end, e.value, next);
    WrittenThen(old(buffer[..]), middle, buffer[..], offset, end, header, Serialize(e.value), status == Success);
  }

  /** Writes the length of `body`, which ends at `next`, into the hole left at `start`. */
  method FillHole(buffer: array<byte>, end: nat, start: nat, ghost body: seq<byte>, next: nat, ghost before: seq<byte>)
    returns (status: Status)
    requires end <= buffer.Length
    requires next == start + 4 + |body|
    requires Written(before, buffer[..], start + 4, end, body, true)
    modifies buffer
    ensures status == if end < start + 4 then TableTooBig else Success
    ensures Written(before, buffer[..], start, end, Sized(body), status == Success)
  {
    hide Written;
    ghost var middle := buffer[..];
    var ok, _ := EncodeInteger(buffer, end, start, 4, (next - start - 4) % TWO_TO_32);
    WrittenAroundHole(before, middle, buffer[..], start, end, BigEndian(4, |body| % TWO_TO_32), body, ok);
    status := if ok then Success else TableTooBig;
  }

  // ------------------------------------------------------------------
  // Reading
  // ------------------------------------------------------------------

  function After<T>(prefix: seq<T>, r: Result<(seq<T>, nat), Status>): Result<(seq<T>, nat), Status> {
    match r
    case Ok((rest, end)) => Ok((prefix + rest, end))
    case Err(e) => Err(e)
  }

  lemma AfterNothing<T>(r: Result<(seq<T>, nat), Status>)
    ensures After([], r) == r
  {
    assert r.Ok? ==> [] + r.value.0 == r.value.0;
  }

  /** `amqp_decode_field_value`. */
  method ReadValue(encoded: seq<byte>, offset: nat) returns (r: Result<(FieldValue, nat), Status>)
    ensures r == DecodeValue(encoded, offset)
    decreases |encoded| - offset, 1
  {
    var tag :- DecodeOctet(encoded, offset);
    if tag.0 == 'A' as int {
      var items :- ReadArray(encoded, tag.1);
      return Ok((Array(items.0), items.1));
    } else if tag.0 == 'F' as int {
      var entries :- ReadTable(encoded, tag.1);
      return Ok((Table(entries.0), entries.1));
    }
    r := DecodeValue(encoded, offset);
  }

  /** `amqp_decode_array`; `capacity` is the size of the growing array the values are stored in. */
  method ReadArray(encoded: seq<byte>, offset: nat) returns (r: Result<(seq<FieldValue>, nat), Status>)
    ensures r == DecodeArray(encoded, offset)
    decreases |encoded| - offset, 0
  {
    var length :- DecodeInteger(encoded, offset, 4);
    var size, at := length.0, length.1;
    if size + at > |encoded| {
      return Err(BadData);
    }
    var limit, cur := at + size, at;
    var items: seq<FieldValue>, capacity := [], INITIAL_TABLE_SIZE;
    AfterNothing(DecodeItems(encoded, at, limit));
    while cur < limit
      invariant at <= cur <= |encoded|
      invariant DecodeItems(encoded, at, limit) == After(items, DecodeItems(encoded, cur, limit))
      invariant |items| <= capacity && 0 < capacity
      decreases |encoded| - cur
    {
      if |items| >= capacity {
        capacity := 2 * capacity;
      }
      assert |items| < capacity;
      var v :- ReadValue(encoded, cur);
      ghost var rest := DecodeItems(encoded, v.1, limit);
      assert rest.Ok? ==> items + ([v.0] + rest.value.0) == items + [v.0] + rest.value.0;
      items, cur := items + [v.0], v.1;
    }
    assert items + [] == items;
    r := Ok((items, cur));
  }

  /** `amqp_decode_table`. */
  method ReadTable(encoded: seq<byte>, offset: nat) returns (r: Result<(seq<Entry>, nat), Status>)
    ensures r == DecodeTable(encoded, offset)
    decreases |encoded| - offset, 0
  {
    var length :- DecodeInteger(encoded, offset, 4);
    var size, at := length.0, length.1;
    if size + at > |encoded| {
      return Err(BadData);
    }
    var limit, cur := at + size, at;
    var entries: seq<Entry>, capacity := [], INITIAL_TABLE_SIZE;
    AfterNothing(DecodeEntries(encoded, at, limit));
    while cur < limit
      invariant at <= cur <= |encoded|
      invariant DecodeEntries(encoded, at, limit) == After(entries, DecodeEntries(encoded, cur, limit))
      invariant |entries| <= capacity && 0 < capacity
      decreases |encoded| - cur
    {
      var keyLength :- DecodeOctet(encoded, cur);
      if |entries| >= capacity {
        capacity := 2 * capacity;
      }
      assert |entries| < capacity;
      var key :- DecodeBytes(encoded, keyLength.1, keyLength.0);
      var v :- ReadValue(encoded, key.1);
      var e := Entry(key.0, v.0);
      assert DecodeEntry(encoded, cur) == Ok((e, v.1));
      ghost var rest := DecodeEntries(encoded, v.1, limit);
      assert rest.Ok? ==> entries + ([e] + rest.value.0) == entries + [e] + rest.value.0;
      entries, cur := entries + [e], v.1;
    }
    assert entries + [] == entries;
    r := Ok((entries, cur));
  }

  // ------------------------------------------------------------------
  // Cloning
  // ------------------------------------------------------------------

  /** Every key, at every depth, is non-empty and every kind known: what a clone demands. */
  predicate Cloneable(v: FieldValue)
    decreases v
  {
    match v
    case Array(items) => forall i :: 0 <= i < |items| ==> Cloneable(items[i])
    case Table(entries) => forall i :: 0 <= i < |entries| ==> CloneableEntry(entries[i])
    case Unknown(_) => false
    case _ => true
  }

  predicate CloneableEntry(e: Entry)
    decreases e
  {
    e.key != [] && Cloneable(e.value)
  }

  predicate CloneableTable(entries: seq<Entry>) {
    forall i :: 0 <= i < |entries| ==> CloneableEntry(entries[i])
  }

  /** `amqp_field_value_clone`. */
  method CloneValue(original: FieldValue) returns (r: Result<FieldValue, Status>)
    ensures r == if Cloneable(original) then Ok(original) else Err(InvalidParameter)
    decreases original
  {
    match original {
      case Array(items) =>
        var clone := [];
        var i := 0;
        while i < |items|
          invariant 0 <= i <= |items| && clone == items[..i]
          invariant forall k :: 0 <= k < i ==> Cloneable(items[k])
        {
          var v := CloneValue(items[i]);
          if v.Err? {
            assert !Cloneable(items[i]);
            return v;
          }
          clone, i := clone + [v.value], i + 1;
        }
        assert clone == items;
        r := Ok(Array(clone));
      case Table(entries) =>
        var clone :- CloneTable(entries);
        r := Ok(Table(clone));
      case Unknown(_) => r := Err(InvalidParameter);
      case _ => r := Ok(original);
    }
  }

  /** `amqp_table_clone`: a deep copy, refused when some key is empty. */
  method CloneTable(original: seq<Entry>) returns (r: Result<seq<Entry>, Status>)
    ensures r == if CloneableTable(original) then Ok(original) else Err(InvalidParameter)
    decreases original
  {
    var clone := [];
    var i := 0;
    while i < |original|
      invariant 0 <= i <= |original| && clone == original[..i]
      invariant forall k :: 0 <= k < i ==> CloneableEntry(original[k])
    {
      if original[i].key == [] {
        assert !CloneableEntry(original[i]);
        return Err(InvalidParameter);
      }
      var v := CloneValue(original[i].value);
      if v.Err? {
        assert !CloneableEntry(original[i]);
        return Err(v.error);
      }
      clone, i := clone + [Entry(original[i].key, v.value)], i + 1;
    }
    assert clone == original;
    r := Ok(clone);
  }
}
