/**
 The generated functions of amqp_framing.c, for any protocol description:
 encoding and decoding method arguments and content properties.
 */
module Framing {
  import opened Wrappers
  import opened Octets
  import opened Status
  import opened Bits
  import opened FieldTable
  import opened TableCodec
  import opened Generator

  /** Field types of every method and of every content class. */
  datatype Protocol = Protocol(methods: map<nat, seq<FieldType>>, classes: map<nat, seq<FieldType>>)

  // ------------------------------------------------------------------
  // Property flags
  // ------------------------------------------------------------------

  const FLAGS_END := 0x1_0000_0000

  /** The flag bit of the `i`-th property. */
  function FlagBit(i: nat): nat {
    16 * (i / 15) + 15 - i % 15
  }

  /** The loop of `genHrl` that numbers the property flags of a class. */
  method NumberPropertyFlags(count: nat) returns (bits: seq<nat>)
    ensures |bits| == count && forall i :: 0 <= i < count ==> bits[i] == FlagBit(i)
  {
    bits := [];
    var index := 0;
    ghost var q, r := 0, 0;  // the next property takes place r of word q
    for i := 0 to count
      invariant |bits| == i && forall k :: 0 <= k < i ==> bits[k] == FlagBit(k)
      invariant i == 15 * q + r && r < 15
      invariant index == 16 * q + r || (index + 1 == 16 * q && r == 0)
    {
      if index % 16 == 15 {
        index := index + 1;
      }
      assert index == 16 * q + r;
      var shortnum := index / 16;
      var partialindex := 15 - index % 16;
      var bitindex := shortnum * 16 + partialindex;
      assert bitindex == FlagBit(i) by {
        assert i / 15 == q && i % 15 == r && shortnum == q;
      }
      bits := bits + [bitindex];
      index := index + 1;
      q, r := if r == 14 then q + 1 else q, if r == 14 then 0 else r + 1;
    }
  }

  /** Flags are distinct and never a word's lowest bit, which says that another word follows. */
  lemma PropertyFlagsAreDistinct(i: nat, j: nat)
    ensures FlagBit(i) == FlagBit(j) ==> i == j
    ensures FlagBit(i) % 16 != 0
  {
    assert FlagBit(i) / 16 == i / 15 && FlagBit(i) % 16 == 15 - i % 15;
    assert FlagBit(j) / 16 == j / 15 && FlagBit(j) % 16 == 15 - j % 15;
  }

  /** One flag word, from the low half of `flags`: the lowest bit is replaced by the continuation bit. */
  function FlagWord(flags: nat, more: bool): nat {
    var low := flags % 0x1_0000;
    low - low % 2 + if more then 1 else 0
  }

  /** The flags of the words that follow. */
  function Remainder(flags: nat): (r: nat)
    ensures r <= flags && (flags > 0 ==> r < flags)
  {
    flags / 0x1_0000
  }

  /** The flag words as they travel. */
  function SerializeFlags(flags: nat): (s: seq<byte>)
    ensures |s| >= 2
  {
    var remainder := Remainder(flags);
    BigEndian(2, FlagWord(flags, remainder != 0))
    + if remainder != 0 then SerializeFlags(remainder) else []
  }

  /** What flags look like on the wire: one word, or a word that says that another follows. */
  lemma FlagsOnTheWire(flags: nat)
    ensures var low := flags % 0x1_0000;
            SerializeFlags(flags)
            == if flags < 0x1_0000 then [low / 256, low % 256 - low % 2]
               else [low / 256, low % 256 - low % 2 + 1] + SerializeFlags(flags / 0x1_0000)
  {
    hide BigEndian;
    var low := flags % 0x1_0000;
    WordOctets(low);
    assert FlagWord(flags, false) == low - low % 2 && FlagWord(flags, true) == low - low % 2 + 1;
    hide FlagWord;
    TwoOctets(low - low % 2);
    TwoOctets(low - low % 2 + 1);
  }

  lemma WordOctets(low: nat)
    ensures low % 256 - low % 2 >= 0
    ensures (low - low % 2) / 256 == low / 256 && (low - low % 2) % 256 == low % 256 - low % 2
    ensures (low - low % 2 + 1) / 256 == low / 256 && (low - low % 2 + 1) % 256 == low % 256 - low % 2 + 1
  {
    var q, r := low / 256, low % 256;
    assert low == 256 * q + r && low % 2 == r % 2;
  }

  /** A third word would be shifted by 32 bits or more, to which C gives no meaning. */
  function DecodeFlags(buffer: seq<byte>, offset: nat, index: nat): (r: Result<(nat, nat), Status>)
    ensures r.Ok? ==> offset < r.value.1 <= |buffer|
    decreases |buffer| - offset
  {
    var (word, next) :- DecodeInteger(buffer, offset, 2);
    if index >= 2 then Err(Undefined)
    else if word % 2 == 1 then
      var (rest, end) :- DecodeFlags(buffer, next, index + 1);
      Ok((word + 0x1_0000 * rest, end))
    else
      Ok((word, next))
  }

  /** What the flags become on the way: only continuation bits change. */
  function CarriedFlags(flags: nat): nat {
    FlagWord(flags, Remainder(flags) != 0) + 0x1_0000 * FlagWord(Remainder(flags), false)
  }

  lemma FlagsRoundTrip(flags: nat, buffer: seq<byte>, offset: nat)
    requires flags < FLAGS_END && Holds(buffer, offset, SerializeFlags(flags))
    ensures DecodeFlags(buffer, offset, 0) == Ok((CarriedFlags(flags), offset + |SerializeFlags(flags)|))
  {
    hide Holds, BigEndian;
    Pow256Values();
    var high := Remainder(flags);
    var first := FlagWord(flags, high != 0);
    var rest := if high != 0 then SerializeFlags(high) else [];
    assert first % 2 == if high != 0 then 1 else 0;
    HoldsConcat(buffer, offset, BigEndian(2, first), rest);
    IntegerAt(buffer, offset, 2, first);
    if high != 0 {
      LastFlagWord(high, buffer, offset + 2);
    }
  }

  lemma LastFlagWord(high: nat, buffer: seq<byte>, offset: nat)
    requires high < 0x1_0000 && Holds(buffer, offset, SerializeFlags(high))
    ensures DecodeFlags(buffer, offset, 1) == Ok((FlagWord(high, false), offset + 2))
    ensures |SerializeFlags(high)| == 2
  {
    hide Holds, BigEndian;
    Pow256Values();
    assert Remainder(high) == 0;
    var word := FlagWord(high, false);
    assert word % 2 == 0;
    assert SerializeFlags(high) == BigEndian(2, word) + [] == BigEndian(2, word);
    IntegerAt(buffer, offset, 2, word);
  }

  lemma BitOfFlagWord(flags: nat, more: bool, k: nat)
    requires 0 < k < 16
    ensures FlagWord(flags, more) < 0x1_0000
    ensures BitAt(FlagWord(flags, more), k) == BitAt(flags, k)
  {
    Pow2Values();
    var low, high := flags % 0x1_0000, flags / 0x1_0000;
    assert flags == low + Pow2(16) * high;
    BitOfSum(low, high, 16, k);
    assert FlagWord(flags, more) / 2 == low / 2;
  }

  /** The flag-word loops preserve every presence set. */
  lemma FlagsCarryPresence(flags: nat, k: nat)
    requires flags < FLAGS_END && k % 16 != 0
    ensures BitAt(CarriedFlags(flags), k) == BitAt(flags, k)
  {
    var high := Remainder(flags);
    BitOfFlagWord(flags, high != 0, 1);
    BitOfWords(FlagWord(flags, high != 0), FlagWord(high, false), k);
    if k < 16 {
      BitOfFlagWord(flags, high != 0, k);
    } else {
      BitOfWords(flags % 0x1_0000, high, k);
      if k < 32 {
        BitOfFlagWord(high, false, k - 16);
      } else {
        Pow2Values();
        HighBitsAreClear(FlagWord(high, false), 16, k - 16);
        HighBitsAreClear(high, 16, k - 16);
      }
    }
  }

  lemma BitOfWords(low: nat, high: nat, k: nat)
    requires low < 0x1_0000
    ensures BitAt(low + 0x1_0000 * high, k) == if k < 16 then BitAt(low, k) else BitAt(high, k - 16)
  {
    Pow2Values();
    BitOfSum(low, high, 16, k);
  }

  lemma {:induction false} HighBitsAreClear(v: nat, n: nat, k: nat)
    requires v < Pow2(n) && n <= k
    ensures !BitAt(v, k)
  {
    if n == 0 {
      if k > 0 {
        HighBitsAreClear(v / 2, 0, k - 1);
      }
    } else {
      HighBitsAreClear(v / 2, n - 1, k - 1);
    }
  }

  /** The whole flag set is unchanged exactly when its continuation bits say what the writer puts there. */
  lemma FlagsUnchangedExactly(flags: nat)
    requires flags < FLAGS_END
    ensures CarriedFlags(flags) == flags
       <==> (flags % 2 == if Remainder(flags) != 0 then 1 else 0) && Remainder(flags) % 2 == 0
  {
    var low, high := flags % 0x1_0000, Remainder(flags);
    assert low % 2 == flags % 2 && high % 0x1_0000 == high;
  }

  // ------------------------------------------------------------------
  // Content properties
  // ------------------------------------------------------------------

  /** The flags and the fields of a property struct that hold something, by field number. */
  datatype Properties = Properties(flags: nat, fields: map<nat, Argument>)

  predicate Present(flags: nat, i: nat) {
    BitAt(flags, FlagBit(i))
  }

  /** The first property has the highest bit, and so on down. */
  lemma PresentIs(flags: nat, i: nat)
    requires i < 15
    ensures Present(flags, i) <==> flags / Pow2(15 - i) % 2 == 1
  {
    BitHasWeight(flags, 15 - i);
  }

  /** A class has no bit fields, and the caller filled in every field it flagged. */
  predicate ValidProperties(types: seq<FieldType>, p: Properties) {
    && p.flags < FLAGS_END
    && forall i :: 0 <= i < |types| ==>
         !types[i].Bit? && (Present(p.flags, i) ==> i in p.fields && Matches(types[i], p.fields[i]))
  }

  function PresentLayout(types: seq<FieldType>, p: Properties, i: nat): seq<byte>
    requires ValidProperties(types, p) && i <= |types|
    decreases |types| - i
  {
    if i == |types| then []
    else (if Present(p.flags, i) then FieldLayout(types[i], p.fields[i]) else []) + PresentLayout(types, p, i + 1)
  }

  function SerializeProperties(types: seq<FieldType>, p: Properties): seq<byte>
    requires ValidProperties(types, p)
  {
    SerializeFlags(p.flags) + PresentLayout(types, p, 0)
  }

  predicate EncodableFrom(types: seq<FieldType>, p: Properties, i: nat)
    requires ValidProperties(types, p)
  {
    forall k :: i <= k < |types| && Present(p.flags, k) ==> EncodableField(types[k], p.fields[k])
  }

  /** `amqp_encode_properties`. */
  method EncodeProperties(protocol: Protocol, classId: nat, p: Properties, buffer: array<byte>, start: nat, end: nat)
    returns (status: Status, next: nat)
    requires start <= end <= buffer.Length && p.flags < FLAGS_END
    requires classId in protocol.classes ==> ValidProperties(protocol.classes[classId], p)
    modifies buffer
    ensures OnlyWithin(old(buffer[..]), buffer[..], start, end)
    ensures status == Success <==>
              && classId in protocol.classes
              && EncodableFrom(protocol.classes[classId], p, 0)
              && start + |SerializeProperties(protocol.classes[classId], p)| <= end
    ensures status == Success ==>
              var text := SerializeProperties(protocol.classes[classId], p);
              next == start + |text| && buffer[..] == Splice(old(buffer[..]), start, text)
  {
    hide Written, Splice, OnlyWithin, SerializeFlags, PresentLayout, EncodableFrom;
    ghost var before := buffer[..];
    status, next := EncodeFlags(p.flags, buffer, start, end);
    ghost var mid := buffer[..];
    if status != Success {
      WrittenWithin(before, mid, start, end, SerializeFlags(p.flags), false);
      return;
    }
    WrittenWithin(before, mid, start, end, SerializeFlags(p.flags), true);
    if classId !in protocol.classes {
      return UnknownClass, next;
    }
    var types := protocol.classes[classId];
    status, next := EncodePresent(types, p, buffer, next, end);
    ghost var ok := status == Success;
    WrittenThen(before, mid, buffer[..], start, end, SerializeFlags(p.flags), PresentLayout(types, p, 0), ok);
    WrittenWithin(before, buffer[..], start, end, SerializeProperties(types, p), ok);
  }

  lemma WrittenWithin(before: seq<byte>, after: seq<byte>, offset: nat, end: nat, text: seq<byte>, ok: bool)
    requires Written(before, after, offset, end, text, ok)
    ensures OnlyWithin(before, after, offset, end)
    ensures ok && offset + |text| <= end <= |before| ==> after == Splice(before, offset, text)
  {
  }

  lemma FlagsStep(flags: nat, remainder: nat)
    requires remainder == Remainder(flags)
    ensures SerializeFlags(flags)[..2] == BigEndian(2, FlagWord(flags, remainder != 0))
    ensures SerializeFlags(flags)[2..] == if remainder != 0 then SerializeFlags(remainder) else []
    ensures SerializeFlags(flags) == SerializeFlags(flags)[..2] + SerializeFlags(flags)[2..]
  {
  }

  /** The do-while loop over the flag words. */
  method EncodeFlags(flags: nat, buffer: array<byte>, start: nat, end: nat) returns (status: Status, next: nat)
    requires start <= end <= buffer.Length
    modifies buffer
    ensures status == if start + |SerializeFlags(flags)| <= end then Success else BadData
    ensures status == Success ==> next == start + |SerializeFlags(flags)|
    ensures Written(old(buffer[..]), buffer[..], start, end, SerializeFlags(flags), status == Success)
  {
    hide Written, BigEndian, FlagWord, Remainder, SerializeFlags;
    var remaining, more := flags, true;
    next := start;
    status := Success;
    ghost var whole := SerializeFlags(flags);
    ghost var done: seq<byte>, rest := [], whole;
    WrittenNothing(buffer[..], start, end);
    while more
      invariant next == start + |done| <= end
      invariant whole == done + rest
      invariant if more then rest == SerializeFlags(remaining) else rest == []
      invariant Written(old(buffer[..]), buffer[..], start, end, done, true)
      decreases more, remaining
    {
      ghost var before := buffer[..];
      var remainder := Remainder(remaining);
      var partial := FlagWord(remaining, remainder != 0);
      FlagsStep(remaining, remainder);
      ghost var word := BigEndian(2, partial);
      var ok;
      ok, next := EncodeInteger(buffer, end, next, 2, partial);
      WrittenThen(old(buffer[..]), before, buffer[..], start, end, done, word, ok);
      Regroup(done, word, rest[2..]);
      done, rest := done + word, rest[2..];
      if !ok {
        WrittenThenFailed(old(buffer[..]), buffer[..], start, end, done, whole, false);
        return BadData, next;
      }
      remaining, more := remainder, remainder != 0;
    }
    assert whole == done;
  }

  /** The generated part: each present field in turn. */
  method EncodePresent(types: seq<FieldType>, p: Properties, buffer: array<byte>, start: nat, end: nat)
    returns (status: Status, next: nat)
    requires start <= end <= buffer.Length && ValidProperties(types, p)
    modifies buffer
    ensures status == Success <==> EncodableFrom(types, p, 0) && start + |PresentLayout(types, p, 0)| <= end
    ensures status == Success ==> next == start + |PresentLayout(types, p, 0)|
    ensures Written(old(buffer[..]), buffer[..], start, end, PresentLayout(types, p, 0), status == Success)
  {
    hide Written, FieldLayout, FieldStatus, EncodableField;
    next := start;
    ghost var done: seq<byte> := [];
    WrittenNothing(buffer[..], start, end);
    for i := 0 to |types|
      invariant next == start + |done| <= end
      invariant PresentLayout(types, p, 0) == done + PresentLayout(types, p, i)
      invariant EncodableFrom(types, p, 0) <==> EncodableFrom(types, p, i)
      invariant Written(old(buffer[..]), buffer[..], start, end, done, true)
    {
      if Present(p.flags, i) {
        ghost var before, text := buffer[..], FieldLayout(types[i], p.fields[i]);
        Regroup(done, text, PresentLayout(types, p, i + 1));
        FieldFits(types[i], p.fields[i], end - next);
        status, next := EncodeField(types[i], p.fields[i], buffer, next, end);
        WrittenThen(old(buffer[..]), before, buffer[..], start, end, done, text, status == Success);
        if status != Success {
          WrittenThenFailed(old(buffer[..]), buffer[..], start, end, done + text, PresentLayout(types, p, 0), false);
          return;
        }
        done := done + text;
      } else {
        assert [] + PresentLayout(types, p, i + 1) == PresentLayout(types, p, i + 1);
      }
    }
    assert done + [] == done;
    status := Success;
  }

  /** The emitted encoder of one field that is not a bit. */
  method EncodeField(t: FieldType, a: Argument, buffer: array<byte>, start: nat, end: nat)
    returns (status: Status, next: nat)
    requires end <= buffer.Length && Matches(t, a) && !t.Bit?
    modifies buffer
    ensures status == FieldStatus(t, a, end - start)
    ensures status == Success ==> next == start + |FieldLayout(t, a)| <= end
    ensures Written(old(buffer[..]), buffer[..], start, end, FieldLayout(t, a), status == Success)
  {
    hide Written;
    match t {
      case Simple(octets) =>
        var ok;
        ok, next := EncodeInteger(buffer, end, start, octets, a.n);
        status := if ok then Success else BadData;
      case String(lengthOctets) =>
        if Pow256(lengthOctets) <= |a.data| {
          WrittenNothing(buffer[..], start, end);
          WrittenThenFailed(buffer[..], buffer[..], start, end, [], FieldLayout(t, a), true);
          return BadData, start;
        }
        var ok;
        ok, next := EncodePair(buffer, end, start, lengthOctets, |a.data|, a.data);
        status := if ok then Success else BadData;
      case TableField =>
        status, next := EncodeTable(buffer, end, a.entries, start);
    }
  }

  // ------------------------------------------------------------------
  // Reading properties back
  // ------------------------------------------------------------------

  function DecodePresent(types: seq<FieldType>, flags: nat, buffer: seq<byte>, offset: nat,
                         i: nat): Result<map<nat, Argument>, Status>
    requires i <= |types|
    decreases |types| - i
  {
    if i == |types| then Ok(map[])
    else if Present(flags, i) then
      var (a, next) :- GetArgument(types[i], buffer, offset);
      var rest :- DecodePresent(types, flags, buffer, next, i + 1);
      Ok(rest[i := a])
    else
      DecodePresent(types, flags, buffer, offset, i + 1)
  }

  /** `amqp_decode_properties`; octets behind the last field are ignored. */
  function DecodeProperties(protocol: Protocol, classId: nat, buffer: seq<byte>): Result<Properties, Status> {
    var (flags, offset) :- DecodeFlags(buffer, 0, 0);
    if classId !in protocol.classes then Err(UnknownClass) else
      var fields :- DecodePresent(protocol.classes[classId], flags, buffer, offset, 0);
      Ok(Properties(flags, fields))
  }

  /** The same flags as far as fields are concerned, and the same value in every present field. */
  predicate SamePresentProperties(types: seq<FieldType>, p: Properties, q: Properties) {
    forall i :: 0 <= i < |types| ==>
      && (Present(q.flags, i) <==> Present(p.flags, i))
      && (Present(p.flags, i) ==> i in p.fields && i in q.fields && q.fields[i] == p.fields[i])
  }

  predicate FaithfulProperties(types: seq<FieldType>, p: Properties)
    requires ValidProperties(types, p)
  {
    forall i :: 0 <= i < |types| && Present(p.flags, i) ==> Faithful(types[i], p.fields[i])
  }

  lemma {:induction false} PresentRoundTrip(types: seq<FieldType>, p: Properties, flags: nat, buffer: seq<byte>,
                                            offset: nat, i: nat)
    requires ValidProperties(types, p) && FaithfulProperties(types, p) && i <= |types|
    requires forall k :: 0 <= k < |types| ==> (Present(flags, k) <==> Present(p.flags, k))
    requires Holds(buffer, offset, PresentLayout(types, p, i))
    ensures var r := DecodePresent(types, flags, buffer, offset, i);
            && r.Ok?
            && forall k :: i <= k < |types| && Present(p.flags, k) ==> k in r.value && r.value[k] == p.fields[k]
    decreases |types| - i
  {
    hide GetArgument, FieldLayout, Faithful, Present, Holds;
    if i < |types| {
      if Present(p.flags, i) {
        var text := FieldLayout(types[i], p.fields[i]);
        HoldsConcat(buffer, offset, text, PresentLayout(types, p, i + 1));
        ArgumentRoundTrip(types[i], p.fields[i], buffer, offset);
        PresentRoundTrip(types, p, flags, buffer, offset + |text|, i + 1);
      } else {
        assert [] + PresentLayout(types, p, i + 1) == PresentLayout(types, p, i + 1);
        PresentRoundTrip(types, p, flags, buffer, offset, i + 1);
      }
    }
  }

  lemma FlagBitIsPresence(flags: nat, i: nat)
    requires flags < FLAGS_END
    ensures Present(CarriedFlags(flags), i) <==> Present(flags, i)
  {
    PropertyFlagsAreDistinct(i, i);
    FlagsCarryPresence(flags, FlagBit(i));
  }

  /** Decoding encoded properties gives back the same present properties, whatever follows them. */
  lemma PropertiesRoundTrip(protocol: Protocol, classId: nat, p: Properties, buffer: seq<byte>)
    requires classId in protocol.classes
    requires ValidProperties(protocol.classes[classId], p) && FaithfulProperties(protocol.classes[classId], p)
    requires Holds(buffer, 0, SerializeProperties(protocol.classes[classId], p))
    ensures var r := DecodeProperties(protocol, classId, buffer);
            && r.Ok?
            && r.value.flags == CarriedFlags(p.flags)
            && SamePresentProperties(protocol.classes[classId], p, r.value)
  {
    hide Holds, Present, Faithful, CarriedFlags, SerializeFlags, DecodeFlags, DecodePresent, PresentLayout;
    var types := protocol.classes[classId];
    HoldsConcat(buffer, 0, SerializeFlags(p.flags), PresentLayout(types, p, 0));
    FlagsRoundTrip(p.flags, buffer, 0);
    forall i | 0 <= i < |types| ensures Present(CarriedFlags(p.flags), i) <==> Present(p.flags, i) {
      FlagBitIsPresence(p.flags, i);
    }
    PresentRoundTrip(types, p, CarriedFlags(p.flags), buffer, |SerializeFlags(p.flags)|, 0);
  }

  // ------------------------------------------------------------------
  // Methods
  // ------------------------------------------------------------------

  /** `amqp_encode_method`: the emitted encoder, run on the buffer. */
  method EncodeMethod(protocol: Protocol, id: nat, args: seq<Argument>, buffer: array<byte>, start: nat, end: nat)
    returns (status: Status, next: nat)
    requires start <= end <= buffer.Length
    requires id in protocol.methods ==> WellTyped(protocol.methods[id], args)
    modifies buffer
    ensures OnlyWithin(old(buffer[..]), buffer[..], start, end)
    ensures status == Success <==>
              && id in protocol.methods
              && Encodable(protocol.methods[id], args)
              && start + |Layout(protocol.methods[id], args)| <= end
    ensures id !in protocol.methods ==> status == UnknownMethod
    ensures status == Success ==>
              var text := Layout(protocol.methods[id], args);
              next == start + |text| && buffer[..] == Splice(old(buffer[..]), start, text)
  {
    hide Written;
    if id !in protocol.methods {
      return UnknownMethod, start;
    }
    ghost var text := Layout(protocol.methods[id], args);
    var code := GenerateEncoder(protocol.methods[id]);
    assert args[0..] == args;
    EmittedFieldsMatch(protocol.methods[id], args, 0, 0);
    ghost var out;
    status, next, out := RunStatements(code, args, buffer, start, end);
    GeneratedEncoderCorrect(protocol.methods[id], args, [], end - start);
    assert [] + text == text;
    WrittenWithin(old(buffer[..]), buffer[..], start, end, out, status == Success);
  }

  method RunStatements(code: seq<EncodeStatement>, args: seq<Argument>, buffer: array<byte>, start: nat, end: nat)
    returns (status: Status, next: nat, ghost out: seq<byte>)
    requires start <= end <= buffer.Length
    requires forall k :: 0 <= k < |code| ==> StatementMatches(code[k], args)
    modifies buffer
    ensures var r := RunEncoder(code, args, EncodeState([], 0), end - start);
            && (status == Success <==> r.Ok?)
            && (r.Ok? ==> out == r.value.out && next == start + |out| <= end)
    ensures Written(old(buffer[..]), buffer[..], start, end, out, status == Success)
  {
    hide Written, EncodeStep, StatementMatches;
    next := start;
    var bits, i := 0, 0;
    ghost var st := EncodeState([], 0);
    ghost var room := end - start;
    WrittenNothing(buffer[..], start, end);
    while i < |code|
      invariant 0 <= i <= |code|
      invariant next == start + |st.out| <= end && bits == st.bits
      invariant RunEncoder(code, args, EncodeState([], 0), room) == RunEncoder(code[i..], args, st, room)
      invariant Written(old(buffer[..]), buffer[..], start, end, st.out, true)
    {
      ghost var before := buffer[..];
      assert code[i..][1..] == code[i + 1..];
      ghost var delta;
      status, next, bits, delta := ExecuteStatement(code[i], args, buffer, next, end, bits, st, room);
      WrittenThen(old(buffer[..]), before, buffer[..], start, end, st.out, delta, status == Success);
      if status != Success {
        out := st.out + delta;
        return;
      }
      st, i := EncodeStep(code[i], args, st, room).value, i + 1;
    }
    out := st.out;
    status := Success;
  }

  predicate StatementMatches(s: EncodeStatement, args: seq<Argument>) {
    s.PutField? ==> s.field < |args| && Matches(s.t, args[s.field]) && !s.t.Bit?
  }

  lemma {:induction false} EmittedFieldsMatch(types: seq<FieldType>, args: seq<Argument>, field: nat, bit: nat)
    requires field <= |args| && WellTyped(types, args[field..])
    ensures forall k :: 0 <= k < |EncoderFor(types, field, bit)| ==>
              StatementMatches(EncoderFor(types, field, bit)[k], args)
    decreases |types|
  {
    if types != [] {
      assert args[field..][1..] == args[field + 1..] && args[field..][0] == args[field];
      assert Matches(types[0], args[field]);
      assert forall k :: 0 <= k < |types[1..]| ==>
               types[1..][k] == types[k + 1] && args[field + 1..][k] == args[field..][k + 1];
      EmittedFieldsMatch(types[1..], args, field + 1, NextBit(types[0], bit));
      var head := EncodeEmission(types[0], field, bit);
      assert forall k :: 0 <= k < |head| ==> StatementMatches(head[k], args);
    }
  }

  /** One emitted statement: the C variables `offset` and `bit_buffer` move as the model state does. */
  method ExecuteStatement(s: EncodeStatement, args: seq<Argument>, buffer: array<byte>, offset: nat, end: nat,
                          bits: nat, ghost st: EncodeState, ghost room: nat)
    returns (status: Status, next: nat, bits': nat, ghost delta: seq<byte>)
    requires StatementMatches(s, args) && bits == st.bits
    requires offset <= end <= buffer.Length && end - offset == room - |st.out|
    modifies buffer
    ensures var step := EncodeStep(s, args, st, room);
            && (status == Success <==> step.Ok?)
            && (step.Ok? ==> step.value == EncodeState(st.out + delta, bits') && next == offset + |delta| <= end)
    ensures Written(old(buffer[..]), buffer[..], offset, end, delta, status == Success)
  {
    hide Written;
    status, next, bits', delta := Success, offset, bits, [];
    assert st.out + [] == st.out;
    match s {
      case ClearBits =>
        bits' := 0;
        WrittenNothing(buffer[..], offset, end);
      case OrBit(field, bit) =>
        if field < |args| && FlagOf(args[field]) {
          bits' := Bits.SetBit(bits, bit);
        }
        WrittenNothing(buffer[..], offset, end);
      case PutBits =>
        var ok;
        delta := BigEndian(1, bits);
        ok, next := EncodeInteger(buffer, end, offset, 1, bits);
        status := if ok then Success else BadData;
      case PutField(field, t) =>
        delta := FieldLayout(t, args[field]);
        status, next := EncodeField(t, args[field], buffer, offset, end);
    }
  }

  /** The arguments a decoded struct holds, in field order. */
  function Collected(fields: map<nat, Argument>, count: nat): (args: seq<Argument>)
    ensures |args| == count
  {
    seq(count, i requires 0 <= i < count => if i in fields then fields[i] else Flag(false))
  }

  /** `amqp_decode_method`: the emitted decoder, run from the start of the buffer. */
  function DecodeMethod(protocol: Protocol, id: nat, buffer: seq<byte>): Result<seq<Argument>, Status> {
    if id !in protocol.methods then Err(UnknownMethod) else
      var st :- RunDecoder(DecoderFor(protocol.methods[id], 0, 0), buffer, DecodeState(0, 0, map[]));
      Ok(Collected(st.fields, |protocol.methods[id]|))
  }

  lemma MethodRoundTrip(protocol: Protocol, id: nat, args: seq<Argument>, buffer: seq<byte>)
    requires id in protocol.methods && AllFaithful(protocol.methods[id], args)
    requires Holds(buffer, 0, Layout(protocol.methods[id], args))
    ensures DecodeMethod(protocol, id, buffer) == Ok(args)
  {
    var types := protocol.methods[id];
    LayoutIsDecoded(types, args, buffer, 0);
    var fields := RunDecoder(DecoderFor(types, 0, 0), buffer, DecodeState(0, 0, map[])).value.fields;
    assert Collected(fields, |types|) == args;
  }
}
