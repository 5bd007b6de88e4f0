/**
 codegen.py: the statements it emits to encode and decode the arguments of a
 method, what those statements do, and why the emitted decoder inverts the
 emitted encoder for every list of field types.
 */
module Generator {
  import opened Wrappers
  import opened Octets
  import opened Status
  import opened Bits
  import opened FieldTable
  import opened TableCodec

  /** The classes `SimpleType`, `StrType`, `BitType` and `TableType`; widths in octets. */
  datatype FieldType = Simple(octets: nat) | String(lengthOctets: nat) | Bit | TableField

  datatype Argument = Integer(n: nat) | Text(data: seq<byte>) | Flag(b: bool) | Headers(entries: seq<Entry>)

  /** The argument has the C type the generator declares for the field. */
  predicate Matches(t: FieldType, a: Argument) {
    match t
    case Simple(octets) => a.Integer? && a.n < Pow256(octets)
    case String(_) => a.Text?
    case Bit => a.Flag?
    case TableField => a.Headers?
  }

  predicate WellTyped(types: seq<FieldType>, args: seq<Argument>) {
    |types| == |args| && forall i :: 0 <= i < |types| ==> Matches(types[i], args[i])
  }

  function FlagOf(a: Argument): bool {
    a.Flag? && a.b
  }

  function FlagsOf(args: seq<Argument>): (flags: seq<bool>)
    ensures |flags| == |args|
  {
    seq(|args|, i requires 0 <= i < |args| => FlagOf(args[i]))
  }

  // ------------------------------------------------------------------
  // The wire layout the AMQP specification asks for (section 4.2.5.2):
  // consecutive bits are packed into octets, eight at a time
  // ------------------------------------------------------------------

  function LeadingBits(types: seq<FieldType>): (n: nat)
    ensures n <= |types|
    ensures forall i :: 0 <= i < n ==> types[i].Bit?
  {
    if types == [] || !types[0].Bit? then 0 else 1 + LeadingBits(types[1..])
  }

  function Min(a: nat, b: nat): nat {
    if a < b then a else b
  }

  function FieldLayout(t: FieldType, a: Argument): seq<byte> {
    match (t, a)
    case (Simple(octets), Integer(n)) => BigEndian(octets, n)
    case (String(lengthOctets), Text(data)) => BigEndian(lengthOctets, |data|) + data
    case (TableField, Headers(entries)) => SerializeTable(entries)
    case _ => []
  }

  function Layout(types: seq<FieldType>, args: seq<Argument>): seq<byte>
    requires |types| == |args|
    decreases |types|
  {
    if types == [] then []
    else if types[0].Bit? then
      var n := Min(8, LeadingBits(types));
      BigEndian(1, OfFlags(FlagsOf(args[..n]))) + Layout(types[n..], args[n..])
    else
      FieldLayout(types[0], args[0]) + Layout(types[1..], args[1..])
  }

  // ------------------------------------------------------------------
  // The emitted statements
  // ------------------------------------------------------------------

  datatype EncodeStatement =
    | ClearBits                            // bit_buffer = 0;
    | OrBit(field: nat, bit: nat)          // if (m->field) bit_buffer |= (1 << bit);
    | PutBits                              // amqp_encode_8(encoded, &offset, bit_buffer)
    | PutField(field: nat, t: FieldType)   // the encoder of a field that is not a bit

  datatype DecodeStatement =
    | GetBits                              // amqp_decode_8(encoded, &offset, &bit_buffer)
    | TakeBit(field: nat, bit: nat)        // m->field = (bit_buffer & (1 << bit)) ? 1 : 0;
    | GetField(field: nat, t: FieldType)   // the decoder of a field that is not a bit

  function Flushed(bit: nat): seq<EncodeStatement> {
    if bit != 0 then [PutBits] else []
  }

  /** Bits pending after a field of type `t`. */
  function NextBit(t: FieldType, bit: nat): nat {
    if t.Bit? && bit + 1 < 8 then bit + 1 else 0
  }

  /** What is emitted to encode one field when `bit` bits are pending. */
  function EncodeEmission(t: FieldType, field: nat, bit: nat): seq<EncodeStatement> {
    if t.Bit? then
      (if bit == 0 then [ClearBits] else []) + [OrBit(field, bit)] + (if bit + 1 >= 8 then [PutBits] else [])
    else
      Flushed(bit) + [PutField(field, t)]
  }

  /** The encoder's statements for `types`, numbered from `field`, when `bit` bits are pending. */
  function EncoderFor(types: seq<FieldType>, field: nat, bit: nat): seq<EncodeStatement> {
    if types == [] then Flushed(bit)
    else EncodeEmission(types[0], field, bit) + EncoderFor(types[1..], field + 1, NextBit(types[0], bit))
  }

  function DecodeEmission(t: FieldType, field: nat, bit: nat): seq<DecodeStatement> {
    if t.Bit? then (if bit == 0 then [GetBits] else []) + [TakeBit(field, bit)] else [GetField(field, t)]
  }

  function DecoderFor(types: seq<FieldType>, field: nat, bit: nat): seq<DecodeStatement> {
    if types == [] then []
    else DecodeEmission(types[0], field, bit) + DecoderFor(types[1..], field + 1, NextBit(types[0], bit))
  }

  /** The class `BitEncoder`. */
  class BitEncoder {
    var bit: nat
    var code: seq<EncodeStatement>

    constructor ()
      ensures bit == 0 && code == []
    {
      bit, code := 0, [];
    }

    method Flush()
      modifies this
      ensures bit == 0 && code == old(code) + Flushed(old(bit))
    {
      if bit != 0 {
        code := code + [PutBits];
        bit := 0;
      }
    }

    method Emit(t: FieldType, field: nat)
      requires !t.Bit?
      modifies this
      ensures bit == 0 && code == old(code) + EncodeEmission(t, field, old(bit))
    {
      Flush();
      code := code + [PutField(field, t)];
    }

    method EncodeBit(field: nat)
      requires bit < 8
      modifies this
      ensures bit == NextBit(Bit, old(bit)) && code == old(code) + EncodeEmission(Bit, field, old(bit))
    {
      if bit == 0 {
        code := code + [ClearBits];
      }
      code := code + [OrBit(field, bit)];
      bit := bit + 1;
      if bit == 8 {
        Flush();
      }
    }
  }

  /** `genEncodeMethodFields` */
  method GenerateEncoder(types: seq<FieldType>) returns (code: seq<EncodeStatement>)
    ensures code == EncoderFor(types, 0, 0)
  {
    var emitter := new BitEncoder();
    for i := 0 to |types|
      invariant emitter.bit < 8
      invariant EncoderFor(types, 0, 0) == emitter.code + EncoderFor(types[i..], i, emitter.bit)
    {
      assert types[i..][1..] == types[i + 1..];
      Regroup(emitter.code, EncodeEmission(types[i], i, emitter.bit),
              EncoderFor(types[i + 1..], i + 1, NextBit(types[i], emitter.bit)));
      if types[i].Bit? {
        emitter.EncodeBit(i);
      } else {
        emitter.Emit(types[i], i);
      }
    }
    emitter.Flush();
    code := emitter.code;
  }

  /** The class `BitDecoder`. */
  class BitDecoder {
    var bit: nat
    var code: seq<DecodeStatement>

    constructor ()
      ensures bit == 0 && code == []
    {
      bit, code := 0, [];
    }

    method Emit(t: FieldType, field: nat)
      requires !t.Bit?
      modifies this
      ensures bit == 0 && code == old(code) + DecodeEmission(t, field, old(bit))
    {
      bit := 0;
      code := code + [GetField(field, t)];
    }

    method DecodeBit(field: nat)
      requires bit < 8
      modifies this
      ensures bit == NextBit(Bit, old(bit)) && code == old(code) + DecodeEmission(Bit, field, old(bit))
    {
      if bit == 0 {
        code := code + [GetBits];
      }
      code := code + [TakeBit(field, bit)];
      bit := bit + 1;
      if bit == 8 {
        bit := 0;
      }
    }
  }

  /** `genDecodeMethodFields` */
  method GenerateDecoder(types: seq<FieldType>) returns (code: seq<DecodeStatement>)
    ensures code == DecoderFor(types, 0, 0)
  {
    var emitter := new BitDecoder();
    for i := 0 to |types|
      invariant emitter.bit < 8
      invariant DecoderFor(types, 0, 0) == emitter.code + DecoderFor(types[i..], i, emitter.bit)
    {
      assert types[i..][1..] == types[i + 1..];
      Regroup(emitter.code, DecodeEmission(types[i], i, emitter.bit),
              DecoderFor(types[i + 1..], i + 1, NextBit(types[i], emitter.bit)));
      if types[i].Bit? {
        emitter.DecodeBit(i);
      } else {
        emitter.Emit(types[i], i);
      }
    }
    code := emitter.code;
  }

  // ------------------------------------------------------------------
  // What the statements do
  // ------------------------------------------------------------------

  /** The output so far and the bit buffer. */
  datatype EncodeState = EncodeState(out: seq<byte>, bits: nat)

  /** The status of encoding a field that is not a bit into `room` octets. */
  function FieldStatus(t: FieldType, a: Argument, room: int): Status {
    match (t, a)
    case (String(lengthOctets), Text(data)) =>
      if Pow256(lengthOctets) <= |data| || room < lengthOctets + |data| then BadData else Success
    case (TableField, Headers(entries)) => TableStatus(entries, room)
    case _ => if room < |FieldLayout(t, a)| then BadData else Success
  }

  function EncodeStep(s: EncodeStatement, args: seq<Argument>, st: EncodeState, room: nat): Result<EncodeState, Status>
  {
    match s
    case ClearBits => Ok(st.(bits := 0))
    case OrBit(field, bit) =>
      if field < |args| && FlagOf(args[field]) then Ok(st.(bits := Bits.SetBit(st.bits, bit))) else Ok(st)
    case PutBits =>
      if |st.out| + 1 > room then Err(BadData) else Ok(st.(out := st.out + BigEndian(1, st.bits)))
    case PutField(field, t) =>
      if field >= |args| then Err(Undefined) else
        var status := FieldStatus(t, args[field], room - |st.out|);
        if status != Success then Err(status) else Ok(st.(out := st.out + FieldLayout(t, args[field])))
  }

  function RunEncoder(code: seq<EncodeStatement>, args: seq<Argument>, st: EncodeState,
                      room: nat): Result<EncodeState, Status>
  {
    if code == [] then Ok(st) else
      var next :- EncodeStep(code[0], args, st, room);
      RunEncoder(code[1..], args, next, room)
  }

  lemma {:induction false} RunEncoderConcat(a: seq<EncodeStatement>, b: seq<EncodeStatement>, args: seq<Argument>,
                                            st: EncodeState, room: nat)
    ensures RunEncoder(a + b, args, st, room)
         == match RunEncoder(a, args, st, room) case Ok(mid) => RunEncoder(b, args, mid, room) case Err(e) => Err(e)
  {
    if a == [] {
      assert a + b == b;
    } else {
      assert (a + b)[1..] == a[1..] + b;
      var next := EncodeStep(a[0], args, st, room);
      if next.Ok? {
        RunEncoderConcat(a[1..], b, args, next.value, room);
      }
    }
  }

  /** The position, the bit buffer and the fields assigned so far. */
  datatype DecodeState = DecodeState(offset: nat, bits: nat, fields: map<nat, Argument>)

  function GetArgument(t: FieldType, buffer: seq<byte>, offset: nat): (r: Result<(Argument, nat), Status>)
    ensures r.Ok? && offset <= |buffer| ==> offset <= r.value.1 <= |buffer|
  {
    match t
    case Simple(octets) =>
      var (n, next) :- DecodeInteger(buffer, offset, octets);
      Ok((Integer(n), next))
    case String(lengthOctets) =>
      var (length, at) :- DecodeInteger(buffer, offset, lengthOctets);
      var (data, next) :- DecodeBytes(buffer, at, length);
      Ok((Text(data), next))
    case TableField =>
      var (entries, next) :- DecodeTable(buffer, offset);
      Ok((Headers(entries), next))
    case Bit => Err(Undefined)
  }

  function DecodeStep(s: DecodeStatement, buffer: seq<byte>, st: DecodeState): Result<DecodeState, Status> {
    match s
    case GetBits =>
      var (b, next) :- DecodeOctet(buffer, st.offset);
      Ok(st.(offset := next, bits := b))
    case TakeBit(field, bit) => Ok(st.(fields := st.fields[field := Flag(BitAt(st.bits, bit))]))
    case GetField(field, t) =>
      var (a, next) :- GetArgument(t, buffer, st.offset);
      Ok(st.(offset := next, fields := st.fields[field := a]))
  }

  function RunDecoder(code: seq<DecodeStatement>, buffer: seq<byte>, st: DecodeState): Result<DecodeState, Status> {
    if code == [] then Ok(st) else
      var next :- DecodeStep(code[0], buffer, st);
      RunDecoder(code[1..], buffer, next)
  }

  lemma {:induction false} RunDecoderConcat(a: seq<DecodeStatement>, b: seq<DecodeStatement>, buffer: seq<byte>,
                                            st: DecodeState)
    ensures RunDecoder(a + b, buffer, st)
         == match RunDecoder(a, buffer, st) case Ok(mid) => RunDecoder(b, buffer, mid) case Err(e) => Err(e)
  {
    if a == [] {
      assert a + b == b;
    } else {
      assert (a + b)[1..] == a[1..] + b;
      var next := DecodeStep(a[0], buffer, st);
      if next.Ok? {
        RunDecoderConcat(a[1..], b, buffer, next.value);
      }
    }
  }

  // ------------------------------------------------------------------
  // The emitted encoder writes the specified layout
  // ------------------------------------------------------------------

  /** Strings fit their length field and tables have known kinds only. */
  predicate EncodableField(t: FieldType, a: Argument) {
    && (t.String? && a.Text? ==> |a.data| < Pow256(t.lengthOctets))
    && (a.Headers? ==> forall i :: 0 <= i < |a.entries| ==> KnownKindsEntry(a.entries[i]))
  }

  predicate Encodable(types: seq<FieldType>, args: seq<Argument>)
    requires |types| == |args|
  {
    forall i :: 0 <= i < |types| ==> EncodableField(types[i], args[i])
  }

  function BitTypes(n: nat): (types: seq<FieldType>)
    ensures |types| == n
  {
    seq(n, i => Bit)
  }

  function AsArguments(flags: seq<bool>): (args: seq<Argument>)
    ensures |args| == |flags|
  {
    seq(|flags|, i requires 0 <= i < |flags| => Flag(flags[i]))
  }

  lemma {:induction false} LeadingPending(n: nat, types: seq<FieldType>)
    ensures LeadingBits(BitTypes(n) + types) == n + LeadingBits(types)
  {
    var all := BitTypes(n) + types;
    if n == 0 {
      assert all == types;
    } else {
      assert all[1..] == BitTypes(n - 1) + types;
      LeadingPending(n - 1, types);
    }
  }

  /** Pending bits in front of a field that is not a bit, or of the end, form one octet. */
  lemma LayoutFlush(pending: seq<bool>, types: seq<FieldType>, args: seq<Argument>)
    requires 0 < |pending| <= 8 && |types| == |args|
    requires |pending| == 8 || types == [] || !types[0].Bit?
    ensures Layout(BitTypes(|pending|) + types, AsArguments(pending) + args)
         == BigEndian(1, OfFlags(pending)) + Layout(types, args)
  {
    var n := |pending|;
    var ts, xs := BitTypes(n) + types, AsArguments(pending) + args;
    LeadingPending(n, types);
    assert ts[n..] == types && xs[n..] == args && xs[..n] == AsArguments(pending);
    assert FlagsOf(xs[..n]) == pending;
  }

  lemma FieldFits(t: FieldType, a: Argument, room: int)
    requires Matches(t, a) && !t.Bit?
    ensures FieldStatus(t, a, room) == Success <==> EncodableField(t, a) && |FieldLayout(t, a)| <= room
  {
    if t.TableField? {
      TableFits(a.entries, room);
    }
  }

  /** `pending` bits are in the bit buffer, the rest of the fields are still to come. */
  ghost predicate EncodesAs(code: seq<EncodeStatement>, all: seq<Argument>, st: EncodeState, room: nat,
                            ok: bool, text: seq<byte>) {
    var r := RunEncoder(code, all, st, room);
    && (r.Ok? <==> ok && |st.out| + |text| <= room)
    && (r.Ok? ==> r.value.out == st.out + text)
  }

  lemma EncodesThen(prefix: seq<EncodeStatement>, code: seq<EncodeStatement>, all: seq<Argument>,
                    st: EncodeState, mid: EncodeState, room: nat, ok: bool, head: seq<byte>, text: seq<byte>)
    requires RunEncoder(prefix, all, st, room) == Ok(mid) && mid.out == st.out + head
    requires EncodesAs(code, all, mid, room, ok, text)
    ensures EncodesAs(prefix + code, all, st, room, ok, head + text)
  {
    Regroup(st.out, head, text);
    RunEncoderConcat(prefix, code, all, st, room);
  }

  lemma EncodesFails(prefix: seq<EncodeStatement>, code: seq<EncodeStatement>, all: seq<Argument>,
                     st: EncodeState, room: nat, ok: bool, text: seq<byte>)
    requires RunEncoder(prefix, all, st, room).Err?
    requires !ok || |st.out| + |text| > room
    ensures EncodesAs(prefix + code, all, st, room, ok, text)
  {
    RunEncoderConcat(prefix, code, all, st, room);
  }

  lemma {:induction false} EncoderWritesLayout(types: seq<FieldType>, all: seq<Argument>, field: nat,
                                               pending: seq<bool>, st: EncodeState, room: nat)
    requires field <= |all| && |types| == |all| - field && WellTyped(types, all[field..])
    requires |pending| < 8 && |st.out| <= room && (pending != [] ==> st.bits == OfFlags(pending))
    ensures EncodesAs(EncoderFor(types, field, |pending|), all, st, room, Encodable(types, all[field..]),
                      Layout(BitTypes(|pending|) + types, AsArguments(pending) + all[field..]))
    decreases |types|
  {
    var args := all[field..];
    if types == [] {
      FlushStep(pending, types, args, all, st, room);
    } else {
      assert args[1..] == all[field + 1..] && args[0] == all[field];
      assert Encodable(types, args) <==> EncodableField(types[0], args[0]) && Encodable(types[1..], args[1..]) by {
        assert forall i :: 1 <= i < |types| ==> types[i] == types[1..][i - 1] && args[i] == args[1..][i - 1];
      }
      if types[0].Bit? {
        BitStep(types, all, field, pending, st, room);
      } else {
        OtherStep(types, all, field, pending, st, room);
      }
    }
  }

  lemma FlushStep(pending: seq<bool>, types: seq<FieldType>, args: seq<Argument>, all: seq<Argument>, st: EncodeState,
                  room: nat)
    requires |pending| < 8 && |st.out| <= room && (pending != [] ==> st.bits == OfFlags(pending))
    requires |types| == |args| && types == []
    ensures EncodesAs(Flushed(|pending|), all, st, room, true,
                      Layout(BitTypes(|pending|) + types, AsArguments(pending) + args))
  {
    if pending == [] {
      assert BitTypes(0) + types == [];
    } else {
      LayoutFlush(pending, types, args);
      assert [PutBits][1..] == [];
    }
  }

  lemma {:induction false} BitStep(types: seq<FieldType>, all: seq<Argument>, field: nat, pending: seq<bool>,
                                   st: EncodeState, room: nat)
    requires field < |all| && |types| == |all| - field && WellTyped(types, all[field..]) && types[0].Bit?
    requires |pending| < 8 && |st.out| <= room && (pending != [] ==> st.bits == OfFlags(pending))
    ensures EncodesAs(EncoderFor(types, field, |pending|), all, st, room, Encodable(types[1..], all[field + 1..]),
                      Layout(BitTypes(|pending|) + types, AsArguments(pending) + all[field..]))
    decreases |types|, 0
  {
    hide EncodesAs, Layout, RunEncoder, EncodeStep, BitTypes, AsArguments, Encodable, BigEndian, OfFlags;
    var rest, args := types[1..], all[field..];
    var pending' := pending + [FlagOf(all[field])];
    var mid := EmissionOfBit(all, field, pending, st, room);
    OneMorePending(types, all, field, pending);
    var emission, code := EncodeEmission(Bit, field, |pending|), EncoderFor(rest, field + 1, NextBit(Bit, |pending|));
    var ok := Encodable(rest, all[field + 1..]);
    if |pending'| < 8 {
      EncoderWritesLayout(rest, all, field + 1, pending', mid, room);
      var text := Layout(BitTypes(|pending'|) + rest, AsArguments(pending') + args[1..]);
      assert [] + text == text;
      EncodesThen(emission, code, all, st, mid, room, ok, [], text);
    } else {
      LayoutFlush(pending', rest, args[1..]);
      var octet, text := BigEndian(1, OfFlags(pending')), Layout(rest, args[1..]);
      if |st.out| + 1 <= room {
        EncoderWritesLayout(rest, all, field + 1, [], mid, room);
        NonePending(rest, args[1..]);
        EncodesThen(emission, code, all, st, mid, room, ok, octet, text);
      } else {
        EncodesFails(emission, code, all, st, room, ok, octet + text);
      }
    }
  }

  /** The next bit joins the pending ones. */
  lemma OneMorePending(types: seq<FieldType>, all: seq<Argument>, field: nat, pending: seq<bool>)
    requires field < |all| && |types| == |all| - field && WellTyped(types, all[field..]) && types[0].Bit?
    ensures all[field..][1..] == all[field + 1..] && WellTyped(types[1..], all[field + 1..])
    ensures var more := pending + [FlagOf(all[field])];
            && BitTypes(|pending|) + types == BitTypes(|more|) + types[1..]
            && AsArguments(pending) + all[field..] == AsArguments(more) + all[field + 1..]
  {
    var args := all[field..];
    assert args[1..] == all[field + 1..] && args[0] == all[field];
    assert Matches(types[0], args[0]);
    assert forall i :: 0 <= i < |types| - 1 ==> types[1..][i] == types[i + 1] && args[1..][i] == args[i + 1];
  }

  lemma NonePending(types: seq<FieldType>, args: seq<Argument>)
    ensures BitTypes(0) + types == types && AsArguments([]) + args == args
  {
  }

  /** Running what is emitted for one bit: it joins the pending ones, and a full octet is written. */
  lemma EmissionOfBit(all: seq<Argument>, field: nat, pending: seq<bool>, st: EncodeState, room: nat)
    returns (mid: EncodeState)
    requires field < |all| && |pending| < 8 && |st.out| <= room && (pending != [] ==> st.bits == OfFlags(pending))
    ensures var pending' := pending + [FlagOf(all[field])];
            var r := RunEncoder(EncodeEmission(Bit, field, |pending|), all, st, room);
            if |pending'| < 8 then r == Ok(mid) && mid == EncodeState(st.out, OfFlags(pending'))
            else if |st.out| + 1 <= room then r == Ok(mid) && mid.out == st.out + BigEndian(1, OfFlags(pending'))
            else r.Err?
  {
    var b := FlagOf(all[field]);
    SetNextBit(pending, b);
    var cleared := if pending == [] then st.(bits := 0) else st;
    var merged := EncodeState(st.out, OfFlags(pending + [b]));
    var last: seq<EncodeStatement> := if |pending| + 1 >= 8 then [PutBits] else [];
    mid := if last == [] then merged else EncodeState(st.out + BigEndian(1, merged.bits), merged.bits);
    var or := [OrBit(field, |pending|)];
    assert or[1..] == [] && [PutBits][1..] == [];
    assert RunEncoder(or, all, cleared, room) == Ok(merged);
    RunEncoderConcat(or, last, all, cleared, room);
    if pending == [] {
      assert [ClearBits][1..] == [];
      RunEncoderConcat([ClearBits], or + last, all, st, room);
      assert [ClearBits] + (or + last) == EncodeEmission(Bit, field, 0);
    } else {
      assert or + last == EncodeEmission(Bit, field, |pending|);
    }
  }

  lemma {:induction false} OtherStep(types: seq<FieldType>, all: seq<Argument>, field: nat, pending: seq<bool>,
                                     st: EncodeState, room: nat)
    requires field < |all| && |types| == |all| - field && WellTyped(types, all[field..]) && !types[0].Bit?
    requires |pending| < 8 && |st.out| <= room && (pending != [] ==> st.bits == OfFlags(pending))
    ensures EncodesAs(EncoderFor(types, field, |pending|), all, st, room,
                      EncodableField(types[0], all[field]) && Encodable(types[1..], all[field + 1..]),
                      Layout(BitTypes(|pending|) + types, AsArguments(pending) + all[field..]))
    decreases |types|, 1
  {
    hide EncodesAs;
    var rest, args := types[1..], all[field..];
    var put, code := [PutField(field, types[0])], EncoderFor(rest, field + 1, 0);
    var ok := EncodableField(types[0], all[field]) && Encodable(rest, all[field + 1..]);
    var text := Layout(types, args);
    Regroup(Flushed(|pending|), put, code);
    if pending == [] {
      assert BitTypes(0) + types == types && AsArguments([]) + args == args;
      assert [] + (put + code) == put + code;
      FieldThenRest(types, all, field, st, room);
    } else {
      LayoutFlush(pending, types, args);
      assert [PutBits][1..] == [];
      var octet := BigEndian(1, OfFlags(pending));
      if |st.out| + 1 > room {
        EncodesFails([PutBits], put + code, all, st, room, ok, octet + text);
      } else {
        var flushed := st.(out := st.out + octet);
        FieldThenRest(types, all, field, flushed, room);
        EncodesThen([PutBits], put + code, all, st, flushed, room, ok, octet, text);
      }
    }
  }

  lemma {:induction false} FieldThenRest(types: seq<FieldType>, all: seq<Argument>, field: nat, st: EncodeState,
                                         room: nat)
    requires field < |all| && |types| == |all| - field && WellTyped(types, all[field..]) && !types[0].Bit?
    requires |st.out| <= room
    ensures EncodesAs([PutField(field, types[0])] + EncoderFor(types[1..], field + 1, 0), all, st, room,
                      EncodableField(types[0], all[field]) && Encodable(types[1..], all[field + 1..]),
                      Layout(types, all[field..]))
    decreases |types|, 0
  {
    hide EncodesAs;
    var t, rest, args := types[0], types[1..], all[field..];
    assert args[1..] == all[field + 1..] && args[0] == all[field];
    assert WellTyped(rest, args[1..]) && Matches(t, args[0]);
    var put, code := [PutField(field, t)], EncoderFor(rest, field + 1, 0);
    assert put[1..] == [];
    var head, text := FieldLayout(t, args[0]), Layout(rest, args[1..]);
    var ok := Encodable(rest, args[1..]);
    FieldFits(t, args[0], room - |st.out|);
    if FieldStatus(t, args[0], room - |st.out|) == Success {
      var mid := st.(out := st.out + head);
      EncoderWritesLayout(rest, all, field + 1, [], mid, room);
      assert BitTypes(0) + rest == rest && AsArguments([]) + args[1..] == args[1..];
      EncodesThen(put, code, all, st, mid, room, ok, head, text);
    } else {
      EncodesFails(put, code, all, st, room, EncodableField(t, args[0]) && ok, head + text);
    }
  }

  /** Run from the start, the emitted encoder succeeds exactly when everything fits, and writes the layout. */
  lemma GeneratedEncoderCorrect(types: seq<FieldType>, args: seq<Argument>, out: seq<byte>, room: nat)
    requires WellTyped(types, args) && |out| <= room
    ensures var r := RunEncoder(EncoderFor(types, 0, 0), args, EncodeState(out, 0), room);
            && (r.Ok? <==> Encodable(types, args) && |out| + |Layout(types, args)| <= room)
            && (r.Ok? ==> r.value.out == out + Layout(types, args))
  {
    assert args[0..] == args;
    EncoderWritesLayout(types, args, 0, [], EncodeState(out, 0), room);
    assert BitTypes(0) + types == types && AsArguments([]) + args == args;
  }

  // ------------------------------------------------------------------
  // The emitted decoder inverts it
  // ------------------------------------------------------------------

  /** The argument survives the wire: it fits its C type and, for a table, its keys fit. */
  predicate Faithful(t: FieldType, a: Argument) {
    && Matches(t, a)
    && (t.String? ==> |a.data| < Pow256(t.lengthOctets))
    && (a.Headers? ==> RepresentableTable(a.entries) && |SerializeTable(a.entries)| < TWO_TO_32)
  }

  predicate AllFaithful(types: seq<FieldType>, args: seq<Argument>) {
    |types| == |args| && forall i :: 0 <= i < |types| ==> Faithful(types[i], args[i])
  }

  lemma ArgumentRoundTrip(t: FieldType, a: Argument, buffer: seq<byte>, offset: nat)
    requires Faithful(t, a) && !t.Bit?
    requires Holds(buffer, offset, FieldLayout(t, a))
    ensures GetArgument(t, buffer, offset) == Ok((a, offset + |FieldLayout(t, a)|))
  {
    match t
    case Simple(octets) => IntegerAt(buffer, offset, octets, a.n);
    case String(lengthOctets) =>
      HoldsConcat(buffer, offset, BigEndian(lengthOctets, |a.data|), a.data);
      IntegerAt(buffer, offset, lengthOctets, |a.data|);
      DataAt(buffer, offset + lengthOctets, a.data);
    case TableField => TableRoundTrip(a.entries, buffer, offset);
  }

  /** `fields` with the arguments stored from `field` on. */
  function Assigned(fields: map<nat, Argument>, field: nat, args: seq<Argument>): map<nat, Argument>
    decreases args
  {
    if args == [] then fields else Assigned(fields[field := args[0]], field + 1, args[1..])
  }

  lemma {:induction false} AssignedAt(fields: map<nat, Argument>, field: nat, args: seq<Argument>, k: nat)
    requires k < field + |args| && (k < field ==> k in fields)
    ensures k in Assigned(fields, field, args)
    ensures Assigned(fields, field, args)[k] == if k < field then fields[k] else args[k - field]
    decreases args
  {
    if args != [] {
      AssignedAt(fields[field := args[0]], field + 1, args[1..], k);
    }
  }

  /** Bits of the current octet that are still to be taken. */
  function Waiting(types: seq<FieldType>, bit: nat): (n: nat)
    requires bit < 8
    ensures n <= LeadingBits(types)
  {
    if bit == 0 then 0 else Min(LeadingBits(types), 8 - bit)
  }

  /** The decoder is at `st`, `bit` bits of the current octet are taken, and `args` are what comes next. */
  predicate ReadyFor(types: seq<FieldType>, args: seq<Argument>, bit: nat, buffer: seq<byte>, st: DecodeState)
    requires |types| == |args|
  {
    && bit < 8
    && var n := Waiting(types, bit);
       && (forall i :: 0 <= i < n ==> BitAt(st.bits, bit + i) == FlagOf(args[i]))
       && Holds(buffer, st.offset, Layout(types[n..], args[n..]))
  }

  /** How far the rest of the text reaches. */
  function End(types: seq<FieldType>, args: seq<Argument>, bit: nat, st: DecodeState): nat
    requires |types| == |args| && bit < 8
  {
    var n := Waiting(types, bit);
    st.offset + |Layout(types[n..], args[n..])|
  }

  /** Taking one field. */
  lemma DecodeOne(types: seq<FieldType>, args: seq<Argument>, field: nat, bit: nat, buffer: seq<byte>, st: DecodeState)
    returns (mid: DecodeState)
    requires types != [] && AllFaithful(types, args) && ReadyFor(types, args, bit, buffer, st)
    ensures RunDecoder(DecodeEmission(types[0], field, bit), buffer, st) == Ok(mid)
    ensures mid.fields == st.fields[field := args[0]]
    ensures ReadyFor(types[1..], args[1..], NextBit(types[0], bit), buffer, mid)
    ensures End(types[1..], args[1..], NextBit(types[0], bit), mid) == End(types, args, bit, st)
  {
    if !types[0].Bit? {
      mid := DecodeOneField(types, args, field, bit, buffer, st);
    } else if bit == 0 {
      var read := FreshOctet(types, args, buffer, st);
      mid := DecodeOneBit(types, args, field, bit, buffer, read);
      assert [GetBits][1..] == [];
      RunDecoderConcat([GetBits], [TakeBit(field, bit)], buffer, st);
    } else {
      assert [] + [TakeBit(field, bit)] == [TakeBit(field, bit)];
      mid := DecodeOneBit(types, args, field, bit, buffer, st);
    }
  }

  lemma DecodeOneField(types: seq<FieldType>, args: seq<Argument>, field: nat, bit: nat, buffer: seq<byte>,
                       st: DecodeState)
    returns (mid: DecodeState)
    requires types != [] && !types[0].Bit? && AllFaithful(types, args) && ReadyFor(types, args, bit, buffer, st)
    ensures RunDecoder(DecodeEmission(types[0], field, bit), buffer, st) == Ok(mid)
    ensures mid.fields == st.fields[field := args[0]]
    ensures ReadyFor(types[1..], args[1..], 0, buffer, mid)
    ensures End(types[1..], args[1..], 0, mid) == End(types, args, bit, st)
  {
    hide Holds;
    var t := types[0];
    assert types[0..] == types && args[0..] == args;
    assert types[1..][0..] == types[1..] && args[1..][0..] == args[1..];
    HoldsConcat(buffer, st.offset, FieldLayout(t, args[0]), Layout(types[1..], args[1..]));
    ArgumentRoundTrip(t, args[0], buffer, st.offset);
    mid := DecodeState(st.offset + |FieldLayout(t, args[0])|, st.bits, st.fields[field := args[0]]);
    assert [GetField(field, t)][1..] == [];
  }

  /** `octet` bits, the first one included, can be taken from the bit buffer. */
  predicate ReadyForBit(types: seq<FieldType>, args: seq<Argument>, bit: nat, buffer: seq<byte>, st: DecodeState)
    requires |types| == |args|
  {
    && bit < 8 && types != [] && types[0].Bit?
    && var octet := Min(LeadingBits(types), 8 - bit);
       && (forall i :: 0 <= i < octet ==> BitAt(st.bits, bit + i) == FlagOf(args[i]))
       && Holds(buffer, st.offset, Layout(types[octet..], args[octet..]))
  }

  lemma DecodeOneBit(types: seq<FieldType>, args: seq<Argument>, field: nat, bit: nat, buffer: seq<byte>,
                     st: DecodeState)
    returns (mid: DecodeState)
    requires AllFaithful(types, args) && ReadyForBit(types, args, bit, buffer, st)
    ensures RunDecoder([TakeBit(field, bit)], buffer, st) == Ok(mid)
    ensures mid.fields == st.fields[field := args[0]]
    ensures ReadyFor(types[1..], args[1..], NextBit(Bit, bit), buffer, mid)
    ensures var octet := Min(LeadingBits(types), 8 - bit);
            End(types[1..], args[1..], NextBit(Bit, bit), mid) == st.offset + |Layout(types[octet..], args[octet..])|
  {
    hide Holds, Layout, BitAt;
    var octet := Min(LeadingBits(types), 8 - bit);
    mid := st.(fields := st.fields[field := args[0]]);
    assert BitAt(st.bits, bit + 0) == FlagOf(args[0]);
    assert Faithful(types[0], args[0]);
    assert [TakeBit(field, bit)][1..] == [];
    assert Waiting(types[1..], NextBit(Bit, bit)) == octet - 1;
    assert types[1..][octet - 1..] == types[octet..] && args[1..][octet - 1..] == args[octet..];
    forall i | 0 <= i < octet - 1 ensures BitAt(mid.bits, bit + 1 + i) == FlagOf(args[1..][i]) {
      assert BitAt(st.bits, bit + (i + 1)) == FlagOf(args[i + 1]);
    }
  }

  /** Reading the next octet of bits. */
  lemma FreshOctet(types: seq<FieldType>, args: seq<Argument>, buffer: seq<byte>, st: DecodeState)
    returns (read: DecodeState)
    requires types != [] && types[0].Bit? && |types| == |args| && ReadyFor(types, args, 0, buffer, st)
    ensures DecodeStep(GetBits, buffer, st) == Ok(read) && read.fields == st.fields
    ensures ReadyForBit(types, args, 0, buffer, read)
    ensures var octet := Min(LeadingBits(types), 8);
            read.offset + |Layout(types[octet..], args[octet..])| == End(types, args, 0, st)
  {
    hide Holds, BitAt;
    var octet := Min(LeadingBits(types), 8);
    assert types[0..] == types && args[0..] == args;
    var flags := FlagsOf(args[..octet]);
    Pow2AtMost8(octet);
    var b: byte := OfFlags(flags);
    assert BigEndian(1, b) == [b];
    HoldsConcat(buffer, st.offset, [b], Layout(types[octet..], args[octet..]));
    OctetAt(buffer, st.offset, b);
    read := st.(offset := st.offset + 1, bits := b);
    forall i | 0 <= i < octet ensures BitAt(read.bits, 0 + i) == FlagOf(args[i]) {
      BitOfFlags(flags, i);
    }
  }

  lemma Pow2AtMost8(n: nat)
    requires n <= 8
    ensures Pow2(n) <= 256
    decreases 8 - n
  {
    Pow2Values();
    if n < 8 {
      Pow2AtMost8(n + 1);
    }
  }

  lemma {:induction false} DecoderReadsLayout(types: seq<FieldType>, args: seq<Argument>, field: nat, bit: nat,
                                              buffer: seq<byte>, st: DecodeState)
    requires AllFaithful(types, args) && ReadyFor(types, args, bit, buffer, st)
    ensures var r := RunDecoder(DecoderFor(types, field, bit), buffer, st);
            && r.Ok?
            && r.value.fields == Assigned(st.fields, field, args)
            && r.value.offset == End(types, args, bit, st)
    decreases |types|
  {
    if types != [] {
      hide ReadyFor, End;
      var mid := DecodeOne(types, args, field, bit, buffer, st);
      DecoderReadsLayout(types[1..], args[1..], field + 1, NextBit(types[0], bit), buffer, mid);
      RunDecoderConcat(DecodeEmission(types[0], field, bit),
                       DecoderFor(types[1..], field + 1, NextBit(types[0], bit)), buffer, st);
    }
  }

  /**
   For every list of field types (more than eight bits in a row, bits split by
   other fields, ...) the emitted decoder, run where the emitted encoder wrote,
   assigns every field its argument and stops right behind.
   */
  lemma GeneratedCodecRoundTrip(types: seq<FieldType>, args: seq<Argument>, buffer: seq<byte>, offset: nat, room: nat)
    requires WellTyped(types, args) && AllFaithful(types, args)
    requires var w := RunEncoder(EncoderFor(types, 0, 0), args, EncodeState([], 0), room);
             w.Ok? && Holds(buffer, offset, w.value.out)
    ensures var w := RunEncoder(EncoderFor(types, 0, 0), args, EncodeState([], 0), room).value.out;
            var r := RunDecoder(DecoderFor(types, 0, 0), buffer, DecodeState(offset, 0, map[]));
            && r.Ok?
            && r.value.offset == offset + |w|
            && forall i :: 0 <= i < |args| ==> i in r.value.fields && r.value.fields[i] == args[i]
  {
    hide Holds, RunDecoder;
    GeneratedEncoderCorrect(types, args, [], room);
    assert [] + Layout(types, args) == Layout(types, args);
    LayoutIsDecoded(types, args, buffer, offset);
  }

  /** The same, starting from the specified layout. */
  lemma LayoutIsDecoded(types: seq<FieldType>, args: seq<Argument>, buffer: seq<byte>, offset: nat)
    requires AllFaithful(types, args) && Holds(buffer, offset, Layout(types, args))
    ensures var r := RunDecoder(DecoderFor(types, 0, 0), buffer, DecodeState(offset, 0, map[]));
            && r.Ok?
            && r.value.offset == offset + |Layout(types, args)|
            && forall i :: 0 <= i < |args| ==> i in r.value.fields && r.value.fields[i] == args[i]
  {
    assert types[0..] == types && args[0..] == args;
    DecoderReadsLayout(types, args, 0, 0, buffer, DecodeState(offset, 0, map[]));
    forall i | 0 <= i < |args|
      ensures i in Assigned(map[], 0, args) && Assigned(map[], 0, args)[i] == args[i]
    {
      AssignedAt(map[], 0, args, i);
    }
  }
}
