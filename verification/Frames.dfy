/**
 AMQP frames (section 4.2.3 of the AMQP 0-9-1 specification): how
 amqp_connection.c writes one and what it makes of one it received.
 */
module Frames {
  import opened Wrappers
  import opened Octets
  import opened Status
  import opened FieldTable
  import opened Generator
  import opened Framing

  const HEADER_SIZE := 7
  const FOOTER_SIZE := 1
  const FRAME_METHOD: byte := 1
  const FRAME_HEADER: byte := 2
  const FRAME_BODY: byte := 3
  const FRAME_HEARTBEAT: byte := 8
  const FRAME_END: byte := 206
  const PSEUDOFRAME_PROTOCOL_HEADER: byte := 'A' as int

  datatype Frame =
    | MethodFrame(channel: nat, id: nat, args: seq<Argument>)
    | HeaderFrame(channel: nat, classId: nat, bodySize: nat, properties: Properties)
    | BodyFrame(channel: nat, fragment: seq<byte>)
    | HeartbeatFrame(channel: nat)
    | ProtocolHeader(channel: nat, transportHigh: byte, transportLow: byte, major: byte, minor: byte)

  function FrameType(f: Frame): byte {
    match f
    case MethodFrame(_, _, _) => FRAME_METHOD
    case HeaderFrame(_, _, _, _) => FRAME_HEADER
    case BodyFrame(_, _) => FRAME_BODY
    case HeartbeatFrame(_) => FRAME_HEARTBEAT
    case ProtocolHeader(_, _, _, _, _) => PSEUDOFRAME_PROTOCOL_HEADER
  }

  /** The struct members hold values of their C types, and the caller filled in what the frame needs. */
  predicate ValidFrame(protocol: Protocol, f: Frame) {
    && f.channel < 0x1_0000
    && match f
       case MethodFrame(_, id, args) =>
         id < TWO_TO_32 && (id in protocol.methods ==> WellTyped(protocol.methods[id], args))
       case HeaderFrame(_, classId, bodySize, p) =>
         && classId < 0x1_0000 && bodySize < 0x1_0000_0000_0000_0000 && p.flags < FLAGS_END
         && (classId in protocol.classes ==> ValidProperties(protocol.classes[classId], p))
       case _ => true
  }

  /** Frames whose method or class is in the protocol. */
  predicate KnownFrame(protocol: Protocol, f: Frame) {
    match f
    case MethodFrame(_, id, _) => id in protocol.methods
    case HeaderFrame(_, classId, _, _) => classId in protocol.classes
    case ProtocolHeader(_, _, _, _, _) => false
    case _ => true
  }

  function FramePayload(protocol: Protocol, f: Frame): seq<byte>
    requires ValidFrame(protocol, f) && KnownFrame(protocol, f)
  {
    match f
    case MethodFrame(_, id, args) => BigEndian(4, id) + Layout(protocol.methods[id], args)
    case HeaderFrame(_, classId, bodySize, p) =>
      BigEndian(2, classId) + BigEndian(2, 0) + BigEndian(8, bodySize)
      + SerializeProperties(protocol.classes[classId], p)
    case BodyFrame(_, fragment) => fragment
    case HeartbeatFrame(_) => []
  }

  /** Type, channel and size in front, the end octet behind. */
  function Envelope(frameType: byte, channel: nat, payload: seq<byte>): (s: seq<byte>)
    ensures |s| == HEADER_SIZE + |payload| + FOOTER_SIZE
  {
    [frameType] + BigEndian(2, channel) + BigEndian(4, |payload|) + payload + [FRAME_END]
  }

  function WireFrame(protocol: Protocol, f: Frame): seq<byte>
    requires ValidFrame(protocol, f) && KnownFrame(protocol, f)
  {
    Envelope(FrameType(f), f.channel, FramePayload(protocol, f))
  }

  /** Every string and table of the frame can be encoded. */
  predicate EncodableFrame(protocol: Protocol, f: Frame)
    requires ValidFrame(protocol, f)
  {
    match f
    case MethodFrame(_, id, args) => id in protocol.methods && Encodable(protocol.methods[id], args)
    case HeaderFrame(_, classId, _, p) => classId in protocol.classes && EncodableFrom(protocol.classes[classId], p, 0)
    case ProtocolHeader(_, _, _, _, _) => false
    case _ => true
  }

  /** What the caller of `amqp_frame_to_bytes` has to provide: its own subtractions and copies are unchecked. */
  predicate RoomFor(f: Frame, length: nat) {
    match f
    case MethodFrame(_, _, _) => length >= HEADER_SIZE + 4 + FOOTER_SIZE
    case HeaderFrame(_, _, _, _) => length >= HEADER_SIZE + 12 + FOOTER_SIZE
    case BodyFrame(_, fragment) => length >= HEADER_SIZE + |fragment| + FOOTER_SIZE
    case _ => length >= HEADER_SIZE + FOOTER_SIZE
  }

  /** `amqp_frame_to_bytes` */
  method FrameToBytes(protocol: Protocol, f: Frame, buffer: array<byte>) returns (status: Status, length: nat)
    requires ValidFrame(protocol, f) && RoomFor(f, buffer.Length)
    modifies buffer
    ensures status == Success <==> EncodableFrame(protocol, f) && |WireFrame(protocol, f)| <= buffer.Length
    ensures f.ProtocolHeader? ==> status == InvalidParameter
    ensures f.MethodFrame? && f.id !in protocol.methods ==> status == UnknownMethod
    ensures status == Success ==>
              && length == |WireFrame(protocol, f)|
              && buffer[..] == Splice(old(buffer[..]), 0, WireFrame(protocol, f))
  {
    hide Written, Splice, BigEndian, OnlyWithin, FramePayload, RoomFor;
    RoomForEnvelope(f, buffer.Length);
    ghost var before := buffer[..];
    WriteAt(buffer, 0, [FrameType(f)]);
    ghost var typed := buffer[..];
    WriteAt(buffer, 1, BigEndian(2, f.channel));
    ghost var fronted := buffer[..];
    status, length := PayloadToBytes(protocol, f, buffer);
    if status != Success {
      return;
    }
    ghost var filled := buffer[..];
    WriteAt(buffer, 3, BigEndian(4, length));
    ghost var sized := buffer[..];
    WriteAt(buffer, HEADER_SIZE + length, [FRAME_END]);
    EnvelopeAssembled(before, typed, fronted, filled, sized, buffer[..], FrameType(f), f.channel,
                      FramePayload(protocol, f));
    length := length + HEADER_SIZE + FOOTER_SIZE;
  }

  lemma RoomForEnvelope(f: Frame, length: nat)
    requires RoomFor(f, length)
    ensures length >= HEADER_SIZE + FOOTER_SIZE
  {
  }

  /** The five writes, the size going into its hole behind the payload, make up the envelope. */
  lemma EnvelopeAssembled(before: seq<byte>, typed: seq<byte>, fronted: seq<byte>, filled: seq<byte>, sized: seq<byte>,
                          after: seq<byte>, frameType: byte, channel: nat, payload: seq<byte>)
    requires HEADER_SIZE + |payload| + FOOTER_SIZE <= |before|
    requires Written(before, typed, 0, |before|, [frameType], true)
    requires Written(typed, fronted, 1, |before|, BigEndian(2, channel), true)
    requires Written(fronted, filled, HEADER_SIZE, |before|, payload, true)
    requires Written(filled, sized, 3, |before|, BigEndian(4, |payload|), true)
    requires Written(sized, after, HEADER_SIZE + |payload|, |before|, [FRAME_END], true)
    ensures after == Splice(before, 0, Envelope(frameType, channel, payload))
  {
    hide Written, Splice, BigEndian;
    var end, front, body := |before|, [frameType] + BigEndian(2, channel), BigEndian(4, |payload|) + payload;
    WrittenThen(before, typed, fronted, 0, end, [frameType], BigEndian(2, channel), true);
    WrittenAroundHole(fronted, filled, sized, 3, end, BigEndian(4, |payload|), payload, true);
    WrittenThen(before, fronted, sized, 0, end, front, body, true);
    WrittenThen(before, sized, after, 0, end, front + body, [FRAME_END], true);
    assert front + body + [FRAME_END] == Envelope(frameType, channel, payload);
    WrittenWithin(before, after, 0, end, Envelope(frameType, channel, payload), true);
  }

  method WriteAt(buffer: array<byte>, at: nat, t: seq<byte>)
    requires at + |t| <= buffer.Length
    modifies buffer
    ensures Written(old(buffer[..]), buffer[..], at, buffer.Length, t, true)
  {
    WriteOctets(buffer, at, t);
  }

  /** The switch of `amqp_frame_to_bytes`; `length` is the payload's. */
  method PayloadToBytes(protocol: Protocol, f: Frame, buffer: array<byte>) returns (status: Status, length: nat)
    requires ValidFrame(protocol, f) && RoomFor(f, buffer.Length)
    modifies buffer
    ensures status == Success <==>
              EncodableFrame(protocol, f) && HEADER_SIZE + |FramePayload(protocol, f)| + FOOTER_SIZE <= buffer.Length
    ensures f.ProtocolHeader? ==> status == InvalidParameter
    ensures f.MethodFrame? && f.id !in protocol.methods ==> status == UnknownMethod
    ensures status == Success ==>
              && length == |FramePayload(protocol, f)|
              && Written(old(buffer[..]), buffer[..], HEADER_SIZE, buffer.Length, FramePayload(protocol, f), true)
  {
    hide Written, BigEndian, Layout, EncodableFrom, Encodable, SerializeProperties;
    status, length := Success, 0;
    match f {
      case BodyFrame(_, fragment) =>
        WriteAt(buffer, HEADER_SIZE, fragment);
        length := |fragment|;
      case MethodFrame(_, id, args) =>
        status, length := MethodToBytes(protocol, id, args, buffer);
      case HeaderFrame(_, classId, bodySize, p) =>
        status, length := ContentHeaderToBytes(protocol, classId, bodySize, p, buffer);
      case HeartbeatFrame(_) =>
        WrittenNothing(buffer[..], HEADER_SIZE, buffer.Length);
      case ProtocolHeader(_, _, _, _, _) =>
        status := InvalidParameter;
    }
  }

  method MethodToBytes(protocol: Protocol, id: nat, args: seq<Argument>, buffer: array<byte>)
    returns (status: Status, length: nat)
    requires buffer.Length >= HEADER_SIZE + 4 + FOOTER_SIZE
    requires id in protocol.methods ==> WellTyped(protocol.methods[id], args)
    modifies buffer
    ensures status == Success <==>
              && id in protocol.methods && Encodable(protocol.methods[id], args)
              && HEADER_SIZE + 4 + |Layout(protocol.methods[id], args)| + FOOTER_SIZE <= buffer.Length
    ensures id !in protocol.methods ==> status == UnknownMethod
    ensures status == Success ==>
              var payload := BigEndian(4, id) + Layout(protocol.methods[id], args);
              && length == |payload|
              && Written(old(buffer[..]), buffer[..], HEADER_SIZE, buffer.Length, payload, true)
  {
    hide Written, Splice, BigEndian, OnlyWithin, Layout, Encodable;
    ghost var before := buffer[..];
    WriteAt(buffer, HEADER_SIZE, BigEndian(4, id));
    ghost var mid := buffer[..];
    var next;
    status, next := EncodeMethod(protocol, id, args, buffer, HEADER_SIZE + 4, buffer.Length - FOOTER_SIZE);
    if status == Success {
      ghost var text := Layout(protocol.methods[id], args);
      SplicedIsWritten(mid, buffer[..], HEADER_SIZE + 4, buffer.Length, text);
      WrittenThen(before, mid, buffer[..], HEADER_SIZE, buffer.Length, BigEndian(4, id), text, true);
      length := next - HEADER_SIZE;
    } else {
      length := 0;
    }
  }

  method ContentHeaderToBytes(protocol: Protocol, classId: nat, bodySize: nat, p: Properties, buffer: array<byte>)
    returns (status: Status, length: nat)
    requires buffer.Length >= HEADER_SIZE + 12 + FOOTER_SIZE && p.flags < FLAGS_END
    requires classId in protocol.classes ==> ValidProperties(protocol.classes[classId], p)
    modifies buffer
    ensures status == Success <==>
              && classId in protocol.classes && EncodableFrom(protocol.classes[classId], p, 0)
              && HEADER_SIZE + 12 + |SerializeProperties(protocol.classes[classId], p)| + FOOTER_SIZE <= buffer.Length
    ensures status == Success ==>
              var payload := BigEndian(2, classId) + BigEndian(2, 0) + BigEndian(8, bodySize)
                             + SerializeProperties(protocol.classes[classId], p);
              && length == |payload|
              && Written(old(buffer[..]), buffer[..], HEADER_SIZE, buffer.Length, payload, true)
  {
    hide Written, Splice, BigEndian, OnlyWithin, SerializeProperties, EncodableFrom;
    ghost var before := buffer[..];
    ghost var front := BigEndian(2, classId) + BigEndian(2, 0) + BigEndian(8, bodySize);
    WriteContentFront(buffer, classId, bodySize);
    ghost var mid := buffer[..];
    var next;
    status, next := EncodeProperties(protocol, classId, p, buffer, HEADER_SIZE + 12, buffer.Length - FOOTER_SIZE);
    if status == Success {
      ghost var text := SerializeProperties(protocol.classes[classId], p);
      SplicedIsWritten(mid, buffer[..], HEADER_SIZE + 12, buffer.Length, text);
      WrittenThen(before, mid, buffer[..], HEADER_SIZE, buffer.Length, front, text, true);
      length := next - HEADER_SIZE;
    } else {
      length := 0;
    }
  }

  /** Class, the unused weight, and the body size. */
  method WriteContentFront(buffer: array<byte>, classId: nat, bodySize: nat)
    requires buffer.Length >= HEADER_SIZE + 12
    modifies buffer
    ensures Written(old(buffer[..]), buffer[..], HEADER_SIZE, buffer.Length,
                    BigEndian(2, classId) + BigEndian(2, 0) + BigEndian(8, bodySize), true)
  {
    hide Written, BigEndian;
    ghost var before, end := buffer[..], buffer.Length;
    WriteAt(buffer, HEADER_SIZE, BigEndian(2, classId));
    ghost var one := buffer[..];
    WriteAt(buffer, HEADER_SIZE + 2, BigEndian(2, 0));
    WrittenThen(before, one, buffer[..], HEADER_SIZE, end, BigEndian(2, classId), BigEndian(2, 0), true);
    ghost var two := buffer[..];
    WriteAt(buffer, HEADER_SIZE + 4, BigEndian(8, bodySize));
    WrittenThen(before, two, buffer[..], HEADER_SIZE, end, BigEndian(2, classId) + BigEndian(2, 0),
                BigEndian(8, bodySize), true);
  }

  lemma SplicedIsWritten(before: seq<byte>, after: seq<byte>, offset: nat, end: nat, text: seq<byte>)
    requires offset + |text| <= end <= |before| && after == Splice(before, offset, text)
    ensures Written(before, after, offset, end, text, true)
  {
  }

  // ------------------------------------------------------------------
  // Receiving
  // ------------------------------------------------------------------

  datatype Received = Complete(frame: Frame) | Ignored | Rejected(status: Status)

  function Payload(raw: seq<byte>): seq<byte>
    requires |raw| >= HEADER_SIZE + FOOTER_SIZE
  {
    raw[HEADER_SIZE..|raw| - FOOTER_SIZE]
  }

  /**
   The body part of `amqp_handle_input`, for all octets of one frame. The code
   subtracts 4 or 12 from the payload size unchecked; for shorter payloads C
   gives the result no meaning.
   */
  function DecodeFrame(protocol: Protocol, raw: seq<byte>): Received
    requires |raw| >= HEADER_SIZE + FOOTER_SIZE
  {
    var channel := Natural(raw[1..3]);
    var payload := Payload(raw);
    if raw[|raw| - 1] != FRAME_END then Rejected(BadData)
    else if raw[0] == FRAME_METHOD then
      if |payload| < 4 then Rejected(Undefined) else
        var id := Natural(payload[..4]);
        match DecodeMethod(protocol, id, payload[4..])
        case Ok(args) => Complete(MethodFrame(channel, id, args))
        case Err(e) => Rejected(e)
    else if raw[0] == FRAME_HEADER then
      if |payload| < 12 then Rejected(Undefined) else
        var classId := Natural(payload[..2]);
        match DecodeProperties(protocol, classId, payload[12..])
        case Ok(p) => Complete(HeaderFrame(channel, classId, Natural(payload[4..12]), p))
        case Err(e) => Rejected(e)
    else if raw[0] == FRAME_BODY then Complete(BodyFrame(channel, payload))
    else if raw[0] == FRAME_HEARTBEAT then Complete(HeartbeatFrame(channel))
    else Ignored
  }

  /** All that the frame carries survives the wire. */
  predicate FaithfulFrame(protocol: Protocol, f: Frame)
    requires ValidFrame(protocol, f) && KnownFrame(protocol, f)
  {
    match f
    case MethodFrame(_, id, args) => AllFaithful(protocol.methods[id], args)
    case HeaderFrame(_, classId, _, p) => FaithfulProperties(protocol.classes[classId], p)
    case _ => true
  }

  /** Equal, up to property flags that only say whether another flag word follows. */
  predicate SameFrame(protocol: Protocol, f: Frame, g: Frame) {
    if f.HeaderFrame? && g.HeaderFrame? then
      && g.channel == f.channel && g.classId == f.classId && g.bodySize == f.bodySize
      && f.classId in protocol.classes
      && SamePresentProperties(protocol.classes[f.classId], f.properties, g.properties)
    else f == g
  }

  /** The octets around a payload. */
  lemma EnvelopeOctets(frameType: byte, channel: nat, payload: seq<byte>)
    requires channel < 0x1_0000 && |payload| < TWO_TO_32
    ensures var n := |payload|;
            Envelope(frameType, channel, payload)
            == [frameType, channel / 256, channel % 256, n / 0x100_0000, n / 0x1_0000 % 256, n / 256 % 256, n % 256]
               + payload + [206]
  {
    hide BigEndian;
    TwoOctets(channel);
    FourOctets(|payload|);
  }

  /** What each kind of frame looks like on the wire, octet by octet. */
  lemma WireOctets(protocol: Protocol, f: Frame)
    requires ValidFrame(protocol, f) && KnownFrame(protocol, f) && |FramePayload(protocol, f)| < TWO_TO_32
    ensures var payload := FramePayload(protocol, f);
            && WireFrame(protocol, f)
               == [if f.MethodFrame? then 1 else if f.HeaderFrame? then 2 else if f.BodyFrame? then 3 else 8,
                   f.channel / 256, f.channel % 256,
                   |payload| / 0x100_0000, |payload| / 0x1_0000 % 256, |payload| / 256 % 256, |payload| % 256]
                  + payload + [206]
            && (f.BodyFrame? ==> payload == f.fragment) && (f.HeartbeatFrame? ==> payload == [])
            && (f.MethodFrame? ==>
                  && payload[..4] == [f.id / 0x100_0000, f.id / 0x1_0000 % 256, f.id / 256 % 256, f.id % 256]
                  && payload[4..] == Layout(protocol.methods[f.id], f.args))
            && (f.HeaderFrame? ==>
                  && payload[..4] == [f.classId / 256, f.classId % 256, 0, 0]
                  && (forall i :: 4 <= i < 12 ==> payload[i] == f.bodySize / Pow256(11 - i) % 256)
                  && payload[12..] == SerializeProperties(protocol.classes[f.classId], f.properties))
  {
    hide BigEndian, Envelope, Layout, SerializeProperties;
    EnvelopeOctets(FrameType(f), f.channel, FramePayload(protocol, f));
    if f.MethodFrame? {
      FourOctets(f.id);
    } else if f.HeaderFrame? {
      HeaderOctets(f.classId, f.bodySize, SerializeProperties(protocol.classes[f.classId], f.properties));
    }
  }

  lemma HeaderOctets(classId: nat, bodySize: nat, properties: seq<byte>)
    requires classId < 0x1_0000
    ensures var payload := BigEndian(2, classId) + BigEndian(2, 0) + BigEndian(8, bodySize) + properties;
            && payload[..4] == [classId / 256, classId % 256, 0, 0] && payload[12..] == properties
            && forall i :: 4 <= i < 12 ==> payload[i] == bodySize / Pow256(11 - i) % 256
  {
    hide BigEndian;
    TwoOctets(classId);
    TwoOctets(0);
    var payload := BigEndian(2, classId) + BigEndian(2, 0) + BigEndian(8, bodySize) + properties;
    forall i | 4 <= i < 12 ensures payload[i] == bodySize / Pow256(11 - i) % 256 {
      BigEndianOctet(8, bodySize, i - 4);
    }
  }

  lemma EnvelopeParts(frameType: byte, channel: nat, payload: seq<byte>)
    requires channel < 0x1_0000 && |payload| < TWO_TO_32
    ensures var raw := Envelope(frameType, channel, payload);
            && raw[0] == frameType && Natural(raw[1..3]) == channel && Natural(raw[3..7]) == |payload|
            && Payload(raw) == payload && raw[|raw| - 1] == FRAME_END
  {
    var raw := Envelope(frameType, channel, payload);
    Pow256Values();
    assert raw[1..3] == BigEndian(2, channel) && raw[3..7] == BigEndian(4, |payload|);
    NaturalOfBigEndian(2, channel);
    NaturalOfBigEndian(4, |payload|);
  }

  /** A frame written by `amqp_frame_to_bytes` is received as the same frame. */
  lemma FrameRoundTrip(protocol: Protocol, f: Frame)
    requires ValidFrame(protocol, f) && KnownFrame(protocol, f) && FaithfulFrame(protocol, f)
    requires |FramePayload(protocol, f)| < TWO_TO_32
    ensures var r := DecodeFrame(protocol, WireFrame(protocol, f));
            r.Complete? && SameFrame(protocol, f, r.frame)
  {
    hide Envelope, BigEndian, Payload;
    EnvelopeParts(FrameType(f), f.channel, FramePayload(protocol, f));
    if f.MethodFrame? {
      MethodPayloadRoundTrip(protocol, f);
    } else if f.HeaderFrame? {
      HeaderPayloadRoundTrip(protocol, f);
    }
  }

  lemma MethodPayloadRoundTrip(protocol: Protocol, f: Frame)
    requires f.MethodFrame? && ValidFrame(protocol, f) && KnownFrame(protocol, f) && FaithfulFrame(protocol, f)
    ensures var payload := FramePayload(protocol, f);
            && Natural(payload[..4]) == f.id
            && DecodeMethod(protocol, f.id, payload[4..]) == Ok(f.args)
  {
    hide BigEndian, DecodeMethod, Layout;
    var payload, text := FramePayload(protocol, f), Layout(protocol.methods[f.id], f.args);
    assert payload[..4] == BigEndian(4, f.id) && payload[4..] == text;
    Pow256Values();
    NaturalOfBigEndian(4, f.id);
    MethodRoundTrip(protocol, f.id, f.args, text);
  }

  lemma HeaderPayloadRoundTrip(protocol: Protocol, f: Frame)
    requires f.HeaderFrame? && ValidFrame(protocol, f) && KnownFrame(protocol, f) && FaithfulFrame(protocol, f)
    ensures var payload := FramePayload(protocol, f);
            var r := DecodeProperties(protocol, f.classId, payload[12..]);
            && |payload| >= 12 && Natural(payload[..2]) == f.classId && Natural(payload[4..12]) == f.bodySize
            && r.Ok? && SamePresentProperties(protocol.classes[f.classId], f.properties, r.value)
  {
    hide BigEndian, DecodeProperties, SerializeProperties, SamePresentProperties;
    var payload, text := FramePayload(protocol, f), SerializeProperties(protocol.classes[f.classId], f.properties);
    assert payload[..2] == BigEndian(2, f.classId) && payload[4..12] == BigEndian(8, f.bodySize)
           && payload[12..] == text;
    Pow256Values();
    NaturalOfBigEndian(2, f.classId);
    NaturalOfBigEndian(8, f.bodySize);
    PropertiesRoundTrip(protocol, f.classId, f.properties, text);
  }
}
