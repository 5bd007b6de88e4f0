/**
 The sending side: `amqp_send_frame_inner` of amqp_connection.c, which resends
 after partial writes, and `amqp_basic_publish` of amqp_api.c.
 */
module Publisher {
  import opened Wrappers
  import opened Octets
  import opened Status
  import opened Generator
  import opened Framing
  import opened Frames
  import opened FrameParser
  import opened Messages

  /** How one `amqp_try_send` ends; the network decides. */
  datatype Attempt =
      /** `taken` octets were accepted (all that were left, if fewer). `timedOut`: the caller's own deadline
          passed; otherwise something is received before sending goes on, with `received` as its status. */
    | Sent(taken: nat, timedOut: bool, received: Status)
    | Broken(status: Status)

  /** How sending `left` more octets ends. */
  function Ending(attempts: seq<Attempt>, left: nat): Status
    decreases |attempts|
  {
    if attempts == [] then Timeout
    else match attempts[0]
      case Broken(status) => status
      case Sent(taken, timedOut, received) =>
        if taken >= left then Success
        else if timedOut then Timeout
        else if received == Timeout then HeartbeatTimeout
        else if received != Success then received
        else Ending(attempts[1..], left - taken)
  }

  class Sender {
    const tuning: Tuning
    const outbound: array<byte>
    var attempts: seq<Attempt>
    /** All octets handed to the network so far. */
    var wire: seq<byte>

    ghost predicate Valid()
      reads this
    {
      && outbound.Length == tuning.frameMax
      && (forall a :: a in attempts && a.Broken? ==> a.status != Success)
    }

    constructor (tuning: Tuning, attempts: seq<Attempt>)
      requires forall a :: a in attempts && a.Broken? ==> a.status != Success
      ensures Valid() && this.tuning == tuning && wire == [] && this.attempts == attempts
    {
      this.tuning, this.attempts, this.wire := tuning, attempts, [];
      outbound := new byte[tuning.frameMax];
    }

    /**
     `amqp_send_frame_inner`: on success exactly the frame's octets went out, each once
     and in order, however often the network took only a part; on failure a prefix did.
     */
    method SendFrame(f: Frame) returns (status: Status)
      requires Valid() && ValidFrame(tuning.protocol, f) && RoomFor(f, tuning.frameMax)
      modifies this`attempts, this`wire, outbound
      ensures Valid()
      ensures status == Success ==>
                && EncodableFrame(tuning.protocol, f) && |WireFrame(tuning.protocol, f)| <= tuning.frameMax
                && wire == old(wire) + WireFrame(tuning.protocol, f)
      ensures status != Success ==>
                wire == old(wire) || (EncodableFrame(tuning.protocol, f)
                                      && old(wire) <= wire <= old(wire) + WireFrame(tuning.protocol, f))
    {
      hide WireFrame, EncodableFrame, ValidFrame, RoomFor, Splice, KnownFrame;
      var length;
      status, length := FrameToBytes(tuning.protocol, f, outbound);
      if status != Success {
        return;
      }
      status := Resend(outbound[..length]);
    }

    /** The sending loop: after a partial write, goes on with what is left. */
    method Resend(encoded: seq<byte>) returns (status: Status)
      requires Valid()
      modifies this`attempts, this`wire
      ensures Valid()
      ensures status == Success ==> wire == old(wire) + encoded
      ensures status != Success ==> old(wire) <= wire <= old(wire) + encoded
      ensures status == Ending(old(attempts), |encoded|)
    {
      var offset := 0;
      while true
        invariant Valid() && 0 <= offset <= |encoded|
        invariant wire == old(wire) + encoded[..offset]
        invariant Ending(attempts, |encoded| - offset) == Ending(old(attempts), |encoded|)
        decreases |attempts|
      {
        if attempts == [] {
          return Timeout;
        }
        var attempt := attempts[0];
        attempts := attempts[1..];
        if attempt.Broken? {
          return attempt.status;
        }
        var sent := if attempt.taken < |encoded| - offset then attempt.taken else |encoded| - offset;
        assert encoded[..offset] + encoded[offset..offset + sent] == encoded[..offset + sent];
        wire := wire + encoded[offset..offset + sent];
        offset := offset + sent;
        if offset == |encoded| {
          assert encoded[..offset] == encoded;
          return Success;
        }
        if attempt.timedOut {
          return Timeout;
        }
        if attempt.received == Timeout {
          return HeartbeatTimeout;
        } else if attempt.received != Success {
          return attempt.received;
        }
      }
    }

    /** `amqp_basic_publish` */
    method BasicPublish(channel: nat, exchange: seq<byte>, routingKey: seq<byte>, mandatory: bool, immediate: bool,
                        properties: Option<Properties>, body: seq<byte>)
      returns (status: Status)
      requires Valid() && HasBasic(tuning.protocol) && tuning.frameMax >= HEADER_SIZE + 12 + FOOTER_SIZE
      requires channel < 0x1_0000 && |body| < 0x1_0000_0000_0000_0000
      requires properties.Some? ==> ValidProperties(BASIC_FIELDS, properties.value)
      modifies this`attempts, this`wire, outbound
      ensures Valid()
      ensures status == Success ==>
                var p := if properties.Some? then properties.value else Properties(0, map[]);
                var publish := PublishMethod(channel, exchange, routingKey, mandatory, immediate);
                && PublishValid(tuning.protocol, publish) && ContentValid(tuning.protocol, channel, p, body)
                && EncodableFrame(tuning.protocol, HeaderFrame(channel, BASIC_CLASS, |body|, p))
                && |WireFrame(tuning.protocol, HeaderFrame(channel, BASIC_CLASS, |body|, p))| <= tuning.frameMax
                && wire == old(wire) + WireFrame(tuning.protocol, publish)
                           + WireFrame(tuning.protocol, HeaderFrame(channel, BASIC_CLASS, |body|, p))
                           + BodyWire(tuning.protocol, channel, body, tuning.frameMax - (HEADER_SIZE + FOOTER_SIZE))
      ensures status == Success ==>
                var size := 9 + |exchange| + |routingKey|;
                && |exchange| < 256 && |routingKey| < 256
                && old(wire)
                   + [1, channel / 256, channel % 256, 0, 0, size / 256, size % 256, 0x00, 0x3C, 0x00, 0x28, 0, 0]
                   + [|exchange|] + exchange + [|routingKey|] + routingKey
                   + [(if mandatory then 1 else 0) + (if immediate then 2 else 0), 0xCE] <= wire
    {
      hide WireFrame, EncodableFrame, BodyWire;
      var p := if properties.Some? then properties.value else Properties(0, map[]);
      NoProperties();
      var usable := tuning.frameMax - (HEADER_SIZE + FOOTER_SIZE);
      var publish := PublishMethod(channel, exchange, routingKey, mandatory, immediate);
      PublishIsValid(tuning.protocol, channel, exchange, routingKey, mandatory, immediate);
      status := SendFrame(publish);
      if status != Success {
        return;
      }
      PublishOctets(tuning.protocol, channel, exchange, routingKey, mandatory, immediate);
      ghost var sent := wire;
      status := SendFrame(HeaderFrame(channel, BASIC_CLASS, |body|, p));
      if status != Success {
        return;
      }
      ghost var before := wire;
      var offset := 0;
      assert body[0..] == body;
      assert before + BodyWire(tuning.protocol, channel, body, usable)
          == wire + BodyWire(tuning.protocol, channel, body[offset..], usable);
      while offset < |body|
        invariant Valid() && 0 <= offset <= |body| && sent <= wire
        invariant before + BodyWire(tuning.protocol, channel, body, usable)
               == wire + BodyWire(tuning.protocol, channel, body[offset..], usable)
      {
        var remaining := |body| - offset;
        var length := if remaining >= usable then usable else remaining;
        ghost var start := wire;
        BodyWireStep(tuning.protocol, channel, body, offset, usable, length);
        status := SendFrame(BodyFrame(channel, body[offset..offset + length]));
        if status != Success {
          return;
        }
        Regroup(start, WireFrame(tuning.protocol, BodyFrame(channel, body[offset..offset + length])),
                BodyWire(tuning.protocol, channel, body[offset + length..], usable));
        offset := offset + length;
      }
      BodyWireEnds(tuning.protocol, channel, body[offset..], usable);
      assert sent <= wire;
      status := Success;
    }
  }

  predicate PublishValid(protocol: Protocol, f: Frame) {
    ValidFrame(protocol, f) && KnownFrame(protocol, f)
  }

  predicate ContentValid(protocol: Protocol, channel: nat, p: Properties, body: seq<byte>) {
    channel < 0x1_0000 && PublishValid(protocol, HeaderFrame(channel, BASIC_CLASS, |body|, p))
  }

  lemma PublishIsValid(protocol: Protocol, channel: nat, exchange: seq<byte>, routingKey: seq<byte>, mandatory: bool,
                       immediate: bool)
    requires HasBasic(protocol) && channel < 0x1_0000
    ensures PublishValid(protocol, PublishMethod(channel, exchange, routingKey, mandatory, immediate))
  {
    Pow256Values();
  }

  /** The octets of basic.publish: type, channel, size, method, ticket, two short strings, a bit each, end. */
  lemma PublishOctets(protocol: Protocol, channel: nat, exchange: seq<byte>, routingKey: seq<byte>,
                      mandatory: bool, immediate: bool)
    requires HasBasic(protocol) && channel < 0x1_0000
    requires PublishValid(protocol, PublishMethod(channel, exchange, routingKey, mandatory, immediate))
    requires EncodableFrame(protocol, PublishMethod(channel, exchange, routingKey, mandatory, immediate))
    ensures |exchange| < 256 && |routingKey| < 256
    ensures var size := 9 + |exchange| + |routingKey|;
            WireFrame(protocol, PublishMethod(channel, exchange, routingKey, mandatory, immediate))
            == [1, channel / 256, channel % 256, 0, 0, size / 256, size % 256, 0x00, 0x3C, 0x00, 0x28, 0, 0]
               + [|exchange|] + exchange + [|routingKey|] + routingKey
               + [(if mandatory then 1 else 0) + (if immediate then 2 else 0), 0xCE]
  {
    hide BigEndian, Envelope, Layout, FramePayload, Encodable;
    var f := PublishMethod(channel, exchange, routingKey, mandatory, immediate);
    PublishStrings(exchange, routingKey, f.args);
    var size, bits: byte := 9 + |exchange| + |routingKey|, (if mandatory then 1 else 0) + (if immediate then 2 else 0);
    PublishPayload(protocol, channel, exchange, routingKey, mandatory, immediate);
    var front: seq<byte> := [1, channel / 256, channel % 256, 0, 0, size / 256, size % 256];
    EnvelopeOctets(FRAME_METHOD, channel, FramePayload(protocol, f));
    assert WireFrame(protocol, f) == front + FramePayload(protocol, f) + [0xCE];
    FlattenPublish(front, [|exchange|], exchange, [|routingKey|], routingKey, bits);
    JoinFront(channel / 256, channel % 256, size / 256, size % 256);
  }

  lemma JoinFront(a: byte, b: byte, c: byte, d: byte)
    ensures [1, a, b, 0, 0, c, d] + [0x00, 0x3C, 0x00, 0x28, 0, 0]
         == [1, a, b, 0, 0, c, d, 0x00, 0x3C, 0x00, 0x28, 0, 0]
  {
  }

  lemma PublishPayload(protocol: Protocol, channel: nat, exchange: seq<byte>, routingKey: seq<byte>,
                       mandatory: bool, immediate: bool)
    requires HasBasic(protocol) && channel < 0x1_0000 && |exchange| < 256 && |routingKey| < 256
    requires PublishValid(protocol, PublishMethod(channel, exchange, routingKey, mandatory, immediate))
    ensures FramePayload(protocol, PublishMethod(channel, exchange, routingKey, mandatory, immediate))
         == [0x00, 0x3C, 0x00, 0x28]
            + ([0, 0] + [|exchange|] + exchange + [|routingKey|] + routingKey
               + [(if mandatory then 1 else 0) + (if immediate then 2 else 0)])
  {
    hide BigEndian, Layout;
    PublishLayout(exchange, routingKey, mandatory, immediate);
    FourOctets(BASIC_PUBLISH_METHOD);
  }

  lemma FlattenPublish(front: seq<byte>, n: seq<byte>, e: seq<byte>, m: seq<byte>, k: seq<byte>, bits: byte)
    requires |n| == |m| == 1
    ensures front + ([0x00, 0x3C, 0x00, 0x28] + ([0, 0] + n + e + m + k + [bits])) + [0xCE]
         == (front + [0x00, 0x3C, 0x00, 0x28, 0, 0]) + n + e + m + k + [bits, 0xCE]
  {
    var middle := n + e + m + k;
    assert [0, 0] + n + e + m + k + [bits] == [0, 0] + middle + [bits];
    assert (front + [0x00, 0x3C, 0x00, 0x28, 0, 0]) + n + e + m + k + [bits, 0xCE]
        == (front + [0x00, 0x3C, 0x00, 0x28, 0, 0]) + middle + [bits, 0xCE];
  }

  lemma PublishStrings(exchange: seq<byte>, routingKey: seq<byte>, args: seq<Argument>)
    requires |args| == 5 && args[1] == Text(exchange) && args[2] == Text(routingKey)
    requires Encodable(BASIC_PUBLISH_FIELDS, args)
    ensures |exchange| < 256 && |routingKey| < 256
  {
    Pow256Values();
    assert EncodableField(BASIC_PUBLISH_FIELDS[1], args[1]) && EncodableField(BASIC_PUBLISH_FIELDS[2], args[2]);
  }

  lemma PublishLayout(exchange: seq<byte>, routingKey: seq<byte>, mandatory: bool, immediate: bool)
    requires |exchange| < 256 && |routingKey| < 256
    ensures Layout(BASIC_PUBLISH_FIELDS,
                   [Integer(0), Text(exchange), Text(routingKey), Flag(mandatory), Flag(immediate)])
         == [0, 0] + [|exchange|] + exchange + [|routingKey|] + routingKey
            + [(if mandatory then 1 else 0) + (if immediate then 2 else 0)]
  {
    hide BigEndian, Layout;
    var fields, flags := BASIC_PUBLISH_FIELDS, [Flag(mandatory), Flag(immediate)];
    var args := [Integer(0), Text(exchange), Text(routingKey), Flag(mandatory), Flag(immediate)];
    TwoOctets(0);
    OneOctet(|exchange|);
    OneOctet(|routingKey|);
    BitsLayout(mandatory, immediate);
    FieldFirst(fields, args);
    FieldFirst(fields[1..], args[1..]);
    FieldFirst(fields[1..][1..], args[1..][1..]);
    assert fields[1..][1..][1..] == [Bit, Bit] && args[1..][1..][1..] == flags;
    var bits := Layout([Bit, Bit], flags);
    Regroup([|exchange|] + exchange, [|routingKey|] + routingKey, bits);
  }

  lemma FieldFirst(types: seq<FieldType>, args: seq<Argument>)
    requires |types| == |args| > 0 && !types[0].Bit?
    ensures Layout(types, args) == FieldLayout(types[0], args[0]) + Layout(types[1..], args[1..])
  {
  }

  lemma BitsLayout(a: bool, b: bool)
    ensures Layout([Bit, Bit], [Flag(a), Flag(b)]) == [(if a then 1 else 0) + (if b then 2 else 0)]
  {
    hide BigEndian;
    var types, args := [Bit, Bit], [Flag(a), Flag(b)];
    assert types[1..] == [Bit] && [Bit][1..] == [] && LeadingBits(types) == 2;
    assert args[..2] == args && types[2..] == [] && args[2..] == [];
    assert FlagsOf(args) == [a, b] && [a, b][1..] == [b] && [b][1..] == [];
    assert Bits.OfFlags([b]) == if b then 1 else 0;
    OneOctet(Bits.OfFlags([a, b]));
    assert Layout(types, args) == BigEndian(1, Bits.OfFlags([a, b])) + Layout([], []);
  }

  /** The parser decodes these octets into a method with exactly the caller's arguments. */
  lemma PublishIsDecoded(protocol: Protocol, channel: nat, exchange: seq<byte>, routingKey: seq<byte>,
                         mandatory: bool, immediate: bool, raw: seq<byte>)
    requires HasBasic(protocol) && channel < 0x1_0000 && |exchange| < 256 && |routingKey| < 256
    requires var size := 9 + |exchange| + |routingKey|;
             raw == [1, channel / 256, channel % 256, 0, 0, size / 256, size % 256, 0x00, 0x3C, 0x00, 0x28, 0, 0]
                    + [|exchange|] + exchange + [|routingKey|] + routingKey
                    + [(if mandatory then 1 else 0) + (if immediate then 2 else 0), 0xCE]
    ensures |raw| >= 8
    ensures DecodeFrame(protocol, raw)
         == Complete(MethodFrame(channel, 0x003C_0028,
                                 [Integer(0), Text(exchange), Text(routingKey), Flag(mandatory), Flag(immediate)]))
  {
    hide DecodeFrame, WireFrame, Layout, FramePayload, Encodable, AllFaithful;
    var f := PublishMethod(channel, exchange, routingKey, mandatory, immediate);
    PublishIsValid(protocol, channel, exchange, routingKey, mandatory, immediate);
    PublishIsFaithful(protocol, f);
    PublishOctets(protocol, channel, exchange, routingKey, mandatory, immediate);
    FrameRoundTrip(protocol, f);
  }

  lemma PublishIsFaithful(protocol: Protocol, f: Frame)
    requires HasBasic(protocol) && PublishValid(protocol, f) && f.MethodFrame? && f.id == BASIC_PUBLISH_METHOD
    requires |f.args| == 5 && f.args[0] == Integer(0) && f.args[1].Text? && f.args[2].Text?
    requires |f.args[1].data| < 256 && |f.args[2].data| < 256 && f.args[3].Flag? && f.args[4].Flag?
    ensures EncodableFrame(protocol, f) && FaithfulFrame(protocol, f)
    ensures |FramePayload(protocol, f)| < 0x1_0000_0000
  {
    Pow256Values();
    var args := f.args;
    assert args == [Integer(0), Text(args[1].data), Text(args[2].data), Flag(args[3].b), Flag(args[4].b)];
    PublishLayout(args[1].data, args[2].data, args[3].b, args[4].b);
  }

  lemma NoProperties()
    ensures ValidProperties(BASIC_FIELDS, Properties(0, map[]))
  {
    forall i | 0 <= i < |BASIC_FIELDS| ensures !Present(0, i) && !BASIC_FIELDS[i].Bit? {
      NoBits(FlagBit(i));
    }
  }

  lemma {:induction false} NoBits(k: nat)
    ensures !Bits.BitAt(0, k)
  {
    if k > 0 {
      NoBits(k - 1);
    }
  }

  /** The octets of a body's frames. */
  function BodyWire(protocol: Protocol, channel: nat, body: seq<byte>, size: nat): seq<byte>
    requires size > 0 && channel < 0x1_0000
    decreases |body|
  {
    if body == [] then []
    else if |body| >= size then
      WireFrame(protocol, BodyFrame(channel, body[..size])) + BodyWire(protocol, channel, body[size..], size)
    else WireFrame(protocol, BodyFrame(channel, body))
  }

  lemma BodyWireEnds(protocol: Protocol, channel: nat, body: seq<byte>, size: nat)
    requires size > 0 && channel < 0x1_0000 && body == []
    ensures forall s: seq<byte> :: s + BodyWire(protocol, channel, body, size) == s
  {
  }

  lemma BodyWireStep(protocol: Protocol, channel: nat, body: seq<byte>, offset: nat, size: nat, n: nat)
    requires size > 0 && channel < 0x1_0000 && offset < |body|
    requires n == if |body| - offset >= size then size else |body| - offset
    ensures BodyWire(protocol, channel, body[offset..], size)
         == WireFrame(protocol, BodyFrame(channel, body[offset..offset + n]))
            + BodyWire(protocol, channel, body[offset + n..], size)
  {
    hide WireFrame;
    assert body[offset..][..n] == body[offset..offset + n];
    assert body[offset..][n..] == body[offset + n..];
    if n < size {
      assert body[offset..][..n] == body[offset..];
      assert body[offset + n..] == [];
    }
  }

  /** What is published is exactly the wire form of the content frames. */
  lemma {:induction false} BodyWireIsFrames(protocol: Protocol, channel: nat, body: seq<byte>, size: nat, frameMax: nat)
    requires size > 0 && frameMax == size + HEADER_SIZE + FOOTER_SIZE && channel < 0x1_0000
    requires AllSendable(protocol, BodyFrames(channel, body, size), frameMax)
    ensures BodyWire(protocol, channel, body, size) == WireFrames(protocol, BodyFrames(channel, body, size), frameMax)
    decreases |body|
  {
    hide Sendable, WireFrame;
    if |body| >= size {
      BodyFramesSendable(protocol, channel, body[size..], size, frameMax);
      BodyWireIsFrames(protocol, channel, body[size..], size, frameMax);
      assert BodyFrames(channel, body, size)[1..] == BodyFrames(channel, body[size..], size);
    } else if body != [] {
      assert BodyFrames(channel, body, size)[1..] == [];
    }
  }

  /** Published content is the wire form of the message's frames. */
  lemma PublishedIsContent(protocol: Protocol, channel: nat, p: Properties, body: seq<byte>, frameMax: nat)
    requires HasBasic(protocol) && channel < 0x1_0000 && frameMax > HEADER_SIZE + FOOTER_SIZE
    requires Sendable(protocol, HeaderFrame(channel, BASIC_CLASS, |body|, p), frameMax)
    ensures AllSendable(protocol, ContentFrames(channel, p, body, frameMax), frameMax)
    ensures WireFrames(protocol, ContentFrames(channel, p, body, frameMax), frameMax)
         == WireFrame(protocol, HeaderFrame(channel, BASIC_CLASS, |body|, p))
            + BodyWire(protocol, channel, body, frameMax - (HEADER_SIZE + FOOTER_SIZE))
  {
    hide WireFrame, BodyWire;
    var size := frameMax - (HEADER_SIZE + FOOTER_SIZE);
    ContentSendable(protocol, channel, p, body, frameMax);
    BodyFramesSendable(protocol, channel, body, size, frameMax);
    BodyWireIsFrames(protocol, channel, body, size, frameMax);
    assert ContentFrames(channel, p, body, frameMax)[1..] == BodyFrames(channel, body, size);
  }
}
