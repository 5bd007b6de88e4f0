/**
 Content framing (section 4.2.6 of the AMQP 0-9-1 specification): which frames
 publishing a message emits, what is put together from the frames of a channel,
 and why a message survives the whole way.
 */
module Messages {
  import opened Octets
  import opened Status
  import opened TableCodec
  import opened Generator
  import opened Framing
  import opened Frames
  import opened FrameParser

  const BASIC_CLASS := 60
  const BASIC_PUBLISH_METHOD := 0x003C_0028
  const CHANNEL_CLOSE_METHOD := 0x0014_0028
  const CONNECTION_CLOSE_METHOD := 0x000A_0032

  const SHORT_STRING := String(1)

  /** ticket, exchange, routing-key, mandatory, immediate */
  const BASIC_PUBLISH_FIELDS: seq<FieldType> := [Simple(2), SHORT_STRING, SHORT_STRING, Bit, Bit]

  /** The fields of `amqp_basic_properties_t`, from content-type to cluster-id. */
  const BASIC_FIELDS: seq<FieldType> := [
    SHORT_STRING, SHORT_STRING, TableField, Simple(1), Simple(1), SHORT_STRING, SHORT_STRING,
    SHORT_STRING, SHORT_STRING, Simple(8), SHORT_STRING, SHORT_STRING, SHORT_STRING, SHORT_STRING
  ]

  /** The protocol description has basic.publish and the basic class as AMQP 0-9-1 defines them. */
  predicate HasBasic(protocol: Protocol) {
    && BASIC_PUBLISH_METHOD in protocol.methods && protocol.methods[BASIC_PUBLISH_METHOD] == BASIC_PUBLISH_FIELDS
    && BASIC_CLASS in protocol.classes && protocol.classes[BASIC_CLASS] == BASIC_FIELDS
  }

  /** What is generated for basic.publish is what amqp_framing.c holds. */
  lemma GeneratedBasicPublish()
    ensures EncoderFor(BASIC_PUBLISH_FIELDS, 0, 0)
         == [PutField(0, Simple(2)), PutField(1, SHORT_STRING), PutField(2, SHORT_STRING),
             ClearBits, OrBit(3, 0), OrBit(4, 1), PutBits]
    ensures DecoderFor(BASIC_PUBLISH_FIELDS, 0, 0)
         == [GetField(0, Simple(2)), GetField(1, SHORT_STRING), GetField(2, SHORT_STRING),
             GetBits, TakeBit(3, 0), TakeBit(4, 1)]
  {
    var s3, s2, s1: seq<FieldType> := [SHORT_STRING, Bit, Bit], [Bit, Bit], [Bit];
    assert BASIC_PUBLISH_FIELDS[1..] == [SHORT_STRING] + s3 && ([SHORT_STRING] + s3)[1..] == s3;
    assert s3[1..] == s2 && s2[1..] == s1 && s1[1..] == [];
    assert EncoderFor([], 5, 2) == [PutBits];
    assert EncoderFor(s1, 4, 1) == [OrBit(4, 1), PutBits];
    assert EncoderFor(s2, 3, 0) == [ClearBits, OrBit(3, 0), OrBit(4, 1), PutBits];
    assert EncoderFor(s3, 2, 0) == [PutField(2, SHORT_STRING)] + EncoderFor(s2, 3, 0);
    assert EncoderFor([SHORT_STRING] + s3, 1, 0) == [PutField(1, SHORT_STRING)] + EncoderFor(s3, 2, 0);
    assert DecoderFor(s1, 4, 1) == [TakeBit(4, 1)];
    assert DecoderFor(s2, 3, 0) == [GetBits, TakeBit(3, 0), TakeBit(4, 1)];
    assert DecoderFor(s3, 2, 0) == [GetField(2, SHORT_STRING)] + DecoderFor(s2, 3, 0);
    assert DecoderFor([SHORT_STRING] + s3, 1, 0) == [GetField(1, SHORT_STRING)] + DecoderFor(s3, 2, 0);
  }

  // ------------------------------------------------------------------
  // Publishing
  // ------------------------------------------------------------------

  /** The body, cut into fragments of `size` octets. */
  function BodyFrames(channel: nat, body: seq<byte>, size: nat): seq<Frame>
    requires size > 0
    decreases |body|
  {
    if body == [] then []
    else if |body| >= size then [BodyFrame(channel, body[..size])] + BodyFrames(channel, body[size..], size)
    else [BodyFrame(channel, body)]
  }

  /** The content header and the body frames of a message. */
  function ContentFrames(channel: nat, p: Properties, body: seq<byte>, frameMax: nat): seq<Frame>
    requires frameMax > HEADER_SIZE + FOOTER_SIZE
  {
    [HeaderFrame(channel, BASIC_CLASS, |body|, p)]
    + BodyFrames(channel, body, frameMax - (HEADER_SIZE + FOOTER_SIZE))
  }

  function PublishMethod(channel: nat, exchange: seq<byte>, routingKey: seq<byte>, mandatory: bool,
                         immediate: bool): Frame
  {
    MethodFrame(channel, BASIC_PUBLISH_METHOD,
                [Integer(0), Text(exchange), Text(routingKey), Flag(mandatory), Flag(immediate)])
  }

  /** A frame that can be written into an outbound buffer of `frameMax` octets and read back unchanged. */
  predicate Sendable(protocol: Protocol, f: Frame, frameMax: nat) {
    && ValidFrame(protocol, f) && KnownFrame(protocol, f)
    && EncodableFrame(protocol, f) && FaithfulFrame(protocol, f)
    && |WireFrame(protocol, f)| <= frameMax
  }

  predicate AllSendable(protocol: Protocol, fs: seq<Frame>, frameMax: nat) {
    forall f :: f in fs ==> Sendable(protocol, f, frameMax)
  }

  predicate AllBodies(fs: seq<Frame>, channel: nat) {
    forall f :: f in fs ==> f.BodyFrame? && f.channel == channel
  }

  lemma {:induction false} BodyFramesSendable(protocol: Protocol, channel: nat, body: seq<byte>, size: nat,
                                              frameMax: nat)
    requires size > 0 && frameMax == size + HEADER_SIZE + FOOTER_SIZE && channel < 0x1_0000
    ensures AllBodies(BodyFrames(channel, body, size), channel)
    ensures AllSendable(protocol, BodyFrames(channel, body, size), frameMax)
    decreases |body|
  {
    hide Sendable;
    if |body| >= size {
      BodyFramesSendable(protocol, channel, body[size..], size, frameMax);
      BodyFrameSendable(protocol, channel, body[..size], frameMax);
    } else if body != [] {
      BodyFrameSendable(protocol, channel, body, frameMax);
    }
  }

  lemma BodyFrameSendable(protocol: Protocol, channel: nat, fragment: seq<byte>, frameMax: nat)
    requires channel < 0x1_0000 && HEADER_SIZE + |fragment| + FOOTER_SIZE <= frameMax
    ensures Sendable(protocol, BodyFrame(channel, fragment), frameMax)
  {
    assert FramePayload(protocol, BodyFrame(channel, fragment)) == fragment;
  }

  // ------------------------------------------------------------------
  // Reading
  // ------------------------------------------------------------------

  datatype Reply =
    | Message(properties: Properties, body: seq<byte>)
    | ServerException(id: nat, args: seq<Argument>)
    | LibraryException(status: Status)

  predicate IsClose(f: Frame) {
    f.MethodFrame? && (f.id == CHANNEL_CLOSE_METHOD || f.id == CONNECTION_CLOSE_METHOD)
  }

  /** What `amqp_basic_properties_clone` demands of the headers. */
  predicate CloneableProperties(p: Properties) {
    Present(p.flags, 2) && 2 in p.fields && p.fields[2].Headers? ==> CloneableTable(p.fields[2].entries)
  }

  /** `amqp_read_message` on the frames a channel delivers, when nothing but `ending` comes after them. */
  function Assemble(fs: seq<Frame>, ending: Status): Reply {
    if fs == [] then LibraryException(ending)
    else match fs[0]
      case HeaderFrame(_, classId, bodySize, p) =>
        if classId != BASIC_CLASS then LibraryException(Undefined)
        else if !CloneableProperties(p) then LibraryException(InvalidParameter)
        else AssembleBody(fs[1..], ending, p, bodySize, [])
      case f =>
        if IsClose(f) then ServerException(f.id, f.args) else LibraryException(UnexpectedState)
  }

  function AssembleBody(fs: seq<Frame>, ending: Status, p: Properties, bodySize: nat, read: seq<byte>): Reply
    decreases |fs|
  {
    if |read| >= bodySize then Message(p, read)
    else if fs == [] then LibraryException(ending)
    else match fs[0]
      case BodyFrame(_, fragment) =>
        if |read| + |fragment| > bodySize then LibraryException(BadData)
        else AssembleBody(fs[1..], ending, p, bodySize, read + fragment)
      case f =>
        if IsClose(f) then ServerException(f.id, f.args) else LibraryException(BadData)
  }

  /**
   A method in the middle of a body ends it: channel.close and connection.close are reported, any
   other is bad data.
   */
  lemma MethodEndsBody(fs: seq<Frame>, ending: Status, p: Properties, bodySize: nat, read: seq<byte>)
    requires fs != [] && fs[0].MethodFrame? && |read| < bodySize
    ensures AssembleBody(fs, ending, p, bodySize, read)
         == if fs[0].id == 0x0014_0028 || fs[0].id == 0x000A_0032 then ServerException(fs[0].id, fs[0].args)
            else LibraryException(BadData)
  {
  }

  /** Fragments put together again give the body back. */
  lemma {:induction false} BodyReassembled(channel: nat, body: seq<byte>, size: nat, ending: Status, p: Properties,
                                           read: seq<byte>)
    requires size > 0
    ensures AssembleBody(BodyFrames(channel, body, size), ending, p, |read| + |body|, read) == Message(p, read + body)
    decreases |body|
  {
    if body == [] {
      assert read + body == read;
    } else if |body| >= size {
      var rest := body[size..];
      BodyReassembled(channel, rest, size, ending, p, read + body[..size]);
      assert body == body[..size] + rest;
      assert read + body[..size] + rest == read + body;
      assert BodyFrames(channel, body, size)[1..] == BodyFrames(channel, rest, size);
    } else {
      assert BodyFrames(channel, body, size)[1..] == [];
    }
  }

  /** The frames of one channel, in order. */
  function OnChannel(fs: seq<Frame>, channel: nat): seq<Frame> {
    if fs == [] then []
    else (if fs[0].channel == channel then [fs[0]] else []) + OnChannel(fs[1..], channel)
  }

  // ------------------------------------------------------------------
  // The way across
  // ------------------------------------------------------------------

  function WireFrames(protocol: Protocol, fs: seq<Frame>, frameMax: nat): seq<byte>
    requires AllSendable(protocol, fs, frameMax)
  {
    if fs == [] then [] else
      assert Sendable(protocol, fs[0], frameMax);
      WireFrame(protocol, fs[0]) + WireFrames(protocol, fs[1..], frameMax)
  }

  predicate SameFrames(protocol: Protocol, fs: seq<Frame>, gs: seq<Frame>) {
    |fs| == |gs| && forall i :: 0 <= i < |fs| ==> SameFrame(protocol, fs[i], gs[i])
  }

  lemma ScanOne(t: Tuning, f: Frame, frameMax: nat, rest: seq<byte>)
    requires Sendable(t.protocol, f, frameMax) && frameMax <= t.frameMax && frameMax <= INT32_MAX
    ensures var r := DecodeFrame(t.protocol, WireFrame(t.protocol, f));
            && r.Complete? && SameFrame(t.protocol, f, r.frame)
            && Scan(t, WireFrame(t.protocol, f) + rest) == Preceded([r.frame], Scan(t, rest))
  {
    hide DecodeFrame, SameFrame, BigEndian, FaithfulFrame, FramePayload;
    var raw := WireFrame(t.protocol, f);
    FrameRoundTrip(t.protocol, f);
    EnvelopeParts(FrameType(f), f.channel, FramePayload(t.protocol, f));
    assert (raw + rest)[3..7] == raw[3..7];
    assert (raw + rest)[..|raw|] == raw && (raw + rest)[|raw|..] == rest;
  }

  /** Frames written one after the other are read back one after the other. */
  lemma {:induction false} WireFramesScanned(t: Tuning, fs: seq<Frame>, frameMax: nat)
    requires AllSendable(t.protocol, fs, frameMax)
    requires frameMax <= t.frameMax && frameMax <= INT32_MAX
    ensures var r := Scan(t, WireFrames(t.protocol, fs, frameMax));
            r.end == Between([]) && SameFrames(t.protocol, fs, r.frames)
    decreases |fs|
  {
    hide Sendable, SameFrame;
    if fs != [] {
      ScanOne(t, fs[0], frameMax, WireFrames(t.protocol, fs[1..], frameMax));
      WireFramesScanned(t, fs[1..], frameMax);
    }
  }

  lemma {:induction false} SameOnChannel(protocol: Protocol, fs: seq<Frame>, gs: seq<Frame>, channel: nat)
    requires SameFrames(protocol, fs, gs)
    ensures SameFrames(protocol, OnChannel(fs, channel), OnChannel(gs, channel))
    decreases |fs|
  {
    if fs != [] {
      assert SameFrame(protocol, fs[0], gs[0]);
      assert forall i :: 0 <= i < |fs[1..]| ==> fs[1..][i] == fs[i + 1] && gs[1..][i] == gs[i + 1];
      SameOnChannel(protocol, fs[1..], gs[1..], channel);
    }
  }

  /** The message is put together from any frames that are the same as those sent. */
  lemma ContentAssembled(protocol: Protocol, channel: nat, p: Properties, body: seq<byte>, frameMax: nat,
                         gs: seq<Frame>, ending: Status)
    requires HasBasic(protocol) && frameMax > HEADER_SIZE + FOOTER_SIZE && channel < 0x1_0000
    requires SameFrames(protocol, ContentFrames(channel, p, body, frameMax), gs)
    requires CloneableProperties(p)
    ensures var r := Assemble(gs, ending);
            r.Message? && r.body == body && SamePresentProperties(BASIC_FIELDS, p, r.properties)
  {
    hide SameFrame, Sendable;
    var fs := ContentFrames(channel, p, body, frameMax);
    var q := HeaderKept(protocol, fs[0], gs[0]);
    var size := frameMax - (HEADER_SIZE + FOOTER_SIZE);
    BodyFramesSendable(protocol, channel, body, size, frameMax);
    assert gs[1..] == fs[1..] by {
      forall i | 1 <= i < |fs| ensures gs[i] == fs[i] {
        assert fs[i] in fs[1..];
        BodyKept(protocol, fs[i], gs[i]);
      }
    }
    BodyReassembled(channel, body, size, ending, q, []);
    assert [] + body == body;
  }

  lemma BodyKept(protocol: Protocol, f: Frame, g: Frame)
    requires SameFrame(protocol, f, g) && f.BodyFrame?
    ensures g == f
  {
  }

  lemma HeaderKept(protocol: Protocol, f: Frame, g: Frame) returns (q: Properties)
    requires HasBasic(protocol) && SameFrame(protocol, f, g) && f.HeaderFrame? && f.classId == BASIC_CLASS
    requires CloneableProperties(f.properties)
    ensures g.HeaderFrame? && g.classId == BASIC_CLASS && g.bodySize == f.bodySize && g.properties == q
    ensures SamePresentProperties(BASIC_FIELDS, f.properties, q) && CloneableProperties(q)
  {
    q := g.properties;
    assert BASIC_FIELDS[2] == TableField && (Present(q.flags, 2) <==> Present(f.properties.flags, 2));
  }

  /** The content header was the only frame of a message that may not fit. */
  lemma ContentSendable(protocol: Protocol, channel: nat, p: Properties, body: seq<byte>, frameMax: nat)
    requires HasBasic(protocol) && frameMax > HEADER_SIZE + FOOTER_SIZE && channel < 0x1_0000
    requires Sendable(protocol, HeaderFrame(channel, BASIC_CLASS, |body|, p), frameMax)
    ensures AllSendable(protocol, ContentFrames(channel, p, body, frameMax), frameMax)
  {
    hide Sendable;
    var size := frameMax - (HEADER_SIZE + FOOTER_SIZE);
    BodyFramesSendable(protocol, channel, body, size, frameMax);
  }
}
