/**
 A message from one object to another: published by a sender, read by a connection.
 And the plainest case, any body without properties.
 */
module Delivery {
  import opened Wrappers
  import opened Octets
  import opened Status
  import opened Generator
  import opened Framing
  import opened Frames
  import opened FrameParser
  import opened Messages
  import opened Publisher
  import opened Connection
  import opened EndToEnd

  // ------------------------------------------------------------------
  // From object to object
  // ------------------------------------------------------------------

  /** The pieces in which a network delivers `s`: as long as `cuts` says, where that is possible. */
  function Cut(s: seq<byte>, cuts: seq<nat>): (chunks: seq<seq<byte>>)
    ensures Flatten(chunks) == s && forall c :: c in chunks ==> c != []
    decreases |cuts|
  {
    if s == [] then []
    else if cuts == [] || cuts[0] == 0 || cuts[0] > |s| then OneChunk(s)
    else [s[..cuts[0]]] + Cut(s[cuts[0]..], cuts[1..])
  }

  function OneChunk(s: seq<byte>): (chunks: seq<seq<byte>>)
    requires s != []
    ensures Flatten(chunks) == s && chunks == [s]
  {
    assert [s][1..] == [] && s + [] == s;
    [s]
  }

  /** Every way of cutting into pieces that are not empty is one of those. */
  lemma {:induction false} EveryCut(chunks: seq<seq<byte>>) returns (cuts: seq<nat>)
    requires forall c :: c in chunks ==> c != []
    ensures Cut(Flatten(chunks), cuts) == chunks
  {
    cuts := [];
    if chunks != [] {
      assert chunks[0] in chunks && forall c :: c in chunks[1..] ==> c in chunks;
      cuts := EveryCut(chunks[1..]);
      cuts := [|chunks[0]|] + cuts;
      assert Flatten(chunks)[..|chunks[0]|] == chunks[0] && Flatten(chunks)[|chunks[0]|..] == Flatten(chunks[1..]);
    }
  }

  /**
   A connection between frames, with nothing queued, to which the network will deliver
   the frames of a message among any others: reading the channel gives back exactly
   the body and the same present properties, and what follows stays to be read.
   */
  method ReadPublished(c: Connection, channel: nat, ghost p: Properties, ghost body: seq<byte>, ghost sender: nat,
                       ghost fs: seq<Frame>, ghost later: seq<Frame>)
    returns (r: Reply)
    requires HasBasic(c.tuning.protocol) && channel < 0x1_0000
    requires HEADER_SIZE + FOOTER_SIZE < sender <= c.tuning.frameMax && sender <= INT32_MAX
    requires Sendable(c.tuning.protocol, HeaderFrame(channel, BASIC_CLASS, |body|, p), sender) && CloneableProperties(p)
    requires OnChannel(WithoutHeartbeats(fs), channel) == ContentFrames(channel, p, body, sender) + later
    requires AllSendable(c.tuning.protocol, fs, sender)
    requires c.Valid() && c.parser.Stands() == Between([]) && c.queue.Contents() == [] && c.inbound == []
    requires Flatten(c.network) == WireFrames(c.tuning.protocol, fs, sender)
    modifies c, c.repr
    ensures r.Message? && r.body == body && SamePresentProperties(BASIC_FIELDS, p, r.properties)
    ensures c.Valid() && SameFrames(c.tuning.protocol, later, c.ChannelStream(channel))
  {
    hide Sendable, Assemble, SamePresentProperties, SameFrames, ContentFrames, CloneableProperties, Unread, Scan;
    MessageArrives(sender, c.tuning, channel, p, body, fs, later, c.network, c.FinalStatus());
    c.parser.StandsValid();
    ChunkIndependence(c.tuning, Between([]), c.network);
    assert c.inbound + Flatten(c.network) == Flatten(c.network);
    assert c.queue.Contents() + c.Incoming() == c.Incoming();
    r := c.ReadMessage(channel);
  }

  /**
   `amqp_basic_publish` on one side and `amqp_read_message` on the other. The server
   between them takes the method off and passes the content on, in whatever pieces.
   */
  method PublishAndRead(sender: Sender, c: Connection, channel: nat, exchange: seq<byte>, routingKey: seq<byte>,
                        mandatory: bool, immediate: bool, p: Properties, body: seq<byte>, cuts: seq<nat>)
    returns (status: Status, r: Reply)
    requires sender.Valid() && c.Valid() && sender !in c.repr && sender.outbound !in c.repr
    requires HasBasic(c.tuning.protocol) && sender.tuning.protocol == c.tuning.protocol
    requires HEADER_SIZE + 12 + FOOTER_SIZE <= sender.tuning.frameMax <= c.tuning.frameMax
             && sender.tuning.frameMax <= INT32_MAX
    requires channel < 0x1_0000 && |body| < 0x1_0000_0000_0000_0000
    requires ValidProperties(BASIC_FIELDS, p) && FaithfulProperties(BASIC_FIELDS, p) && CloneableProperties(p)
    requires c.parser.Stands() == Between([]) && c.queue.Contents() == [] && c.inbound == [] && c.network == []
    modifies sender`attempts, sender`wire, sender.outbound, c, c.repr
    ensures status == Success ==>
              r.Message? && r.body == body && SamePresentProperties(BASIC_FIELDS, p, r.properties) && c.Valid()
  {
    hide Assemble, SamePresentProperties, ContentFrames, CloneableProperties, Unread, Scan, Feed;
    hide BodyWire, WireFrame, ValidProperties;
    hide FaithfulProperties;
    var before := |sender.wire|;
    status := sender.BasicPublish(channel, exchange, routingKey, mandatory, immediate, Some(p), body);
    r := LibraryException(status);
    if status != Success {
      return;
    }
    var protocol, frameMax := c.tuning.protocol, sender.tuning.frameMax;
    var publish := PublishMethod(channel, exchange, routingKey, mandatory, immediate);
    var content := sender.wire[before + |WireFrame(protocol, publish)|..];
    ghost var fs := ContentFrames(channel, p, body, frameMax);
    HeaderSendable(protocol, channel, p, body, frameMax);
    PublishedIsContent(protocol, channel, p, body, frameMax);
    assert content == WireFrames(protocol, fs, frameMax);
    c.network := Cut(content, cuts);
    ContentIsPlain(channel, p, body, frameMax);
    assert fs + [] == fs;
    r := ReadPublished(c, channel, p, body, frameMax, fs, []);
  }

  lemma HeaderSendable(protocol: Protocol, channel: nat, p: Properties, body: seq<byte>, frameMax: nat)
    requires HasBasic(protocol) && ContentValid(protocol, channel, p, body) && FaithfulProperties(BASIC_FIELDS, p)
    requires EncodableFrame(protocol, HeaderFrame(channel, BASIC_CLASS, |body|, p))
    requires |WireFrame(protocol, HeaderFrame(channel, BASIC_CLASS, |body|, p))| <= frameMax
    ensures Sendable(protocol, HeaderFrame(channel, BASIC_CLASS, |body|, p), frameMax)
  {
    hide WireFrame, EncodableFrom, FaithfulProperties, ValidProperties;
  }

  // ------------------------------------------------------------------
  // Without properties
  // ------------------------------------------------------------------

  /** A message without properties needs no more than room for its header. */
  lemma BareHeaderSendable(protocol: Protocol, channel: nat, size: nat, frameMax: nat)
    requires HasBasic(protocol) && channel < 0x1_0000 && size < 0x1_0000_0000_0000_0000
    requires frameMax >= HEADER_SIZE + 14 + FOOTER_SIZE
    ensures Sendable(protocol, HeaderFrame(channel, BASIC_CLASS, size, Properties(0, map[])), frameMax)
    ensures CloneableProperties(Properties(0, map[]))
  {
    hide BigEndian, SerializeFlags, PresentLayout, FaithfulProperties, EncodableFrom, Envelope;
    hide Faithful, EncodableField;
    var p, f := Properties(0, map[]), HeaderFrame(channel, BASIC_CLASS, size, Properties(0, map[]));
    NoProperties();
    NothingPresent(p, 0);
    NothingToCarry(p);
    assert |SerializeProperties(BASIC_FIELDS, p)| == 2;
    assert |FramePayload(protocol, f)| == 14;
  }

  lemma NothingToCarry(p: Properties)
    requires p == Properties(0, map[]) && ValidProperties(BASIC_FIELDS, p)
    ensures |SerializeFlags(0)| == 2 && FaithfulProperties(BASIC_FIELDS, p) && EncodableFrom(BASIC_FIELDS, p, 0)
    ensures CloneableProperties(p)
  {
    hide BigEndian;
    NothingPresent(p, 0);
    assert Remainder(0) == 0;
  }

  lemma {:induction false} NothingPresent(p: Properties, i: nat)
    requires p == Properties(0, map[]) && ValidProperties(BASIC_FIELDS, p) && i <= |BASIC_FIELDS|
    ensures PresentLayout(BASIC_FIELDS, p, i) == []
    ensures forall k :: 0 <= k < |BASIC_FIELDS| ==> !Present(0, k)
    decreases |BASIC_FIELDS| - i
  {
    forall k | 0 <= k < |BASIC_FIELDS| ensures !Present(0, k) {
      NoBits(FlagBit(k));
    }
    if i < |BASIC_FIELDS| {
      NothingPresent(p, i + 1);
    }
  }

  /** Every body arrives: published without properties, cut up in any way, and read. */
  lemma EveryBodyArrives(sender: nat, receiver: Tuning, channel: nat, body: seq<byte>, chunks: seq<seq<byte>>,
                         ending: Status)
    requires HasBasic(receiver.protocol) && channel < 0x1_0000 && |body| < 0x1_0000_0000_0000_0000
    requires HEADER_SIZE + 14 + FOOTER_SIZE <= sender <= receiver.frameMax && sender <= INT32_MAX
    ensures AllSendable(receiver.protocol, ContentFrames(channel, Properties(0, map[]), body, sender), sender)
    ensures Flatten(chunks)
            == WireFrames(receiver.protocol, ContentFrames(channel, Properties(0, map[]), body, sender), sender) ==>
              var r :=
                Assemble(OnChannel(WithoutHeartbeats(FeedAll(receiver, Between([]), chunks).frames), channel), ending);
              r.Message? && r.body == body
  {
    hide Sendable, Assemble, FeedAll, CloneableProperties;
    var p := Properties(0, map[]);
    var fs := ContentFrames(channel, p, body, sender);
    BareHeaderSendable(receiver.protocol, channel, |body|, sender);
    ContentSendable(receiver.protocol, channel, p, body, sender);
    ContentIsPlain(channel, p, body, sender);
    assert fs + [] == fs;
    if Flatten(chunks) == WireFrames(receiver.protocol, fs, sender) {
      MessageArrives(sender, receiver, channel, p, body, fs, [], chunks, ending);
    }
  }

  /** All frames of a message are on its channel, and none is a heartbeat. */
  lemma ContentIsPlain(channel: nat, p: Properties, body: seq<byte>, frameMax: nat)
    requires frameMax > HEADER_SIZE + FOOTER_SIZE && channel < 0x1_0000
    ensures OnChannel(WithoutHeartbeats(ContentFrames(channel, p, body, frameMax)), channel)
         == ContentFrames(channel, p, body, frameMax)
  {
    var size := frameMax - (HEADER_SIZE + FOOTER_SIZE);
    BodyFramesPlain(channel, body, size);
    var fs, bodies := ContentFrames(channel, p, body, frameMax), BodyFrames(channel, body, size);
    assert fs[1..] == bodies;
    assert WithoutHeartbeats(fs) == fs;
  }

  lemma {:induction false} BodyFramesPlain(channel: nat, body: seq<byte>, size: nat)
    requires size > 0
    ensures WithoutHeartbeats(BodyFrames(channel, body, size)) == BodyFrames(channel, body, size)
    ensures OnChannel(BodyFrames(channel, body, size), channel) == BodyFrames(channel, body, size)
    decreases |body|
  {
    if |body| >= size {
      BodyFramesPlain(channel, body[size..], size);
      assert BodyFrames(channel, body, size)[1..] == BodyFrames(channel, body[size..], size);
    } else if body != [] {
      assert BodyFrames(channel, body, size)[1..] == [];
    }
  }
}
