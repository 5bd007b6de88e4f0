/**
 What comes of a request when the server answers it by closing the channel or the
 connection: two runs of a whole connection, from the octets to the reply.
 */
module Replies {
  import opened Octets
  import opened Status
  import opened Generator
  import opened Framing
  import opened Frames
  import opened FrameParser
  import opened Messages
  import opened Publisher
  import opened Connection

  /** reply-code, reply-text, class-id, method-id */
  const CLOSE_FIELDS: seq<FieldType> := [Simple(2), SHORT_STRING, Simple(2), Simple(2)]

  /** The protocol description has channel.close and connection.close as AMQP 0-9-1 defines them. */
  predicate HasCloses(protocol: Protocol) {
    && 0x0014_0028 in protocol.methods && protocol.methods[0x0014_0028] == CLOSE_FIELDS
    && 0x000A_0032 in protocol.methods && protocol.methods[0x000A_0032] == CLOSE_FIELDS
  }

  function CloseFrame(channel: nat, id: nat): Frame {
    MethodFrame(channel, id, [Integer(406), Text([]), Integer(0), Integer(0)])
  }

  lemma CloseSendable(protocol: Protocol, channel: nat, id: nat, frameMax: nat)
    requires HasCloses(protocol) && channel < 0x1_0000 && (id == 0x0014_0028 || id == 0x000A_0032) && frameMax >= 64
    ensures Sendable(protocol, CloseFrame(channel, id), frameMax)
  {
    hide BigEndian, Layout, Envelope;
    var args := CloseFrame(channel, id).args;
    Pow256Values();
    CloseLayout(args);
  }

  lemma CloseLayout(args: seq<Argument>)
    requires args == [Integer(406), Text([]), Integer(0), Integer(0)]
    ensures |Layout(CLOSE_FIELDS, args)| == 7
  {
    hide BigEndian;
    var t := CLOSE_FIELDS;
    assert t[1..] == [SHORT_STRING, Simple(2), Simple(2)] && t[1..][1..] == [Simple(2), Simple(2)];
    assert t[1..][1..][1..] == [Simple(2)] && t[1..][1..][1..][1..] == [];
    FieldFirst(t, args);
    FieldFirst(t[1..], args[1..]);
    FieldFirst(t[1..][1..], args[1..][1..]);
    FieldFirst(t[1..][1..][1..], args[1..][1..][1..]);
  }

  /** The first octets on a connection are those of one method, whose class is less than 256. */
  lemma OnlyFrame(t: Tuning, f: Frame)
    requires Sendable(t.protocol, f, t.frameMax) && t.frameMax <= INT32_MAX && f.MethodFrame? && f.id < 0x100_0000
    ensures Feed(t, Initial([]), WireFrame(t.protocol, f)) == Parsed([f], Between([]))
  {
    hide Scan, DecodeFrame, ValidFrame, KnownFrame, EncodableFrame, FaithfulFrame, FramePayload;
    var s := WireFrame(t.protocol, f);
    FirstOctets(t, f);
    FirstFrameExactly(t, s);
    ScanOne(t, f, t.frameMax, []);
    assert s + [] == s && [] + s == s && [f] + [] == [f];
    NothingToScan(t);
  }

  lemma FirstOctets(t: Tuning, f: Frame)
    requires Sendable(t.protocol, f, t.frameMax) && t.frameMax <= INT32_MAX && f.MethodFrame? && f.id < 0x100_0000
    ensures var s := WireFrame(t.protocol, f); |s| >= 12 && s[7] == 0 && !IsProtocolHeader(s)
    ensures AcceptableSoFar(t, WireFrame(t.protocol, f))
  {
    hide DecodeFrame, Layout, BigEndian, Scan, AllFaithful, Encodable;
    var s := WireFrame(t.protocol, f);
    WireOctets(t.protocol, f);
    FrameRoundTrip(t.protocol, f);
    EnvelopeParts(FRAME_METHOD, f.channel, FramePayload(t.protocol, f));
    assert s[7] == FramePayload(t.protocol, f)[..4][0];
    assert s[..4][0] == 1;
    assert s[..|s|] == s;
  }

  /** A request whose only answer is `f`, which closes the channel or the connection. */
  method AnsweredByClose(tuning: Tuning, f: Frame, channel: nat, ids: set<nat>) returns (r: RpcReply)
    requires Sendable(tuning.protocol, f, tuning.frameMax) && tuning.frameMax <= INT32_MAX
    requires f.MethodFrame? && f.id < 0x100_0000 && f.id !in ids
    requires (f.channel == channel && f.id == 0x0014_0028) || (f.channel == 0 && f.id == 0x000A_0032)
    ensures r == Exception(f)
  {
    hide ValidFrame, KnownFrame, EncodableFrame, FaithfulFrame, Feed, Scan, Connection.Valid;
    hide Connection.Rest, InboundParser.Valid, InboundParser.Stands, FrameQueue.Queue.Valid;
    hide FirstReply;
    var octets := WireFrame(tuning.protocol, f);
    OnlyFrame(tuning, f);
    OneChunk(tuning, octets);
    var c := new Connection(tuning, [octets], ConnectionClosed);
    NoHeartbeatIn(f);
    assert c.Incoming() == [f];
    r := c.SimpleRpc(Success, channel, ids);
    assert f in [f];
  }

  lemma OneChunk(t: Tuning, octets: seq<byte>)
    ensures FeedAll(t, Initial([]), [octets]) == Feed(t, Initial([]), octets)
  {
    hide Scan;
    assert [octets][1..] == [];
    ChunkIndependence(t, Initial([]), [octets]);
    assert octets + [] == octets;
  }

  lemma NoHeartbeatIn(f: Frame)
    requires !f.HeartbeatFrame?
    ensures WithoutHeartbeats([f]) == [f]
  {
    assert [f][1..] == [] && [f] + [] == [f];
  }

  /** channel.close on the channel of the request. */
  method ChannelCloseIsException(tuning: Tuning) returns (r: RpcReply)
    requires HasCloses(tuning.protocol) && 64 <= tuning.frameMax <= INT32_MAX
    ensures r == Exception(MethodFrame(1, 0x0014_0028, [Integer(406), Text([]), Integer(0), Integer(0)]))
  {
    hide Sendable;
    CloseSendable(tuning.protocol, 1, 0x0014_0028, tuning.frameMax);
    r := AnsweredByClose(tuning, CloseFrame(1, 0x0014_0028), 1, {0x003C_0015});
  }

  /** connection.close on channel 0. */
  method ConnectionCloseIsException(tuning: Tuning) returns (r: RpcReply)
    requires HasCloses(tuning.protocol) && 64 <= tuning.frameMax <= INT32_MAX
    ensures r == Exception(MethodFrame(0, 0x000A_0032, [Integer(406), Text([]), Integer(0), Integer(0)]))
  {
    hide Sendable;
    CloseSendable(tuning.protocol, 0, 0x000A_0032, tuning.frameMax);
    r := AnsweredByClose(tuning, CloseFrame(0, 0x000A_0032), 1, {0x003C_0015});
  }
}
