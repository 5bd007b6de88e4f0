/**
 A message on its whole way: published, written, cut up, parsed, queued and read.
 */
module EndToEnd {
  import opened Octets
  import opened Status
  import opened Framing
  import opened Frames
  import opened FrameParser
  import opened Messages
  import opened Connection

  lemma {:induction false} SameWithoutHeartbeats(protocol: Protocol, fs: seq<Frame>, gs: seq<Frame>)
    requires SameFrames(protocol, fs, gs)
    ensures SameFrames(protocol, WithoutHeartbeats(fs), WithoutHeartbeats(gs))
    decreases |fs|
  {
    if fs != [] {
      assert SameFrame(protocol, fs[0], gs[0]);
      assert forall i :: 0 <= i < |fs[1..]| ==> fs[1..][i] == fs[i + 1] && gs[1..][i] == gs[i + 1];
      SameWithoutHeartbeats(protocol, fs[1..], gs[1..]);
    }
  }

  /** The first of two messages in a row is put together, and what follows it stays. */
  lemma ContentThenLater(protocol: Protocol, channel: nat, p: Properties, body: seq<byte>, frameMax: nat,
                         later: seq<Frame>, stream: seq<Frame>, ending: Status)
    requires HasBasic(protocol) && frameMax > HEADER_SIZE + FOOTER_SIZE && channel < 0x1_0000 && CloneableProperties(p)
    requires SameFrames(protocol, ContentFrames(channel, p, body, frameMax) + later, stream)
    ensures var r := Assemble(stream, ending);
            && r.Message? && r.body == body && SamePresentProperties(BASIC_FIELDS, p, r.properties)
            && SameFrames(protocol, later, Unread(stream))
  {
    hide SameFrame, Assemble, SamePresentProperties, ContentFrames, Unread, CloneableProperties;
    var fs := ContentFrames(channel, p, body, frameMax);
    var gs, rest := stream[..|fs|], stream[|fs|..];
    assert stream == gs + rest;
    assert SameFrames(protocol, fs, gs) by {
      forall i | 0 <= i < |fs| ensures SameFrame(protocol, fs[i], gs[i]) {
        assert fs[i] == (fs + later)[i] && gs[i] == stream[i];
      }
    }
    assert SameFrames(protocol, later, rest) by {
      forall i | 0 <= i < |later| ensures SameFrame(protocol, later[i], rest[i]) {
        assert later[i] == (fs + later)[|fs| + i] && rest[i] == stream[|fs| + i];
      }
    }
    ContentAssembled(protocol, channel, p, body, frameMax, gs, ending);
    ContentIsUsedUp(protocol, channel, p, body, frameMax, gs);
    MessageLeavesTheRest(gs, rest, ending, ending);
    assert [] + rest == rest;
  }

  lemma ContentIsUsedUp(protocol: Protocol, channel: nat, p: Properties, body: seq<byte>, frameMax: nat, gs: seq<Frame>)
    requires HasBasic(protocol) && frameMax > HEADER_SIZE + FOOTER_SIZE && channel < 0x1_0000 && CloneableProperties(p)
    requires SameFrames(protocol, ContentFrames(channel, p, body, frameMax), gs)
    ensures Unread(gs) == []
  {
    hide SameFrame, CloneableProperties;
    var fs := ContentFrames(channel, p, body, frameMax);
    var size := frameMax - (HEADER_SIZE + FOOTER_SIZE);
    var q := HeaderKept(protocol, fs[0], gs[0]);
    BodyFramesSendable(protocol, channel, body, size, frameMax);
    assert gs[1..] == fs[1..] by {
      forall i | 1 <= i < |fs| ensures gs[i] == fs[i] {
        assert fs[i] in fs[1..];
        BodyKept(protocol, fs[i], gs[i]);
      }
    }
    BodyFramesAreRead(channel, body, size, 0);
  }

  /**
   For any body and any properties that fit: the frames that publishing emits can be
   written into the outbound buffer. Among any frames of other channels and any
   heartbeats, cut into any chunks, parsed and reassembled for the channel, they give
   back exactly that body and the same present properties, and whatever follows them
   on the channel is left for the next reader.
   */
  lemma MessageArrives(sender: nat, receiver: Tuning, channel: nat, p: Properties, body: seq<byte>,
                 fs: seq<Frame>, later: seq<Frame>, chunks: seq<seq<byte>>, ending: Status)
    requires HasBasic(receiver.protocol) && channel < 0x1_0000
    requires HEADER_SIZE + FOOTER_SIZE < sender <= receiver.frameMax && sender <= INT32_MAX
    requires Sendable(receiver.protocol, HeaderFrame(channel, BASIC_CLASS, |body|, p), sender) && CloneableProperties(p)
    requires OnChannel(WithoutHeartbeats(fs), channel) == ContentFrames(channel, p, body, sender) + later
    requires AllSendable(receiver.protocol, fs, sender)
    requires Flatten(chunks) == WireFrames(receiver.protocol, fs, sender)
    ensures AllSendable(receiver.protocol, ContentFrames(channel, p, body, sender), sender)
    ensures var parsed := FeedAll(receiver, Between([]), chunks);
            var stream := OnChannel(WithoutHeartbeats(parsed.frames), channel);
            var r := Assemble(stream, ending);
            && parsed.end == Between([])
            && r.Message? && r.body == body
            && SamePresentProperties(BASIC_FIELDS, p, r.properties)
            && SameFrames(receiver.protocol, later, Unread(stream))
  {
    hide Sendable, Assemble, SamePresentProperties, SameFrames, ContentFrames, FeedAll, CloneableProperties, Unread;
    var wire := WireFrames(receiver.protocol, fs, sender);
    ContentSendable(receiver.protocol, channel, p, body, sender);
    ChunkIndependence(receiver, Between([]), chunks);
    assert [] + wire == wire;
    WireFramesScanned(receiver, fs, sender);
    var parsed := Scan(receiver, wire);
    SameWithoutHeartbeats(receiver.protocol, fs, parsed.frames);
    SameOnChannel(receiver.protocol, WithoutHeartbeats(fs), WithoutHeartbeats(parsed.frames), channel);
    ContentThenLater(receiver.protocol, channel, p, body, sender, later,
                     OnChannel(WithoutHeartbeats(parsed.frames), channel), ending);
  }
}
