/**
 Receiving frames: the waiting functions of amqp_socket.c, which move frames
 between the stream, the queue and the caller, and the readers of amqp_consumer.c.
 */
module Connection {
  import opened Wrappers
  import opened Octets
  import opened Status
  import opened TableCodec
  import opened Framing
  import opened Frames
  import opened FrameParser
  import opened FrameQueue
  import opened Messages

  const BASIC_DELIVER_METHOD := 0x003C_003C

  // ------------------------------------------------------------------
  // Sequences of frames
  // ------------------------------------------------------------------

  function WithoutHeartbeats(fs: seq<Frame>): seq<Frame> {
    if fs == [] then []
    else (if fs[0].HeartbeatFrame? then [] else [fs[0]]) + WithoutHeartbeats(fs[1..])
  }

  lemma {:induction false} OnChannelConcat(fs: seq<Frame>, gs: seq<Frame>, channel: nat)
    ensures OnChannel(fs + gs, channel) == OnChannel(fs, channel) + OnChannel(gs, channel)
  {
    if fs == [] {
      assert fs + gs == gs && [] + OnChannel(gs, channel) == OnChannel(gs, channel);
    } else {
      OnChannelConcat(fs[1..], gs, channel);
      var first := if fs[0].channel == channel then [fs[0]] else [];
      assert (fs + gs)[0] == fs[0] && (fs + gs)[1..] == fs[1..] + gs;
      Regroup(first, OnChannel(fs[1..], channel), OnChannel(gs, channel));
    }
  }

  predicate NotOn(fs: seq<Frame>, channel: nat) {
    forall f :: f in fs ==> f.channel != channel
  }

  lemma StillNotOn(fs: seq<Frame>, f: Frame, channel: nat)
    requires NotOn(fs, channel) && f.channel != channel
    ensures NotOn(fs + [f], channel)
  {
  }

  predicate NoReply(fs: seq<Frame>, channel: nat, ids: set<nat>) {
    forall f :: f in fs ==> !IsReply(f, channel, ids)
  }

  lemma StillNoReply(fs: seq<Frame>, f: Frame, channel: nat, ids: set<nat>)
    requires NoReply(fs, channel, ids) && !IsReply(f, channel, ids)
    ensures NoReply(fs + [f], channel, ids)
  {
  }

  lemma NothingSeen(channel: nat, ids: set<nat>)
    ensures NotOn([], channel) && NoReply([], channel, ids)
  {
  }

  lemma {:induction false} NoneOnChannel(fs: seq<Frame>, channel: nat)
    requires NotOn(fs, channel)
    ensures OnChannel(fs, channel) == []
  {
    if fs != [] {
      NoneOnChannel(fs[1..], channel);
    }
  }

  /** Removing the first match and what precedes it takes the head off the channel's frames. */
  lemma TakenOnChannel(before: seq<Frame>, f: Frame, after: seq<Frame>, channel: nat)
    requires f.channel == channel && NotOn(before, channel)
    ensures OnChannel(before + [f] + after, channel) == [f] + OnChannel(after, channel)
    ensures OnChannel(before + after, channel) == OnChannel(after, channel)
  {
    NoneOnChannel(before, channel);
    OnChannelConcat(before, after, channel);
    OnChannelConcat(before + [f], after, channel);
    OnChannelConcat(before, [f], channel);
    OneOnChannel(f);
    hide OnChannel;
    assert [] + [f] == [f] && [] + OnChannel(after, channel) == OnChannel(after, channel);
  }

  lemma OneOnChannel(f: Frame)
    ensures OnChannel([f], f.channel) == [f]
  {
    assert [f][1..] == [] && [f] + [] == [f];
  }

  /** The first frame that answers a request; the index is the length when there is none. */
  function FirstReply(fs: seq<Frame>, channel: nat, ids: set<nat>): (k: nat)
    ensures k <= |fs|
    ensures forall i :: 0 <= i < k ==> !IsReply(fs[i], channel, ids)
    ensures k < |fs| ==> IsReply(fs[k], channel, ids)
  {
    if fs == [] || IsReply(fs[0], channel, ids) then 0 else 1 + FirstReply(fs[1..], channel, ids)
  }

  /** A method on the channel that is expected or closes it, or the closing of the connection. */
  predicate IsReply(f: Frame, channel: nat, ids: set<nat>) {
    && f.MethodFrame?
    && ((f.channel == channel && (f.id in ids || f.id == CHANNEL_CLOSE_METHOD))
        || (f.channel == 0 && f.id == CONNECTION_CLOSE_METHOD))
  }

  lemma FirstReplyIs(seen: seq<Frame>, f: Frame, later: seq<Frame>, channel: nat, ids: set<nat>)
    requires NoReply(seen, channel, ids)
    requires IsReply(f, channel, ids)
    ensures FirstReply(seen + [f] + later, channel, ids) == |seen|
  {
    var fs := seen + [f] + later;
    assert forall i :: 0 <= i < |seen| ==> fs[i] == seen[i];
    assert fs[|seen|] == f;
  }

  lemma FirstOnChannelIs(seen: seq<Frame>, f: Frame, later: seq<Frame>, channel: nat)
    requires NotOn(seen, channel)
    requires f.channel == channel
    ensures FirstOn(seen + [f] + later, channel) == |seen|
  {
    var fs := seen + [f] + later;
    assert forall i :: 0 <= i < |seen| ==> fs[i] == seen[i];
    assert fs[|seen|] == f;
  }

  /** The frames of a channel that `amqp_read_message` leaves for the next reader. */
  function Unread(fs: seq<Frame>): seq<Frame> {
    if fs == [] then []
    else match fs[0]
      case HeaderFrame(_, classId, bodySize, p) =>
        if classId != BASIC_CLASS || !CloneableProperties(p) then fs[1..] else UnreadBody(fs[1..], bodySize, 0)
      case f => if IsClose(f) then fs[1..] else fs
  }

  function UnreadBody(fs: seq<Frame>, bodySize: nat, read: nat): seq<Frame>
    decreases |fs|
  {
    if read >= bodySize || fs == [] then fs
    else match fs[0]
      case BodyFrame(_, fragment) =>
        if read + |fragment| > bodySize then fs[1..] else UnreadBody(fs[1..], bodySize, read + |fragment|)
      case _ => fs[1..]
  }

  /** Reading the frames of a message takes exactly those, so the next message can be read next. */
  lemma MessageLeavesTheRest(fs: seq<Frame>, rest: seq<Frame>, ending: Status, later: Status)
    requires Assemble(fs, ending).Message?
    ensures Assemble(fs + rest, later) == Assemble(fs, ending)
    ensures Unread(fs + rest) == Unread(fs) + rest
  {
    assert (fs + rest)[1..] == fs[1..] + rest;
    var h := fs[0];
    BodyLeavesTheRest(fs[1..], rest, ending, later, h.properties, h.bodySize, []);
  }

  lemma {:induction false} BodyLeavesTheRest(fs: seq<Frame>, rest: seq<Frame>, ending: Status, later: Status,
                                             p: Properties, bodySize: nat, read: seq<byte>)
    requires AssembleBody(fs, ending, p, bodySize, read).Message?
    ensures AssembleBody(fs + rest, later, p, bodySize, read) == AssembleBody(fs, ending, p, bodySize, read)
    ensures UnreadBody(fs + rest, bodySize, |read|) == UnreadBody(fs, bodySize, |read|) + rest
    decreases |fs|
  {
    if |read| < bodySize {
      assert (fs + rest)[1..] == fs[1..] + rest;
      BodyLeavesTheRest(fs[1..], rest, ending, later, p, bodySize, read + fs[0].fragment);
    }
  }

  /** A published message is read whole. */
  lemma {:induction false} BodyFramesAreRead(channel: nat, body: seq<byte>, size: nat, read: nat)
    requires size > 0
    ensures UnreadBody(BodyFrames(channel, body, size), read + |body|, read) == []
    decreases |body|
  {
    if |body| >= size {
      BodyFramesAreRead(channel, body[size..], size, read + size);
      assert BodyFrames(channel, body, size)[1..] == BodyFrames(channel, body[size..], size);
    } else if body != [] {
      assert BodyFrames(channel, body, size)[1..] == [];
    }
  }

  datatype RpcReply = Normal(reply: Frame) | Exception(reply: Frame) | Failure(status: Status)

  predicate IsDelivery(f: Frame) {
    f.MethodFrame? && f.id == BASIC_DELIVER_METHOD
  }

  // ------------------------------------------------------------------
  // The connection
  // ------------------------------------------------------------------

  class Connection {
    const tuning: Tuning
    const parser: InboundParser
    const queue: Queue
    /** What was received and not yet parsed: from `sock_inbound_offset` up to `sock_inbound_limit`. */
    var inbound: seq<byte>
    /** What the socket will yet deliver, receive by receive, and the status of the receive after that. */
    var network: seq<seq<byte>>
    var ending: Status

    /** Everything the connection is made of. */
    ghost var repr: set<object>

    ghost predicate Valid()
      reads this, repr
    {
      && this in repr && parser in repr && queue in repr && parser.repr <= repr && queue.repr <= repr
      && parser.tuning == tuning && parser.Valid() && queue.Valid()
      && ending != Success && (forall c :: c in network ==> c != [])
    }

    /** All that will come out of the octets not yet parsed. */
    ghost function Rest(): Parsed
      requires Valid()
      reads this, repr
    {
      Feed(tuning, parser.Stands(), inbound + Flatten(network))
    }

    ghost function Incoming(): seq<Frame>
      requires Valid()
      reads this, repr
    {
      WithoutHeartbeats(Rest().frames)
    }

    /** How waiting fails when the frames run out. */
    ghost function FinalStatus(): Status
      requires Valid()
      reads this, repr
    {
      match Rest().end
      case Failed(e) => e
      case _ => ending
    }

    ghost predicate Broken()
      requires Valid()
      reads this, repr
    {
      Rest().end.Failed?
    }

    /** All frames that a caller can yet obtain. */
    ghost function Deliverable(): seq<Frame>
      requires Valid()
      reads this, repr
    {
      queue.Contents() + Incoming()
    }

    ghost function ChannelStream(channel: nat): seq<Frame>
      requires Valid()
      reads this, repr
    {
      OnChannel(Deliverable(), channel)
    }

    constructor (tuning: Tuning, network: seq<seq<byte>>, ending: Status)
      requires ending != Success && forall c :: c in network ==> c != []
      ensures Valid() && queue.Contents() == [] && Rest() == FeedAll(tuning, Initial([]), network)
      ensures this.ending == ending && this.tuning == tuning && fresh(repr)
    {
      this.tuning, this.network, this.ending, this.inbound := tuning, network, ending, [];
      parser := new InboundParser(tuning);
      queue := new Queue();
      new;
      repr := {this, parser, queue} + parser.repr;
      ChunkIndependence(tuning, Initial([]), network);
      assert [] + Flatten(network) == Flatten(network);
    }

    /** `consume_one_frame` */
    method ConsumeOneFrame() returns (r: Result<Option<Frame>, Status>)
      requires Valid() && inbound != []
      modifies this, repr
      ensures r.Ok? ==> Valid() && |inbound| < |old(inbound)| && old(Rest()) == Preceded(AsFrames(r.value), Rest())
      ensures r.Err? ==> old(Rest()) == Parsed([], Failed(r.error))
      ensures fresh(repr - old(repr))
      ensures network == old(network) && ending == old(ending)
      ensures queue.Valid() && queue.Contents() == old(queue.Contents())
    {
      hide Feed, Flatten, ValidStanding, Scan, TargetSize;
      hide Queue.Valid, Queue.Contents, InboundParser.Valid, InboundParser.Stands;
      ghost var st, later := parser.Stands(), Flatten(network);
      parser.StandsValid();
      var data := inbound;
      var result := parser.HandleInput(data);
      repr := repr + parser.repr;
      if result.Err? {
        FedThenFailed(tuning, st, data, later, result.error);
        return Err(result.error);
      }
      var (consumed, frame) := result.value;
      FedInPart(tuning, st, data, later, consumed, AsFrames(frame), parser.Stands());
      inbound := data[consumed..];
      r := Ok(frame);
    }

    /** `recv_with_timeout`, as far as data is concerned. */
    method Receive() returns (status: Status)
      requires Valid() && inbound == []
      modifies this`inbound, this`network
      ensures Valid()
      ensures if old(network) == [] then status == ending && inbound == [] && network == []
              else status == Success && inbound != [] && |network| < |old(network)|
      ensures Rest() == old(Rest())
    {
      hide Feed;
      hide Queue.Valid, Queue.Contents, InboundParser.Valid, InboundParser.Stands;
      if network == [] {
        return ending;
      }
      assert network[0] in network && forall c :: c in network[1..] ==> c in network;
      assert inbound + Flatten(network) == network[0] + Flatten(network[1..]);
      inbound, network := network[0], network[1..];
      status := Success;
    }

    /** `amqp_queue_frame` */
    method Enqueue(frame: Frame)
      requires Valid()
      modifies this, repr
      ensures Valid()
      ensures Rest() == old(Rest())
      ensures Incoming() == old(Incoming()) && FinalStatus() == old(FinalStatus()) && Broken() == old(Broken())
      ensures inbound == old(inbound) && ending == old(ending)
      ensures queue.Contents() == old(queue.Contents()) + [frame]
      ensures fresh(repr - old(repr))
    {
      hide Feed, Flatten, Queue.Valid, Queue.Contents, InboundParser.Valid, InboundParser.Stands;
      queue.Append(frame);
      repr := repr + queue.repr;
    }

    /** `wait_frame_inner`: the next frame of the stream that is not a heartbeat. */
    method WaitFrame() returns (r: Result<Frame, Status>)
      requires Valid()
      modifies this, repr
      ensures r.Ok? ==> Valid() && old(Incoming()) == [r.value] + Incoming()
      ensures r.Ok? ==> FinalStatus() == old(FinalStatus()) && Broken() == old(Broken())
      ensures r.Err? ==> old(Incoming()) == [] && r.error == old(FinalStatus())
      ensures r.Err? && !old(Broken()) ==> Valid() && Incoming() == []
      ensures ending == old(ending)
      ensures fresh(repr - old(repr))
      ensures queue.Valid() && queue.Contents() == old(queue.Contents())
    {
      hide Feed, Flatten, WithoutHeartbeats, Preceded;
      hide Queue.Valid, Queue.Contents, InboundParser.Valid, InboundParser.Stands;
      while true
        invariant ending == old(ending)
        invariant Valid() && Incoming() == old(Incoming()) && FinalStatus() == old(FinalStatus())
                  && Broken() == old(Broken())
        invariant fresh(repr - old(repr))
        invariant queue.Contents() == old(queue.Contents())
        decreases |network|, |inbound|
      {
        if inbound != [] {
          label before:
          var consumed := ConsumeOneFrame();
          if consumed.Err? {
            NoMoreFrames();
            return Err(consumed.error);
          }
          FrameThenRest(consumed.value, old@before(Rest()), Rest());
          if consumed.value.Some? && !consumed.value.value.HeartbeatFrame? {
            return Ok(consumed.value.value);
          }
        } else {
          var status := Receive();
          if status != Success {
            NothingLeft();
            NoMoreFrames();
            return Err(status);
          }
        }
      }
    }

    lemma NothingLeft()
      requires Valid() && inbound == [] && network == []
      ensures Rest() == Parsed([], parser.Stands()) && !Broken()
    {
      parser.StandsValid();
      assert inbound + Flatten(network) == [];
      StandsStill(tuning, parser.Stands());
    }

    /** The first branch of `amqp_simple_wait_frame_noblock`, and its second. */
    method WaitNoBlock() returns (r: Result<Frame, Status>)
      requires Valid()
      modifies this, repr
      ensures r.Ok? ==> Valid() && old(Deliverable()) == [r.value] + Deliverable()
      ensures r.Ok? ==> FinalStatus() == old(FinalStatus()) && Broken() == old(Broken())
      ensures r.Err? ==> old(Deliverable()) == [] && r.error == old(FinalStatus())
      ensures r.Err? && !old(Broken()) ==> Valid() && Deliverable() == []
      ensures fresh(repr - old(repr))
    {
      hide Feed, Flatten, WithoutHeartbeats;
      hide InboundParser.Valid, InboundParser.Stands;
      if queue.first != null {
        var frame := queue.PopFront();
        return Ok(frame);
      }
      r := WaitFrame();
    }

    /**
     `amqp_simple_wait_frame_on_channel`: exactly which frame comes out and what the
     queue becomes, frames dropped in front of a queued match included.
     */
    method WaitOnChannel(channel: nat) returns (r: Result<Frame, Status>)
      requires Valid()
      modifies this, repr
      ensures fresh(repr - old(repr))
      ensures r.Ok? ==> Valid() && FinalStatus() == old(FinalStatus()) && Broken() == old(Broken())
      ensures var queued, incoming := old(queue.Contents()), old(Incoming());
              var k, j := FirstOn(queued, channel), FirstOn(incoming, channel);
              if k < |queued| then
                r == Ok(queued[k]) && queue.Contents() == queued[k + 1..] && Incoming() == incoming
              else if j < |incoming| then
                r == Ok(incoming[j]) && queue.Contents() == queued + incoming[..j] && Incoming() == incoming[j + 1..]
              else
                r == Err(old(FinalStatus())) && queue.Valid() && queue.Contents() == queued + incoming
      ensures r.Err? && !old(Broken()) ==> Valid() && Incoming() == [] && ChannelStream(channel) == []
      ensures r.Ok? ==> Deliverable() == LeftToDeliver(old(queue.Contents()), old(Incoming()), channel)
      ensures r.Ok? ==> old(ChannelStream(channel)) == [r.value] + ChannelStream(channel)
      ensures r.Err? ==> old(ChannelStream(channel)) == []
    {
      hide Feed, Flatten, WithoutHeartbeats, FirstOn, OnChannel;
      hide Queue.Valid, Queue.Contents, InboundParser.Valid, InboundParser.Stands;
      ghost var queued, incoming := queue.Contents(), Incoming();
      ghost var k := FirstOn(queued, channel);
      var taken := queue.TakeOnChannel(channel);
      if taken.Some? {
        assert queued + incoming == queued[..k] + [queued[k]] + (queued[k + 1..] + incoming);
        TakenOnChannel(queued[..k], queued[k], queued[k + 1..] + incoming, channel);
        return Ok(taken.value);
      }
      ghost var seen;
      r, seen := WaitInStream(channel);
      if r.Ok? {
        FirstOnChannelIs(seen, r.value, Incoming(), channel);
        assert queued + incoming == (queued + seen) + [r.value] + Incoming();
        TakenOnChannel(queued + seen, r.value, Incoming(), channel);
      } else {
        NoFirstOn(incoming, channel);
        NoneOnChannel(queued + incoming, channel);
        assert !old(Broken()) ==> Deliverable() == queued + incoming;
      }
    }

    /** The second loop: frames of other channels are queued until one of this channel comes. */
    method WaitInStream(channel: nat) returns (r: Result<Frame, Status>, ghost seen: seq<Frame>)
      requires Valid()
      modifies this, repr
      ensures fresh(repr - old(repr)) && queue.Valid()
      ensures NotOn(seen, channel)
      ensures queue.Contents() == old(queue.Contents()) + seen
      ensures r.Ok? ==>
                && Valid() && FinalStatus() == old(FinalStatus()) && Broken() == old(Broken())
                && r.value.channel == channel
                && old(Incoming()) == seen + [r.value] + Incoming()
      ensures r.Err? ==> old(Incoming()) == seen && r.error == old(FinalStatus())
      ensures r.Err? && !old(Broken()) ==> Valid() && Incoming() == []
    {
      hide NotOn, Feed, Flatten, WithoutHeartbeats;
      hide Queue.Valid, Queue.Contents, InboundParser.Valid, InboundParser.Stands, Rest, Valid;
      hide Incoming, FinalStatus, Broken;
      NothingSeen(channel, {});
      seen := [];
      while true
        invariant fresh(repr - old(repr))
        invariant Valid() && FinalStatus() == old(FinalStatus()) && Broken() == old(Broken())
        invariant old(Incoming()) == seen + Incoming() && queue.Contents() == old(queue.Contents()) + seen
        invariant NotOn(seen, channel)
        decreases |Incoming()|
      {
        r := WaitFrame();
        if r.Err? {
          return;
        }
        if r.value.channel == channel {
          return;
        }
        Enqueue(r.value);
        StillNotOn(seen, r.value, channel);
        seen := seen + [r.value];
      }
    }

    /**
     `simple_rpc_inner` behind the sending of the request, which ended with `sent`: the
     first frame that answers it is returned, and all earlier ones are queued in order.
     */
    method SimpleRpc(sent: Status, channel: nat, ids: set<nat>) returns (r: RpcReply)
      requires Valid()
      modifies this, repr
      ensures fresh(repr - old(repr))
      ensures sent != Success ==> r == Failure(sent) && Valid() && Deliverable() == old(Deliverable())
      ensures sent == Success ==>
                var queued, incoming := old(queue.Contents()), old(Incoming());
                var k := FirstReply(incoming, channel, ids);
                if k < |incoming| then
                  && r == (if incoming[k].id in ids then Normal(incoming[k]) else Exception(incoming[k]))
                  && Valid() && Deliverable() == queued + incoming[..k] + incoming[k + 1..]
                  && FinalStatus() == old(FinalStatus()) && Broken() == old(Broken())
                else
                  r == Failure(old(FinalStatus())) && queue.Valid() && queue.Contents() == queued + incoming
      ensures sent == Success ==>
                var incoming := old(Incoming());
                var expected := (f: Frame) => f.MethodFrame? && f.channel == channel && f.id in ids;
                var closes := (f: Frame) =>
                  f.MethodFrame?
                  && ((f.channel == channel && f.id == 0x0014_0028) || (f.channel == 0 && f.id == 0x000A_0032));
                if r.Failure? then forall f :: f in incoming ==> !expected(f) && !closes(f)
                else
                  exists k ::
                    && 0 <= k < |incoming| && incoming[k] == r.reply && (expected(r.reply) || closes(r.reply))
                    && (r.Normal? <==> r.reply.id in ids)
                    && (forall j :: 0 <= j < k ==> !expected(incoming[j]) && !closes(incoming[j]))
      ensures r.Failure? ==>
                if sent == Success && r.status == Timeout then network == [] && ending == ConnectionClosed
                else ending == old(ending)
    {
      hide Feed, Flatten, WithoutHeartbeats, FirstReply;
      hide Queue.Valid, Queue.Contents, InboundParser.Valid, InboundParser.Stands, Rest;
      if sent != Success {
        return Failure(sent);
      }
      ghost var incoming := Incoming();
      var answer;
      ghost var seen;
      answer, seen := WaitForReply(channel, ids);
      if answer.Err? {
        NoFirstReply(incoming, channel, ids);
        if answer.error == Timeout {
          network, ending := [], ConnectionClosed;
        }
        return Failure(answer.error);
      }
      FirstReplyIs(seen, answer.value, Incoming(), channel, ids);
      r := if answer.value.id in ids then Normal(answer.value) else Exception(answer.value);
    }

    /** The retry loop. */
    method WaitForReply(channel: nat, ids: set<nat>) returns (r: Result<Frame, Status>, ghost seen: seq<Frame>)
      requires Valid()
      modifies this, repr
      ensures ending == old(ending)
      ensures fresh(repr - old(repr)) && queue.Valid()
      ensures NoReply(seen, channel, ids)
      ensures queue.Contents() == old(queue.Contents()) + seen
      ensures r.Ok? ==>
                && Valid() && FinalStatus() == old(FinalStatus()) && Broken() == old(Broken())
                && IsReply(r.value, channel, ids) && old(Incoming()) == seen + [r.value] + Incoming()
      ensures r.Err? ==> old(Incoming()) == seen && r.error == old(FinalStatus())
    {
      hide NoReply, Feed, Flatten, WithoutHeartbeats, IsReply;
      hide Queue.Valid, Queue.Contents, InboundParser.Valid, InboundParser.Stands, Rest, Valid;
      hide Incoming, FinalStatus, Broken;
      NothingSeen(channel, ids);
      seen := [];
      while true
        invariant ending == old(ending)
        invariant fresh(repr - old(repr))
        invariant Valid() && FinalStatus() == old(FinalStatus()) && Broken() == old(Broken())
        invariant old(Incoming()) == seen + Incoming() && queue.Contents() == old(queue.Contents()) + seen
        invariant NoReply(seen, channel, ids)
        decreases |Incoming()|
      {
        r := WaitFrame();
        if r.Err? {
          return;
        }
        if IsReply(r.value, channel, ids) {
          return;
        }
        Enqueue(r.value);
        StillNoReply(seen, r.value, channel, ids);
        seen := seen + [r.value];
      }
    }

    /**
     `amqp_try_recv`: everything that was received is parsed and queued, heartbeats
     included, and more is received. No frame is lost or reordered.
     */
    method TryRecv() returns (failure: Option<Status>)
      requires Valid()
      modifies this, repr
      ensures fresh(repr - old(repr)) && queue.Valid()
      ensures old(queue.Contents()) <= queue.Contents()
      ensures failure.None? ==>
                && Valid() && FinalStatus() == old(FinalStatus()) && Broken() == old(Broken())
                && queue.Contents() + Rest().frames == old(queue.Contents() + Rest().frames)
      ensures failure.Some? ==>
                failure.value == old(FinalStatus()) && queue.Contents() == old(queue.Contents() + Rest().frames)
    {
      hide Feed, Flatten, WithoutHeartbeats;
      hide Queue.Valid, Queue.Contents, InboundParser.Valid, InboundParser.Stands, Rest;
      while inbound != []
        invariant Valid() && fresh(repr - old(repr))
        invariant old(queue.Contents()) <= queue.Contents() && FinalStatus() == old(FinalStatus())
                  && Broken() == old(Broken())
        invariant queue.Contents() + Rest().frames == old(queue.Contents() + Rest().frames)
        decreases |inbound|
      {
        var consumed := ConsumeOneFrame();
        if consumed.Err? {
          return Some(consumed.error);
        }
        if consumed.value.Some? {
          Enqueue(consumed.value.value);
        }
      }
      var status := Receive();
      if status != Success {
        NothingLeft();
        return Some(status);
      }
      failure := None;
    }

    /**
     `amqp_read_message`: what it makes of the frames of the channel, and which of
     them it leaves. A frame that cannot start a message is put back.
     */
    method ReadMessage(channel: nat) returns (r: Reply)
      requires Valid()
      modifies this, repr
      ensures fresh(repr - old(repr))
      ensures r == Assemble(old(ChannelStream(channel)), old(FinalStatus()))
      ensures r.Message? || !old(Broken()) ==> Valid() && ChannelStream(channel) == Unread(old(ChannelStream(channel)))
      ensures var stream := old(ChannelStream(channel));
              stream != [] && stream[0].MethodFrame? ==>
                if stream[0].id == 0x0014_0028 || stream[0].id == 0x000A_0032 then
                  r == ServerException(stream[0].id, stream[0].args)
                else r == LibraryException(UnexpectedState)
    {
      hide Feed, Flatten, WithoutHeartbeats, FirstOn, OnChannel, CloneableProperties, AssembleBody, UnreadBody;
      hide Queue.Valid, Queue.Contents, InboundParser.Valid, InboundParser.Stands, Rest, Valid, Incoming, ChannelStream;
      ghost var stream := ChannelStream(channel);
      var first := WaitOnChannel(channel);
      if first.Err? {
        return LibraryException(first.error);
      }
      match first.value {
        case HeaderFrame(_, classId, bodySize, p) =>
          if classId != BASIC_CLASS {
            return LibraryException(Undefined);
          }
          var clone := CloneProperties(p);
          if clone.Err? {
            return LibraryException(clone.error);
          }
          r := ReadBody(channel, clone.value, bodySize);
        case MethodFrame(_, id, args) =>
          if IsClose(first.value) {
            return ServerException(id, args);
          }
          PutBack(first.value);
          r := LibraryException(UnexpectedState);
        case _ =>
          PutBack(first.value);
          r := LibraryException(UnexpectedState);
      }
    }

    /**
     `amqp_consume_message`: anything but a delivery is put back in front, so that a
     frame which no reader takes stays the first for good.
     */
    method ConsumeMessage() returns (r: Reply)
      requires Valid()
      modifies this, repr
      ensures fresh(repr - old(repr))
      ensures var frames, ending := old(Deliverable()), old(FinalStatus());
              if frames == [] then r == LibraryException(ending)
              else if IsDelivery(frames[0]) then r == Assemble(OnChannel(frames[1..], frames[0].channel), ending)
              else r == LibraryException(UnexpectedState) && Valid() && Deliverable() == frames
      ensures var frames := old(Deliverable());
              frames != [] && !(frames[0].MethodFrame? && frames[0].id == 0x003C_003C) ==>
                r == LibraryException(UnexpectedState) && Valid() && Deliverable() == frames
      ensures var frames, ending := old(Deliverable()), old(FinalStatus());
              frames != [] && frames[0].MethodFrame? && frames[0].id == 0x003C_003C ==>
                r == Assemble(OnChannel(frames[1..], frames[0].channel), ending)
    {
      hide Feed, Flatten, WithoutHeartbeats, OnChannel, Assemble;
      hide Queue.Valid, Queue.Contents, InboundParser.Valid, InboundParser.Stands, Rest, Valid, Incoming, Deliverable;
      var frame := WaitNoBlock();
      if frame.Err? {
        return LibraryException(frame.error);
      }
      if !IsDelivery(frame.value) {
        PutBack(frame.value);
        return LibraryException(UnexpectedState);
      }
      assert old(Deliverable())[1..] == Deliverable();
      r := ReadMessage(frame.value.channel);
    }

    /** The loop that collects the body. */
    method ReadBody(channel: nat, p: Properties, bodySize: nat) returns (r: Reply)
      requires Valid()
      modifies this, repr
      ensures fresh(repr - old(repr))
      ensures r == AssembleBody(old(ChannelStream(channel)), old(FinalStatus()), p, bodySize, [])
      ensures r.Message? || !old(Broken()) ==>
                Valid() && ChannelStream(channel) == UnreadBody(old(ChannelStream(channel)), bodySize, 0)
    {
      hide Feed, Flatten, WithoutHeartbeats, FirstOn, OnChannel;
      hide Queue.Valid, Queue.Contents, InboundParser.Valid, InboundParser.Stands, Rest, Valid, Incoming, ChannelStream;
      var body := new byte[bodySize];
      var bodyRead := 0;
      while bodyRead < bodySize
        invariant 0 <= bodyRead <= bodySize && body !in repr
        invariant fresh(repr - old(repr))
        invariant Valid() && FinalStatus() == old(FinalStatus()) && Broken() == old(Broken())
        invariant AssembleBody(ChannelStream(channel), FinalStatus(), p, bodySize, body[..bodyRead])
               == AssembleBody(old(ChannelStream(channel)), FinalStatus(), p, bodySize, [])
        invariant UnreadBody(ChannelStream(channel), bodySize, bodyRead)
               == UnreadBody(old(ChannelStream(channel)), bodySize, 0)
        decreases |ChannelStream(channel)|
      {
        var frame := WaitOnChannel(channel);
        if frame.Err? {
          return LibraryException(frame.error);
        }
        match frame.value {
          case BodyFrame(_, fragment) =>
            if bodyRead + |fragment| > bodySize {
              return LibraryException(BadData);
            }
            ghost var before := body[..bodyRead];
            WriteOctets(body, bodyRead, fragment);
            bodyRead := bodyRead + |fragment|;
            assert body[..bodyRead] == before + fragment;
          case MethodFrame(_, id, args) =>
            return if IsClose(frame.value) then ServerException(id, args) else LibraryException(BadData);
          case _ =>
            return LibraryException(BadData);
        }
      }
      r := Message(p, body[..bodyRead]);
    }

    /** `amqp_put_back_frame` */
    method PutBack(frame: Frame)
      requires Valid()
      modifies this, repr
      ensures Valid()
      ensures FinalStatus() == old(FinalStatus()) && Broken() == old(Broken())
      ensures Deliverable() == [frame] + old(Deliverable())
      ensures ChannelStream(frame.channel) == [frame] + old(ChannelStream(frame.channel))
      ensures fresh(repr - old(repr))
    {
      hide Feed, Flatten, WithoutHeartbeats, Queue.Valid, Queue.Contents, InboundParser.Valid, InboundParser.Stands;
      ghost var rest, deliverable := Rest(), Deliverable();
      queue.PutBack(frame);
      repr := repr + queue.repr;
      assert Rest() == rest;
      assert Deliverable() == [frame] + deliverable;
      assert ([frame] + deliverable)[1..] == deliverable;
    }
  }

  /** `amqp_basic_properties_clone` */
  method CloneProperties(p: Properties) returns (r: Result<Properties, Status>)
    ensures r == if CloneableProperties(p) then Ok(p) else Err(InvalidParameter)
  {
    if Present(p.flags, 2) && 2 in p.fields && p.fields[2].Headers? {
      var clone :- CloneTable(p.fields[2].entries);
      assert clone == p.fields[2].entries;
    }
    r := Ok(p);
  }

  /** What a wait on one channel leaves to be delivered. */
  function LeftToDeliver(queued: seq<Frame>, incoming: seq<Frame>, channel: nat): seq<Frame> {
    var k, j := FirstOn(queued, channel), FirstOn(incoming, channel);
    if k < |queued| then queued[k + 1..] + incoming
    else if j < |incoming| then queued + incoming[..j] + incoming[j + 1..]
    else queued + incoming
  }

  /**
   Conservation of the wait on one channel: no other frame is lost if and only if
   the match is at the head of the queue or not in the queue at all.
   */
  lemma WaitConservesExactly(queued: seq<Frame>, incoming: seq<Frame>, channel: nat)
    requires FirstOn(queued, channel) < |queued| || FirstOn(incoming, channel) < |incoming|
    ensures var k, j := FirstOn(queued, channel), FirstOn(incoming, channel);
            var f := if k < |queued| then queued[k] else incoming[j];
            multiset(LeftToDeliver(queued, incoming, channel)) + multiset{f} == multiset(queued + incoming)
            <==> k == 0 || k == |queued|
  {
    hide FirstOn;
    var k, j := FirstOn(queued, channel), FirstOn(incoming, channel);
    if k < |queued| {
      TakingConservesExactly(queued, channel);
      MultisetOfPair(queued[k + 1..], incoming, queued, queued[k]);
      FirstOnHead(queued, channel);
    } else {
      assert queued + incoming == queued + incoming[..j] + ([incoming[j]] + incoming[j + 1..]);
    }
  }

  /**
   A frame that is lost: it was queued while another channel was waited for, a frame of
   that other channel was queued behind it, and the other channel is waited for once
   more. The first frame is neither returned nor ever delivered.
   */
  method LosesEarlierFrame(c: Connection, earlier: Frame, matching: Frame) returns (r: Result<Frame, Status>)
    requires c.Valid() && c.queue.Contents() == [] && earlier.channel != matching.channel
    modifies c, c.repr
    ensures r == Ok(matching) && c.Valid() && c.Deliverable() == old(c.Deliverable())
  {
    hide InboundParser.Valid, InboundParser.Stands, Queue.Valid, Connection.Rest, FirstOn;
    c.Enqueue(earlier);
    c.Enqueue(matching);
    SecondMatches(earlier, matching);
    r := c.WaitOnChannel(matching.channel);
  }

  /** For instance, on a connection that will never receive anything. */
  method LosesBody(tuning: Tuning) returns (r: Result<Frame, Status>, c: Connection)
    ensures r == Ok(BodyFrame(2, [])) && fresh(c) && c.Valid() && c.Deliverable() == []
  {
    hide InboundParser.Valid, InboundParser.Stands, Queue.Valid, Scan;
    c := new Connection(tuning, [], ConnectionClosed);
    r := LosesEarlierFrame(c, BodyFrame(1, []), BodyFrame(2, []));
  }

  lemma SecondMatches(earlier: Frame, matching: Frame)
    requires earlier.channel != matching.channel
    ensures FirstOn([] + [earlier] + [matching], matching.channel) == 1
    ensures [] + [earlier] + [matching] == [earlier, matching] && [earlier, matching][2..] == []
  {
    FirstOnIs([earlier, matching], matching.channel, 1);
  }

  lemma FirstOnHead(fs: seq<Frame>, channel: nat)
    requires fs != []
    ensures FirstOn(fs, channel) == 0 <==> fs[0].channel == channel
  {
  }

  lemma MultisetOfPair(rest: seq<Frame>, b: seq<Frame>, whole: seq<Frame>, f: Frame)
    ensures multiset(rest) + multiset{f} == multiset(whole) <==> multiset(rest + b) + multiset{f} == multiset(whole + b)
  {
    var m, n, k := multiset(rest) + multiset{f}, multiset(whole), multiset(b);
    assert multiset(rest + b) + multiset{f} == m + k && multiset(whole + b) == n + k;
    assert (m + k) - k == m && (n + k) - k == n;
  }

  lemma NoFirstOn(fs: seq<Frame>, channel: nat)
    requires NotOn(fs, channel)
    ensures FirstOn(fs, channel) == |fs|
  {
    FirstOnIs(fs, channel, |fs|);
  }

  lemma NoFirstReply(fs: seq<Frame>, channel: nat, ids: set<nat>)
    requires NoReply(fs, channel, ids)
    ensures FirstReply(fs, channel, ids) == |fs|
  {
    FirstReplyFound(fs, channel, ids, |fs|);
  }

  lemma FirstReplyFound(fs: seq<Frame>, channel: nat, ids: set<nat>, k: nat)
    requires k <= |fs| && forall i :: 0 <= i < k ==> !IsReply(fs[i], channel, ids)
    requires k < |fs| ==> IsReply(fs[k], channel, ids)
    ensures FirstReply(fs, channel, ids) == k
  {
  }

  lemma FedThenFailed(t: Tuning, st: Standing, data: seq<byte>, later: seq<byte>, e: Status)
    requires ValidStanding(t, st) && Feed(t, st, data) == Parsed([], Failed(e))
    ensures Feed(t, st, data + later) == Parsed([], Failed(e))
  {
    hide ValidStanding, Scan, ScanInitial;
    FeedConcat(t, st, data, later);
  }

  lemma FedInPart(t: Tuning, st: Standing, data: seq<byte>, later: seq<byte>, n: nat, frames: seq<Frame>, end: Standing)
    requires ValidStanding(t, st) && n <= |data| && Feed(t, st, data[..n]) == Parsed(frames, end)
    ensures Feed(t, st, data + later) == Preceded(frames, Feed(t, end, data[n..] + later))
  {
    hide ValidStanding, Feed;
    assert data + later == data[..n] + (data[n..] + later);
    FeedConcat(t, st, data[..n], data[n..] + later);
  }

  lemma NoMoreFrames()
    ensures WithoutHeartbeats([]) == []
  {
  }

  lemma FrameThenRest(f: Option<Frame>, before: Parsed, after: Parsed)
    requires before == Preceded(AsFrames(f), after)
    ensures before.end == after.end
    ensures WithoutHeartbeats(before.frames)
         == (if f.Some? && !f.value.HeartbeatFrame? then [f.value] else []) + WithoutHeartbeats(after.frames)
  {
    if f.Some? {
      assert before.frames[1..] == after.frames;
    }
    assert [] + WithoutHeartbeats(after.frames) == WithoutHeartbeats(after.frames);
    assert [] + after.frames == after.frames;
  }
}
