/**
 The linked queue of frames that a connection of amqp_socket.c keeps between
 `first_queued_frame` and `last_queued_frame`.
 */
module FrameQueue {
  import opened Wrappers
  import opened Frames

  /** The index of the first frame on `channel`, or the length when there is none. */
  function FirstOn(frames: seq<Frame>, channel: nat): (k: nat)
    ensures k <= |frames|
    ensures forall i :: 0 <= i < k ==> frames[i].channel != channel
    ensures k < |frames| ==> frames[k].channel == channel
  {
    if frames == [] || frames[0].channel == channel then 0 else 1 + FirstOn(frames[1..], channel)
  }

  lemma FirstOnIs(frames: seq<Frame>, channel: nat, k: nat)
    requires k <= |frames|
    requires forall i :: 0 <= i < k ==> frames[i].channel != channel
    requires k < |frames| ==> frames[k].channel == channel
    ensures FirstOn(frames, channel) == k
  {
  }

  /** `amqp_link_t` */
  class Link {
    var next: Link?
    const frame: Frame

    constructor (frame: Frame)
      ensures this.frame == frame && next == null
    {
      this.frame := frame;
      next := null;
    }
  }

  ghost function NextOf(links: seq<Link>, i: nat): Link? {
    if i + 1 < |links| then links[i + 1] else null
  }

  class Queue {
    var first: Link?
    var last: Link?
    ghost var links: seq<Link>
    /** The links above and those that were taken off. */
    ghost var repr: set<Link>

    ghost predicate Valid()
      reads this, repr
    {
      && (forall i :: 0 <= i < |links| ==> links[i] in repr)
      && (forall i, j :: 0 <= i < j < |links| ==> links[i] != links[j])
      && (forall i :: 0 <= i < |links| ==> links[i].next == NextOf(links, i))
      && (if links == [] then first == null && last == null else first == links[0] && last == links[|links| - 1])
    }

    ghost function Contents(): (frames: seq<Frame>)
      reads this
      ensures |frames| == |links|
    {
      var ls := links;
      seq(|ls|, i requires 0 <= i < |ls| => ls[i].frame)
    }

    constructor ()
      ensures Valid() && Contents() == [] && repr == {}
    {
      first, last, links, repr := null, null, [], {};
    }

    /** `amqp_queue_frame`, and the same steps in `amqp_try_recv` and `simple_rpc_inner`. */
    method Append(frame: Frame)
      requires Valid()
      modifies this, repr
      ensures Valid() && Contents() == old(Contents()) + [frame]
      ensures fresh(repr - old(repr))
    {
      var link := new Link(frame);
      if last == null {
        first := link;
      } else {
        last.next := link;
      }
      last := link;
      links, repr := links + [link], repr + {link};
      assert forall i :: 0 <= i < |links| ==> links[i].next == NextOf(links, i);
      assert Contents() == old(Contents()) + [frame];
    }

    /** `amqp_put_back_frame` */
    method PutBack(frame: Frame)
      requires Valid()
      modifies this
      ensures Valid() && Contents() == [frame] + old(Contents())
      ensures fresh(repr - old(repr))
    {
      var link := new Link(frame);
      if first == null {
        first := link;
        last := link;
      } else {
        link.next := first;
        first := link;
      }
      ghost var before := links;
      links, repr := [link] + links, repr + {link};
      forall i | 0 <= i < |links|
        ensures links[i].next == NextOf(links, i)
      {
        if i > 0 {
          assert links[i] == before[i - 1];
        }
      }
      assert Contents() == [frame] + old(Contents());
    }

    /** The head becomes the link behind `link`. */
    method CutBehind(link: Link, ghost k: nat)
      requires Valid() && k < |links| && links[k] == link
      modifies this
      ensures Valid() && Contents() == old(Contents())[k + 1..] && repr == old(repr)
    {
      assert links[k].next == NextOf(links, k);
      Shorter(k + 1);
      first := link.next;
      if first == null {
        last := null;
      }
      links := links[k + 1..];
      assert Contents() == old(Contents())[k + 1..];
    }

    /** Dropping the first links leaves a well-formed rest. */
    lemma Shorter(k: nat)
      requires k <= |links|
      requires forall i :: 0 <= i < |links| ==> links[i].next == NextOf(links, i)
      ensures var rest := links[k..];
              forall i :: 0 <= i < |rest| ==> rest[i].next == NextOf(rest, i)
    {
      var rest := links[k..];
      forall i | 0 <= i < |rest|
        ensures rest[i].next == NextOf(rest, i)
      {
        assert rest[i] == links[k + i];
      }
    }

    /** The first branch of `amqp_simple_wait_frame_noblock`. */
    method PopFront() returns (frame: Frame)
      requires Valid() && first != null
      modifies this
      ensures Valid() && old(Contents()) == [frame] + Contents() && repr == old(repr)
    {
      frame := first.frame;
      CutBehind(first, 0);
    }

    /**
     The loop of `amqp_simple_wait_frame_on_channel` over the queue. The head becomes
     the link behind the match, so the frames in front of the match leave the queue too.
     */
    method TakeOnChannel(channel: nat) returns (r: Option<Frame>)
      requires Valid()
      modifies this
      ensures Valid() && repr == old(repr)
      ensures var k := FirstOn(old(Contents()), channel);
              if k == |old(Contents())| then r == None && Contents() == old(Contents())
              else r == Some(old(Contents())[k]) && Contents() == old(Contents())[k + 1..]
    {
      hide FirstOn;
      var cur := first;
      ghost var k, frames := 0, Contents();
      while cur != null && cur.frame.channel != channel
        invariant 0 <= k <= |links| && cur == if k < |links| then links[k] else null
        invariant forall i :: 0 <= i < k ==> frames[i].channel != channel
        decreases |links| - k
      {
        assert links[k].next == NextOf(links, k);
        cur := cur.next;
        k := k + 1;
      }
      FirstOnIs(frames, channel, k);
      if cur == null {
        return None;
      }
      CutBehind(cur, k);
      r := Some(cur.frame);
    }
  }

  /**
   Taking a frame for one channel loses no other frame if and only if the match is
   the head of the queue (or there is no match).
   */
  lemma TakingConservesExactly(before: seq<Frame>, channel: nat)
    requires FirstOn(before, channel) < |before|
    ensures var k := FirstOn(before, channel);
            multiset(before[k + 1..]) + multiset{before[k]} == multiset(before) <==> before[0].channel == channel
  {
    var k := FirstOn(before, channel);
    var rest, match' := before[k + 1..], before[k];
    assert before[k..] == [match'] + rest;
    assert |multiset(rest) + multiset{match'}| == |before| - k;
    if k == 0 {
      assert before[k..] == before;
    }
  }
}
