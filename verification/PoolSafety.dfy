/**
 Why no memory is recycled under a frame that is queued or half read: the pools of
 amqp_mem.c as amqp_connection.c and amqp_socket.c use them, step by step.
 */
module PoolSafety {
  import opened Wrappers
  import opened FrameParser
  import opened PoolAllocator

  /** `sizeof(amqp_link_t)` and `sizeof(amqp_frame_t)` with 8-octet pointers */
  const LINK_SIZE := 16
  const FRAME_SIZE := 48

  // ------------------------------------------------------------------
  // The pools of a connection
  // ------------------------------------------------------------------

  /** For each channel that has a pool, the blocks it handed out since it was last recycled. */
  type Handed = map<nat, seq<Block>>

  ghost function HandedOn(h: Handed, channel: nat): seq<Block> {
    if channel in h then h[channel] else []
  }

  class Pools {
    const table: PoolTable
    ghost var repr: set<object>

    ghost predicate Valid()
      reads this, repr
    {
      && this in repr && table in repr && table.buckets in repr && table.Valid()
      && forall c :: c in table.pools ==> table.pools[c] in repr && table.pools[c].Valid()
    }

    ghost function Contents(): Handed
      requires Valid()
      reads this, repr
    {
      map c | c in table.pools :: table.pools[c].handed
    }

    constructor (frameMax: nat)
      ensures Valid() && Contents() == map[] && fresh(repr)
    {
      table := new PoolTable(frameMax);
      new;
      repr := {this, table, table.buckets};
    }

    lemma PoolsAreOwn()
      requires Valid()
      ensures table.pools.Values <= repr
    {
    }

    /** `amqp_get_or_create_channel_pool` and `amqp_pool_alloc` */
    method Allocate(channel: nat, amount: nat) returns (block: Option<Block>)
      requires Valid() && amount < SIZE_END
      modifies this, repr
      ensures Valid() && fresh(repr - old(repr))
      ensures block.Some? <==> amount > 0
      ensures Contents() == old(Contents())[channel := HandedOn(old(Contents()), channel)
                                                       + if block.Some? then [block.value] else []]
    {
      hide Pool.Valid, PoolTable.Valid, Advanced, Pool.Position, Landed;
      var pool := Open(channel);
      table.PoolsAreDistinct();
      block := pool.Alloc(amount);
    }

    method Open(channel: nat) returns (pool: Pool)
      requires Valid()
      modifies this, repr
      ensures Valid() && fresh(repr - old(repr))
      ensures channel in table.pools && pool == table.pools[channel] && pool in repr
      ensures Contents() == old(Contents())[channel := HandedOn(old(Contents()), channel)]
    {
      hide Pool.Valid, PoolTable.Valid;
      pool := table.GetOrCreate(channel);
      repr := repr + {pool};
    }

    /** `amqp_get_channel_pool` and `recycle_amqp_pool` */
    method Recycle(channel: nat)
      requires Valid()
      modifies table.pools.Values
      ensures Valid()
      ensures Contents() == if channel in old(Contents()) then old(Contents())[channel := []] else old(Contents())
    {
      hide Pool.Valid, PoolTable.Valid;
      var pool := table.Get(channel);
      table.PoolsAreDistinct();
      if pool.Some? {
        pool.value.Recycle();
      }
    }
  }

  // ------------------------------------------------------------------
  // Frames in the pools
  // ------------------------------------------------------------------

  /** A frame, read or half read: its channel and the blocks its octets and its decoded payload are in. */
  datatype Item = Item(channel: nat, blocks: seq<Block>)

  /** The frame a link of the queue stands for, the link, and the copy of the frame it points to. */
  datatype Queued = Queued(frame: Item, link: Block, copy: Block)

  predicate QueuedOn(queue: seq<Queued>, channel: nat) {
    exists q :: q in queue && q.frame.channel == channel
  }

  /** All blocks of the frame were handed out by its own channel's pool since that was last recycled. */
  ghost predicate Live(h: Handed, frame: Item) {
    forall b :: b in frame.blocks ==> b in HandedOn(h, frame.channel)
  }

  ghost predicate QueueLive(h: Handed, queue: seq<Queued>) {
    forall q :: q in queue ==> Live(h, q.frame) && Live(h, Item(q.frame.channel, [q.link, q.copy]))
  }

  /** The invariant: what is half read, queued or just returned is in memory that was not recycled. */
  ghost predicate Safe(h: Handed, state: State, inbound: Option<Item>, queue: seq<Queued>, hand: Option<Item>) {
    && (state == BODY <==> inbound.Some?)
    && (inbound.Some? ==> Live(h, inbound.value))
    && QueueLive(h, queue)
    && (hand.Some? ==> Live(h, hand.value))
  }

  /** Nothing that `h` holds on any channel is missing from `k`. */
  ghost predicate Kept(h: Handed, k: Handed) {
    forall c :: HandedOn(h, c) <= HandedOn(k, c)
  }

  lemma SafeWithMore(h: Handed, k: Handed, state: State, inbound: Option<Item>, queue: seq<Queued>, hand: Option<Item>)
    requires Safe(h, state, inbound, queue, hand) && Kept(h, k)
    ensures Safe(k, state, inbound, queue, hand)
  {
  }

  lemma SafeWithout(h: Handed, channel: nat, queue: seq<Queued>, hand: Option<Item>)
    requires Safe(h, IDLE, None, queue, hand) && !QueuedOn(queue, channel)
    ensures Safe(h[channel := []], IDLE, None, queue, StillGood(hand, channel))
  {
    forall q | q in queue ensures q.frame.channel != channel {
    }
  }

  /** A frame in a caller's hand is lost when its channel is released. */
  function StillGood(hand: Option<Item>, released: nat): Option<Item> {
    if hand.Some? && hand.value.channel == released then None else hand
  }

  /** What the library does with a frame, before anything else happens: it returns, queues or puts it back. */
  datatype Fate = IsReturned | IsQueued | IsPutBack

  function Links(fate: Fate): nat {
    if fate == IsReturned then 0 else 1
  }

  predicate AreSizes(amounts: seq<nat>) {
    forall i :: 0 <= i < |amounts| ==> amounts[i] < SIZE_END
  }

  /**
   What parsing, the queue, waiting, RPCs and releasing are made of. A frame is queued
   or put back by the call that read it or took it, with nothing released in between.
   */
  datatype Step =
    | HeaderBegins
    | ServerHeader(fate: Fate)
    | BodyBegins(channel: nat, size: nat)
    | FrameIgnored(amounts: seq<nat>)
    | FrameRead(amounts: seq<nat>, fate: Fate)
    | FrameTaken(k: nat, fate: Fate)
    | ReleaseOnChannel(channel: nat)
    | ReleaseAll

  /** The number of requests that hand out a block. */
  ghost function Nonzero(amounts: seq<nat>): nat {
    if amounts == [] then 0
    else Nonzero(amounts[..|amounts| - 1]) + if amounts[|amounts| - 1] > 0 then 1 else 0
  }

  class Memory {
    const pools: Pools
    var state: State
    /** The frame being read, from when its size is known. */
    var inbound: Option<Item>
    var queue: seq<Queued>
    /** The frame that was last returned and is still good. */
    var hand: Option<Item>

    ghost predicate Valid()
      reads this, pools, pools.repr
    {
      this !in pools.repr && pools.Valid() && Safe(pools.Contents(), state, inbound, queue, hand)
    }

    constructor (frameMax: nat)
      ensures Valid() && queue == [] && state == INITIAL && fresh(pools.repr)
    {
      pools := new Pools(frameMax);
      state, inbound, queue, hand := INITIAL, None, [], None;
    }

    /** A block from the pool of a channel; all that was live stays so. */
    method Allocate(channel: nat, amount: nat) returns (block: Option<Block>)
      requires Valid() && amount < SIZE_END
      modifies pools, pools.repr
      ensures Valid() && fresh(pools.repr - old(pools.repr))
      ensures block.Some? <==> amount > 0
      ensures Kept(old(pools.Contents()), pools.Contents())
      ensures block.Some? ==> block.value in HandedOn(pools.Contents(), channel)
    {
      hide Safe, Pools.Valid, Pools.Contents;
      ghost var h := pools.Contents();
      block := pools.Allocate(channel, amount);
      SafeWithMore(h, pools.Contents(), state, inbound, queue, hand);
    }

    /** The first octet of a frame's header. */
    method HeaderBegins()
      requires Valid() && state == IDLE
      modifies this`state
      ensures Valid() && state == HEADER
    {
      hide Pools.Valid, Pools.Contents;
      state := HEADER;
    }

    /** The octets of a protocol header are complete. */
    method ServerHeader()
      requires Valid() && state == INITIAL
      modifies this`state, this`hand
      ensures Valid() && state == IDLE && hand == Some(Item(0, []))
    {
      hide Pools.Valid, Pools.Contents;
      state, hand := IDLE, Some(Item(0, []));
    }

    /** The HEADER part of `amqp_handle_input`. */
    method BodyBegins(channel: nat, size: nat)
      requires Valid() && (state == INITIAL || state == HEADER) && 0 < size < SIZE_END
      modifies this`state, this`inbound, pools, pools.repr
      ensures Valid() && fresh(pools.repr - old(pools.repr))
      ensures state == BODY && inbound.Some? && inbound.value.channel == channel
    {
      hide Pools.Valid, Pools.Contents;
      var raw := Allocate(channel, size);
      state, inbound := BODY, Some(Item(channel, [raw.value]));
    }

    /** The BODY part: decoding allocates `amounts` from the same pool. */
    method BodyEnds(amounts: seq<nat>, ignored: bool)
      requires Valid() && state == BODY && AreSizes(amounts)
      modifies this, pools, pools.repr
      ensures Valid() && fresh(pools.repr - old(pools.repr))
      ensures state == IDLE && inbound == None && queue == old(queue)
      ensures if ignored then hand == old(hand)
              else
                hand.Some? && hand.value.channel == old(inbound.value.channel)
                && old(inbound.value.blocks) <= hand.value.blocks
                && |hand.value.blocks| == |old(inbound.value.blocks)| + Nonzero(amounts)
    {
      hide Pools.Valid, Pools.Contents;
      var frame := inbound.value;
      for i := 0 to |amounts|
        invariant Valid() && fresh(pools.repr - old(pools.repr))
        invariant state == BODY && inbound == old(inbound) && queue == old(queue) && hand == old(hand)
        invariant frame.channel == inbound.value.channel && inbound.value.blocks <= frame.blocks
        invariant Live(pools.Contents(), frame) && |frame.blocks| == |inbound.value.blocks| + Nonzero(amounts[..i])
      {
        ghost var h := pools.Contents();
        assert amounts[..i + 1][..i] == amounts[..i];
        var block := Allocate(frame.channel, amounts[i]);
        LiveWithMore(h, pools.Contents(), frame);
        if block.Some? {
          LiveWithBlock(pools.Contents(), frame, block.value);
          frame := Item(frame.channel, frame.blocks + [block.value]);
        }
      }
      assert amounts[..|amounts|] == amounts;
      state, inbound := IDLE, None;
      if !ignored {
        hand := Some(frame);
      }
    }

    /** `amqp_create_link_for_frame` */
    method CreateLink(frame: Item) returns (q: Queued)
      requires Valid() && Live(pools.Contents(), frame)
      modifies pools, pools.repr
      ensures Valid() && fresh(pools.repr - old(pools.repr))
      ensures q.frame == frame && QueueLive(pools.Contents(), [q])
    {
      hide Pools.Valid, Pools.Contents;
      ghost var h := pools.Contents();
      var link := Allocate(frame.channel, LINK_SIZE);
      ghost var k := pools.Contents();
      var copy := Allocate(frame.channel, FRAME_SIZE);
      LiveWithMore(h, k, frame);
      LiveWithMore(k, pools.Contents(), frame);
      LiveWithMore(k, pools.Contents(), Item(frame.channel, [link.value]));
      q := Queued(frame, link.value, copy.value);
    }

    /** `amqp_queue_frame`, and the same steps in `amqp_try_recv` and `simple_rpc_inner`. */
    method QueueFrame()
      requires Valid() && hand.Some?
      modifies this`queue, this`hand, pools, pools.repr
      ensures Valid() && fresh(pools.repr - old(pools.repr))
      ensures |queue| == |old(queue)| + 1 && old(queue) <= queue && queue[|queue| - 1].frame == old(hand.value)
              && hand == None
    {
      hide Pools.Valid, Pools.Contents, Live;
      var q := CreateLink(hand.value);
      queue, hand := queue + [q], None;
      assert q in [q];
    }

    /** `amqp_put_back_frame` */
    method PutBackFrame()
      requires Valid() && hand.Some?
      modifies this`queue, this`hand, pools, pools.repr
      ensures Valid() && fresh(pools.repr - old(pools.repr))
      ensures |queue| == |old(queue)| + 1 && queue[1..] == old(queue) && queue[0].frame == old(hand.value)
              && hand == None
    {
      hide Pools.Valid, Pools.Contents, Live;
      var q := CreateLink(hand.value);
      queue, hand := [q] + queue, None;
      assert q in [q];
    }

    /** The queue is cut behind its `k`-th link, whose frame is returned. */
    method TakeFrame(k: nat)
      requires Valid() && k < |queue|
      modifies this`queue, this`hand
      ensures Valid() && queue == old(queue)[k + 1..] && hand == Some(old(queue)[k].frame)
    {
      hide Pools.Valid, Pools.Contents, Live;
      assert queue[k] in queue;
      hand, queue := Some(queue[k].frame), queue[k + 1..];
    }

    /** `amqp_maybe_release_buffers_on_channel`: exactly when the channel's memory is recycled. */
    method ReleaseOnChannel(channel: nat)
      requires Valid()
      modifies this`hand, pools.table.pools.Values
      ensures Valid()
      ensures pools.Contents()
           == if state == IDLE && !QueuedOn(queue, channel) && channel in old(pools.Contents())
              then old(pools.Contents())[channel := []] else old(pools.Contents())
      ensures hand == if state == IDLE && !QueuedOn(queue, channel) then StillGood(old(hand), channel) else old(hand)
    {
      hide Pools.Valid, Pools.Contents, Safe;
      if state != IDLE {
        return;
      }
      for i := 0 to |queue|
        invariant forall k :: 0 <= k < i ==> queue[k].frame.channel != channel
      {
        if queue[i].frame.channel == channel {
          assert queue[i] in queue;
          return;
        }
      }
      ghost var h := pools.Contents();
      assert inbound == None by {
        IdleHasNoInbound(h, inbound, queue, hand);
      }
      SafeWithout(h, channel, queue, hand);
      pools.Recycle(channel);
      SafeHandShrinks(h, state, inbound, queue, hand, channel);
      hand := StillGood(hand, channel);
    }

    /** `amqp_release_buffers`, which demands the idle state: every channel without a queued frame is recycled. */
    method ReleaseAll()
      requires Valid() && state == IDLE
      modifies this`hand, pools.table.pools.Values
      ensures Valid()
      ensures pools.Contents() == Released(old(pools.Contents()), old(pools.Contents()).Keys, queue)
      ensures hand == old(hand) || (hand == None && !QueuedOn(queue, old(hand).value.channel))
    {
      hide QueuedOn, Safe, HasChannel, ChainOf, Linked, Released;
      ghost var h, done := pools.Contents(), {};
      var table := pools.table;
      NothingReleased(h, queue);
      for b := 0 to POOL_TABLE_SIZE
        invariant Valid() && h.Keys == table.pools.Keys
        invariant pools.Contents() == Released(h, done, queue)
        invariant hand == old(hand) || (hand == None && !QueuedOn(queue, old(hand).value.channel))
        invariant forall k: int, e: PoolEntry :: 0 <= k < b && e in table.chains[k] ==> e.channel in done
      {
        assert table.buckets[b] == table.buckets[..][b];
        done := ReleaseBucket(table.buckets[b], table.chains[b], h, done);
      }
      AllReleased(table, done);
      AllOfThem(h, done, queue);
    }

    /** The inner loop: one bucket of the table. */
    method ReleaseBucket(head: PoolEntry?, ghost chain: seq<PoolEntry>, ghost h: Handed, ghost done: set<nat>)
      returns (ghost done': set<nat>)
      requires Valid() && state == IDLE && Linked(head, chain)
      requires pools.Contents() == Released(h, done, queue)
      modifies this`hand, pools.table.pools.Values
      ensures Valid()
      ensures pools.Contents() == Released(h, done', queue)
      ensures hand == old(hand) || (hand == None && !QueuedOn(queue, old(hand).value.channel))
      ensures done' == done + set e | e in chain :: e.channel
    {
      hide QueuedOn, Safe, Pools.Valid, Pools.Contents, Released;
      var entry := head;
      ghost var rest := chain;
      done' := done;
      while entry != null
        invariant Valid() && pools.Contents() == Released(h, done', queue)
        invariant hand == old(hand) || (hand == None && !QueuedOn(queue, old(hand).value.channel))
        invariant Linked(entry, rest)
        invariant done' + (set e | e in rest :: e.channel) == done + set e | e in chain :: e.channel
        decreases |rest|
      {
        ReleasedOneMore(h, done', queue, entry.channel);
        ReleaseOnChannel(entry.channel);
        done' := done' + {entry.channel};
        assert rest == [entry] + rest[1..];
        entry, rest := entry.next, rest[1..];
      }
    }

    lemma AllReleased(table: PoolTable, done: set<nat>)
      requires table.Valid() && forall k: int, e: PoolEntry :: 0 <= k < POOL_TABLE_SIZE && e in table.chains[k] ==>
                 e.channel in done
      ensures table.pools.Keys <= done
    {
      forall c | c in table.pools ensures c in done {
        assert HasChannel(table.chains[c % POOL_TABLE_SIZE], c);
      }
    }

    /** What becomes of the frame in hand. */
    method Settle(fate: Fate)
      requires Valid() && hand.Some?
      modifies this`queue, this`hand, pools, pools.repr
      ensures Valid() && fresh(pools.repr - old(pools.repr))
      ensures match fate
              case IsReturned => queue == old(queue) && hand == old(hand)
              case IsQueued =>
                |queue| == |old(queue)| + 1 && old(queue) <= queue && queue[|queue| - 1].frame == old(hand.value)
              case IsPutBack =>
                |queue| == |old(queue)| + 1 && queue[1..] == old(queue) && queue[0].frame == old(hand.value)
    {
      hide Pools.Valid, Pools.Contents, Safe;
      match fate {
        case IsReturned =>
        case IsQueued => QueueFrame();
        case IsPutBack => PutBackFrame();
      }
    }

    /** One step of a run; a step that the parser cannot take in its state does nothing. */
    method Perform(step: Step)
      requires Valid()
      modifies this, pools, pools.repr
      ensures Valid() && fresh(pools.repr - old(pools.repr))
      ensures step.FrameRead? && old(state) == BODY && AreSizes(step.amounts) ==>
                |queue| == |old(queue)| + Links(step.fate)
      ensures step.FrameTaken? && step.k < |old(queue)| ==> |queue| == |old(queue)| - (step.k + 1) + Links(step.fate)
      ensures step.HeaderBegins? && old(state) == IDLE ==> state == HEADER && queue == old(queue)
      ensures step.BodyBegins? && (old(state) == INITIAL || old(state) == HEADER) && 0 < step.size < SIZE_END ==>
                state == BODY && inbound.Some? && inbound.value.channel == step.channel && queue == old(queue)
      ensures step.FrameIgnored? && old(state) == BODY && AreSizes(step.amounts) ==>
                state == IDLE && queue == old(queue)
      ensures step.ReleaseOnChannel? ==>
                && state == old(state) && inbound == old(inbound) && queue == old(queue)
                && pools.Contents()
                == if state == IDLE && !QueuedOn(queue, step.channel) && step.channel in old(pools.Contents())
                   then old(pools.Contents())[step.channel := []] else old(pools.Contents())
      ensures step.ReleaseAll? && old(state) == IDLE ==>
                && state == IDLE && queue == old(queue)
                && pools.Contents() == Released(old(pools.Contents()), old(pools.Contents()).Keys, queue)
    {
      hide Pools.Valid, Pools.Contents, Safe, Released, QueuedOn;
      pools.PoolsAreOwn();
      match step {
        case HeaderBegins =>
          if state == IDLE {
            HeaderBegins();
          }
        case ServerHeader(fate) =>
          if state == INITIAL {
            ServerHeader();
            Settle(fate);
          }
        case BodyBegins(channel, size) =>
          if (state == INITIAL || state == HEADER) && 0 < size < SIZE_END {
            BodyBegins(channel, size);
          }
        case FrameIgnored(amounts) =>
          if state == BODY && AreSizes(amounts) {
            BodyEnds(amounts, true);
          }
        case FrameRead(amounts, fate) =>
          if state == BODY && AreSizes(amounts) {
            BodyEnds(amounts, false);
            Settle(fate);
          }
        case FrameTaken(k, fate) =>
          if k < |queue| {
            TakeFrame(k);
            Settle(fate);
          }
        case ReleaseOnChannel(channel) =>
          ReleaseOnChannel(channel);
        case ReleaseAll =>
          if state == IDLE {
            ReleaseAll();
          }
      }
    }

    /**
     No recycle under a queued or half-read frame: whatever steps are taken, in whatever
     order, the invariant holds after each.
     */
    method Run(steps: seq<Step>)
      requires Valid()
      modifies this, pools, pools.repr
      ensures Valid()
      ensures forall q :: q in queue ==>
                && Live(pools.Contents(), q.frame)
                && q.link in HandedOn(pools.Contents(), q.frame.channel)
                && q.copy in HandedOn(pools.Contents(), q.frame.channel)
      ensures state == BODY ==> inbound.Some? && Live(pools.Contents(), inbound.value)
    {
      hide Pools.Valid, Pools.Contents, Live;
      for i := 0 to |steps|
        invariant Valid() && fresh(pools.repr - old(pools.repr))
      {
        Perform(steps[i]);
      }
      forall q | q in queue
        ensures Live(pools.Contents(), q.frame)
             && q.link in HandedOn(pools.Contents(), q.frame.channel)
             && q.copy in HandedOn(pools.Contents(), q.frame.channel)
      {
        LinkIsLive(pools.Contents(), queue, q);
      }
    }
  }

  lemma AllOfThem(h: Handed, done: set<nat>, queue: seq<Queued>)
    requires h.Keys <= done
    ensures Released(h, done, queue) == Released(h, h.Keys, queue)
  {
  }

  lemma NothingReleased(h: Handed, queue: seq<Queued>)
    ensures Released(h, {}, queue) == h
  {
  }

  /** What is left when the channels in `done` were released. */
  ghost function Released(h: Handed, done: set<nat>, queue: seq<Queued>): Handed {
    map c | c in h :: if c in done && !QueuedOn(queue, c) then [] else h[c]
  }

  lemma ReleasedOneMore(h: Handed, done: set<nat>, queue: seq<Queued>, c: nat)
    ensures Released(h, done, queue).Keys == h.Keys
    ensures Released(h, done + {c}, queue)
         == if !QueuedOn(queue, c) && c in h then Released(h, done, queue)[c := []] else Released(h, done, queue)
  {
    hide QueuedOn;
  }

  lemma LinkIsLive(h: Handed, queue: seq<Queued>, q: Queued)
    requires QueueLive(h, queue) && q in queue
    ensures Live(h, q.frame) && q.link in HandedOn(h, q.frame.channel) && q.copy in HandedOn(h, q.frame.channel)
  {
    var bookkeeping := Item(q.frame.channel, [q.link, q.copy]);
    assert q.link in bookkeeping.blocks && q.copy in bookkeeping.blocks;
  }

  lemma IdleHasNoInbound(h: Handed, inbound: Option<Item>, queue: seq<Queued>, hand: Option<Item>)
    requires Safe(h, IDLE, inbound, queue, hand)
    ensures inbound == None
  {
  }

  lemma SafeHandShrinks(h: Handed, state: State, inbound: Option<Item>, queue: seq<Queued>, hand: Option<Item>,
                        channel: nat)
    requires Safe(h, state, inbound, queue, hand)
    ensures Safe(h, state, inbound, queue, StillGood(hand, channel))
  {
  }

  lemma LiveWithMore(h: Handed, k: Handed, frame: Item)
    requires Live(h, frame) && Kept(h, k)
    ensures Live(k, frame)
  {
  }

  lemma LiveWithBlock(h: Handed, frame: Item, b: Block)
    requires Live(h, frame) && b in HandedOn(h, frame.channel)
    ensures Live(h, Item(frame.channel, frame.blocks + [b]))
  {
  }
}
