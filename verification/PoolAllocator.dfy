/**
 The bump allocator of amqp_mem.c, and the table that holds one pool a channel.
 Memory never runs out here; what is allocated is assumed to be 8-aligned at its start.
 */
module PoolAllocator {
  import opened Wrappers
  import opened Octets

  const DEFAULT_PAGE_SIZE := 4096
  /** One more than the largest `size_t`. */
  const SIZE_END := 0x1_0000_0000_0000_0000

  /** `(amount + 7) & ~7`, with the wrap-around of `size_t`. */
  function Rounded(amount: nat): nat
    requires amount < SIZE_END
  {
    (amount + 7) % SIZE_END / 8 * 8
  }

  /** A block is large enough for what was asked exactly when the rounding does not wrap around. */
  lemma RoundedCoversExactly(amount: nat)
    requires amount < SIZE_END
    ensures Rounded(amount) % 8 == 0 && Rounded(amount) < amount + 8
    ensures Rounded(amount) >= amount <==> amount <= SIZE_END - 8
  {
    var sum := (amount + 7) % SIZE_END;
    assert sum / 8 * 8 == sum - sum % 8;
    if amount > SIZE_END - 8 {
      assert sum == amount + 7 - SIZE_END;
    } else {
      assert sum == amount + 7;
    }
  }

  // ------------------------------------------------------------------
  // Where allocations go
  // ------------------------------------------------------------------

  datatype Place = InPage(page: nat, offset: nat) | InLarge(index: nat)

  /** What the next position depends on. */
  datatype Cursor = Cursor(nextPage: nat, used: nat, large: nat)

  const START := Cursor(0, 0, 0)

  predicate FitsPage(pagesize: nat, c: Cursor, n: nat) {
    c.nextPage > 0 && c.used + n <= pagesize
  }

  function PlaceFor(pagesize: nat, c: Cursor, amount: nat): Option<Place>
    requires amount < SIZE_END
  {
    if amount == 0 then None
    else if Rounded(amount) > pagesize then Some(InLarge(c.large))
    else if FitsPage(pagesize, c, Rounded(amount)) then Some(InPage(c.nextPage - 1, c.used))
    else Some(InPage(c.nextPage, 0))
  }

  function Advanced(pagesize: nat, c: Cursor, amount: nat): (c': Cursor)
    requires amount < SIZE_END
    ensures c.nextPage <= c'.nextPage
  {
    var n := Rounded(amount);
    if amount == 0 then c
    else if n > pagesize then c.(large := c.large + 1)
    else if FitsPage(pagesize, c, n) then c.(used := c.used + n)
    else Cursor(c.nextPage + 1, n, c.large)
  }

  predicate Requests(amounts: seq<nat>) {
    forall i :: 0 <= i < |amounts| ==> amounts[i] < SIZE_END
  }

  function CursorAfter(pagesize: nat, c: Cursor, amounts: seq<nat>): (c': Cursor)
    requires Requests(amounts)
    ensures c.nextPage <= c'.nextPage
    decreases |amounts|
  {
    if amounts == [] then c else
      var last := |amounts| - 1;
      Advanced(pagesize, CursorAfter(pagesize, c, amounts[..last]), amounts[last])
  }

  // ------------------------------------------------------------------
  // The pool
  // ------------------------------------------------------------------

  /** What a caller is given: `size` octets of `base` from `offset` on. */
  datatype Block = Block(base: array<byte>, offset: nat, size: nat)

  predicate Disjoint(a: Block, b: Block) {
    a.base != b.base || a.offset + a.size <= b.offset || b.offset + b.size <= a.offset
  }

  /** The block, if any, is what the model's place stands for. */
  ghost predicate Landed(pages: seq<array<byte>>, large: seq<array<byte>>, block: Option<Block>, place: Option<Place>) {
    && (block.None? <==> place.None?)
    && match place
       case None => true
       case Some(InPage(page, offset)) =>
         block.Some? && page < |pages| && block.value.base == pages[page] && block.value.offset == offset
       case Some(InLarge(index)) =>
         block.Some? && index < |large| && block.value.base == large[index] && block.value.offset == 0
  }

  class Pool {
    const pagesize: nat
    var pages: seq<array<byte>>
    var large: seq<array<byte>>
    var nextPage: nat
    var allocBlock: array?<byte>
    var allocUsed: nat
    /** The blocks handed out since the last recycle. */
    ghost var handed: seq<Block>

    ghost function Position(): Cursor
      reads this
    {
      Cursor(nextPage, if allocBlock == null then 0 else allocUsed, |large|)
    }

    /** All octets of the block are in the used part of one page or in a large block. */
    ghost predicate Inside(b: Block)
      requires nextPage <= |pages|
      reads this
    {
      && b.offset % 8 == 0 && b.offset + b.size <= b.base.Length
      && (b.base in large
          || (b.base in pages[..nextPage] && (b.base == allocBlock ==> b.offset + b.size <= allocUsed)))
    }

    ghost predicate PagesValid()
      reads this
    {
      && pagesize > 0 && nextPage <= |pages|
      && (forall i :: 0 <= i < |pages| ==> pages[i].Length == pagesize)
      && (forall i, j :: 0 <= i < j < |pages| ==> pages[i] != pages[j])
      && (forall i, j :: 0 <= i < j < |large| ==> large[i] != large[j])
      && (forall a :: a in large ==> a !in pages)
      && (if nextPage == 0 then allocBlock == null
          else allocBlock == pages[nextPage - 1] && allocUsed <= pagesize && allocUsed % 8 == 0)
    }

    ghost predicate Valid()
      reads this
    {
      && PagesValid()
      && (forall b :: b in handed ==> Inside(b))
      && (forall i, j :: 0 <= i < j < |handed| ==> Disjoint(handed[i], handed[j]))
    }

    /** `init_amqp_pool` */
    constructor (pagesize: nat)
      ensures Valid() && handed == [] && Position() == START && pages == []
      ensures this.pagesize == if pagesize == 0 then DEFAULT_PAGE_SIZE else pagesize
    {
      this.pagesize := if pagesize == 0 then DEFAULT_PAGE_SIZE else pagesize;
      pages, large, nextPage, allocBlock, allocUsed, handed := [], [], 0, null, 0, [];
    }

    /** `recycle_amqp_pool`: large blocks are given back, pages are kept for reuse. */
    method Recycle()
      requires Valid()
      modifies this
      ensures Valid() && handed == [] && Position() == START && pages == old(pages)
      ensures large == [] && allocUsed == 0
    {
      large, nextPage, allocBlock, allocUsed, handed := [], 0, null, 0, [];
    }

    /**
     `amqp_pool_alloc`: the block is where the model says, inside one page or large
     block, and overlaps no block handed out since the last recycle.
     */
    method Alloc(amount: nat) returns (r: Option<Block>)
      requires Valid() && amount < SIZE_END
      modifies this
      ensures Valid()
      ensures Landed(pages, large, r, PlaceFor(pagesize, old(Position()), amount))
      ensures (r.Some? <==> amount > 0) && (r.Some? ==> r.value.size == Rounded(amount))
      ensures Position() == Advanced(pagesize, old(Position()), amount)
      ensures handed == old(handed) + (if r.Some? then [r.value] else [])
      ensures old(pages) <= pages && |pages| == if nextPage > |old(pages)| then nextPage else |old(pages)|
      ensures old(large) <= large
      ensures forall a :: a in pages ==> a in old(pages) || fresh(a)
    {
      hide Rounded, Disjoint;
      if amount == 0 {
        return None;
      }
      RoundedCoversExactly(amount);
      var n := Rounded(amount);
      var b;
      if n > pagesize {
        b := AllocLarge(n);
      } else if allocBlock != null && allocUsed + n <= pagesize {
        b := AllocHere(n);
      } else {
        b := AllocPage(n);
      }
      r := Some(b);
    }

    method AllocLarge(n: nat) returns (b: Block)
      requires Valid() && n % 8 == 0
      modifies this`large, this`handed
      ensures Valid() && handed == old(handed) + [b] && b.size == n
      ensures large == old(large) + [b.base] && b.offset == 0
    {
      var base := new byte[n];
      b := Block(base, 0, n);
      large, handed := large + [base], handed + [b];
      assert forall a :: a in large ==> a !in pages;
      forall i | 0 <= i < |handed| - 1 ensures Disjoint(handed[i], b) {
        assert handed[i] in old(handed);
      }
    }

    method AllocHere(n: nat) returns (b: Block)
      requires Valid() && n % 8 == 0 && allocBlock != null && allocUsed + n <= pagesize
      modifies this`allocUsed, this`handed
      ensures Valid() && handed == old(handed) + [b] && b.size == n
      ensures b.base == allocBlock && b.offset == old(allocUsed) && allocUsed == old(allocUsed) + n
    {
      b := Block(allocBlock, allocUsed, n);
      allocUsed, handed := allocUsed + n, handed + [b];
      assert allocBlock == pages[..nextPage][nextPage - 1];
      forall i | 0 <= i < |handed| - 1 ensures Disjoint(handed[i], b) {
        assert handed[i] in old(handed);
        assert allocBlock in pages;
      }
    }

    method AllocPage(n: nat) returns (b: Block)
      requires Valid() && n % 8 == 0 && n <= pagesize
      modifies this
      ensures Valid() && handed == old(handed) + [b] && b.size == n && large == old(large)
      ensures nextPage == old(nextPage) + 1 && allocUsed == n && b.offset == 0 && b.base == pages[old(nextPage)]
      ensures old(pages) <= pages && |pages| == if nextPage > |old(pages)| then nextPage else |old(pages)|
      ensures forall a :: a in pages ==> a in old(pages) || fresh(a)
    {
      if nextPage >= |pages| {
        var page := new byte[pagesize];
        allocBlock := page;
        pages := pages + [page];
        nextPage := |pages|;
      } else {
        allocBlock := pages[nextPage];
        nextPage := nextPage + 1;
      }
      allocUsed := n;
      b := Block(allocBlock, 0, n);
      handed := handed + [b];
      assert old(nextPage) < |old(pages)| ==> pages[..old(nextPage)] == old(pages)[..old(nextPage)];
      forall i | 0 <= i < |handed| - 1 ensures Disjoint(handed[i], b) && Inside(handed[i]) {
        assert handed[i] in old(handed);
      }
    }
  }

  // ------------------------------------------------------------------
  // The same requests again
  // ------------------------------------------------------------------

  /** Where the `i`-th of the requests goes. */
  function PlaceOf(pagesize: nat, c: Cursor, amounts: seq<nat>, i: nat): Option<Place>
    requires Requests(amounts) && i < |amounts|
  {
    PlaceFor(pagesize, CursorAfter(pagesize, c, amounts[..i]), amounts[i])
  }

  lemma CursorAfterOneMore(pagesize: nat, c: Cursor, amounts: seq<nat>, i: nat)
    requires Requests(amounts) && i < |amounts|
    ensures CursorAfter(pagesize, c, amounts[..i + 1])
         == Advanced(pagesize, CursorAfter(pagesize, c, amounts[..i]), amounts[i])
  {
    assert amounts[..i + 1][..i] == amounts[..i];
  }

  /** Allocates every amount in turn. */
  method AllocAll(pool: Pool, amounts: seq<nat>) returns (blocks: seq<Option<Block>>)
    requires pool.Valid() && Requests(amounts)
    modifies pool
    ensures pool.Valid() && |blocks| == |amounts|
    ensures AllLanded(pool.pagesize, pool.pages, pool.large, old(pool.Position()), amounts, blocks)
    ensures pool.Position() == CursorAfter(pool.pagesize, old(pool.Position()), amounts)
    ensures old(pool.pages) <= pool.pages
    ensures |pool.pages| == if pool.nextPage > |old(pool.pages)| then pool.nextPage else |old(pool.pages)|
  {
    hide Advanced, PlaceFor, Disjoint;
    ghost var c := pool.Position();
    blocks := [];
    assert amounts[..0] == [];
    for i := 0 to |amounts|
      invariant pool.Valid() && |blocks| == i
      invariant pool.Position() == CursorAfter(pool.pagesize, c, amounts[..i])
      invariant old(pool.pages) <= pool.pages
      invariant |pool.pages| == if pool.nextPage > |old(pool.pages)| then pool.nextPage else |old(pool.pages)|
      invariant AllLanded(pool.pagesize, pool.pages, pool.large, c, amounts, blocks)
    {
      CursorAfterOneMore(pool.pagesize, c, amounts, i);
      var block := pool.Alloc(amounts[i]);
      blocks := blocks + [block];
    }
    assert amounts[..|amounts|] == amounts;
  }

  ghost predicate AllLanded(pagesize: nat, pages: seq<array<byte>>, large: seq<array<byte>>, c: Cursor,
                            amounts: seq<nat>, blocks: seq<Option<Block>>)
    requires Requests(amounts)
  {
    |blocks| <= |amounts|
    && forall i :: 0 <= i < |blocks| ==> Landed(pages, large, blocks[i], PlaceOf(pagesize, c, amounts, i))
  }

  /**
   The same requests after a recycle land in the same places, page for page and octet
   for octet, and the pool creates no page for them.
   */
  method ReplayAfterRecycle(pool: Pool, amounts: seq<nat>)
    returns (first: seq<Option<Block>>, second: seq<Option<Block>>)
    requires pool.Valid() && Requests(amounts)
    modifies pool
    ensures pool.Valid() && |first| == |second| == |amounts|
    ensures forall i :: 0 <= i < |amounts| ==> SamePlace(pool.pagesize, amounts, i, first[i], second[i])
    ensures |pool.pages| == if pool.nextPage > |old(pool.pages)| then pool.nextPage else |old(pool.pages)|
  {
    hide Pool.Valid, CursorAfter;
    pool.Recycle();
    first := AllocAll(pool, amounts);
    ghost var pages := pool.pages;
    pool.Recycle();
    second := AllocAll(pool, amounts);
    assert pool.pages == pages;
  }

  /** Only requests too large for a page get memory of their own each time. */
  predicate SamePlace(pagesize: nat, amounts: seq<nat>, i: nat, a: Option<Block>, b: Option<Block>)
    requires Requests(amounts) && i < |amounts|
  {
    && (a.Some? <==> amounts[i] > 0) && (b.Some? <==> amounts[i] > 0)
    && (a.Some? ==>
          a.value.offset == b.value.offset && (Rounded(amounts[i]) <= pagesize ==> a.value.base == b.value.base))
  }

  // ------------------------------------------------------------------
  // One pool a channel
  // ------------------------------------------------------------------

  const POOL_TABLE_SIZE := 16

  /** `amqp_pool_table_entry_t`; never changed once it is in the table. */
  class PoolEntry {
    const next: PoolEntry?
    const pool: Pool
    const channel: nat

    constructor (next: PoolEntry?, pool: Pool, channel: nat)
      ensures this.next == next && this.pool == pool && this.channel == channel
    {
      this.next, this.pool, this.channel := next, pool, channel;
    }
  }

  /** The entries from `head` on are exactly `chain`. */
  ghost predicate Linked(head: PoolEntry?, chain: seq<PoolEntry>) {
    if chain == [] then head == null else head == chain[0] && Linked(chain[0].next, chain[1..])
  }

  lemma LinkedInFront(e: PoolEntry, chain: seq<PoolEntry>)
    requires Linked(e.next, chain)
    ensures Linked(e, [e] + chain)
  {
    assert ([e] + chain)[1..] == chain;
  }

  /** Bucket `b` holds only channels of its own, each once, with the pools of the mapping. */
  ghost predicate ChainOf(b: nat, chain: seq<PoolEntry>, pools: map<nat, Pool>) {
    && (forall e :: e in chain ==> e.channel % POOL_TABLE_SIZE == b && e.channel in pools && pools[e.channel] == e.pool)
    && (forall i, j :: 0 <= i < j < |chain| ==> chain[i].channel != chain[j].channel)
  }

  ghost predicate HasChannel(chain: seq<PoolEntry>, channel: nat) {
    exists e :: e in chain && e.channel == channel
  }

  lemma ChainUnderNewPool(b: nat, chain: seq<PoolEntry>, pools: map<nat, Pool>, channel: nat, pool: Pool)
    requires ChainOf(b, chain, pools) && channel !in pools
    ensures ChainOf(b, chain, pools[channel := pool])
  {
  }

  lemma ChainWithNewPool(b: nat, chain: seq<PoolEntry>, pools: map<nat, Pool>, e: PoolEntry)
    requires ChainOf(b, chain, pools) && e.channel !in pools && e.channel % POOL_TABLE_SIZE == b
    ensures ChainOf(b, [e] + chain, pools[e.channel := e.pool])
    ensures HasChannel([e] + chain, e.channel)
    ensures forall c :: HasChannel(chain, c) ==> HasChannel([e] + chain, c)
  {
    assert e in [e] + chain;
    forall c | HasChannel(chain, c) ensures HasChannel([e] + chain, c) {
      var f :| f in chain && f.channel == c;
      assert f in [e] + chain;
    }
  }

  /** The buckets stand for the mapping from channels to pools. */
  ghost predicate TableOf(buckets: seq<PoolEntry?>, chains: seq<seq<PoolEntry>>, pools: map<nat, Pool>) {
    && |buckets| == |chains| == POOL_TABLE_SIZE
    && (forall b :: 0 <= b < POOL_TABLE_SIZE ==> Linked(buckets[b], chains[b]))
    && (forall b :: 0 <= b < POOL_TABLE_SIZE ==> ChainOf(b, chains[b], pools))
    && (forall c :: c in pools ==> HasChannel(chains[c % POOL_TABLE_SIZE], c))
    && (forall c, d :: c in pools && d in pools && c != d ==> pools[c] != pools[d])
  }

  lemma TableWithNewPool(buckets: seq<PoolEntry?>, chains: seq<seq<PoolEntry>>, pools: map<nat, Pool>, e: PoolEntry)
    requires TableOf(buckets, chains, pools) && e.channel !in pools
    requires e.next == buckets[e.channel % POOL_TABLE_SIZE]
    requires forall c :: c in pools ==> pools[c] != e.pool
    ensures var b := e.channel % POOL_TABLE_SIZE;
            TableOf(buckets[b := e], chains[b := [e] + chains[b]], pools[e.channel := e.pool])
  {
    hide HasChannel, ChainOf, Linked;
    var b := e.channel % POOL_TABLE_SIZE;
    LinkedInFront(e, chains[b]);
    ChainWithNewPool(b, chains[b], pools, e);
    forall k | 0 <= k < POOL_TABLE_SIZE ensures ChainOf(k, chains[k], pools[e.channel := e.pool]) {
      ChainUnderNewPool(k, chains[k], pools, e.channel, e.pool);
    }
  }

  class PoolTable {
    const frameMax: nat
    const buckets: array<PoolEntry?>
    ghost var chains: seq<seq<PoolEntry>>
    /** What the table stands for. */
    ghost var pools: map<nat, Pool>

    ghost predicate Valid()
      reads this, buckets
    {
      buckets.Length == POOL_TABLE_SIZE && TableOf(buckets[..], chains, pools)
    }

    constructor (frameMax: nat)
      ensures Valid() && pools == map[] && fresh(buckets) && this.frameMax == frameMax
    {
      this.frameMax := frameMax;
      buckets := new PoolEntry?[POOL_TABLE_SIZE](_ => null);
      chains := seq(POOL_TABLE_SIZE, _ => []);
      pools := map[];
    }

    lemma PoolsAreDistinct()
      requires Valid()
      ensures forall c, d :: c in pools && d in pools && c != d ==> pools[c] != pools[d]
    {
    }

    /** `amqp_get_channel_pool` */
    method Get(channel: nat) returns (pool: Option<Pool>)
      requires Valid()
      ensures pool == if channel in pools then Some(pools[channel]) else None
    {
      var entry := buckets[channel % POOL_TABLE_SIZE];
      ghost var chain := chains[channel % POOL_TABLE_SIZE];
      assert entry == buckets[..][channel % POOL_TABLE_SIZE];
      ghost var rest := chain;
      while entry != null
        invariant Linked(entry, rest) && |rest| <= |chain| && rest == chain[|chain| - |rest|..]
        invariant forall i :: 0 <= i < |chain| - |rest| ==> chain[i].channel != channel
        decreases |rest|
      {
        assert rest[0] == chain[|chain| - |rest|];
        if channel == entry.channel {
          return Some(entry.pool);
        }
        entry, rest := entry.next, rest[1..];
      }
      pool := None;
    }

    /** `amqp_get_or_create_channel_pool`: a new entry goes to the front of its bucket. */
    method GetOrCreate(channel: nat) returns (pool: Pool)
      requires Valid()
      modifies this, buckets
      ensures Valid() && channel in pools && pool == pools[channel]
      ensures channel in old(pools) ==> pools == old(pools)
      ensures channel !in old(pools) ==>
                && fresh(pool) && pools == old(pools)[channel := pool]
                && pool.Valid() && pool.handed == [] && pool.pages == []
                && pool.pagesize == if frameMax == 0 then DEFAULT_PAGE_SIZE else frameMax
    {
      var found := Get(channel);
      if found.Some? {
        return found.value;
      }
      hide TableOf;
      var b := channel % POOL_TABLE_SIZE;
      pool := new Pool(frameMax);
      var entry := new PoolEntry(buckets[b], pool, channel);
      assert buckets[..][b] == buckets[b];
      TableWithNewPool(buckets[..], chains, pools, entry);
      ghost var before := buckets[..];
      buckets[b] := entry;
      assert buckets[..] == before[b := entry];
      chains, pools := chains[b := [entry] + chains[b]], pools[channel := pool];
    }
  }
}
