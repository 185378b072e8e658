/**
 The slab allocator, pointers and all: blocks threaded on per-chunk free lists, chunks on
 a doubly linked list, full chunks skipped, empty ones released.
 */
module SlabAllocator {
  import opened LinkedLists
  import opened Options
  import opened Sequences

  /** The hidden header names the owning chunk; a free block's first word is its free-list link. */
  class Block {
    const owner: Chunk
    var nextFree: Block?

    constructor (chunk: Chunk)
      ensures owner == chunk && nextFree == null
    {
      owner, nextFree := chunk, null;
    }
  }

  // ----- Free lists -----

  ghost function BlockAt(free: seq<Block>, i: int): Block? {
    if 0 <= i < |free| then free[i] else null
  }

  /** Following the links from `head` visits exactly these blocks and ends: the list has no cycle. */
  ghost predicate FreeList(head: Block?, free: seq<Block>)
    reads free`nextFree
  {
    && Distinct(free) && head == BlockAt(free, 0)
    && forall i | 0 <= i < |free| :: free[i].nextFree == BlockAt(free, i + 1)
  }

  lemma Prepended(b: Block, free: seq<Block>)
    requires FreeList(b.nextFree, free) && b !in free
    ensures FreeList(b, [b] + free)
  {
    DistinctFront(b, free);
    var now := [b] + free;
    assert forall k | 0 < k < |now| :: now[k] == free[k - 1];
  }

  lemma Popped(b: Block, free: seq<Block>)
    requires FreeList(b, free)
    ensures free != [] && b == free[0] && free == [b] + free[1..] && FreeList(b.nextFree, free[1..]) && b !in free[1..]
  {
  }

  class Chunk {
    var next: Chunk?
    var prev: Chunk?
    var localFree: Block?
    var usedCount: int
    const capacity: nat
    /** The blocks of the chunk, those handed out, and the others in free-list order. */
    ghost var blocks: set<Block>
    ghost var used: set<Block>
    ghost var free: seq<Block>

    constructor (cap: nat)
      ensures next == null && prev == null && localFree == null && usedCount == 0 && capacity == cap
      ensures blocks == {} && used == {} && free == []
    {
      next, prev, localFree, usedCount, capacity := null, null, null, 0, cap;
      blocks, used, free := {}, {}, [];
    }

    ghost function Links(): Ends<Chunk>
      reads this`next, this`prev
    {
      Ends(Maybe(next), Maybe(prev))
    }

    /** Every block is either in use or on the acyclic free list; used + free = capacity. */
    ghost predicate Valid()
      reads this`localFree, this`usedCount, this`blocks, this`used, this`free, blocks`nextFree, free`nextFree
    {
      && |blocks| == capacity && (forall b | b in blocks :: b.owner == this)
      && FreeList(localFree, free)
      && used <= blocks && (forall b | b in free :: b in blocks && b !in used)
      && (forall b | b in blocks :: b in used || b in free)
      && usedCount == |used| && usedCount + |free| == capacity
    }

    /** All of these blocks belong to the chunk and are on this list. */
    ghost predicate Owns(blocks: set<Block>, free: seq<Block>) {
      (forall b | b in blocks :: b.owner == this && b in free) && (forall b | b in free :: b in blocks)
    }

    lemma OwnsMore(blocks: set<Block>, free: seq<Block>, b: Block)
      requires Owns(blocks, free) && b.owner == this && b !in blocks
      ensures Owns(blocks + {b}, [b] + free) && b !in free
    {
      InFront(b, free);
    }

    ghost predicate Building()
      reads this`localFree, this`blocks, this`free, free`nextFree
    {
      |blocks| == |free| && FreeList(localFree, free) && Owns(blocks, free)
    }

    lemma Threaded()
      requires Building() && |blocks| == capacity && used == {} && usedCount == 0
      ensures Valid()
    {
    }

    /** One more block, threaded in front. */
    method AddBlock()
      requires Building()
      modifies this`localFree, this`blocks, this`free
      ensures Building() && fresh(blocks - old(blocks)) && |blocks| == |old(blocks)| + 1
    {
      hide FreeList, Owns;
      var b := new Block(this);
      OwnsMore(blocks, free, b);
      b.nextFree := localFree;
      localFree := b;
      Prepended(b, free);
      blocks, free := blocks + {b}, [b] + free;
    }

    /** Thread `capacity` new blocks on the free list, each in front of the one before. */
    method Thread()
      requires usedCount == 0 && localFree == null && blocks == {} && used == {} && free == []
      modifies this`localFree, this`blocks, this`free
      ensures Valid() && fresh(blocks)
    {
      assert Building();
      hide *;
      for i := 0 to capacity
        invariant Building() && |blocks| == i && fresh(blocks)
      {
        AddBlock();
      }
      Threaded();
    }

    /** Take the first free block. */
    method Pop() returns (b: Block)
      requires Valid() && localFree != null
      modifies this`localFree, this`usedCount, this`used, this`free
      ensures b == old(localFree) && Valid() && b !in old(used) && used == old(used) + {b}
      ensures b in blocks && b.owner == this && usedCount > 0
    {
      Popped(localFree, free);
      hide FreeList;
      b := localFree;
      localFree := b.nextFree;
      usedCount := usedCount + 1;
      InFront(b, free[1..]);
      used, free := used + {b}, free[1..];
    }

    /** Put a block in use back in front of the free list. */
    method Push(b: Block)
      requires Valid() && b in used
      modifies this`localFree, this`usedCount, this`used, this`free, b`nextFree
      ensures Valid() && free == [b] + old(free) && used == old(used) - {b} && usedCount >= 0
    {
      hide FreeList;
      b.nextFree := localFree;
      Prepended(b, free);
      localFree := b;
      usedCount := usedCount - 1;
      InFront(b, free);
      used, free := used - {b}, [b] + free;
    }
  }

  // ----- The list of chunks -----

  ghost function Maybe(c: Chunk?): Option<Chunk> {
    if c == null then None else Some(c)
  }

  ghost predicate LinkedAt(chunks: seq<Chunk>, i: nat)
    reads chunks`next, chunks`prev
  {
    i < |chunks| ==> chunks[i].Links() == Neighbours(chunks, i)
  }

  ghost predicate Links(head: Chunk?, chunks: seq<Chunk>)
    reads chunks`next, chunks`prev
  {
    && Distinct(chunks) && Maybe(head) == At(chunks, 0)
    && forall i: nat | i < |chunks| :: LinkedAt(chunks, i)
  }

  /** How position j is linked once the neighbours of position i have been joined. */
  ghost predicate JoinedAt(was: seq<Chunk>, i: nat, j: nat)
    reads was`next, was`prev
  {
    j < |was| && j != i ==> was[j].Links() == Joined(was, i, j)
  }

  /** The list holds the members and no others. */
  ghost predicate Lists(chunks: seq<Chunk>, members: set<Chunk>) {
    (forall c | c in members :: c in chunks) && (forall c | c in chunks :: c in members)
  }

  lemma ListedFront(chunks: seq<Chunk>, members: set<Chunk>, c: Chunk)
    requires Lists(chunks, members)
    ensures Lists([c] + chunks, members + {c})
  {
    InFront(c, chunks);
  }

  lemma ListedWithout(chunks: seq<Chunk>, members: set<Chunk>, i: nat)
    requires Lists(chunks, members) && Distinct(chunks) && i < |chunks|
    ensures Lists(Without(chunks, i), members - {chunks[i]})
  {
    var now := Without(chunks, i);
    forall c | c in members && c != chunks[i] ensures c in now {
      var k :| 0 <= k < |chunks| && chunks[k] == c;
      assert now[if k < i then k else k - 1] == c;
    }
  }

  /** Where a member is; it has a neighbour unless it is alone. */
  lemma ListedAt(head: Chunk?, chunks: seq<Chunk>, members: set<Chunk>, c: Chunk) returns (i: nat)
    requires Links(head, chunks) && Lists(chunks, members) && c in members
    ensures i < |chunks| && chunks[i] == c
    ensures (c.next != null || c.prev != null) <==> |chunks| > 1
  {
    i :| 0 <= i < |chunks| && chunks[i] == c;
    assert LinkedAt(chunks, i);
  }

  // ----- The chunks together -----

  /** Every chunk is in order, and the live blocks are exactly those in use in some chunk. */
  ghost predicate ChunksOk(members: set<Chunk>, pieces: set<Block>, live: set<Block>, capacity: nat)
    reads members`localFree, members`usedCount, members`blocks, members`used, members`free, pieces`nextFree
  {
    && (forall c | c in members ::
          && c.blocks <= pieces && (forall b | b in c.free :: b in pieces)
          && c.capacity == capacity && c.Valid() && c.used <= live)
    && (forall b | b in live :: b.owner in members && b in b.owner.used)
  }

  ghost predicate Busy(chunks: set<Chunk>)
    reads chunks`usedCount
  {
    forall c | c in chunks :: c.usedCount > 0
  }

  /** A chunk can be looked at apart from the others: their blocks are not its blocks. */
  lemma Apart(members: set<Chunk>, pieces: set<Block>, live: set<Block>, capacity: nat, c: Chunk)
    requires ChunksOk(members, pieces, live, capacity) && c in members
    ensures c.Valid() && c.capacity == capacity && c.used <= c.blocks <= pieces && c.used <= live
    ensures ChunksOk(members - {c}, pieces - c.blocks, live - c.used, capacity)
  {
  }

  /** The others and this one make the whole again. */
  lemma Together(members: set<Chunk>, pieces: set<Block>, rest: set<Block>, live: set<Block>, capacity: nat, c: Chunk)
    requires c in members && c.blocks <= pieces && live == rest + c.used
    requires ChunksOk(members - {c}, pieces - c.blocks, rest, capacity) && c.Valid() && c.capacity == capacity
    ensures ChunksOk(members, pieces, live, capacity)
  {
    forall x | x in members
      ensures x.blocks <= pieces && (forall b | b in x.free :: b in pieces)
      ensures x.capacity == capacity && x.Valid() && x.used <= live
    {
      if x != c { assert x in members - {c}; }
    }
  }

  /** A chunk with no block in use can join and can leave. */
  lemma Joins(members: set<Chunk>, pieces: set<Block>, live: set<Block>, capacity: nat, c: Chunk)
    requires ChunksOk(members, pieces, live, capacity) && c !in members
    requires c.Valid() && c.capacity == capacity && c.usedCount == 0
    ensures ChunksOk(members + {c}, pieces + c.blocks, live, capacity)
  {
  }

  lemma Leaves(members: set<Chunk>, pieces: set<Block>, live: set<Block>, capacity: nat, c: Chunk)
    requires ChunksOk(members, pieces, live, capacity) && c in members && c.usedCount == 0
    ensures ChunksOk(members - {c}, pieces - c.blocks, live, capacity)
  {
    Apart(members, pieces, live, capacity, c);
    assert live - c.used == live;
  }

  lemma First(c: Chunk)
    requires c.Valid() && c.usedCount == 0
    ensures ChunksOk({c}, c.blocks, {}, c.capacity)
  {
  }

  /** A live block is in use in the chunk its header names. */
  lemma LiveOwned(members: set<Chunk>, pieces: set<Block>, live: set<Block>, capacity: nat, b: Block)
    requires ChunksOk(members, pieces, live, capacity) && b in live
    ensures b.owner in members && b in b.owner.used && b in pieces
  {
    assert b.owner.Valid();
  }

  /** The first free block of a chunk is not live. */
  lemma FreeNotLive(members: set<Chunk>, pieces: set<Block>, live: set<Block>, capacity: nat, c: Chunk)
    requires ChunksOk(members, pieces, live, capacity) && c in members && c.localFree != null
    ensures c.localFree !in live
  {
    assert c.Valid();
  }

  /** As many blocks as chunks, when each chunk owns one of them. */
  lemma {:induction false} OwnersCount(chunks: seq<Chunk>, owned: seq<Block>, live: set<Block>)
    requires Distinct(chunks) && |owned| == |chunks|
    requires forall i | 0 <= i < |chunks| :: owned[i] in live && owned[i].owner == chunks[i]
    ensures |chunks| <= |live|
  {
    assert Distinct(owned) by {
      forall i, j | 0 <= i < j < |owned| ensures owned[i] != owned[j] {
        assert chunks[i] != chunks[j];
      }
    }
    DistinctCardinality(owned);
    SubsetCardinality((set b | b in owned), live);
  }

  class SlabPool {
    const chunkCapacity: nat
    var chunksHead: Chunk?
    /** The chunks in list order and as a set, all their blocks, and the blocks handed out and not returned. */
    ghost var chunks: seq<Chunk>
    ghost var members: set<Chunk>
    ghost var pieces: set<Block>
    ghost var live: set<Block>

    /** The list is well linked, every chunk is in order, the live blocks are those in use,
        and no chunk is empty unless it is the only one. */
    ghost predicate Valid()
      reads this, chunks, members, pieces
    {
      && chunks != []
      && Links(chunksHead, chunks) && Lists(chunks, members)
      && ChunksOk(members, pieces, live, chunkCapacity)
      && (|chunks| > 1 ==> Busy(members))
    }

    lemma AllAlive()
      ensures forall c | c in chunks :: allocated(c)
      ensures forall c | c in members :: allocated(c)
      ensures forall b | b in pieces :: allocated(b)
    {
    }

    constructor (capacity: nat)
      ensures Valid() && live == {} && |chunks| == 1 && chunkCapacity == capacity
      ensures fresh(members) && fresh(pieces)
    {
      chunkCapacity := capacity;
      hide Chunk.Valid, ChunksOk, FreeList;
      var c := new Chunk(capacity);
      c.Thread();
      chunksHead := c;
      chunks, members, pieces, live := [c], {c}, c.blocks, {};
      new;
      First(c);
    }

    /** The chunk is on the list and all before it are full. */
    ghost predicate FirstWithSpace(chunk: Chunk)
      reads this`chunks, chunks`localFree
    {
      exists i :: 0 <= i < |chunks| && chunks[i] == chunk && forall k | 0 <= k < i :: chunks[k].localFree == null
    }

    /** The first chunk with a free block; null when all are full. */
    method FindSpace() returns (chunk: Chunk?)
      requires Links(chunksHead, chunks)
      ensures if chunk == null then forall k | 0 <= k < |chunks| :: chunks[k].localFree == null
              else chunk.localFree != null && FirstWithSpace(chunk)
    {
      chunk := chunksHead;
      ghost var i := 0;
      while chunk != null && chunk.localFree == null
        invariant i <= |chunks| && Maybe(chunk) == At(chunks, i)
        invariant forall k | 0 <= k < i :: chunks[k].localFree == null
        decreases |chunks| - i
      {
        assert LinkedAt(chunks, i);
        chunk := chunk.next;
        i := i + 1;
      }
    }

    /** Put a new chunk in front of the list. */
    method LinkFront(chunk: Chunk)
      requires Links(chunksHead, chunks) && chunk !in chunks && chunk.prev == null
      modifies this`chunksHead, this`chunks, chunk`next, chunks`prev
      ensures Links(chunksHead, chunks) && chunks == [chunk] + old(chunks)
    {
      ghost var was := chunks;
      DistinctFront(chunk, chunks);
      chunk.next := chunksHead;
      if chunksHead != null { chunksHead.prev := chunk; }
      chunksHead := chunk;
      chunks := [chunk] + chunks;
      forall k: nat | k < |chunks| ensures LinkedAt(chunks, k) {
        InFrontLinks(chunk, was, k);
        if k > 0 { assert old(LinkedAt(was, k - 1)); }
      }
    }

    /** Full chunks are busy. */
    lemma FullIsBusy()
      requires ChunksOk(members, pieces, live, chunkCapacity) && chunkCapacity > 0 && Lists(chunks, members)
      requires forall k | 0 <= k < |chunks| :: chunks[k].localFree == null
      ensures Busy(members) && forall c | c in members :: c.localFree == null
    {
      forall c | c in members ensures c.usedCount > 0 && c.localFree == null {
        assert c.Valid() && c in chunks;
      }
    }

    lemma FreshChunkHasRoom(c: Chunk)
      requires c.Valid() && c.usedCount == 0 && c.capacity > 0
      ensures c.localFree != null
    {
    }

    /** All chunks are full: one more. */
    method Grow() returns (chunk: Chunk)
      requires Links(chunksHead, chunks) && Lists(chunks, members) && ChunksOk(members, pieces, live, chunkCapacity)
      requires chunkCapacity > 0
      modifies this`chunksHead, this`chunks, this`members, this`pieces, chunks`prev
      ensures Links(chunksHead, chunks) && Lists(chunks, members) && ChunksOk(members, pieces, live, chunkCapacity)
      ensures chunk.localFree != null && chunks == [chunk] + old(chunks)
      ensures fresh(chunk) && members == old(members) + {chunk}
      ensures old(pieces) <= pieces && fresh(pieces - old(pieces))
    {
      hide Links, Lists, ChunksOk, Chunk.Valid;
      chunk := new Chunk(chunkCapacity);
      chunk.Thread();
      FreshChunkHasRoom(chunk);
      LinkFront(chunk);
      ListedFront(old(chunks), members, chunk);
      Joins(members, pieces, live, chunkCapacity, chunk);
      members, pieces := members + {chunk}, pieces + chunk.blocks;
    }

    /** A chunk with a free block, found or made. */
    method ChunkWithSpace() returns (chunk: Chunk)
      requires Valid() && chunkCapacity > 0
      modifies this`chunksHead, this`chunks, this`members, this`pieces, members`prev
      ensures Links(chunksHead, chunks) && Lists(chunks, members) && ChunksOk(members, pieces, live, chunkCapacity)
      ensures chunks != []
      ensures chunk in members && chunk.localFree != null && (|chunks| > 1 ==> Busy(members - {chunk}))
      ensures FirstWithSpace(chunk)
      ensures fresh(members - old(members)) && fresh(pieces - old(pieces))
      ensures chunks == old(chunks) || (fresh(chunk) && chunks == [chunk] + old(chunks))
      ensures chunks != old(chunks) ==> forall c | c in old(members) :: old(c.localFree) == null
    {
      ListMembers();
      hide Links, Lists, ChunksOk;
      var found := FindSpace();
      if found == null {
        FullIsBusy();
        hide Busy;
        chunk := Grow();
        assert chunks[0] == chunk;
        assert members - {chunk} == old(members);
      } else {
        chunk := found;
      }
    }

    /** A block that nobody holds, from the first chunk that has one; chunks without blocks would have none to give. */
    method Alloc() returns (b: Block)
      requires Valid() && chunkCapacity > 0
      modifies this, members, pieces
      ensures Valid() && fresh(members - old(members)) && fresh(pieces - old(pieces))
      ensures b !in old(live) && live == old(live) + {b}
      ensures exists i :: 0 <= i < |chunks| && chunks[i] == b.owner && forall k | 0 <= k < i :: chunks[k].localFree == null
      ensures chunks == old(chunks) || (fresh(chunks[0]) && chunks == [chunks[0]] + old(chunks))
      ensures chunks != old(chunks) ==> forall c | c in old(members) :: old(c.localFree) == null
    {
      hide Links, Lists, ChunksOk, FirstWithSpace;
      var chunk := ChunkWithSpace();
      ghost var i := Place(chunk);
      b := Take(chunk);
      live := live + {b};
    }

    lemma Place(chunk: Chunk) returns (i: nat)
      requires FirstWithSpace(chunk)
      ensures i < |chunks| && chunks[i] == chunk && forall k | 0 <= k < i :: chunks[k].localFree == null
    {
      i :| i < |chunks| && chunks[i] == chunk && forall k | 0 <= k < i :: chunks[k].localFree == null;
    }

    lemma ListMembers()
      requires Lists(chunks, members)
      ensures forall c | c in chunks :: c in members
    {
    }

    /** Hand out the first free block of a chunk. */
    method Take(chunk: Chunk) returns (b: Block)
      requires ChunksOk(members, pieces, live, chunkCapacity) && chunk in members && chunk.localFree != null
      modifies chunk`localFree, chunk`usedCount, chunk`used, chunk`free
      ensures ChunksOk(members, pieces, live + {b}, chunkCapacity) && chunk.usedCount > 0
      ensures b !in live && b.owner == chunk
    {
      hide *;
      FreeNotLive(members, pieces, live, chunkCapacity, chunk);
      Apart(members, pieces, live, chunkCapacity, chunk);
      ghost var u := chunk.used;
      b := chunk.Pop();
      assert ChunksOk(members - {chunk}, pieces - chunk.blocks, live - u, chunkCapacity);
      assert live + {b} == live - u + chunk.used;
      Together(members, pieces, live - u, live + {b}, chunkCapacity, chunk);
    }

    /** The block goes back; a chunk left empty is released unless it is the only one. */
    method Free(b: Block)
      requires Valid() && b in live
      modifies this, members, pieces
      ensures Valid() && members <= old(members) && pieces <= old(pieces)
      ensures live == old(live) - {b}
      ensures chunks == old(chunks) || exists i :: 0 <= i < |old(chunks)| && old(chunks)[i] == b.owner
                                               && chunks == Without(old(chunks), i)
    {
      LiveOwned(members, pieces, live, chunkCapacity, b);
      ListMembers();
      var chunk := b.owner;
      ghost var i := ListedAt(chunksHead, chunks, members, chunk);
      hide Links, Lists, ChunksOk;
      GiveBack(b);
      if chunk.usedCount == 0 && (chunk.next != null || chunk.prev != null) {
        Release(chunk, i);
      }
    }

    method GiveBack(b: Block)
      requires ChunksOk(members, pieces, live, chunkCapacity) && b in live
      modifies this`live, b`nextFree, b.owner`localFree, b.owner`usedCount, b.owner`used, b.owner`free
      ensures ChunksOk(members, pieces, live, chunkCapacity) && b.owner.usedCount >= 0
      ensures live == old(live) - {b}
    {
      hide ChunksOk, Chunk.Valid;
      var chunk := b.owner;
      ghost var u, was := chunk.used, live;
      LiveOwned(members, pieces, live, chunkCapacity, b);
      Apart(members, pieces, live, chunkCapacity, chunk);
      chunk.Push(b);
      assert live - {b} == live - u + chunk.used;
      live := live - {b};
      Together(members, pieces, was - u, live, chunkCapacity, chunk);
    }

    /** Join the neighbours of a chunk; the head moves on if it was first. */
    method JoinNeighbours(chunk: Chunk, ghost i: nat)
      requires Links(chunksHead, chunks) && i < |chunks| && chunks[i] == chunk
      modifies this`chunksHead, chunks`next, chunks`prev
      ensures Distinct(chunks) && Maybe(chunksHead) == At(chunks, if i == 0 then 1 else 0)
      ensures forall j: nat | j < |chunks| :: JoinedAt(chunks, i, j)
    {
      assert LinkedAt(chunks, i);
      if chunk.prev != null { chunk.prev.next := chunk.next; }
      if chunk.next != null { chunk.next.prev := chunk.prev; }
      if chunksHead == chunk { chunksHead := chunk.next; }
      hide Links;
      forall j: nat | j < |chunks| ensures JoinedAt(chunks, i, j) {
        assert old(LinkedAt(chunks, j));
      }
    }

    method Unlink(chunk: Chunk, ghost i: nat)
      requires Links(chunksHead, chunks) && i < |chunks| && chunks[i] == chunk
      modifies this`chunksHead, this`chunks, chunks`next, chunks`prev
      ensures Links(chunksHead, chunks) && chunks == Without(old(chunks), i)
    {
      JoinNeighbours(chunk, i);
      HeadWithout(chunks, i);
      DistinctWithout(chunks, i);
      hide Distinct, At, Without;
      forall k: nat | k < |chunks| - 1 ensures LinkedAt(Without(chunks, i), k) {
        JoinedIsWithout(chunks, i, k);
        assert JoinedAt(chunks, i, if k < i then k else k + 1);
      }
      chunks := Without(chunks, i);
    }

    /** An empty chunk leaves the pool. */
    method Release(chunk: Chunk, ghost i: nat)
      requires Links(chunksHead, chunks) && Lists(chunks, members) && ChunksOk(members, pieces, live, chunkCapacity)
      requires chunk in members && chunk.usedCount == 0 && i < |chunks| && chunks[i] == chunk
      modifies this`chunks, this`chunksHead, this`members, this`pieces, chunks`next, chunks`prev
      ensures Links(chunksHead, chunks) && Lists(chunks, members) && ChunksOk(members, pieces, live, chunkCapacity)
      ensures members == old(members) - {chunk} && pieces <= old(pieces)
      ensures chunks == Without(old(chunks), i)
    {
      Leaves(members, pieces, live, chunkCapacity, chunk);
      ListedWithout(chunks, members, i);
      hide Links, Lists, ChunksOk, Chunk.Valid;
      Unlink(chunk, i);
      members, pieces := members - {chunk}, pieces - chunk.blocks;
    }

    /** A busy chunk owns a live block. */
    lemma SomeLive(c: Chunk) returns (b: Block)
      requires ChunksOk(members, pieces, live, chunkCapacity) && Busy(members) && c in members
      ensures b in live && b.owner == c
    {
      assert c.Valid() && |c.used| > 0;
      b :| b in c.used;
    }

    /** Number of chunks: one, or no more than the live blocks. */
    lemma ChunksBounded()
      requires Valid()
      ensures 1 <= |chunks| <= if live == {} then 1 else |live|
    {
      ListMembers();
      hide ChunksOk, Lists, Busy, LinkedAt, At;
      if |chunks| > 1 {
        var owned: seq<Block> := [];
        while |owned| < |chunks|
          invariant |owned| <= |chunks|
          invariant forall i | 0 <= i < |owned| :: owned[i] in live && owned[i].owner == chunks[i]
        {
          var b := SomeLive(chunks[|owned|]);
          owned := owned + [b];
        }
        OwnersCount(chunks, owned, live);
      } else if live != {} {
        var b :| b in live;
        SubsetCardinality({b}, live);
      }
    }

    /** Every chunk is freed once, in list order; the pool is left empty. */
    method Destroy() returns (freed: seq<Chunk>)
      requires Valid()
      modifies this`chunksHead, this`chunks
      ensures freed == old(chunks) && chunksHead == null && chunks == []
      ensures Distinct(freed) && forall c :: c in freed <==> c in members
    {
      freed := [];
      var chunk := chunksHead;
      while chunk != null
        invariant |freed| <= |chunks| && freed == chunks[..|freed|] && Maybe(chunk) == At(chunks, |freed|)
        decreases |chunks| - |freed|
      {
        assert LinkedAt(chunks, |freed|);
        var next := chunk.next;
        freed := freed + [chunk];
        chunk := next;
      }
      chunksHead := null;
      chunks := [];
    }
  }
}
