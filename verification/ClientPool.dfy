/**
 The connections' memory: each context is a block of the slab pool, taken when a client calls and given
 back after its last close callback.
 */
module ClientPool {
  import opened LinkedLists
  import opened Connections
  import opened ConnectionHandler
  import opened EventLoop
  import opened SlabAllocator

  const CLIENT_CHUNK_CAPACITY := 64

  /** The blocks handed out are exactly those of the contexts not yet released, one each.
      A released context's block may have been handed out again. */
  ghost predicate Holds(blocks: seq<Block>, conns: seq<Conn>, live: set<Block>) {
    && |blocks| == |conns|
    && (forall i | 0 <= i < |conns| && conns[i].released == 0 :: blocks[i] in live)
    && (forall b | b in live :: exists i :: 0 <= i < |conns| && conns[i].released == 0 && blocks[i] == b)
    && forall i, j | 0 <= i < j < |conns| && conns[i].released == conns[j].released == 0 :: blocks[i] != blocks[j]
  }

  lemma Given(blocks: seq<Block>, conns: seq<Conn>, live: set<Block>, b: Block, c: Conn)
    requires Holds(blocks, conns, live) && b !in live && c.released == 0
    ensures Holds(blocks + [b], conns + [c], live + {b})
  {
    var bs, cs := blocks + [b], conns + [c];
    assert bs[|conns|] == b && cs[|conns|] == c;
    forall x | x in live ensures exists i :: 0 <= i < |cs| && cs[i].released == 0 && bs[i] == x {
      var i :| 0 <= i < |conns| && conns[i].released == 0 && blocks[i] == x;
      assert cs[i] == conns[i] && bs[i] == x;
    }
  }

  lemma Returned(blocks: seq<Block>, conns: seq<Conn>, live: set<Block>, id: nat, c: Conn)
    requires Holds(blocks, conns, live) && id < |conns| && conns[id].released == 0 && c.released > 0
    ensures blocks[id] in live && Holds(blocks, conns[id := c], live - {blocks[id]})
  {
    var now := conns[id := c];
    forall x | x in live && x != blocks[id]
      ensures exists i :: 0 <= i < |now| && now[i].released == 0 && blocks[i] == x
    {
      var i :| 0 <= i < |conns| && conns[i].released == 0 && blocks[i] == x;
      assert now[i] == conns[i];
    }
  }

  /** Only a new context and a last close change who holds a block. */
  lemma Kept(blocks: seq<Block>, s: State, e: Event, live: set<Block>)
    requires Holds(blocks, s.conns, live) && !e.Connection? && !(e.Closed? && Finishes(s, e))
    ensures Holds(blocks, Step(s, e).conns, live) && |blocks| == |Step(s, e).conns|
  {
    if !Enabled(s, e) { return; }
    StepLinks(s, e);
    hide Step, Enabled, Finishes;
    var t := Step(s, e);
    forall x | x in live ensures exists i :: 0 <= i < |t.conns| && t.conns[i].released == 0 && blocks[i] == x {
      var i :| 0 <= i < |s.conns| && s.conns[i].released == 0 && blocks[i] == x;
      assert t.conns[i].released == 0;
    }
  }

  /** Once libuv has nothing left to call back, after any run, every block is back in the pool. */
  lemma NothingHeld(es: seq<Event>, blocks: seq<Block>, live: set<Block>)
    requires Holds(blocks, Run(EMPTY, es).conns, live) && Quiet(Run(EMPTY, es))
    ensures live == {}
  {
    NothingLeaks(es);
    hide Run, Quiet;
  }

  class PooledLoop {
    const loop: Loop
    const pool: SlabPool
    /** The block of every context ever set up, by number. */
    ghost var blocks: seq<Block>

    ghost predicate Shows(s: State)
      reads this, loop, loop.manager, Outside(loop.manager.list.all, -1)`next, Outside(loop.manager.list.all, -1)`prev,
            loop.ctxs, loop.owners.Keys, pool, pool.chunks, pool.members, pool.pieces
    {
      && loop.Shows(s) && pool.Valid() && pool.chunkCapacity == CLIENT_CHUNK_CAPACITY
      && |blocks| == |s.conns| && Holds(blocks, s.conns, pool.live)
    }

    constructor ()
      ensures Shows(EMPTY) && fresh(loop) && fresh(loop.manager) && loop.ctxs == [] && loop.owners == map[]
      ensures fresh(pool) && fresh(pool.members) && fresh(pool.pieces) && blocks == []
    {
      hide Loop.Shows, SlabPool.Valid;
      var l := new Loop();
      l.AllAlive();
      var p := new SlabPool(CLIENT_CHUNK_CAPACITY);
      loop, pool, blocks := l, p, [];
    }

    /** A block from the pool; the connections are not touched. */
    method Take(ghost s: State) returns (b: Block)
      requires loop.Shows(s) && pool.Valid() && pool.chunkCapacity > 0
      modifies pool, pool.members, pool.pieces
      ensures loop.Shows(s) && pool.Valid() && b !in old(pool.live) && pool.live == old(pool.live) + {b}
      ensures fresh(pool.members - old(pool.members)) && fresh(pool.pieces - old(pool.pieces))
    {
      hide *;
      loop.AllAlive();
      b := pool.Alloc();
    }

    /** A client has called: unless the server is full its context gets a block nobody holds. */
    method Connection(ok: bool, ghost s: State) returns (ctx: ClientCtx?, block: Block?)
      requires Shows(s) && ConnsOk(s) && ListInv(s)
      modifies this`blocks, loop`ctxs, loop.manager, loop.manager.list.Reached()`prev, pool, pool.members, pool.pieces
      ensures Shows(Step(s, Event.Connection(ok)))
      ensures (ctx == null <==> s.count >= MAX_CLIENTS) && (block == null <==> s.count >= MAX_CLIENTS)
      ensures if ctx == null then loop.ctxs == old(loop.ctxs) else fresh(ctx) && loop.ctxs == old(loop.ctxs) + [ctx]
      ensures if block == null then pool.live == old(pool.live) && blocks == old(blocks)
              else block !in old(pool.live) && pool.live == old(pool.live) + {block} && blocks == old(blocks) + [block]
      ensures fresh(pool.members - old(pool.members)) && fresh(pool.pieces - old(pool.pieces))
    {
      hide Loop.Shows, SlabPool.Valid, Holds, ConnsOk, ListInv, Step, Enabled, LastClose, Outside;
      block := null;
      loop.Counts(s);
      if loop.manager.count < MAX_CLIENTS {
        block := Take(s);
      }
      pool.AllAlive();
      ctx := loop.Connection(ok, s);
      Handed(s, ok, blocks, old(pool.live), block);
      if block != null { blocks := blocks + [block]; }
    }

    /** A handle has closed: after the last one the context's block goes back to the pool, where it was still live. */
    method Closed(ctx: ClientCtx, block: Block, tcp: bool, ghost id: nat, ghost s: State)
      requires Shows(s) && ConnsOk(s) && ListInv(s) && Enabled(s, Event.Closed(id, tcp))
      requires id < |loop.ctxs| == |blocks| && loop.ctxs[id] == ctx && blocks[id] == block
      modifies loop.manager, ChainAt(loop.manager.list, ctx)`next, ChainAt(loop.manager.list, ctx)`prev,
               ctx`next, ctx`prev, ctx`pendingCloses, ctx`tcpDue, ctx`timerDue, ctx`linked, ctx`buffer, ctx`released,
               pool, pool.members, pool.pieces
      ensures Shows(Step(s, Event.Closed(id, tcp)))
      ensures if LastClose(s.conns[id]) then block in old(pool.live) && pool.live == old(pool.live) - {block}
              else pool.live == old(pool.live)
      ensures pool.members <= old(pool.members) && pool.pieces <= old(pool.pieces)
    {
      hide Loop.Shows, SlabPool.Valid, Holds, ConnsOk, ListInv, Step, Enabled, LastClose, Outside;
      pool.AllAlive();
      var last := loop.Closed(ctx, tcp, id, s);
      GivenBack(s, id, tcp, blocks, pool.live);
      if last {
        PutBack(block, Step(s, Event.Closed(id, tcp)));
      }
    }

    /** A block goes back to the pool; the connections are not touched. */
    method PutBack(b: Block, ghost t: State)
      requires loop.Shows(t) && pool.Valid() && b in pool.live
      modifies pool, pool.members, pool.pieces
      ensures loop.Shows(t) && pool.Valid() && pool.live == old(pool.live) - {b}
      ensures pool.members <= old(pool.members) && pool.pieces <= old(pool.pieces)
    {
      hide *;
      loop.AllAlive();
      pool.Free(b);
    }

    /** Shutdown leaves the pool alone. */
    method CloseAll(ghost s: State)
      requires Shows(s)
      modifies loop.manager.list.Reached()`closing, loop.manager.list.Reached()`pendingCloses,
               loop.manager.list.Reached()`tcpDue, loop.manager.list.Reached()`timerDue,
               loop.manager.list.Reached()`reading, loop.manager.list.Reached()`timer
      ensures Shows(Step(s, Event.CloseAll)) && pool.live == old(pool.live)
    {
      hide Loop.Shows, SlabPool.Valid, Holds, ConnsOk, ListInv, Step, Enabled, LastClose, Outside;
      pool.AllAlive();
      loop.CloseAll(s);
      Kept(blocks, s, Event.CloseAll, pool.live);
    }

    /** A callback for one context; only its last close concerns the pool. */
    method HandleOne(e: Event, ctx: ClientCtx, block: Block, ghost s: State)
      requires Shows(s) && ConnsOk(s) && ListInv(s) && !e.Connection? && !e.CloseAll? && Enabled(s, e)
      requires e.id < |loop.ctxs| == |blocks| && loop.ctxs[e.id] == ctx && blocks[e.id] == block
      modifies loop`owners, loop.manager, loop.ctxs, loop.owners.Keys, pool, pool.members, pool.pieces
      ensures Shows(Step(s, e)) && fresh(loop.owners.Keys - old(loop.owners.Keys))
      ensures pool.members <= old(pool.members) && pool.pieces <= old(pool.pieces)
    {
      hide Loop.Shows, SlabPool.Valid, Holds, ConnsOk, ListInv, Step, LastClose, Outside, ChainAt, Enabled;
      loop.AllOwn(s);
      pool.AllAlive();
      if e.Closed? {
        Closed(ctx, block, e.tcp, e.id, s);
        return;
      }
      match e {
        case Read(id, input, a) => loop.Read(ctx, input, a, id, s);
        case Written(id, ok) => loop.Written(ctx, ok, id, s);
        case Timeout(id) => loop.Timeout(ctx, id, s);
      }
      Kept(blocks, s, e, pool.live);
    }

    /** A client's context and block, if there is one, join the lists of all. */
    method Accept(ok: bool, ctxs: seq<ClientCtx>, held: seq<Block>, ghost s: State)
      returns (ctxs': seq<ClientCtx>, held': seq<Block>)
      requires Shows(s) && ConnsOk(s) && ListInv(s) && ctxs == loop.ctxs && held == blocks
      modifies this`blocks, loop`ctxs, loop.manager, loop.manager.list.Reached()`prev, pool, pool.members, pool.pieces
      ensures Shows(Step(s, Event.Connection(ok))) && ctxs' == loop.ctxs && held' == blocks
      ensures old(loop.ctxs) <= loop.ctxs && forall k | |old(loop.ctxs)| <= k < |loop.ctxs| :: fresh(loop.ctxs[k])
      ensures fresh(pool.members - old(pool.members)) && fresh(pool.pieces - old(pool.pieces))
    {
      hide PooledLoop.Shows, ConnsOk, ListInv, Step, Chains.Reached;
      ctxs', held' := ctxs, held;
      var ctx, block := Connection(ok, s);
      if ctx != null && block != null { ctxs', held' := ctxs + [ctx], held + [block]; }
    }

    /** Whatever libuv may raise is handled; what it may not raise does not come. */
    method Handle(e: Event, ctxs: seq<ClientCtx>, held: seq<Block>, ghost s: State)
      returns (ctxs': seq<ClientCtx>, held': seq<Block>)
      requires Shows(s) && ConnsOk(s) && ListInv(s) && ctxs == loop.ctxs && held == blocks
      modifies this`blocks, loop, loop.manager, loop.ctxs, loop.owners.Keys, pool, pool.members, pool.pieces
      ensures Shows(Step(s, e)) && ctxs' == loop.ctxs && held' == blocks
      ensures old(loop.ctxs) <= loop.ctxs && forall k | |old(loop.ctxs)| <= k < |loop.ctxs| :: fresh(loop.ctxs[k])
      ensures fresh(loop.owners.Keys - old(loop.owners.Keys))
      ensures fresh(pool.members - old(pool.members)) && fresh(pool.pieces - old(pool.pieces))
    {
      hide Loop.Shows, SlabPool.Valid, Holds, ConnsOk, ListInv, Step, LastClose, Outside, ChainAt, Chains.Reached, Enabled;
      loop.Counts(s);
      loop.AllAlive();
      pool.AllAlive();
      ctxs', held' := ctxs, held;
      var ready := loop.Ready(e, ctxs, s);
      loop.AllOwn(s);
      if !ready {
        NoStep(s, e);
      } else if e.Connection? {
        ctxs', held' := Accept(e.ok, ctxs, held, s);
      } else if e.CloseAll? {
        CloseAll(s);
      } else {
        HandleOne(e, ctxs[e.id], held[e.id], s);
      }
    }
  }

  /** Every run, on the objects: contexts, chains, count and pool end as the protocol says; once libuv has nothing
      left to call back no block is out and one chunk is left. */
  method Serve(es: seq<Event>) returns (server: PooledLoop)
    ensures fresh(server) && server.Shows(Run(EMPTY, es))
    ensures Quiet(Run(EMPTY, es)) ==> server.pool.live == {} && |server.pool.chunks| == 1
  {
    hide Loop.Shows, SlabPool.Valid, Holds, ConnsOk, ListInv, Step, Quiet, Outside;
    server := new PooledLoop();
    var ctxs: seq<ClientCtx>, held: seq<Block> := [], [];
    for i := 0 to |es|
      invariant fresh(server) && fresh(server.loop) && fresh(server.loop.manager) && fresh(server.pool)
      invariant (forall k | 0 <= k < |ctxs| :: fresh(ctxs[k])) && fresh(server.loop.owners.Keys)
      invariant fresh(server.pool.members) && fresh(server.pool.pieces)
      invariant ctxs == server.loop.ctxs && held == server.blocks
      invariant server.Shows(Run(EMPTY, es[..i]))
    {
      ghost var s := Run(EMPTY, es[..i]);
      RunOk(es[..i]);
      RunLast(EMPTY, es[..i], es[i]);
      assert es[..i + 1] == es[..i] + [es[i]];
      ctxs, held := server.Handle(es[i], ctxs, held, s);
    }
    assert es[..|es|] == es;
    if Quiet(Run(EMPTY, es)) {
      NothingHeld(es, server.blocks, server.pool.live);
      server.pool.ChunksBounded();
    }
  }

  lemma GivenBack(s: State, id: nat, tcp: bool, blocks: seq<Block>, live: set<Block>)
    requires Holds(blocks, s.conns, live) && ConnsOk(s) && Enabled(s, Event.Closed(id, tcp))
    ensures var t := Step(s, Event.Closed(id, tcp));
            && id < |s.conns| == |blocks| == |t.conns|
            && if LastClose(s.conns[id]) then blocks[id] in live && Holds(blocks, t.conns, live - {blocks[id]})
               else Holds(blocks, t.conns, live)
  {
    var e := Event.Closed(id, tcp);
    StepForOne(s, e);
    assert Update(s.conns[id], e) == OnClose(s.conns[id], tcp);
    if LastClose(s.conns[id]) {
      FinishedWasLinked(s, e);
      Returned(blocks, s.conns, live, id, OnClose(s.conns[id], tcp));
    } else {
      Kept(blocks, s, e, live);
    }
  }

  lemma Handed(s: State, ok: bool, blocks: seq<Block>, live: set<Block>, b: Block?)
    requires Holds(blocks, s.conns, live) && (b == null <==> s.count >= MAX_CLIENTS) && (b != null ==> b !in live)
    ensures var held := if b == null then blocks else blocks + [b];
            && Holds(held, Step(s, Event.Connection(ok)).conns, if b == null then live else live + {b})
            && |held| == |Step(s, Event.Connection(ok)).conns|
  {
    assert SetUp(ok).released == 0;
    hide Holds, SetUp;
    if b != null { Given(blocks, s.conns, live, b, SetUp(ok)); }
  }
}
