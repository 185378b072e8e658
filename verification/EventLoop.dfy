/**
 The event loop over a heap of contexts: each event, handled by the callbacks on the real
 objects, takes the contexts, the list and the count to what the protocol's step says.
 */
module EventLoop {
  import opened Bytes
  import opened LinkedLists
  import opened Sequences
  import opened Connections
  import opened ConnectionHandler
  import HttpRequests

  /** Which context a buffer was allocated for. */
  type Owners = map<array<byte>, nat>

  ghost function Others(ctxs: seq<ClientCtx>, id: int): set<ClientCtx> {
    set i | 0 <= i < |ctxs| && i != id :: ctxs[i]
  }

  ghost function OthersBuffers(owners: Owners, id: int): set<array<byte>> {
    set b | b in owners && owners[b] != id
  }

  ghost predicate Owned(c: ClientCtx, owners: Owners, id: int)
    reads c`buffer
  {
    c.buffer != null ==> c.buffer in owners && owners[c.buffer] == id
  }

  /** Every context but one is as the protocol has it, with a buffer of its own. */
  ghost predicate ShowBut(ctxs: seq<ClientCtx>, conns: seq<Conn>, owners: Owners, id: int)
    reads Others(ctxs, id)`closing, Others(ctxs, id)`pendingCloses, Others(ctxs, id)`totalRead, Others(ctxs, id)`buffer,
          Others(ctxs, id)`reading, Others(ctxs, id)`timer, Others(ctxs, id)`writes, Others(ctxs, id)`tcpDue,
          Others(ctxs, id)`timerDue, Others(ctxs, id)`accepted, Others(ctxs, id)`linked, Others(ctxs, id)`released,
          OthersBuffers(owners, id)
  {
    |ctxs| == |conns| &&
    forall i | 0 <= i < |ctxs| && i != id ::
      ctxs[i] in Others(ctxs, id) && Owned(ctxs[i], owners, i) &&
      (ctxs[i].buffer != null ==> ctxs[i].buffer in OthersBuffers(owners, id)) && ctxs[i].Is(conns[i])
  }

  lemma Apart(ctxs: seq<ClientCtx>, conns: seq<Conn>, owners: Owners, id: nat)
    requires ShowBut(ctxs, conns, owners, -1) && Distinct(ctxs) && id < |ctxs|
    ensures ShowBut(ctxs, conns, owners, id) && ctxs[id].Is(conns[id]) && ctxs[id].writes == conns[id].writes
    ensures ctxs[id].buffer != null ==> ctxs[id].buffer in owners && owners[ctxs[id].buffer] == id
    ensures ctxs[id] !in Others(ctxs, id)
    ensures ctxs[id].buffer != null ==> ctxs[id].buffer !in OthersBuffers(owners, id)
  {
  }

  lemma Together(ctxs: seq<ClientCtx>, conns: seq<Conn>, owners: Owners, id: nat, c: Conn)
    requires id < |ctxs| && ShowBut(ctxs, conns, owners, id) && ctxs[id].Is(c)
    requires ctxs[id].buffer != null ==> ctxs[id].buffer in owners && owners[ctxs[id].buffer] == id
    ensures ShowBut(ctxs, conns[id := c], owners, -1)
  {
  }

  lemma NewBuffer(ctxs: seq<ClientCtx>, conns: seq<Conn>, owners: Owners, id: nat, b: array<byte>)
    requires id < |ctxs| && ShowBut(ctxs, conns, owners, id) && b !in owners
    ensures ShowBut(ctxs, conns, owners[b := id], id)
  {
    assert OthersBuffers(owners[b := id], id) == OthersBuffers(owners, id);
    forall i | 0 <= i < |ctxs| && i != id ensures Owned(ctxs[i], owners[b := id], i) {
      assert Owned(ctxs[i], owners, i);
    }
  }

  lemma OthersAlive(ctxs: seq<ClientCtx>, owners: Owners, id: int)
    ensures forall c | c in Others(ctxs, id) :: allocated(c)
    ensures forall b | b in OthersBuffers(owners, id) :: allocated(b)
  {
  }

  // ----- The list -----

  /** The list of contexts is the list of their numbers. */
  ghost predicate Mirrors(ctxs: seq<ClientCtx>, ids: seq<nat>, active: seq<ClientCtx>) {
    |active| == |ids| && forall k | 0 <= k < |ids| :: ids[k] < |ctxs| && active[k] == ctxs[ids[k]]
  }

  lemma MirrorsMember(ctxs: seq<ClientCtx>, ids: seq<nat>, active: seq<ClientCtx>, id: nat)
    requires Distinct(ctxs) && Mirrors(ctxs, ids, active) && id < |ctxs|
    ensures id in ids <==> ctxs[id] in active
  {
    if ctxs[id] in active {
      var k :| 0 <= k < |active| && active[k] == ctxs[id];
      assert ids[k] == id;
    }
  }

  lemma {:induction false} MirrorsRemove(ctxs: seq<ClientCtx>, ids: seq<nat>, active: seq<ClientCtx>, id: nat)
    requires Distinct(ctxs) && Mirrors(ctxs, ids, active) && id < |ctxs|
    ensures Mirrors(ctxs, Remove(ids, id), Remove(active, ctxs[id]))
  {
    if ids != [] && ids[0] != id {
      assert active[0] != ctxs[id];
      MirrorsRemove(ctxs, ids[1..], active[1..], id);
    }
  }

  /** Chain by chain, the contexts are those of the numbers, and the head pointer leads to the same chain. */
  ghost predicate MirrorsChains(ctxs: seq<ClientCtx>, ids: Chains<nat>, list: Chains<ClientCtx>) {
    && ids.cur == list.cur && |ids.all| == |list.all|
    && forall k | 0 <= k < |ids.all| :: Mirrors(ctxs, ids.all[k], list.all[k])
  }

  lemma MirrorsReached(ctxs: seq<ClientCtx>, ids: Chains<nat>, list: Chains<ClientCtx>)
    requires MirrorsChains(ctxs, ids, list)
    ensures Mirrors(ctxs, ids.Reached(), list.Reached())
  {
  }

  lemma MirrorsPlace(ctxs: seq<ClientCtx>, ids: Chains<nat>, list: Chains<ClientCtx>, id: nat)
    requires Distinct(ctxs) && MirrorsChains(ctxs, ids, list) && id < |ctxs|
    ensures ChainOf(ids.all, id) == ChainOf(list.all, ctxs[id])
    ensures ids.Has(id) <==> list.Has(ctxs[id])
  {
    forall k | 0 <= k < |ids.all| ensures id in ids.all[k] <==> ctxs[id] in list.all[k] {
      MirrorsMember(ctxs, ids.all[k], list.all[k], id);
    }
    hide Mirrors, Distinct;
    var a, b := ChainOf(ids.all, id), ChainOf(list.all, ctxs[id]);
    assert a < |ids.all| ==> id in ids.all[a];
    assert b < |list.all| ==> ctxs[id] in list.all[b];
  }

  lemma MirrorsUnlinked(ctxs: seq<ClientCtx>, ids: Chains<nat>, list: Chains<ClientCtx>, id: nat)
    requires Distinct(ctxs) && MirrorsChains(ctxs, ids, list) && id < |ctxs|
    ensures MirrorsChains(ctxs, Unlinked(ids, id), Unlinked(list, ctxs[id]))
  {
    MirrorsPlace(ctxs, ids, list, id);
    var k := ChainOf(ids.all, id);
    if k < |ids.all| {
      MirrorsRemove(ctxs, ids.all[k], list.all[k], id);
      FirstMirrored(ctxs, ids.all[k], list.all[k], id);
    }
    hide Remove, Distinct;
  }

  lemma FirstMirrored(ctxs: seq<ClientCtx>, ids: seq<nat>, active: seq<ClientCtx>, id: nat)
    requires Distinct(ctxs) && Mirrors(ctxs, ids, active) && id < |ctxs| && ids != []
    ensures ids[0] == id <==> active[0] == ctxs[id]
  {
  }

  /** The contexts, but one, whose accept failed. */
  ghost function Strays(ctxs: seq<ClientCtx>, conns: seq<Conn>, id: int): set<ClientCtx> {
    set i | 0 <= i < |ctxs| && i < |conns| && i != id && !conns[i].accepted :: ctxs[i]
  }

  /** They have no neighbours. */
  ghost predicate Alone(strays: set<ClientCtx>)
    reads strays`next, strays`prev
  {
    forall c | c in strays :: c.next == null && c.prev == null
  }

  lemma Alive(strays: set<ClientCtx>)
    ensures forall c | c in strays :: allocated(c)
  {
  }

  lemma StraysApart(ctxs: seq<ClientCtx>, conns: seq<Conn>, id: nat)
    requires Distinct(ctxs) && id < |ctxs| == |conns| && Alone(Strays(ctxs, conns, -1))
    ensures Alone(Strays(ctxs, conns, id)) && ctxs[id] !in Strays(ctxs, conns, id)
    ensures !conns[id].accepted ==> ctxs[id].next == null && ctxs[id].prev == null
  {
    assert !conns[id].accepted ==> ctxs[id] in Strays(ctxs, conns, -1);
  }

  lemma StraysTogether(ctxs: seq<ClientCtx>, conns: seq<Conn>, id: nat)
    requires id < |ctxs| == |conns| && Alone(Strays(ctxs, conns, id))
    requires conns[id].accepted || (ctxs[id].next == null && ctxs[id].prev == null)
    ensures Alone(Strays(ctxs, conns, -1))
  {
  }

  lemma SameStrays(ctxs: seq<ClientCtx>, conns: seq<Conn>, id: nat, c: Conn)
    requires id < |conns| && c.accepted == conns[id].accepted
    ensures Strays(ctxs, conns[id := c], -1) == Strays(ctxs, conns, -1)
  {
  }

  /** No chain has them. */
  ghost predicate Unchained(strays: set<ClientCtx>, list: Chains<ClientCtx>) {
    forall c | c in strays :: !list.Has(c)
  }

  lemma StraysUnchained(ctxs: seq<ClientCtx>, s: State, list: Chains<ClientCtx>, id: int)
    requires ConnsOk(s) && ListInv(s) && |ctxs| == |s.conns| && Distinct(ctxs) && MirrorsChains(ctxs, s.list, list)
    ensures Unchained(Strays(ctxs, s.conns, id), list)
  {
    hide Distinct, MirrorsChains, Chains.Has, Chains.Ok, Spare;
    forall c | c in Strays(ctxs, s.conns, id) ensures !list.Has(c) {
      var i :| 0 <= i < |ctxs| && !s.conns[i].accepted && ctxs[i] == c;
      assert ConnOk(s.conns[i]) && i !in LinkedIds(s);
      MirrorsPlace(ctxs, s.list, list, i);
    }
  }

  lemma UnchainedApart(strays: set<ClientCtx>, list: Chains<ClientCtx>, ctx: ClientCtx)
    requires Unchained(strays, list)
    ensures forall c | c in ChainAt(list, ctx) :: c !in strays
  {
    forall c | c in ChainAt(list, ctx) ensures list.Has(c) {}
  }

  lemma UnchainedReached(strays: set<ClientCtx>, list: Chains<ClientCtx>)
    requires Unchained(strays, list)
    ensures forall c | c in list.Reached() :: c !in strays
  {
    forall c | c in list.Reached() ensures list.Has(c) {}
  }

  // ----- Events -----

  predicate ForOne(e: Event) { !e.Connection? && !e.CloseAll? }

  /** An event for one context changes that context, and the list if it is its last close. */
  lemma StepForOne(s: State, e: Event)
    requires ForOne(e) && Enabled(s, e)
    ensures e.id < |s.conns| && Step(s, e).conns == s.conns[e.id := Update(s.conns[e.id], e)]
    ensures Update(s.conns[e.id], e).accepted == s.conns[e.id].accepted
    ensures Step(s, e).list == if Finishes(s, e) then Unlinked(s.list, e.id) else s.list
    ensures Step(s, e).count == if Finishes(s, e) then s.count - 1 else s.count
  {
    UpdateKeepsLink(s, e, e.id);
    hide Update, LastClose;
    var t := Step(s, e);
    assert forall i | 0 <= i < |s.conns| :: t.conns[i] == s.conns[e.id := Update(s.conns[e.id], e)][i];
  }

  class Loop {
    const manager: ClientManager
    /** Every context ever set up, by number, and the contexts their buffers belong to. */
    ghost var ctxs: seq<ClientCtx>
    ghost var owners: Owners

    constructor ()
      ensures Shows(EMPTY) && fresh(manager) && ctxs == [] && owners == map[]
    {
      manager := new ClientManager();
      ctxs, owners := [], map[];
    }

    ghost predicate Shows(s: State)
      reads this, manager, Outside(manager.list.all, -1)`next, Outside(manager.list.all, -1)`prev, ctxs, owners.Keys
    {
      && |ctxs| == |s.conns| && Distinct(ctxs) && ShowBut(ctxs, s.conns, owners, -1)
      && manager.Chained() && manager.count == s.count
      && MirrorsChains(ctxs, s.list, manager.list) && Alone(Strays(ctxs, s.conns, -1))
    }

    lemma Counts(s: State)
      requires Shows(s)
      ensures manager.count == s.count && |ctxs| == |s.conns|
    {
    }

    /** Chains and buffers are those of contexts set up here. */
    lemma AllOwn(s: State)
      requires Shows(s)
      ensures forall k | 0 <= k < |manager.list.Reached()| :: manager.list.Reached()[k] in ctxs
      ensures forall ctx, k | 0 <= k < |ChainAt(manager.list, ctx)| :: ChainAt(manager.list, ctx)[k] in ctxs
      ensures forall i | 0 <= i < |ctxs| && ctxs[i].buffer != null :: ctxs[i].buffer in owners.Keys
    {
      hide ClientCtx.Is, ClientManager.Chained, Alone, Strays, Distinct;
      forall k, c | 0 <= k < |manager.list.all| && c in manager.list.all[k] ensures c in ctxs {
        assert Mirrors(ctxs, s.list.all[k], manager.list.all[k]);
      }
      forall i | 0 <= i < |ctxs| && ctxs[i].buffer != null ensures ctxs[i].buffer in owners.Keys {
        assert Owned(ctxs[i], owners, i);
      }
    }

    /** What libuv knows of a context. */
    lemma Known(s: State, id: nat)
      requires Shows(s) && ConnsOk(s) && id < |ctxs|
      ensures id < |s.conns|
      ensures var ctx, c := ctxs[id], s.conns[id];
              && ctx.reading == c.reading && ctx.timer == c.timer && ctx.writes == c.writes
              && ctx.tcpDue == c.tcpDue && ctx.timerDue == c.timerDue && (c.reading ==> ctx.totalRead == |c.data|)
    {
      hide ClientManager.Chained, MirrorsChains, Alone, Strays, Distinct, HttpRequests.Complete;
      assert ConnOk(s.conns[id]);
      assert ctxs[id].Is(s.conns[id]);
    }

    /** Whether libuv may raise an event. */
    method Ready(e: Event, contexts: seq<ClientCtx>, ghost s: State) returns (ready: bool)
      requires Shows(s) && ConnsOk(s) && contexts == ctxs
      ensures ready <==> Enabled(s, e)
      ensures ready ==> e.Connection? || e.CloseAll? || e.id < |contexts|
    {
      Counts(s);
      hide Shows, ConnsOk;
      if e.Connection? || e.CloseAll? { return true; }
      if e.id >= |contexts| { return false; }
      var ctx := contexts[e.id];
      Known(s, e.id);
      match e {
        case Read(_, input, _) =>
          ready := ctx.reading && (!input.Octets? || 0 < |input.octets| <= CLIENT_BUFFER_SIZE - 1 - ctx.totalRead);
        case Written(_, _) => ready := ctx.writes != [];
        case Timeout(_) => ready := ctx.timer;
        case Closed(_, tcp) => ready := if tcp then ctx.tcpDue && ctx.writes == [] else ctx.timerDue;
      }
    }

    lemma AllAlive()
      ensures forall c | c in ctxs :: allocated(c)
      ensures forall c | c in Outside(manager.list.all, -1) :: allocated(c)
      ensures forall b | b in owners.Keys :: allocated(b)
    {
    }

    /** The context has changed as the event says, the list too. */
    lemma Handled(s: State, e: Event, c: Conn)
      requires ForOne(e) && Enabled(s, e) && e.id < |s.conns| && c == Update(s.conns[e.id], e)
      requires Distinct(ctxs) && ShowBut(ctxs, s.conns[e.id := c], owners, -1)
      requires manager.Chained() && Alone(Strays(ctxs, s.conns, -1))
      requires MirrorsChains(ctxs, if Finishes(s, e) then Unlinked(s.list, e.id) else s.list, manager.list)
      requires manager.count == if Finishes(s, e) then s.count - 1 else s.count
      ensures Shows(Step(s, e))
    {
      StepForOne(s, e);
      SameStrays(ctxs, s.conns, e.id, c);
      hide Update, Step, ShowBut, ClientManager.Chained, MirrorsChains, Finishes, Enabled, Distinct, Alone, Strays,
           Unlinked;
    }

    /** The idle timer has run out. */
    method Timeout(ctx: ClientCtx, ghost id: nat, ghost s: State)
      requires Shows(s) && Enabled(s, Event.Timeout(id)) && id < |ctxs| && ctxs[id] == ctx
      modifies ctx`closing, ctx`pendingCloses, ctx`tcpDue, ctx`timerDue, ctx`reading, ctx`timer
      ensures Shows(Step(s, Event.Timeout(id)))
    {
      hide ShowBut, Distinct, ClientManager.Chained, MirrorsChains, Alone, Strays, Step, ConnsOk, ListInv;
      hide LastClose, OnClose, OnTimeout, OnWriteComplete, Outside, Unlinked, Pushed, SetUp, Unlisted, Mirrors, Owned, ClientCtx.Is;
      hide Others, OthersBuffers;
      ghost var strays := Strays(ctxs, s.conns, -1);
      Alive(strays);
      OthersAlive(ctxs, owners, id);
      OutsideAlive(manager.list.all, -1);
      Apart(ctxs, s.conns, owners, id);
      ctx.OnTimeout(s.conns[id]);
      Together(ctxs, s.conns, owners, id, OnTimeout(s.conns[id]));
      assert Alone(strays);
      Handled(s, Event.Timeout(id), OnTimeout(s.conns[id]));
    }

    /** A write has ended. */
    method Written(ctx: ClientCtx, ok: bool, ghost id: nat, ghost s: State)
      requires Shows(s) && Enabled(s, Event.Written(id, ok)) && id < |ctxs| && ctxs[id] == ctx
      modifies ctx`writes, ctx`totalRead, ctx`closing, ctx`pendingCloses, ctx`tcpDue, ctx`timerDue, ctx`reading,
               ctx`timer
      ensures Shows(Step(s, Event.Written(id, ok)))
    {
      hide ShowBut, Distinct, ClientManager.Chained, MirrorsChains, Alone, Strays, Step, ConnsOk, ListInv;
      hide LastClose, OnClose, OnTimeout, OnWriteComplete, Outside, Unlinked, Pushed, SetUp, Unlisted, Mirrors, Owned, ClientCtx.Is;
      hide Others, OthersBuffers;
      ghost var strays := Strays(ctxs, s.conns, -1);
      Alive(strays);
      OthersAlive(ctxs, owners, id);
      OutsideAlive(manager.list.all, -1);
      Apart(ctxs, s.conns, owners, id);
      ctx.OnWriteComplete(ok, s.conns[id]);
      Together(ctxs, s.conns, owners, id, OnWriteComplete(s.conns[id], ok));
      assert Alone(strays);
      Handled(s, Event.Written(id, ok), OnWriteComplete(s.conns[id], ok));
    }

    method ReceiveOne(ctx: ClientCtx, input: Input, a: Answer, ghost id: nat, ghost conns: seq<Conn>)
      requires Distinct(ctxs) && ShowBut(ctxs, conns, owners, -1) && id < |ctxs| == |conns| && ctxs[id] == ctx
      requires conns[id].released == 0 && (input.Octets? ==> 0 < |input.octets| <= Room(conns[id]))
      modifies this`owners, ctx`writes, ctx`totalRead, ctx`buffer, ctx.buffer, ctx`closing, ctx`pendingCloses,
               ctx`tcpDue, ctx`timerDue, ctx`reading, ctx`timer
      ensures ShowBut(ctxs, conns[id := OnRead(conns[id], input, a)], owners, -1)
      ensures fresh(owners.Keys - old(owners.Keys))
    {
      hide ShowBut, Owned, ClientCtx.Is, OnRead, Distinct;
      Apart(ctxs, conns, owners, id);
      ghost var cs, os := ctxs, owners;
      assert forall b | b in OthersBuffers(os, id) :: allocated(b);
      assert forall c | c in Others(cs, id) :: allocated(c);
      ctx.Receive(input, a, conns[id]);
      assert ShowBut(cs, conns, os, id);
      if ctx.buffer != null {
        NewOrSame(ctx.buffer, id, conns);
        owners := owners[ctx.buffer := id];
      }
      Together(ctxs, conns, owners, id, OnRead(conns[id], input, a));
    }

    /** A read changes no links. */
    method ReceiveLinked(ctx: ClientCtx, input: Input, a: Answer, ghost id: nat, ghost s: State,
                         ghost strays: set<ClientCtx>)
      requires Distinct(ctxs) && ShowBut(ctxs, s.conns, owners, -1) && id < |ctxs| == |s.conns| && ctxs[id] == ctx
      requires s.conns[id].released == 0 && (input.Octets? ==> 0 < |input.octets| <= Room(s.conns[id]))
      requires manager.Chained() && Alone(strays)
      modifies this`owners, ctx`writes, ctx`totalRead, ctx`buffer, ctx.buffer, ctx`closing, ctx`pendingCloses,
               ctx`tcpDue, ctx`timerDue, ctx`reading, ctx`timer
      ensures ShowBut(ctxs, s.conns[id := OnRead(s.conns[id], input, a)], owners, -1)
      ensures manager.Chained() && Alone(strays) && fresh(owners.Keys - old(owners.Keys))
    {
      hide *;
      Alive(strays);
      OutsideAlive(manager.list.all, -1);
      ReceiveOne(ctx, input, a, id, s.conns);
    }

    /** A read: memory asked for, filled, and the callback made. */
    method Read(ctx: ClientCtx, input: Input, a: Answer, ghost id: nat, ghost s: State)
      requires Shows(s) && ConnsOk(s) && Enabled(s, Event.Read(id, input, a)) && id < |ctxs| && ctxs[id] == ctx
      modifies this`owners, ctx`writes, ctx`totalRead, ctx`buffer, ctx.buffer, ctx`closing, ctx`pendingCloses,
               ctx`tcpDue, ctx`timerDue, ctx`reading, ctx`timer
      ensures Shows(Step(s, Event.Read(id, input, a))) && fresh(owners.Keys - old(owners.Keys))
    {
      hide ShowBut, Distinct, ClientManager.Chained, MirrorsChains, Alone, Strays, Step, Enabled, ConnsOk, ListInv;
      hide Finishes, Update, LastClose, Outside, Unlinked, Pushed, SetUp, Unlisted, Mirrors, Owned, ClientCtx.Is;
      ReadUpdates(s, id, input, a);
      ReceiveLinked(ctx, input, a, id, s, Strays(ctxs, s.conns, -1));
      Handled(s, Event.Read(id, input, a), OnRead(s.conns[id], input, a));
    }

    lemma NewOrSame(b: array<byte>, id: nat, conns: seq<Conn>)
      requires (b in owners ==> owners[b] == id) && id < |ctxs| && ShowBut(ctxs, conns, owners, id)
      ensures ShowBut(ctxs, conns, owners[b := id], id)
    {
      if b in owners { assert owners[b := id] == owners; } else { NewBuffer(ctxs, conns, owners, id, b); }
    }

    lemma ReadUpdates(s: State, id: nat, input: Input, a: Answer)
      requires ConnsOk(s) && Enabled(s, Event.Read(id, input, a))
      ensures var e := Event.Read(id, input, a);
              && ForOne(e) && !Finishes(s, e) && e.id == id
              && id < |s.conns| && s.conns[id].released == 0
              && (input.Octets? ==> 0 < |input.octets| <= Room(s.conns[id]))
              && Update(s.conns[id], e) == OnRead(s.conns[id], input, a)
    {
      assert ConnOk(s.conns[id]);
    }

    method CloseOne(ctx: ClientCtx, tcp: bool, ghost id: nat, ghost conns: seq<Conn>) returns (last: bool)
      requires Distinct(ctxs) && ShowBut(ctxs, conns, owners, -1) && id < |ctxs| == |conns| && ctxs[id] == ctx
      requires manager.Chained()
      requires manager.list.Has(ctx) || (ctx.next == null && ctx.prev == null)
      modifies manager, ChainAt(manager.list, ctx)`next, ChainAt(manager.list, ctx)`prev, ctx`next, ctx`prev,
               ctx`pendingCloses, ctx`tcpDue, ctx`timerDue, ctx`linked, ctx`buffer, ctx`released
      ensures last == LastClose(conns[id])
      ensures ShowBut(ctxs, conns[id := OnClose(conns[id], tcp)], owners, -1)
      ensures manager.Chained()
      ensures if LastClose(conns[id]) then manager.list == Unlinked(old(manager.list), ctx)
              else manager.list == old(manager.list)
      ensures manager.count == if LastClose(conns[id]) then old(manager.count) - 1 else old(manager.count)
      ensures !old(manager.list.Has(ctx)) ==> ctx.next == null && ctx.prev == null
    {
      hide *;
      Apart(ctxs, conns, owners, id);
      last := manager.OnClose(ctx, tcp, conns[id]);
      Together(ctxs, conns, owners, id, OnClose(conns[id], tcp));
    }

    /** A handle has closed. */
    method Closed(ctx: ClientCtx, tcp: bool, ghost id: nat, ghost s: State) returns (last: bool)
      requires Shows(s) && ConnsOk(s) && ListInv(s) && Enabled(s, Event.Closed(id, tcp))
      requires id < |ctxs| && ctxs[id] == ctx
      modifies manager, ChainAt(manager.list, ctx)`next, ChainAt(manager.list, ctx)`prev, ctx`next, ctx`prev,
               ctx`pendingCloses, ctx`tcpDue, ctx`timerDue, ctx`linked, ctx`buffer, ctx`released
      ensures Shows(Step(s, Event.Closed(id, tcp))) && last == LastClose(s.conns[id])
    {
      hide ShowBut, Distinct, ClientManager.Chained, MirrorsChains, Alone, Strays, Step, ConnsOk, ListInv;
      hide LastClose, OnClose, OnTimeout, OnWriteComplete, Outside, Unlinked, Pushed, SetUp, Unlisted, Mirrors, Owned, ClientCtx.Is;
      ghost var was := manager.list;
      StraysApart(ctxs, s.conns, id);
      StraysUnchained(ctxs, s, was, id);
      ChainedIfAccepted(s, id);
      last := CloseApart(ctx, tcp, id, s.conns, Strays(ctxs, s.conns, id));
      StraysTogether(ctxs, s.conns, id);
      MirrorsUnlinked(ctxs, s.list, was, id);
      Handled(s, Event.Closed(id, tcp), OnClose(s.conns[id], tcp));
    }

    /** The contexts whose accept failed stay alone. */
    method CloseApart(ctx: ClientCtx, tcp: bool, ghost id: nat, ghost conns: seq<Conn>, ghost strays: set<ClientCtx>)
      returns (last: bool)
      requires Distinct(ctxs) && ShowBut(ctxs, conns, owners, -1) && id < |ctxs| == |conns| && ctxs[id] == ctx
      requires manager.Chained()
      requires manager.list.Has(ctx) || (ctx.next == null && ctx.prev == null)
      requires Alone(strays) && Unchained(strays, manager.list) && ctx !in strays
      modifies manager, ChainAt(manager.list, ctx)`next, ChainAt(manager.list, ctx)`prev, ctx`next, ctx`prev,
               ctx`pendingCloses, ctx`tcpDue, ctx`timerDue, ctx`linked, ctx`buffer, ctx`released
      ensures last == LastClose(conns[id])
      ensures ShowBut(ctxs, conns[id := OnClose(conns[id], tcp)], owners, -1)
      ensures manager.Chained() && Alone(strays)
      ensures if LastClose(conns[id]) then manager.list == Unlinked(old(manager.list), ctx)
              else manager.list == old(manager.list)
      ensures manager.count == if LastClose(conns[id]) then old(manager.count) - 1 else old(manager.count)
      ensures !old(manager.list.Has(ctx)) ==> ctx.next == null && ctx.prev == null
    {
      hide *;
      Alive(strays);
      UnchainedApart(strays, manager.list, ctx);
      last := CloseOne(ctx, tcp, id, conns);
    }

    /** A context about to be closed is in a chain if its accept succeeded. */
    lemma ChainedIfAccepted(s: State, id: nat)
      requires MirrorsChains(ctxs, s.list, manager.list) && Distinct(ctxs) && ConnsOk(s) && ListInv(s)
      requires id < |ctxs| == |s.conns| && (s.conns[id].tcpDue || s.conns[id].timerDue)
      ensures manager.list.Has(ctxs[id]) <==> s.conns[id].accepted
    {
      hide MirrorsChains, Chains.Has, Chains.Ok, Spare, Distinct;
      assert ConnOk(s.conns[id]) && (id in LinkedIds(s) <==> s.conns[id].linked);
      MirrorsPlace(ctxs, s.list, manager.list, id);
    }

    /** Setting up a new context leaves the others alone. */
    method SetUpOne(ok: bool, ghost conns: seq<Conn>, ghost strays: set<ClientCtx>) returns (ctx: ClientCtx?)
      requires ShowBut(ctxs, conns, owners, -1) && Alone(strays) && manager.Chained()
      requires Unchained(strays, manager.list)
      modifies manager, manager.list.Reached()`prev
      ensures ShowBut(ctxs, conns, owners, -1) && Alone(strays) && manager.Chained()
      ensures ctx == null <==> old(manager.count) >= MAX_CLIENTS
      ensures ctx != null ==> fresh(ctx) && ctx !in ctxs && ctx.Is(SetUp(ok)) && ctx.buffer == null
      ensures ctx != null && !ok ==> ctx.next == null && ctx.prev == null
      ensures if ctx != null && ok
              then manager.list == Pushed(old(manager.list), ctx) && manager.count == old(manager.count) + 1
              else manager.list == old(manager.list) && manager.count == old(manager.count)
    {
      hide *;
      Alive(strays);
      OthersAlive(ctxs, owners, -1);
      UnchainedReached(strays, manager.list);
      ctx := manager.SetupClient(ok);
    }

    ghost method Grow(ctx: ClientCtx, conns: seq<Conn>)
      requires ShowBut(ctxs + [ctx], conns, owners, -1)
      modifies this`ctxs
      ensures ctxs == old(ctxs) + [ctx] && ShowBut(ctxs, conns, owners, -1)
    {
      ctxs := ctxs + [ctx];
    }

    /** A client has called; the context set up for it, if any, is the newest. */
    method Connection(ok: bool, ghost s: State) returns (ctx: ClientCtx?)
      requires Shows(s) && ConnsOk(s) && ListInv(s)
      modifies this`ctxs, manager, manager.list.Reached()`prev
      ensures Shows(Step(s, Event.Connection(ok)))
      ensures ctx == null <==> s.count >= MAX_CLIENTS
      ensures if ctx == null then ctxs == old(ctxs) else fresh(ctx) && ctxs == old(ctxs) + [ctx]
    {
      hide ShowBut, Distinct, ClientManager.Chained, MirrorsChains, Alone, Strays, Step, Enabled, ConnsOk, ListInv;
      hide Finishes, Update, LastClose, Outside, Unlinked, Pushed, SetUp, Unlisted, Mirrors, Owned, ClientCtx.Is;
      ghost var was := manager.list;
      StraysUnchained(ctxs, s, was, -1);
      ctx := SetUpOne(ok, s.conns, Strays(ctxs, s.conns, -1));
      if ctx == null {
        NoStep(s, Event.Connection(ok));
      } else {
        Enlisted(ctxs, s, owners, was, ctx, ok);
        Grow(ctx, s.conns + [SetUp(ok)]);
        Admitted(s, ok);
      }
    }

    lemma Admitted(s: State, ok: bool)
      requires s.count < MAX_CLIENTS && Distinct(ctxs) && ShowBut(ctxs, s.conns + [SetUp(ok)], owners, -1)
      requires manager.Chained() && manager.count == if ok then s.count + 1 else s.count
      requires MirrorsChains(ctxs, if ok then Pushed(s.list, |s.conns|) else s.list, manager.list)
      requires Alone(Strays(ctxs, s.conns + [SetUp(ok)], -1))
      ensures Shows(Step(s, Event.Connection(ok)))
    {
    }

    /** Shutdown: every listed context is asked to close. */
    method CloseAll(ghost s: State)
      requires Shows(s)
      modifies manager.list.Reached()`closing, manager.list.Reached()`pendingCloses, manager.list.Reached()`tcpDue,
               manager.list.Reached()`timerDue, manager.list.Reached()`reading, manager.list.Reached()`timer
      ensures Shows(Step(s, Event.CloseAll))
    {
      hide ShowBut, Distinct, ClientManager.Chained, MirrorsChains, Alone, Strays, Step, Enabled, ConnsOk, ListInv;
      hide Finishes, Update, LastClose, Outside, Unlinked, Pushed, SetUp, Unlisted, Mirrors, Owned, ClientCtx.Is;
      ghost var was := ClosingShown(s);
      CloseAllSteps(s, was);
      AcceptedSame(s);
      CloseLinked(s, was, Strays(ctxs, s.conns, -1));
      AllClosing(s, Step(s, Event.CloseAll), was);
    }

    /** Asking to close changes no links. */
    method CloseLinked(ghost s: State, ghost was: seq<Conn>, ghost strays: set<ClientCtx>)
      requires manager.Chained() && Alone(strays) && Unlisted(s) && |was| == |manager.list.Reached()|
      requires forall k | 0 <= k < |was| :: manager.list.Reached()[k].Is(was[k])
      modifies manager.list.Reached()`closing, manager.list.Reached()`pendingCloses, manager.list.Reached()`tcpDue,
               manager.list.Reached()`timerDue, manager.list.Reached()`reading, manager.list.Reached()`timer
      ensures forall k | 0 <= k < |was| :: manager.list.Reached()[k].Is(CloseClient(was[k]))
      ensures Unlisted(s) && manager.Chained() && Alone(strays)
    {
      hide *;
      Alive(strays);
      OutsideAlive(manager.list.all, -1);
      CloseListed(s, was);
    }

    method CloseListed(ghost s: State, ghost was: seq<Conn>)
      requires manager.Chained() && Unlisted(s) && |was| == |manager.list.Reached()|
      requires forall k | 0 <= k < |was| :: manager.list.Reached()[k].Is(was[k])
      modifies manager.list.Reached()`closing, manager.list.Reached()`pendingCloses, manager.list.Reached()`tcpDue,
               manager.list.Reached()`timerDue, manager.list.Reached()`reading, manager.list.Reached()`timer
      ensures forall k | 0 <= k < |was| :: manager.list.Reached()[k].Is(CloseClient(was[k]))
      ensures Unlisted(s)
    {
      hide ClientManager.Chained, ClientCtx.Is, CloseClient;
      manager.CloseAll(was);
    }

    /** The contexts that are not on the list are as the protocol has them. */
    ghost predicate Unlisted(s: State)
      reads this, manager, ctxs, owners.Keys
    {
      |ctxs| == |s.conns| &&
      forall i | 0 <= i < |ctxs| && i !in s.Active() ::
        ctxs[i] !in manager.list.Reached() && Owned(ctxs[i], owners, i) && ctxs[i].Is(s.conns[i])
    }

    lemma ClosingShown(s: State) returns (was: seq<Conn>)
      requires Shows(s)
      ensures |was| == |s.Active()| == |manager.list.Reached()|
      ensures forall k | 0 <= k < |was| ::
        s.Active()[k] < |s.conns| && was[k] == s.conns[s.Active()[k]] && manager.list.Reached()[k].Is(was[k])
      ensures Unlisted(s) && forall i | 0 <= i < |ctxs| :: Owned(ctxs[i], owners, i)
      ensures Mirrors(ctxs, s.Active(), manager.list.Reached())
    {
      hide ClientManager.Chained, ClientCtx.Is, Alone;
      MirrorsReached(ctxs, s.list, manager.list);
      hide MirrorsChains;
      was := seq(|s.Active()|, k requires 0 <= k < |s.Active()| => s.conns[s.Active()[k]]);
      forall i | 0 <= i < |ctxs| && i !in s.Active() ensures ctxs[i] !in manager.list.Reached() {
        MirrorsMember(ctxs, s.Active(), manager.list.Reached(), i);
      }
    }

    lemma CloseAllSteps(s: State, was: seq<Conn>)
      requires |was| == |s.Active()|
      requires forall k | 0 <= k < |was| :: s.Active()[k] < |s.conns| && was[k] == s.conns[s.Active()[k]]
      ensures var t := Step(s, Event.CloseAll);
              && t.list == s.list && t.count == s.count && |t.conns| == |s.conns|
              && (forall i | 0 <= i < |s.conns| && i !in s.Active() :: t.conns[i] == s.conns[i])
              && forall k | 0 <= k < |was| :: t.conns[s.Active()[k]] == CloseClient(was[k])
    {
      hide CloseClient;
      var t := Step(s, Event.CloseAll);
      forall k | 0 <= k < |was| ensures t.conns[s.Active()[k]] == CloseClient(was[k]) {
        assert s.Active()[k] in s.Active();
      }
    }

    lemma AcceptedSame(s: State)
      requires |ctxs| == |s.conns|
      ensures Strays(ctxs, Step(s, Event.CloseAll).conns, -1) == Strays(ctxs, s.conns, -1)
    {
      StepLinks(s, Event.CloseAll);
    }

    lemma AllClosing(s: State, t: State, was: seq<Conn>)
      requires Unlisted(s) && Mirrors(ctxs, s.Active(), manager.list.Reached())
      requires |t.conns| == |s.conns| && |was| == |s.Active()|
      requires forall k | 0 <= k < |was| :: manager.list.Reached()[k].Is(CloseClient(was[k]))
      requires forall i | 0 <= i < |ctxs| :: Owned(ctxs[i], owners, i)
      requires forall i | 0 <= i < |s.conns| && i !in s.Active() :: t.conns[i] == s.conns[i]
      requires forall k | 0 <= k < |was| :: s.Active()[k] < |t.conns| && t.conns[s.Active()[k]] == CloseClient(was[k])
      ensures ShowBut(ctxs, t.conns, owners, -1)
    {
      hide ClientCtx.Is, CloseClient;
      forall i | 0 <= i < |ctxs| ensures ctxs[i].Is(t.conns[i]) {
        if i in s.Active() {
          var k :| 0 <= k < |s.Active()| && s.Active()[k] == i;
          assert manager.list.Reached()[k].Is(CloseClient(was[k]));
        }
      }
      forall i | 0 <= i < |ctxs|
        ensures ctxs[i] in Others(ctxs, -1) && (ctxs[i].buffer != null ==> ctxs[i].buffer in OthersBuffers(owners, -1))
      {
        assert Owned(ctxs[i], owners, i);
      }
    }

  }

  /** One more context, not seen before. */
  lemma Enlisted(ctxs: seq<ClientCtx>, s: State, owners: Owners, list: Chains<ClientCtx>,
                 ctx: ClientCtx, ok: bool)
    requires Distinct(ctxs) && ShowBut(ctxs, s.conns, owners, -1) && ctx !in ctxs && |ctxs| == |s.conns|
    requires ctx.Is(SetUp(ok)) && ctx.buffer == null && (ok || (ctx.next == null && ctx.prev == null))
    requires MirrorsChains(ctxs, s.list, list) && Alone(Strays(ctxs, s.conns, -1))
    ensures Distinct(ctxs + [ctx]) && ShowBut(ctxs + [ctx], s.conns + [SetUp(ok)], owners, -1)
    ensures MirrorsChains(ctxs + [ctx], s.list, list)
    ensures MirrorsChains(ctxs + [ctx], Pushed(s.list, |s.conns|), Pushed(list, ctx))
    ensures Alone(Strays(ctxs + [ctx], s.conns + [SetUp(ok)], -1))
  {
    assert SetUp(ok).accepted == ok;
    hide *;
    ShowMore(ctxs, s.conns, owners, ctx, SetUp(ok));
    DistinctMore(ctxs, ctx);
    MirrorsMore(ctxs, s.list, list, ctx);
    StraysMore(ctxs, s.conns, ctx, SetUp(ok));
  }

  lemma ShowMore(ctxs: seq<ClientCtx>, conns: seq<Conn>, owners: Owners, ctx: ClientCtx, c: Conn)
    requires ShowBut(ctxs, conns, owners, -1) && ctx.Is(c) && ctx.buffer == null
    ensures ShowBut(ctxs + [ctx], conns + [c], owners, -1)
  {
    hide ClientCtx.Is;
    var cs, ds := ctxs + [ctx], conns + [c];
    forall i | 0 <= i < |cs|
      ensures Owned(cs[i], owners, i) && cs[i].Is(ds[i]) && cs[i] in Others(cs, -1)
      ensures cs[i].buffer != null ==> cs[i].buffer in OthersBuffers(owners, -1)
    {
      if i < |ctxs| { assert cs[i] == ctxs[i] && ds[i] == conns[i] && Owned(ctxs[i], owners, i); }
    }
  }

  lemma DistinctMore<T>(s: seq<T>, x: T)
    requires Distinct(s) && x !in s
    ensures Distinct(s + [x])
  {
  }

  lemma MirrorsMore(ctxs: seq<ClientCtx>, ids: Chains<nat>, list: Chains<ClientCtx>, ctx: ClientCtx)
    requires MirrorsChains(ctxs, ids, list)
    ensures MirrorsChains(ctxs + [ctx], ids, list)
    ensures MirrorsChains(ctxs + [ctx], Pushed(ids, |ctxs|), Pushed(list, ctx))
  {
  }

  lemma StraysMore(ctxs: seq<ClientCtx>, conns: seq<Conn>, ctx: ClientCtx, c: Conn)
    requires |ctxs| == |conns| && Alone(Strays(ctxs, conns, -1))
    requires c.accepted || (ctx.next == null && ctx.prev == null)
    ensures Alone(Strays(ctxs + [ctx], conns + [c], -1))
  {
    forall x | x in Strays(ctxs + [ctx], conns + [c], -1) ensures x.next == null && x.prev == null {
      var i :| 0 <= i <= |ctxs| && (ctxs + [ctx])[i] == x && !(conns + [c])[i].accepted;
      if i < |ctxs| { assert x in Strays(ctxs, conns, -1); }
    }
  }
}
