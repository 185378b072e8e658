/**
 The callbacks on real contexts: fields updated in place, the receive buffer filled, the doubly
 linked list of connections patched. Each callback refines its step of the protocol.
 */
module ConnectionHandler {
  import opened Bytes
  import opened LinkedLists
  import opened Options
  import opened Sequences
  import opened P = Connections
  import HttpGrammar
  import HttpRequests

  /** A context from the pool, nothing done with it. */
  const FRESH := Conn(false, false, false, 0, [], false, false, [], false, false, 0)

  /** A context, with what libuv knows of its two handles and what it still has to call back. */
  class ClientCtx {
    var next: ClientCtx?
    var prev: ClientCtx?
    var closing: bool
    var pendingCloses: nat
    var totalRead: nat
    var buffer: array?<byte>
    var reading: bool
    var timer: bool
    var writes: seq<bool>
    var tcpDue: bool
    var timerDue: bool
    ghost var accepted: bool
    ghost var linked: bool
    ghost var released: nat

    constructor ()
      ensures next == null && prev == null && buffer == null
      ensures Is(FRESH)
    {
      next, prev, closing, pendingCloses, totalRead, buffer := null, null, false, 0, 0, null;
      reading, timer, writes, tcpDue, timerDue := false, false, [], false, false;
      accepted, linked, released := false, false, 0;
    }

    /** The buffer has CLIENT_BUFFER_SIZE octets, and always one to spare for the terminator. */
    ghost predicate Fits()
      reads this`buffer, this`totalRead, this`released
    {
      && totalRead <= CLIENT_BUFFER_SIZE - 1
      && (buffer == null && released == 0 ==> totalRead == 0)
      && (buffer != null ==> buffer.Length == CLIENT_BUFFER_SIZE)
    }

    ghost function Links(): Ends<ClientCtx>
      reads this`next, this`prev
    {
      Ends(Maybe(next), Maybe(prev))
    }

    ghost function Data(): seq<byte>
      reads this`buffer, this`totalRead, this`released, buffer
      requires Fits()
    {
      if buffer == null then [] else buffer[..totalRead]
    }

    ghost function Abs(): Conn
      reads this`closing, this`pendingCloses, this`totalRead, this`buffer, buffer, this`reading, this`timer,
            this`writes, this`tcpDue, this`timerDue, this`accepted, this`linked, this`released
      requires Fits()
    {
      Conn(accepted, linked, closing, pendingCloses, Data(), reading, timer, writes, tcpDue, timerDue, released)
    }

    ghost predicate Is(c: Conn)
      reads this`closing, this`pendingCloses, this`totalRead, this`buffer, buffer, this`reading, this`timer,
            this`writes, this`tcpDue, this`timerDue, this`accepted, this`linked, this`released
    {
      Fits() && Abs() == c
    }

    /** Ask libuv to close both handles, once. */
    method CloseClient(ghost was: Conn)
      requires Is(was)
      modifies this`closing, this`pendingCloses, this`tcpDue, this`timerDue, this`reading, this`timer
      ensures Is(P.CloseClient(was))
    {
      if closing { return; }
      closing := true;
      pendingCloses := 2;
      tcpDue, reading := true, false;
      timerDue, timer := true, false;
    }

    /** The unused tail of the buffer, which is allocated on first use. */
    method OnBufferAlloc(ghost was: Conn) returns (base: nat, len: nat)
      requires Is(was) && was.released == 0
      modifies this`buffer
      ensures Is(was) && buffer != null && (buffer == old(buffer) || fresh(buffer))
      ensures base == totalRead == |was.data| && len == Room(was) && base + len < buffer.Length
    {
      if buffer == null {
        buffer := new byte[CLIENT_BUFFER_SIZE](_ => 0);
      }
      base, len := totalRead, CLIENT_BUFFER_SIZE - 1 - totalRead;
    }

    /** The response goes out, or the connection closes when there is none to send. */
    method SendResponse(keepAlive: bool, rendered: bool, ghost was: Conn)
      requires Is(was)
      modifies this`writes, this`closing, this`pendingCloses, this`tcpDue, this`timerDue, this`reading, this`timer
      ensures Is(P.SendResponse(was, keepAlive, rendered))
    {
      if !rendered {
        CloseClient(was);
        return;
      }
      writes := writes + [keepAlive];
    }

    /** Refuse an address over its limit, refuse a malformed request, else hand the request on. */
    method Dispatch(a: Answer, ghost was: Conn)
      requires Is(was) && buffer != null
      modifies this`writes, this`closing, this`pendingCloses, this`tcpDue, this`timerDue, this`reading, this`timer
      ensures Is(P.SendResponse(was, KeepsAlive(was.data, a), a.rendered))
    {
      hide HttpGrammar.ParseRequest, P.SendResponse;
      if !a.admitted {
        SendResponse(false, a.rendered, was);
        return;
      }
      var headers := new HttpGrammar.Header[HttpRequests.MAX_HEADERS](
        i => HttpGrammar.Header(false, HttpGrammar.NO_NAME, HttpGrammar.NO_NAME));
      var ok, handed, n := HttpRequests.RequestParse(buffer[..totalRead], headers);
      if !ok {
        SendResponse(false, a.rendered, was);
        return;
      }
      SendResponse(a.wantsKeepAlive, a.rendered, was);
    }

    /** libuv has put `nread` octets where it was told to: they are taken in and a terminator is put behind them. */
    method TakeIn(nread: nat, ghost was: Conn)
      requires Is(was) && buffer != null && totalRead + nread <= CLIENT_BUFFER_SIZE - 1
      modifies this`totalRead, buffer
      ensures totalRead == old(totalRead) + nread
      ensures Is(was.(data := was.data + old(buffer[totalRead..totalRead + nread])))
    {
      ghost var octets := buffer[totalRead..totalRead + nread];
      totalRead := totalRead + nread;
      buffer[totalRead] := 0;
      assert Data() == was.data + octets;
    }

    method HasWholeRequest(ghost was: Conn) returns (complete: bool)
      requires Is(was) && buffer != null
      ensures complete <==> HttpRequests.Complete(was.data)
    {
      complete := HttpRequests.IsRequestComplete(buffer[..totalRead]);
    }

    method StopReading(ghost was: Conn)
      requires Is(was)
      modifies this`reading, this`timer
      ensures Is(was.(reading := false, timer := false))
    {
      reading := false;
      timer := false;
    }

    /** More octets have come: answer when the request is complete, reading and timer stopped. */
    method OnRead(nread: nat, a: Answer, ghost was: Conn)
      requires Is(was) && buffer != null && totalRead + nread <= CLIENT_BUFFER_SIZE - 1 < buffer.Length
      modifies this`totalRead, this`writes, this`closing, this`pendingCloses, this`tcpDue, this`timerDue,
               this`reading, this`timer, buffer
      ensures Is(P.OnRead(was, if nread == 0 then Nothing else Octets(old(buffer[totalRead..totalRead + nread])), a))
    {
      hide HttpRequests.Complete, KeepsAlive, P.SendResponse, Is;
      if nread == 0 { return; }
      ghost var now := was.(data := was.data + buffer[totalRead..totalRead + nread]);
      TakeIn(nread, was);
      var complete := HasWholeRequest(now);
      if !complete { return; }
      StopReading(now);
      Dispatch(a, now.(reading := false, timer := false));
    }

    /** A read as libuv performs it: ask for memory, fill it, call back. */
    method Receive(input: Input, a: Answer, ghost was: Conn)
      requires Is(was) && was.released == 0 && (input.Octets? ==> 0 < |input.octets| <= Room(was))
      modifies this`totalRead, this`writes, this`closing, this`pendingCloses, this`tcpDue, this`timerDue,
               this`reading, this`timer,
               this`buffer, buffer
      ensures Is(P.OnRead(was, input, a)) && (buffer == old(buffer) || fresh(buffer))
    {
      hide HttpRequests.Complete, KeepsAlive, P.SendResponse, P.CloseClient;
      match input {
        case Failed => CloseClient(was);
        case Nothing =>
        case Octets(octets) =>
          var base, len := OnBufferAlloc(was);
          Fill(base, octets, was);
          OnRead(|octets|, a, was);
      }
    }

    method Fill(base: nat, octets: seq<byte>, ghost was: Conn)
      requires Is(was) && buffer != null && base == totalRead && base + |octets| <= CLIENT_BUFFER_SIZE - 1
      modifies buffer
      ensures Is(was) && buffer[base..base + |octets|] == octets
    {
      forall k | 0 <= k < |octets| { buffer[base + k] := octets[k]; }
      assert Data() == was.data;
    }

    /** The write request gives back its keep-alive flag. */
    method TakeWrite(ghost was: Conn) returns (keepAlive: bool)
      requires Is(was) && writes != []
      modifies this`writes
      ensures was.writes != [] && keepAlive == was.writes[0] && Is(was.(writes := was.writes[1..]))
    {
      keepAlive := writes[0];
      writes := writes[1..];
    }

    /** The response is out: close, or wait for the next request. */
    method OnWriteComplete(ok: bool, ghost was: Conn)
      requires Is(was) && writes != []
      modifies this`writes, this`totalRead, this`closing, this`pendingCloses, this`tcpDue, this`timerDue,
               this`reading, this`timer
      ensures was.writes != [] && Is(P.OnWriteComplete(was, ok))
    {
      hide Is, P.CloseClient;
      var keepAlive := TakeWrite(was);
      if !ok || !keepAlive {
        CloseClient(was.(writes := was.writes[1..]));
        return;
      }
      StartOver(was.(writes := was.writes[1..]));
    }

    /** Keep-alive: an empty buffer, the idle timer and reading again, which libuv refuses on closing handles. */
    method StartOver(ghost was: Conn)
      requires Is(was)
      modifies this`totalRead, this`reading, this`timer
      ensures Is(was.(data := [], reading := was.reading || !was.closing, timer := was.timer || !was.closing))
    {
      totalRead := 0;
      if !closing { timer := true; }
      if !closing { reading := true; }
    }

    method OnTimeout(ghost was: Conn)
      requires Is(was)
      modifies this`closing, this`pendingCloses, this`tcpDue, this`timerDue, this`reading, this`timer
      ensures Is(P.OnTimeout(was))
    {
      timer := false;
      CloseClient(was.(timer := false));
    }

    method HandleClosed(tcp: bool, ghost was: Conn)
      requires Is(was)
      modifies this`pendingCloses, this`tcpDue, this`timerDue
      ensures Is(HandleGone(was, tcp)) && (pendingCloses > 0 <==> !LastClose(was))
    {
      if tcp { tcpDue := false; } else { timerDue := false; }
      pendingCloses := OneLess(pendingCloses);
    }

    /** Off the list and back to the pool: the buffer is freed. */
    method Release(ghost was: Conn)
      requires Is(was)
      modifies this`buffer, this`linked, this`released
      ensures Is(was.(linked := false, data := [], released := was.released + 1)) && buffer == null
    {
      buffer := null;
      linked, released := false, released + 1;
    }

    /** Accept has failed: the fresh context is closed. */
    method Refuse()
      requires Is(FRESH)
      modifies this`closing, this`pendingCloses, this`tcpDue, this`timerDue, this`reading, this`timer
      ensures Is(SetUp(false))
    {
      CloseClient(FRESH);
    }

    /** Accept has succeeded: the idle timer is started. */
    method Start()
      requires Is(FRESH)
      modifies this`accepted, this`timer, this`linked
      ensures Is(SetUp(true).(reading := false)) && !closing
    {
      accepted, timer, linked := true, true, true;
    }

    method StartReading(ghost was: Conn)
      requires Is(was) && !closing
      modifies this`reading
      ensures Is(was.(reading := true))
    {
      reading := true;
    }
  }

  // ----- The lists of connections -----

  ghost function Maybe(c: ClientCtx?): Option<ClientCtx> {
    if c == null then None else Some(c)
  }

  ghost predicate LinkedAt(s: seq<ClientCtx>, i: nat)
    reads s`next, s`prev
  {
    i < |s| ==> s[i].Links() == Neighbours(s, i)
  }

  ghost predicate Linked(s: seq<ClientCtx>)
    reads s`next, s`prev
  {
    forall i: nat | i < |s| :: LinkedAt(s, i)
  }

  /** How position j is linked once the neighbours of position i have been joined. */
  ghost predicate JoinedAt(s: seq<ClientCtx>, i: nat, j: nat)
    reads s`next, s`prev
  {
    j < |s| && j != i ==> s[j].Links() == Joined(s, i, j)
  }

  /** All chains but one are linked. */
  ghost predicate LinkedBut(all: seq<seq<ClientCtx>>, k: int)
    reads Outside(all, k)`next, Outside(all, k)`prev
  {
    forall j | 0 <= j < |all| && j != k :: (forall c | c in all[j] :: c in Outside(all, k)) && Linked(all[j])
  }

  /** The chain an element is in; empty if it is in none. */
  ghost function ChainAt(l: Chains<ClientCtx>, c: ClientCtx): seq<ClientCtx> {
    if ChainOf(l.all, c) < |l.all| then l.all[ChainOf(l.all, c)] else []
  }

  lemma ChainApart(l: Chains<ClientCtx>, k: nat)
    requires l.Ok() && LinkedBut(l.all, -1) && k < |l.all|
    ensures LinkedBut(l.all, k) && Linked(l.all[k]) && Distinct(l.all[k])
    ensures forall c | c in l.all[k] :: c !in Outside(l.all, k)
  {
    InOneList(l.all, k);
  }

  lemma ChainTogether(all: seq<seq<ClientCtx>>, k: nat, s: seq<ClientCtx>)
    requires k < |all| && LinkedBut(all, k) && Linked(s)
    ensures LinkedBut(all[k := s], -1)
  {
    var now := all[k := s];
    forall j | 0 <= j < |now| ensures (forall c | c in now[j] :: c in Outside(now, -1)) && Linked(now[j]) {
      if j != k { assert now[j] == all[j]; }
    }
  }

  lemma EmptyChainMore(all: seq<seq<ClientCtx>>, k: nat)
    requires LinkedBut(all, k) && k >= |all|
    ensures LinkedBut(all + [[]], -1)
  {
    var now := all + [[]];
    forall j | 0 <= j < |now| ensures (forall c | c in now[j] :: c in Outside(now, -1)) && Linked(now[j]) {
      if j < |all| { assert now[j] == all[j]; }
    }
  }

  lemma NotANode(l: Chains<ClientCtx>, c: ClientCtx)
    requires !l.Has(c)
    ensures c !in Outside(l.all, -1) && c !in Outside(l.all, l.cur) && c !in l.Reached()
  {
  }

  class ClientManager {
    var head: ClientCtx?
    var count: int
    /** The chains of linked contexts, the one the head pointer leads to and those it has lost. */
    ghost var list: Chains<ClientCtx>

    ghost predicate Chained()
      reads this, Outside(list.all, -1)`next, Outside(list.all, -1)`prev
    {
      list.Ok() && Maybe(head) == At(list.Reached(), 0) && LinkedBut(list.all, -1)
    }

    constructor ()
      ensures Chained() && list == Chains([[]], 0) && count == 0
    {
      head, count, list := null, 0, Chains([[]], 0);
    }

    /** A newcomer becomes the head, in front of the chain there. */
    method PutInFront(ctx: ClientCtx, ghost s: seq<ClientCtx>)
      requires Linked(s) && Distinct(s) && Maybe(head) == At(s, 0) && ctx !in s
      modifies this`head, ctx`next, ctx`prev, s`prev
      ensures Linked([ctx] + s) && head == ctx
    {
      ctx.next := head;
      ctx.prev := null;
      if head != null { head.prev := ctx; }
      head := ctx;
      forall k: nat | k < |[ctx] + s| ensures LinkedAt([ctx] + s, k) {
        InFrontLinks(ctx, s, k);
        if k > 0 { assert old(LinkedAt(s, k - 1)); }
      }
    }

    method Link(ctx: ClientCtx)
      requires Chained() && !list.Has(ctx)
      modifies this, ctx`next, ctx`prev, list.Reached()`prev
      ensures Chained() && list == Pushed(old(list), ctx) && count == old(count) + 1
    {
      NotANode(list, ctx);
      PushedOk(list, ctx);
      ChainApart(list, list.cur);
      hide LinkedBut, Linked, Outside, Distinct, Chains.Ok, Chains.Has;
      PutInFront(ctx, list.Reached());
      ChainTogether(list.all, list.cur, [ctx] + list.Reached());
      count := count + 1;
      list := Pushed(list, ctx);
    }

    /** The neighbours of an element are joined; without a predecessor the head moves to the successor.  An element
        in no chain has neither. */
    method JoinNeighbours(ctx: ClientCtx, ghost s: seq<ClientCtx>, ghost i: nat)
      requires Linked(s) && Distinct(s)
      requires if i < |s| then s[i] == ctx else s == [] && ctx.next == null && ctx.prev == null && i == 0
      modifies this`head, s`next, s`prev
      ensures Maybe(head) == if i == 0 then At(s, 1) else old(Maybe(head))
      ensures forall j: nat | j < |s| :: JoinedAt(s, i, j)
    {
      assert LinkedAt(s, i);
      if ctx.prev != null { ctx.prev.next := ctx.next; } else { head := ctx.next; }
      if ctx.next != null { ctx.next.prev := ctx.prev; }
      hide Linked;
      forall j: nat | j < |s| ensures JoinedAt(s, i, j) {
        assert old(LinkedAt(s, j));
      }
    }

    /** An element leaves its chain, its own links cleared. */
    method TakeOut(ctx: ClientCtx, ghost s: seq<ClientCtx>, ghost i: nat)
      requires Linked(s) && Distinct(s)
      requires if i < |s| then s[i] == ctx else s == [] && ctx.next == null && ctx.prev == null && i == 0
      modifies this`head, ctx`next, ctx`prev, s`next, s`prev
      ensures i < |s| ==> Linked(Without(s, i))
      ensures ctx.next == null && ctx.prev == null
      ensures Maybe(head) == if i == 0 then At(s, 1) else old(Maybe(head))
    {
      JoinNeighbours(ctx, s, i);
      ghost var now := s;
      if i < |s| {
        now := Without(s, i);
        assert ctx !in now;
        LinkedWithout(s, i);
      }
      ctx.next, ctx.prev := null, null;
      assert i < |s| ==> Linked(now);
    }

    lemma LinkedWithout(s: seq<ClientCtx>, i: nat)
      requires i < |s| && forall j: nat | j < |s| :: JoinedAt(s, i, j)
      ensures Linked(Without(s, i))
    {
      hide At, Without;
      forall k: nat | k < |s| - 1 ensures LinkedAt(Without(s, i), k) {
        JoinedIsWithout(s, i, k);
        assert JoinedAt(s, i, if k < i then k else k + 1);
      }
    }

    /** A context leaves the list.  One that was first in its chain, wherever that is, hands the head pointer to its
        successor; so does one that was never linked, and has none. */
    method Unlink(ctx: ClientCtx)
      requires Chained() && (list.Has(ctx) || (ctx.next == null && ctx.prev == null))
      modifies this, ctx`next, ctx`prev, ChainAt(list, ctx)`next, ChainAt(list, ctx)`prev
      ensures Chained() && list == Unlinked(old(list), ctx) && count == old(count) - 1
      ensures ctx.next == null && ctx.prev == null
    {
      hide LinkedBut, Linked, Outside, Distinct, Disjoint, Chains.Ok, Chains.Has, Unlinked, Without, ChainAt, ChainOf, At;
      ghost var k, s, i := Place(ctx);
      OutsideAlive(list.all, k);
      TakeOut(ctx, s, i);
      Regrouped(ctx, k, s, i);
      count := count - 1;
      list := Unlinked(list, ctx);
    }

    /** The chain to take an element from, and where it is in it. */
    lemma Place(ctx: ClientCtx) returns (k: nat, s: seq<ClientCtx>, i: nat)
      requires Chained() && (list.Has(ctx) || (ctx.next == null && ctx.prev == null))
      ensures s == ChainAt(list, ctx) && k == ChainOf(list.all, ctx) && Linked(s) && Distinct(s)
      ensures if i < |s| then s[i] == ctx else s == [] && i == 0 && ctx.next == null && ctx.prev == null
      ensures if k < |list.all| then s == list.all[k] && i < |s| else s == []
      ensures LinkedBut(list.all, k) && ctx !in Outside(list.all, k) && forall c | c in s :: c !in Outside(list.all, k)
      ensures list.Ok() && Maybe(head) == At(list.Reached(), 0)
    {
      k, s, i := ChainOf(list.all, ctx), ChainAt(list, ctx), 0;
      if k < |list.all| {
        ChainApart(list, k);
        i :| 0 <= i < |s| && s[i] == ctx;
      } else {
        NotANode(list, ctx);
        assert Outside(list.all, k) == Outside(list.all, -1);
      }
    }

    lemma Regrouped(ctx: ClientCtx, k: nat, s: seq<ClientCtx>, i: nat)
      requires list.Ok() && k == ChainOf(list.all, ctx) && LinkedBut(list.all, k)
      requires if k < |list.all| then s == list.all[k] && i < |s| && s[i] == ctx else s == [] && i == 0
      requires i < |s| ==> Linked(Without(s, i))
      requires Maybe(head) == if i == 0 then At(s, 1) else At(list.Reached(), 0)
      ensures LinkedBut(Unlinked(list, ctx).all, -1) && Maybe(head) == At(Unlinked(list, ctx).Reached(), 0)
      ensures Unlinked(list, ctx).Ok()
    {
      UnlinkedOk(list, ctx);
      hide LinkedBut, Linked, Chains.Has;
      if k < |list.all| {
        RemoveAt(s, i);
        HeadWithout(s, i);
        ChainTogether(list.all, k, Without(s, i));
      } else {
        EmptyChainMore(list.all, k);
      }
    }

    // ----- Callbacks -----

    /** A new context, closed at once when accept fails, otherwise timed, linked and read; none above the cap. */
    method SetupClient(ok: bool) returns (ctx: ClientCtx?)
      requires Chained()
      modifies this, list.Reached()`prev
      ensures Chained()
      ensures ctx == null <==> old(count) >= MAX_CLIENTS
      ensures ctx != null ==> fresh(ctx) && ctx.Is(SetUp(ok)) && ctx.buffer == null
      ensures if ctx != null && ok then list == Pushed(old(list), ctx) && count == old(count) + 1
              else list == old(list) && count == old(count)
      ensures ctx != null && !ok ==> ctx.next == null && ctx.prev == null
    {
      assert forall c | list.Has(c) :: allocated(c);
      hide *;
      OutsideAlive(list.all, -1);
      if count >= MAX_CLIENTS { return null; }
      ctx := new ClientCtx();
      if !ok {
        ctx.Refuse();
        return;
      }
      Admit(ctx);
    }

    /** The fresh context is timed, linked and read. */
    method Admit(ctx: ClientCtx)
      requires Chained() && !list.Has(ctx) && ctx.Is(FRESH)
      modifies this, ctx`accepted, ctx`timer, ctx`linked, ctx`reading, ctx`next, ctx`prev, list.Reached()`prev
      ensures Chained() && list == Pushed(old(list), ctx) && count == old(count) + 1 && ctx.Is(SetUp(true))
    {
      assert SetUp(true).reading;
      hide *;
      OutsideAlive(list.all, -1);
      ctx.Start();
      Link(ctx);
      OutsideAlive(list.all, -1);
      ctx.StartReading(SetUp(true).(reading := false));
      assert SetUp(true).(reading := false).(reading := true) == SetUp(true);
    }

    /** One handle has closed; after the second the context leaves the list and goes back to the pool. */
    method OnClose(ctx: ClientCtx, tcp: bool, ghost was: Conn) returns (last: bool)
      requires Chained() && ctx.Is(was)
      requires list.Has(ctx) || (ctx.next == null && ctx.prev == null)
      modifies this, ctx`pendingCloses, ctx`tcpDue, ctx`timerDue, ctx`next, ctx`prev, ctx`linked, ctx`buffer,
               ctx`released, ChainAt(list, ctx)`next, ChainAt(list, ctx)`prev
      ensures last == LastClose(was)
      ensures Chained() && ctx.Is(P.OnClose(was, tcp)) && (ctx.buffer == null || ctx.buffer == old(ctx.buffer))
      ensures !old(list.Has(ctx)) ==> ctx.next == null && ctx.prev == null
      ensures if LastClose(was) then list == Unlinked(old(list), ctx) && count == old(count) - 1
              else list == old(list) && count == old(count)
    {
      hide Chained, Outside, ClientCtx.Is, LastClose, Unlinked, Chains.Has;
      OutsideAlive(list.all, -1);
      ctx.HandleClosed(tcp, was);
      if ctx.pendingCloses > 0 { return false; }
      Unlink(ctx);
      OutsideAlive(list.all, -1);
      ctx.Release(HandleGone(was, tcp));
      last := true;
    }

    /** One of them is asked, and the next one looked up before. */
    method CloseNext(ctx: ClientCtx, ghost s: seq<ClientCtx>, ghost was: seq<Conn>, ghost i: nat)
      returns (next: ClientCtx?)
      requires Linked(s) && Distinct(s) && i < |s| == |was| && s[i] == ctx
      requires forall k | 0 <= k < i :: s[k].Is(P.CloseClient(was[k]))
      requires forall k | i <= k < |s| :: s[k].Is(was[k])
      modifies ctx`closing, ctx`pendingCloses, ctx`tcpDue, ctx`timerDue, ctx`reading, ctx`timer
      ensures Linked(s) && Maybe(next) == At(s, i + 1)
      ensures forall k | 0 <= k <= i :: s[k].Is(P.CloseClient(was[k]))
      ensures forall k | i < k < |s| :: s[k].Is(was[k])
    {
      assert LinkedAt(s, i);
      next := ctx.next;
      hide *;
      ctx.CloseClient(was[i]);
    }

    /** Every connection on the list is asked to close; the list itself stays until the callbacks come. */
    method CloseAll(ghost was: seq<Conn>)
      requires Chained() && |was| == |list.Reached()|
      requires forall k | 0 <= k < |was| :: list.Reached()[k].Is(was[k])
      modifies list.Reached()`closing, list.Reached()`pendingCloses, list.Reached()`tcpDue, list.Reached()`timerDue,
               list.Reached()`reading, list.Reached()`timer
      ensures forall k | 0 <= k < |was| :: list.Reached()[k].Is(P.CloseClient(was[k]))
    {
      ghost var active := list.Reached();
      ChainApart(list, list.cur);
      hide P.CloseClient, ClientCtx.Is, Chained, Linked, LinkedBut, Outside, Distinct, Disjoint, Chains.Ok;
      var curr := head;
      ghost var i := 0;
      while curr != null
        invariant i <= |active| && Maybe(curr) == At(active, i) && Linked(active)
        invariant forall k | 0 <= k < i :: active[k].Is(P.CloseClient(was[k]))
        invariant forall k | i <= k < |active| :: active[k].Is(was[k])
        decreases |active| - i
      {
        curr := CloseNext(curr, active, was, i);
        i := i + 1;
      }
    }
  }
}
