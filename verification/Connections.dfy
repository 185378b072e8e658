/**
 The connection protocol: what each callback does to one connection and to the active list,
 and what holds in every run of the event loop.
 */
module Connections {
  import opened Bytes
  import opened LinkedLists
  import opened Sequences
  import HttpGrammar
  import HttpRequests

  const MAX_CLIENTS := 16384
  const CLIENT_BUFFER_SIZE := 8192

  // ----- One connection -----

  /**
   A context together with what libuv still owes it: whether it is being read, its timer armed,
   the keep-alive flag of each response being written, and the close callbacks due.
   `data` is what the receive buffer holds up to totalRead; `released` counts the returns to the pool.
   */
  datatype Conn = Conn(accepted: bool, linked: bool, closing: bool, pendingCloses: nat, data: seq<byte>,
                       reading: bool, timer: bool, writes: seq<bool>, tcpDue: bool, timerDue: bool, released: nat)

  datatype Input = Octets(octets: seq<byte>) | Nothing | Failed

  /** Answers of the rate limiter, of the request's keep-alive header, and of rendering. */
  datatype Answer = Answer(admitted: bool, wantsKeepAlive: bool, rendered: bool)

  function CloseClient(c: Conn): Conn {
    if c.closing then c
    else c.(closing := true, pendingCloses := 2, tcpDue := true, timerDue := true, reading := false, timer := false)
  }

  /** A context fresh from the pool; a failed accept closes it before it is linked. */
  function SetUp(ok: bool): Conn {
    var c := Conn(ok, ok, false, 0, [], ok, ok, [], false, false, 0);
    if ok then c else CloseClient(c)
  }

  function Room(c: Conn): int { CLIENT_BUFFER_SIZE - 1 - |c.data| }

  ghost predicate KeepsAlive(data: seq<byte>, a: Answer) {
    a.admitted && HttpGrammar.ParseRequest(data, HttpRequests.MAX_HEADERS).Ok? && a.wantsKeepAlive
  }

  function SendResponse(c: Conn, keepAlive: bool, rendered: bool): Conn {
    if rendered then c.(writes := c.writes + [keepAlive]) else CloseClient(c)
  }

  ghost function OnRead(c: Conn, input: Input, a: Answer): Conn {
    match input
    case Failed => CloseClient(c)
    case Nothing => c
    case Octets(o) =>
      var now := c.(data := c.data + o);
      if !HttpRequests.Complete(now.data) then now
      else SendResponse(now.(reading := false, timer := false), KeepsAlive(now.data, a), a.rendered)
  }

  /** libuv refuses to start reading or a timer on a closing handle. */
  function OnWriteComplete(c: Conn, ok: bool): Conn
    requires c.writes != []
  {
    var rest := c.(writes := c.writes[1..]);
    if !ok || !c.writes[0] then CloseClient(rest)
    else rest.(data := [], reading := rest.reading || !rest.closing, timer := rest.timer || !rest.closing)
  }

  function OnTimeout(c: Conn): Conn {
    CloseClient(c.(timer := false))
  }

  /** The counter has two bits. */
  function OneLess(pending: nat): nat {
    if pending == 0 then 3 else pending - 1
  }

  predicate LastClose(c: Conn) { OneLess(c.pendingCloses) == 0 }

  function HandleGone(c: Conn, tcp: bool): Conn {
    c.(pendingCloses := OneLess(c.pendingCloses), tcpDue := c.tcpDue && !tcp, timerDue := c.timerDue && tcp)
  }

  function OnClose(c: Conn, tcp: bool): Conn {
    var now := HandleGone(c, tcp);
    if LastClose(c) then now.(linked := false, data := [], released := c.released + 1) else now
  }

  /**
   An open connection either waits for the rest of a request, read and timed, or has exactly one
   response under way; a closing one is released exactly when both its close callbacks have come.
   */
  ghost predicate ConnOk(c: Conn) {
    && |c.data| <= CLIENT_BUFFER_SIZE - 1 && |c.writes| <= 1
    && (c.reading ==> !HttpRequests.Complete(c.data))
    && (if c.closing then
          && !c.reading && !c.timer && (c.writes != [] ==> c.tcpDue)
          && c.pendingCloses == (if c.tcpDue then 1 else 0) + (if c.timerDue then 1 else 0)
          && (c.linked <==> c.accepted && c.pendingCloses > 0)
          && c.released == (if c.pendingCloses == 0 then 1 else 0)
        else
          && c.accepted && c.linked && c.released == 0 && c.pendingCloses == 0 && !c.tcpDue && !c.timerDue
          && (c.writes == [] ==> c.reading && c.timer)
          && (c.writes != [] ==> !c.reading && !c.timer && HttpRequests.Complete(c.data)))
  }

  // ----- The whole loop -----

  /** Every context ever set up, by number; the lists they are linked in; and the count the code keeps. */
  datatype State = State(conns: seq<Conn>, list: Chains<nat>, count: int) {
    /** The active list: what the head pointer leads to. */
    function Active(): seq<nat> { list.Reached() }
  }

  datatype Event =
    | Connection(ok: bool)
    | Read(id: nat, input: Input, answer: Answer)
    | Written(id: nat, ok: bool)
    | Timeout(id: nat)
    | Closed(id: nat, tcp: bool)
    | CloseAll

  const EMPTY := State([], Chains([[]], 0), 0)

  /** What libuv may do: read no more than the buffer it was given and never on a stopped or closed
      handle, fire an armed timer, and call back each close once, the socket's after its writes. */
  predicate Enabled(s: State, e: Event) {
    match e
    case Connection(_) => true
    case CloseAll => true
    case Read(id, input, _) =>
      id < |s.conns| && s.conns[id].reading && (input.Octets? ==> 0 < |input.octets| <= Room(s.conns[id]))
    case Written(id, _) => id < |s.conns| && s.conns[id].writes != []
    case Timeout(id) => id < |s.conns| && s.conns[id].timer
    case Closed(id, tcp) =>
      id < |s.conns| && (if tcp then s.conns[id].tcpDue && s.conns[id].writes == [] else s.conns[id].timerDue)
  }

  ghost function Update(c: Conn, e: Event): Conn {
    match e
    case Connection(_) => c
    case Read(_, input, a) => OnRead(c, input, a)
    case Written(_, ok) => if c.writes == [] then c else OnWriteComplete(c, ok)
    case Timeout(_) => OnTimeout(c)
    case Closed(_, tcp) => OnClose(c, tcp)
    case CloseAll => CloseClient(c)
  }

  predicate Concerns(s: State, e: Event, id: nat) {
    match e
    case Connection(_) => false
    case CloseAll => id in s.Active()
    case Read(i, _, _) => i == id
    case Written(i, _) => i == id
    case Timeout(i) => i == id
    case Closed(i, _) => i == id
  }

  ghost function Updated(s: State, e: Event): seq<Conn> {
    seq(|s.conns|, i requires 0 <= i < |s.conns| => if Concerns(s, e, i) then Update(s.conns[i], e) else s.conns[i])
  }

  predicate Finishes(s: State, e: Event) {
    e.Closed? && e.id < |s.conns| && LastClose(s.conns[e.id])
  }

  /** An event libuv would not raise leaves the state alone. */
  ghost function Step(s: State, e: Event): State {
    if !Enabled(s, e) then s
    else if e.Connection? then
      if s.count >= MAX_CLIENTS then s
      else if e.ok then State(s.conns + [SetUp(true)], Pushed(s.list, |s.conns|), s.count + 1)
      else s.(conns := s.conns + [SetUp(false)])
    else if Finishes(s, e) then State(Updated(s, e), Unlinked(s.list, e.id), s.count - 1)
    else s.(conns := Updated(s, e))
  }

  ghost function Run(s: State, es: seq<Event>): State
    decreases |es|
  {
    if es == [] then s else Run(Step(s, es[0]), es[1..])
  }

  // ----- Invariants -----

  ghost predicate ConnsOk(s: State) {
    forall id | 0 <= id < |s.conns| :: ConnOk(s.conns[id])
  }

  ghost function LinkedIds(s: State): set<nat> {
    set id | 0 <= id < |s.conns| && s.conns[id].linked
  }

  /** The contexts whose accept failed and which have been closed to the end. */
  ghost function Failures(s: State): set<nat> {
    set id | 0 <= id < |s.conns| && !s.conns[id].accepted && s.conns[id].released > 0
  }

  /** What is true of lists and count in every run: the linked contexts, no others, are each in exactly one chain;
      the count has lost one for each failure; and only after a failure can a chain hang loose. */
  ghost predicate Tallies(list: Chains<nat>, linked: set<nat>, failed: set<nat>, count: int) {
    && list.Ok()
    && (forall id :: list.Has(id) <==> id in linked)
    && count == |linked| - |failed|
    && count <= MAX_CLIENTS
    && (failed == {} ==> Spare(list))
  }

  ghost predicate Spare(list: Chains<nat>) {
    forall k | 0 <= k < |list.all| && k != list.cur :: list.all[k] == []
  }

  ghost predicate ListInv(s: State) {
    Tallies(s.list, LinkedIds(s), Failures(s), s.count)
  }

  /** What is meant to be: the active list holds exactly the linked contexts, each once, and the count is its length. */
  ghost predicate ListOk(s: State) {
    && s.count == |s.Active()| <= MAX_CLIENTS
    && Distinct(s.Active())
    && (forall id :: id in s.Active() <==> id in LinkedIds(s))
  }

  lemma NothingIsIncomplete()
    ensures !HttpRequests.Complete([])
  {
  }

  lemma ReadKeepsConn(c: Conn, input: Input, a: Answer)
    requires ConnOk(c) && c.reading && (input.Octets? ==> 0 < |input.octets| <= Room(c))
    ensures ConnOk(OnRead(c, input, a))
  {
    hide HttpRequests.Complete, KeepsAlive;
  }

  /** Every callback keeps the connection it is for in order. */
  lemma UpdateKeepsConn(s: State, e: Event, id: nat)
    requires ConnsOk(s) && Enabled(s, e) && id < |s.conns| && Concerns(s, e, id)
    ensures ConnOk(Update(s.conns[id], e))
  {
    hide HttpRequests.Complete, KeepsAlive, OnRead;
    NothingIsIncomplete();
    if e.Read? { ReadKeepsConn(s.conns[id], e.input, e.answer); }
  }

  lemma StepConnsOk(s: State, e: Event)
    ensures ConnsOk(s) ==> ConnsOk(Step(s, e))
  {
    hide HttpRequests.Complete, KeepsAlive, OnRead, Update, ConnOk;
    if ConnsOk(s) && Enabled(s, e) {
      if e.Connection? {
        assert ConnOk(SetUp(true)) && ConnOk(SetUp(false)) by { SetUpOk(); }
      } else {
        forall id | 0 <= id < |s.conns| && Concerns(s, e, id) ensures ConnOk(Update(s.conns[id], e)) {
          UpdateKeepsConn(s, e, id);
        }
      }
    }
  }

  lemma SetUpOk()
    ensures ConnOk(SetUp(true)) && ConnOk(SetUp(false))
  {
    hide HttpRequests.Complete;
    NothingIsIncomplete();
  }

  // ----- Lists and count -----

  lemma ReadKeepsLink(c: Conn, input: Input, a: Answer)
    ensures var d := OnRead(c, input, a); d.linked == c.linked && d.accepted == c.accepted && d.released == c.released
  {
    hide HttpRequests.Complete, KeepsAlive, SendResponse;
    if input.Octets? {
      var now := c.(data := c.data + input.octets);
      SendKeepsLink(now.(reading := false, timer := false), KeepsAlive(now.data, a), a.rendered);
    }
  }

  lemma SendKeepsLink(c: Conn, keepAlive: bool, rendered: bool)
    ensures var d := SendResponse(c, keepAlive, rendered);
            d.linked == c.linked && d.accepted == c.accepted && d.released == c.released
  {
  }

  /** Only the last close callback unlinks and releases. */
  lemma UpdateKeepsLink(s: State, e: Event, id: nat)
    requires id < |s.conns| && Concerns(s, e, id)
    ensures Update(s.conns[id], e).linked == (s.conns[id].linked && !Finishes(s, e))
    ensures Update(s.conns[id], e).accepted == s.conns[id].accepted
    ensures Update(s.conns[id], e).released == s.conns[id].released + if Finishes(s, e) then 1 else 0
  {
    hide OnRead;
    if e.Read? { ReadKeepsLink(s.conns[id], e.input, e.answer); }
  }

  /** One step in terms of links and releases alone. */
  lemma StepLinks(s: State, e: Event)
    requires Enabled(s, e) && !e.Connection?
    ensures var t := Step(s, e);
            |t.conns| == |s.conns| &&
            forall id | 0 <= id < |s.conns| ::
              var last := Finishes(s, e) && id == e.id;
              && t.conns[id].linked == (s.conns[id].linked && !last)
              && t.conns[id].accepted == s.conns[id].accepted
              && t.conns[id].released == s.conns[id].released + if last then 1 else 0
  {
    hide Update, LastClose;
    forall id | 0 <= id < |s.conns| && Concerns(s, e, id)
      ensures Update(s.conns[id], e).linked == (s.conns[id].linked && !Finishes(s, e))
      ensures Update(s.conns[id], e).accepted == s.conns[id].accepted
      ensures Update(s.conns[id], e).released == s.conns[id].released + if Finishes(s, e) then 1 else 0
    {
      UpdateKeepsLink(s, e, id);
    }
  }

  lemma FinishedWasLinked(s: State, e: Event)
    requires ConnsOk(s) && Enabled(s, e) && Finishes(s, e)
    ensures s.conns[e.id].linked == s.conns[e.id].accepted && s.conns[e.id].released == 0
  {
    hide HttpRequests.Complete;
    assert ConnOk(s.conns[e.id]);
  }

  lemma ListStep(s: State, e: Event)
    requires Enabled(s, e) && !e.Connection?
    ensures Step(s, e).list == if Finishes(s, e) then Unlinked(s.list, e.id) else s.list
    ensures Step(s, e).count == if Finishes(s, e) then s.count - 1 else s.count
  {
  }

  /** Which contexts are linked, and which have failed, after a step. */
  lemma StepIds(s: State, e: Event)
    requires ConnsOk(s) && Enabled(s, e) && !e.Connection?
    ensures LinkedIds(Step(s, e)) == LinkedIds(s) - if Finishes(s, e) then {e.id} else {}
    ensures Failures(Step(s, e)) ==
            Failures(s) + if Finishes(s, e) && !s.conns[e.id].accepted then {e.id} else {}
    ensures Finishes(s, e) ==> e.id !in Failures(s) && (s.conns[e.id].accepted <==> e.id in LinkedIds(s))
    ensures Step(s, e).list == if Finishes(s, e) then Unlinked(s.list, e.id) else s.list
    ensures Step(s, e).count == if Finishes(s, e) then s.count - 1 else s.count
  {
    ListStep(s, e);
    StepLinks(s, e);
    if Finishes(s, e) { FinishedWasLinked(s, e); }
    hide ConnOk, ConnsOk, Update, Updated, Finishes, Step, Enabled;
  }

  lemma PushedTallies(l: Chains<nat>, linked: set<nat>, failed: set<nat>, count: int, id: nat)
    requires Tallies(l, linked, failed, count) && id !in linked && count < MAX_CLIENTS
    ensures Tallies(Pushed(l, id), linked + {id}, failed, count + 1)
  {
    PushedOk(l, id);
  }

  /** Taking out a linked context keeps the tallies, and so does "taking out" one never linked: the count is short by
      one, and what the head pointer led to hangs loose. */
  lemma UnlinkedTallies(l: Chains<nat>, linked: set<nat>, failed: set<nat>, count: int, id: nat)
    requires Tallies(l, linked, failed, count) && id !in failed
    ensures Tallies(Unlinked(l, id), linked - {id}, if id in linked then failed else failed + {id}, count - 1)
  {
    UnlinkedOk(l, id);
    if id in linked { UnlinkedSpare(l, id); }
  }

  lemma UnlinkedSpare(l: Chains<nat>, id: nat)
    requires l.Ok() && l.Has(id)
    ensures Spare(l) ==> Spare(Unlinked(l, id))
  {
  }

  lemma NewcomerIds(s: State, ok: bool)
    requires s.count < MAX_CLIENTS
    ensures var t := Step(s, Connection(ok));
            && LinkedIds(t) == LinkedIds(s) + (if ok then {|s.conns|} else {}) && Failures(t) == Failures(s)
            && |s.conns| !in LinkedIds(s)
            && t.list == (if ok then Pushed(s.list, |s.conns|) else s.list)
            && t.count == if ok then s.count + 1 else s.count
  {
  }

  lemma NoStep(s: State, e: Event)
    requires !Enabled(s, e) || (e.Connection? && s.count >= MAX_CLIENTS)
    ensures Step(s, e) == s
  {
  }

  lemma StepListInv(s: State, e: Event)
    requires ConnsOk(s) && ListInv(s)
    ensures ListInv(Step(s, e))
  {
    hide Tallies, Step, LinkedIds, Failures, LastClose, ConnsOk, ConnOk, Unlinked, Pushed, Enabled;
    var linked, failed := LinkedIds(s), Failures(s);
    assert linked + {} == linked == linked - {} && failed + {} == failed;
    if !Enabled(s, e) || (e.Connection? && s.count >= MAX_CLIENTS) {
      NoStep(s, e);
    } else if e.Connection? {
      NewcomerIds(s, e.ok);
      if e.ok { PushedTallies(s.list, linked, failed, s.count, |s.conns|); }
    } else {
      StepIds(s, e);
      if Finishes(s, e) { UnlinkedTallies(s.list, linked, failed, s.count, e.id); }
    }
  }

  lemma {:induction false} RunLast(s: State, es: seq<Event>, e: Event)
    ensures Run(s, es + [e]) == Step(Run(s, es), e)
    decreases |es|
  {
    hide Step;
    var all := es + [e];
    if es == [] {
      assert all == [e] && all[1..] == [];
    } else {
      assert all[0] == es[0] && all[1..] == es[1..] + [e];
      RunLast(Step(s, es[0]), es[1..], e);
    }
  }

  /** In every run, whether or not accept succeeds, each connection is in order, the linked contexts are each in
      one chain, and the count is their number less the failures. */
  lemma {:induction false} RunOk(es: seq<Event>)
    ensures ConnsOk(Run(EMPTY, es))
    ensures ListInv(Run(EMPTY, es))
    decreases |es|
  {
    assert LinkedIds(EMPTY) == {} && Failures(EMPTY) == {};
    if es != [] {
      hide ConnsOk, ListInv, Step, Run;
      var before, e := es[..|es| - 1], es[|es| - 1];
      RunOk(before);
      StepConnsOk(Run(EMPTY, before), e);
      StepListInv(Run(EMPTY, before), e);
      RunLast(EMPTY, before, e);
      assert es == before + [e];
    }
  }

  lemma NoFailureNoLoss(s: State)
    requires ListInv(s)
    ensures ListOk(s) <==> Failures(s) == {}
  {
    if Failures(s) == {} {
      forall id | id in LinkedIds(s) ensures id in s.Active() {
        assert s.list.Has(id);
      }
      forall id | id in s.Active() ensures id in LinkedIds(s) {
        assert s.list.Has(id);
      }
      SameCardinality(s.Active(), LinkedIds(s));
    } else if ListOk(s) {
      SameCardinality(s.Active(), LinkedIds(s));
    }
  }

  /** After any run the active list is what it is meant to be if and only if no context whose accept failed has
      been closed to the end. */
  lemma ListOkIff(es: seq<Event>)
    ensures var s := Run(EMPTY, es);
            ListOk(s) <==> forall id | 0 <= id < |s.conns| && !s.conns[id].accepted :: s.conns[id].released == 0
  {
    RunOk(es);
    var s := Run(EMPTY, es);
    NoFailureNoLoss(s);
    hide ListInv, ListOk, ConnsOk, Run;
    assert forall id | 0 <= id < |s.conns| && !s.conns[id].accepted && s.conns[id].released > 0 :: id in Failures(s);
  }

  lemma StepAccepted(s: State, e: Event)
    requires e != Connection(false) && forall id | 0 <= id < |s.conns| :: s.conns[id].accepted
    ensures forall id | 0 <= id < |Step(s, e).conns| :: Step(s, e).conns[id].accepted
  {
    hide Updated, LastClose;
    if !Enabled(s, e) {
      NoStep(s, e);
    } else if !e.Connection? {
      StepLinks(s, e);
    }
  }

  lemma {:induction false} RunAccepted(es: seq<Event>)
    requires Connection(false) !in es
    ensures forall id | 0 <= id < |Run(EMPTY, es).conns| :: Run(EMPTY, es).conns[id].accepted
    decreases |es|
  {
    if es != [] {
      hide Step, Run;
      var before, e := es[..|es| - 1], es[|es| - 1];
      RunAccepted(before);
      RunLast(EMPTY, before, e);
      assert es == before + [e];
      StepAccepted(Run(EMPTY, before), e);
    }
  }

  /** As long as no accept fails the list is in order. */
  lemma ListOkWhileAccepted(es: seq<Event>)
    requires Connection(false) !in es
    ensures ListOk(Run(EMPTY, es))
  {
    hide Run, ListOk;
    ListOkIff(es);
    RunAccepted(es);
  }

  /** A step takes the list out of order if and only if it is the last close callback of a context whose accept
      failed. */
  lemma ListKeptIff(s: State, e: Event)
    requires ConnsOk(s) && ListInv(s) && ListOk(s)
    ensures ListOk(Step(s, e)) <==> !(Enabled(s, e) && Finishes(s, e) && !s.conns[e.id].accepted)
  {
    StepListInv(s, e);
    NoFailureNoLoss(s);
    NoFailureNoLoss(Step(s, e));
    hide ListInv, ListOk, ConnsOk, Update, Updated, LastClose;
    if !Enabled(s, e) {
    } else if e.Connection? {
      if s.count < MAX_CLIENTS { NewcomerIds(s, e.ok); }
    } else {
      StepIds(s, e);
    }
  }

  /** One failed accept, and the list forgets a connection that is still open; a later one is listed alone, and
      when the forgotten one closes, the list is empty again although that later one is open. */
  lemma AcceptFailureLosesTheList()
    ensures var es := [Connection(true), Connection(false), Closed(1, true), Closed(1, false)];
            var s := Run(EMPTY, es);
            && |s.conns| == 2 && s.conns[0].linked && !s.conns[0].closing && s.Active() == [] && s.count == 0
            && var t := Run(s, [Connection(true), Timeout(0), Closed(0, true), Closed(0, false)]);
               |t.conns| == 3 && t.conns[2].linked && !t.conns[2].closing && t.Active() == [] && t.count == 0
  {
    var s := AfterFailure();
    AfterThat(s);
  }

  lemma RunFour(s: State, a: Event, b: Event, c: Event, d: Event)
    ensures Run(s, [a, b, c, d]) == Step(Step(Step(Step(s, a), b), c), d)
  {
    hide Step;
    var es := [a, b, c, d];
    assert es[1..] == [b, c, d] && es[1..][1..] == [c, d] && es[1..][1..][1..] == [d];
    assert [d][1..] == [];
    assert Run(Step(Step(s, a), b), [c, d]) == Run(Step(Step(Step(s, a), b), c), [c, d][1..]);
  }

  lemma AfterFailure() returns (s: State)
    ensures s == Run(EMPTY, [Connection(true), Connection(false), Closed(1, true), Closed(1, false)])
    ensures |s.conns| == 2 && s.conns[0] == SetUp(true) && s.list == Chains([[0], []], 1) && s.count == 0
  {
    RunFour(EMPTY, Connection(true), Connection(false), Closed(1, true), Closed(1, false));
    var c := SetUp(true);
    var s2 := Step(Step(EMPTY, Connection(true)), Connection(false));
    assert s2.list.all == [[0]] by { assert Pushed(Chains([[]], 0), 0).all[0] == [0]; }
    assert s2 == State([c, SetUp(false)], Chains([[0]], 0), 1);
    var s3 := Step(s2, Closed(1, true));
    assert s3.conns == [c, OnClose(SetUp(false), true)];
    s := Step(s3, Closed(1, false));
  }

  lemma AfterThat(s: State)
    requires |s.conns| == 2 && s.conns[0] == SetUp(true) && s.list == Chains([[0], []], 1) && s.count == 0
    ensures var t := Run(s, [Connection(true), Timeout(0), Closed(0, true), Closed(0, false)]);
            |t.conns| == 3 && t.conns[2] == SetUp(true) && t.list == Chains([[], [2]], 0) && t.count == 0
  {
    RunFour(s, Connection(true), Timeout(0), Closed(0, true), Closed(0, false));
    var c := SetUp(true);
    var s1 := Step(s, Connection(true));
    assert s1.list.all == [[0], [2]] by { assert Pushed(s.list, 2).all[1] == [2]; }
    assert s1 == State(s.conns + [c], Chains([[0], [2]], 1), 1);
    var s2 := Step(s1, Timeout(0));
    assert s2.conns[0] == OnTimeout(c) && s2.list == s1.list;
    var s3 := Step(s2, Closed(0, true));
    assert s3.conns[0] == OnClose(OnTimeout(c), true) && s3.list == s1.list;
    var t := Step(s3, Closed(0, false));
    assert Unlinked(s1.list, 0) == Chains([[], [2]], 0);
  }

  // ----- Release -----

  /** No event can be for a released context, so nothing changes it again. */
  lemma ReleasedUntouched(s: State, e: Event, id: nat)
    requires ConnsOk(s) && ListInv(s) && id < |s.conns| && s.conns[id].released > 0
    ensures Enabled(s, e) ==> !Concerns(s, e, id)
    ensures id < |Step(s, e).conns| && Step(s, e).conns[id] == s.conns[id]
  {
    hide HttpRequests.Complete, Update, Pushed, Unlinked;
    assert ConnOk(s.conns[id]);
    ActiveIsLinked(s, id);
  }

  lemma ActiveIsLinked(s: State, id: nat)
    requires ListInv(s)
    ensures id in s.Active() ==> id in LinkedIds(s)
  {
    hide LinkedIds, Failures;
    assert id in s.Active() ==> s.list.Has(id);
  }

  lemma {:induction false} ReleasedIsFinal(s: State, es: seq<Event>, id: nat)
    requires ConnsOk(s) && ListInv(s) && id < |s.conns| && s.conns[id].released > 0
    ensures id < |Run(s, es).conns| && Run(s, es).conns[id] == s.conns[id]
    decreases |es|
  {
    hide ConnsOk, ListInv, Step;
    if es != [] {
      ReleasedUntouched(s, es[0], id);
      StepConnsOk(s, es[0]);
      StepListInv(s, es[0]);
      ReleasedIsFinal(Step(s, es[0]), es[1..], id);
    }
  }

  /** How many close callbacks of a context a run delivers. */
  ghost function Closes(s: State, es: seq<Event>, id: nat): nat
    decreases |es|
  {
    if es == [] then 0
    else (if es[0].Closed? && es[0].id == id && Enabled(s, es[0]) then 1 else 0) + Closes(Step(s, es[0]), es[1..], id)
  }

  ghost function CallbacksHad(s: State, id: nat): int {
    if id < |s.conns| && s.conns[id].closing then 2 - s.conns[id].pendingCloses else 0
  }

  lemma ReadCallbacks(c: Conn, input: Input, a: Answer)
    requires ConnOk(c)
    ensures var d := OnRead(c, input, a);
            (if d.closing then 2 - d.pendingCloses else 0) == if c.closing then 2 - c.pendingCloses else 0
  {
    hide HttpRequests.Complete, KeepsAlive;
  }

  lemma StepCallbacks(s: State, e: Event, id: nat)
    requires ConnsOk(s)
    ensures CallbacksHad(Step(s, e), id) ==
            CallbacksHad(s, id) + if e.Closed? && e.id == id && Enabled(s, e) then 1 else 0
  {
    hide HttpRequests.Complete, OnRead;
    if id < |s.conns| {
      assert ConnOk(s.conns[id]);
      if e.Read? { ReadCallbacks(s.conns[id], e.input, e.answer); }
    }
  }

  lemma {:induction false} CallbacksAddUp(s: State, es: seq<Event>, id: nat)
    requires ConnsOk(s)
    ensures CallbacksHad(Run(s, es), id) == CallbacksHad(s, id) + Closes(s, es, id)
    decreases |es|
  {
    hide ConnsOk, Step, CallbacksHad, Enabled;
    if es != [] {
      StepCallbacks(s, es[0], id);
      StepConnsOk(s, es[0]);
      CallbacksAddUp(Step(s, es[0]), es[1..], id);
    }
  }

  /** In every run, accept failures included, a context is returned to the pool at most once: exactly when both
      close callbacks have come. */
  lemma ReleasedOnce(es: seq<Event>, id: nat)
    requires id < |Run(EMPTY, es).conns|
    ensures Closes(EMPTY, es, id) <= 2
    ensures Run(EMPTY, es).conns[id].released == if Closes(EMPTY, es, id) == 2 then 1 else 0
  {
    CallbacksAddUp(EMPTY, es, id);
    RunOk(es);
    hide HttpRequests.Complete, Run, Closes;
    assert ConnOk(Run(EMPTY, es).conns[id]);
  }

  // ----- Shutdown -----

  /** libuv has nothing left to call back. */
  ghost predicate Quiet(s: State) {
    forall e | Enabled(s, e) :: e.Connection? || e.CloseAll?
  }

  /** close_all asks exactly the contexts on the active list to close. */
  lemma CloseAllCloses(s: State, id: nat)
    requires id < |s.conns|
    ensures var t := Step(s, CloseAll);
            && t.list == s.list && |t.conns| == |s.conns|
            && (t.conns[id].closing <==> s.conns[id].closing || id in s.Active())
            && (id !in s.Active() ==> t.conns[id] == s.conns[id])
  {
  }

  /** With the list in order that is every open context. */
  lemma CloseAllReachesAll(s: State, id: nat)
    requires ConnsOk(s) && ListOk(s) && id < |s.conns|
    ensures Step(s, CloseAll).conns[id].closing
  {
    hide HttpRequests.Complete;
    CloseAllCloses(s, id);
    assert ConnOk(s.conns[id]);
  }

  lemma QuietIsReleased(s: State, id: nat)
    requires ConnsOk(s) && Quiet(s) && id < |s.conns|
    ensures s.conns[id].released == 1 && !s.conns[id].linked
  {
    hide HttpRequests.Complete;
    assert ConnOk(s.conns[id]);
    assert !Enabled(s, Timeout(id)) && !Enabled(s, Written(id, true));
    assert !Enabled(s, Closed(id, true)) && !Enabled(s, Closed(id, false));
  }

  /** No context leaks: after any run, once libuv has no callback left, every context has been released, no list
      holds anything, and the count is short by the failures. */
  lemma NothingLeaks(es: seq<Event>)
    ensures var t := Run(EMPTY, es);
            Quiet(t) ==>
              && (forall id | 0 <= id < |t.conns| :: t.conns[id].released == 1)
              && (forall k | 0 <= k < |t.list.all| :: t.list.all[k] == [])
              && t.count == -|Failures(t)|
  {
    RunOk(es);
    var t := Run(EMPTY, es);
    hide ConnsOk, Quiet, Run, Failures;
    if Quiet(t) {
      forall id | 0 <= id < |t.conns| ensures t.conns[id].released == 1 && !t.conns[id].linked {
        QuietIsReleased(t, id);
      }
      assert LinkedIds(t) == {};
      forall k | 0 <= k < |t.list.all| ensures t.list.all[k] == [] {
        EmptyChain(t, k);
      }
    }
  }

  lemma EmptyChain(s: State, k: nat)
    requires ListInv(s) && LinkedIds(s) == {} && k < |s.list.all|
    ensures s.list.all[k] == []
  {
    assert |s.list.all[k]| > 0 ==> s.list.Has(s.list.all[k][0]);
  }
}
