/** Which connections stay open: what becomes of one at each event, and over a whole request. */
module ConnectionFates {
  import opened Bytes
  import opened Connections
  import HttpGrammar
  import HttpRequests

  ghost predicate Malformed(data: seq<byte>) {
    HttpGrammar.ParseRequest(data, HttpRequests.MAX_HEADERS).Bad?
  }

  /** A client waiting for its next request: nothing received, nothing under way. */
  ghost predicate Waiting(c: Conn) {
    c.accepted && c.linked && !c.closing && c.data == [] && c.reading && c.timer && c.writes == [] && c.released == 0
  }

  /** A client is taken in if and only if there are fewer than MAX_CLIENTS; one whose accept failed is closed at once. */
  lemma AcceptFate(s: State, ok: bool)
    ensures var t := Step(s, Connection(ok));
            && (s.count >= MAX_CLIENTS ==> t == s)
            && (s.count < MAX_CLIENTS ==>
                  && |t.conns| == |s.conns| + 1 && t.conns[..|s.conns|] == s.conns
                  && var c := t.conns[|s.conns|];
                     if ok then Waiting(c)
                     else c.closing && c.tcpDue && c.timerDue && !c.linked && !c.reading && !c.timer && c.writes == [])
  {
  }

  /** An event changes no connection but the one it is for; only shutdown is for several. */
  lemma OthersStay(s: State, e: Event, id: nat)
    requires id < |s.conns| && (e.CloseAll? ==> id !in s.Active()) && (e.Connection? || e.CloseAll? || e.id != id)
    ensures id < |Step(s, e).conns| && Step(s, e).conns[id] == s.conns[id]
  {
    hide Update;
  }

  /** A read that fails closes; octets are added to those received; once they are a request, or can be none, reading
      and the timer stop and the answer goes out, or the connection closes if the answer cannot be printed. */
  lemma ReadFate(s: State, id: nat, input: Input, a: Connections.Answer)
    requires ConnsOk(s) && Enabled(s, Read(id, input, a))
    ensures var c, d := s.conns[id], Step(s, Read(id, input, a)).conns[id];
            && (d.closing <==> input.Failed? || (input.Octets? && HttpRequests.Complete(c.data + input.octets) && !a.rendered))
            && (input.Nothing? ==> d == c)
            && (input.Octets? && !HttpRequests.Complete(c.data + input.octets) ==> d == c.(data := c.data + input.octets))
            && (input.Octets? && HttpRequests.Complete(c.data + input.octets) && a.rendered ==>
                  var keeps := a.admitted && a.wantsKeepAlive && !Malformed(c.data + input.octets);
                  d == c.(data := c.data + input.octets, reading := false, timer := false, writes := [keeps]))
  {
    hide HttpGrammar.ParseRequest, HttpRequests.BodyNeeded;
    assert ConnOk(s.conns[id]);
    if input.Octets? { HttpRequests.ParsedInside(s.conns[id].data + input.octets); }
  }

  /** When a response is out, the connection closes unless it was sent in full and is to be kept; kept, it waits for
      its next request. */
  lemma WriteFate(s: State, id: nat, ok: bool)
    requires ConnsOk(s) && Enabled(s, Written(id, ok)) && !s.conns[id].closing
    ensures var c, d := s.conns[id], Step(s, Written(id, ok)).conns[id];
            && (d.closing <==> !(ok && c.writes == [true]))
            && (!d.closing ==> Waiting(d))
  {
    hide HttpRequests.Complete;
    assert ConnOk(s.conns[id]);
  }

  /** A client that has not sent its request in time is closed. */
  lemma TimeoutFate(s: State, id: nat)
    requires ConnsOk(s) && Enabled(s, Timeout(id))
    ensures Step(s, Timeout(id)).conns[id].closing && !Step(s, Timeout(id)).conns[id].reading
  {
    hide HttpRequests.Complete;
    assert ConnOk(s.conns[id]);
  }

  /** What is closing stays so. */
  lemma ClosingStays(s: State, e: Event, id: nat)
    requires ConnsOk(s) && id < |s.conns| && s.conns[id].closing
    ensures id < |Step(s, e).conns| && Step(s, e).conns[id].closing
  {
    hide HttpRequests.Complete, KeepsAlive;
    assert ConnOk(s.conns[id]);
  }

  /** From the last octets of a request to the end of its response: the connection is kept if and only if the client was
      let through, sent a well-formed request that asks for it, and took the whole response; it then stands as before the
      request.  Lists, count and the other connections are as they were. */
  lemma RequestCycle(s: State, id: nat, octets: seq<byte>, a: Connections.Answer, ok: bool)
    requires ConnsOk(s) && Enabled(s, Read(id, Octets(octets), a)) && a.rendered
    requires HttpRequests.Complete(s.conns[id].data + octets)
    ensures var answered := Step(s, Read(id, Octets(octets), a));
            var t := Step(answered, Written(id, ok));
            && Enabled(answered, Written(id, ok))
            && (t.conns[id].closing <==>
                  !(a.admitted && a.wantsKeepAlive && !Malformed(s.conns[id].data + octets) && ok))
            && (!t.conns[id].closing ==> Waiting(t.conns[id]))
            && t.list == s.list && t.count == s.count && |t.conns| == |s.conns|
            && forall k | 0 <= k < |s.conns| && k != id :: t.conns[k] == s.conns[k]
  {
    var read := Read(id, Octets(octets), a);
    var answered := Step(s, read);
    ReadFate(s, id, Octets(octets), a);
    StepConnsOk(s, read);
    ReadOnly(s, id, Octets(octets), a);
    hide ConnsOk, Malformed, OnRead, HttpRequests.Complete;
    WriteFate(answered, id, ok);
    forall k | 0 <= k < |s.conns| && k != id ensures Step(answered, Written(id, ok)).conns[k] == s.conns[k] {
      OthersStay(s, read, k);
      OthersStay(answered, Written(id, ok), k);
    }
  }

  lemma ReadOnly(s: State, id: nat, input: Input, a: Connections.Answer)
    ensures var t := Step(s, Read(id, input, a)); t.list == s.list && t.count == s.count && |t.conns| == |s.conns|
    ensures ConnsOk(s) && Enabled(s, Read(id, input, a)) ==> id < |s.conns| && !s.conns[id].closing
  {
    hide OnRead;
    if ConnsOk(s) && id < |s.conns| { assert ConnOk(s.conns[id]); }
  }
}
