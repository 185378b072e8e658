/**
 The call protocol of the chunked decoder: one call on a buffer with its totals and overhead guard, what a
 sequence of calls computes, and that the cutting does not matter.
 */
module ChunkedCalls {
  import opened Bytes
  import opened ChunkedDecoding

  const OVERHEAD_FLOOR := 100 * 1024

  /** The guard applied whenever a call would ask for more data. */
  predicate Trips(totalRead: nat, totalOverhead: nat) {
    totalOverhead >= OVERHEAD_FLOOR && Wrap64(totalRead - totalOverhead) < totalRead / 4
  }

  /** The two totals wrap at 2 to the 64. */
  datatype Decoder = Decoder(core: Core, trailer: bool, totalRead: nat, totalOverhead: nat)

  function Fresh(trailer: bool): Decoder {
    Decoder(START, trailer, 0, 0)
  }

  /** ret: -2 to ask for more, -1 for an error, else the number of octets left undecoded. */
  datatype CallResult = CallResult(ret: int, decoded: seq<byte>, rest: seq<byte>, next: Decoder)

  function Call(d: Decoder, s: seq<byte>): CallResult {
    var r := Run(d.trailer, d.core, s);
    var read := Wrap64(d.totalRead + |s|);
    match r.verdict
    case Error(c) => CallResult(-1, r.output, s[r.at..], d.(core := c, totalRead := read))
    case Done(c) => CallResult(|s| - r.at, r.output, s[r.at..], d.(core := c, totalRead := read))
    case NeedMore(c) =>
      var overhead := Wrap64(d.totalOverhead + |s| - |r.output|);
      CallResult(if Trips(read, overhead) then -1 else -2, r.output, [],
                 Decoder(c, d.trailer, read, overhead))
  }

  /** What a client that keeps calling while it is asked for more has seen. */
  datatype FeedResult = FeedResult(ret: int, decoded: seq<byte>, rest: seq<byte>, next: Decoder)

  /** Feed the pieces one call each; pieces after the deciding call are left alone. */
  function Feed(d: Decoder, pieces: seq<seq<byte>>): FeedResult
    decreases |pieces|
  {
    if pieces == [] then FeedResult(-2, [], [], d)
    else
      var c := Call(d, pieces[0]);
      if c.ret != -2 then FeedResult(c.ret, c.decoded, c.rest + Flatten(pieces[1..]), c.next)
      else var f := Feed(c.next, pieces[1..]); f.(decoded := c.decoded + f.decoded)
  }

  /** The guard trips at the end of some piece after which the stream is still incomplete. */
  predicate TripsSomewhere(d: Decoder, pieces: seq<seq<byte>>)
    decreases |pieces|
  {
    pieces != [] &&
    var c := Call(d, pieces[0]);
    Run(d.trailer, d.core, pieces[0]).verdict.NeedMore? &&
    (c.ret == -1 || TripsSomewhere(c.next, pieces[1..]))
  }

  /** Between calls the totals account for every octet read, as far as 64 bits can. */
  ghost predicate Balanced(d: Decoder, emitted: nat) {
    && Valid(d.core)
    && d.totalRead == Wrap64(d.totalOverhead + emitted)
  }

  lemma CallKeepsBalance(d: Decoder, s: seq<byte>, emitted: nat)
    requires Balanced(d, emitted)
    ensures var c := Call(d, s);
            && c.ret >= -2
            && |c.decoded| + |c.rest| <= |s|
            && (c.ret == -2 ==> Balanced(c.next, emitted + |c.decoded|))
  {
    RunFacts(d.trailer, d.core, s, 0);
    var out := |Run(d.trailer, d.core, s).output|;
    WrapSum(d.totalOverhead + emitted, |s|);
    WrapSum(d.totalOverhead + |s| - out, emitted + out);
    hide Wrap64, Run, LeftLimit;
  }

  /** At every return asking for more: octets read = framing overhead + octets emitted so far. */
  lemma {:induction false} FeedBalanced(d: Decoder, pieces: seq<seq<byte>>, emitted: nat)
    requires Balanced(d, emitted)
    ensures var f := Feed(d, pieces);
            f.ret == -2 ==>
              && Balanced(f.next, emitted + |f.decoded|)
              && f.next.totalRead == Wrap64(d.totalRead + |Flatten(pieces)|)
    decreases |pieces|
  {
    hide Wrap64, Run, LeftLimit, Trips;
    if pieces != [] {
      CallKeepsBalance(d, pieces[0], emitted);
      var c := Call(d, pieces[0]);
      if c.ret == -2 {
        FeedBalanced(c.next, pieces[1..], emitted + |c.decoded|);
        WrapSum(d.totalRead + |pieces[0]|, |Flatten(pieces[1..])|);
      }
    } else {
      WrapSum(d.totalOverhead + emitted, 0);
    }
  }

  /** Reference meaning of feeding a stream: one run over all of it, no calls and no guard. */
  function Whole(d: Decoder, s: seq<byte>): RunResult {
    Run(d.trailer, d.core, s)
  }

  ghost predicate Agrees(f: FeedResult, r: RunResult, s: seq<byte>) {
    && f.decoded == r.output
    && f.next.core == r.verdict.core
    && r.at <= |s| && f.rest == s[r.at..]
    && match r.verdict
       case Error(_) => f.ret == -1
       case Done(_) => f.ret >= 0
       case NeedMore(_) => f.ret == -2
  }

  /** For every way of cutting a stream: unless the overhead guard trips at a cut, the calls compute
      exactly what one run over the whole stream computes; and if it does trip, they report an error. */
  lemma {:induction false} CutIndependence(d: Decoder, pieces: seq<seq<byte>>)
    requires Valid(d.core)
    ensures !TripsSomewhere(d, pieces) ==>
              Agrees(Feed(d, pieces), Whole(d, Flatten(pieces)), Flatten(pieces))
    ensures TripsSomewhere(d, pieces) ==> Feed(d, pieces).ret == -1
    ensures TripsSomewhere(d, pieces) ==> Feed(d, pieces).decoded <= Whole(d, Flatten(pieces)).output
    decreases |pieces|
  {
    if pieces != [] {
      var p, ps := pieces[0], pieces[1..];
      RunFacts(d.trailer, d.core, p, 0);
      RunAppend(d.trailer, d.core, p, Flatten(ps));
      if !Whole(d, p).verdict.NeedMore? {
        assert Flatten(pieces)[Whole(d, p).at..] == p[Whole(d, p).at..] + Flatten(ps);
      } else if Call(d, p).ret == -2 {
        CutIndependence(Call(d, p).next, ps);
        FeedStep(d, pieces);
        AgreesAppend(d, p, Flatten(ps), Feed(Call(d, p).next, ps));
      }
    }
  }

  lemma AgreesAppend(d: Decoder, p: seq<byte>, t: seq<byte>, f: FeedResult)
    requires Valid(d.core) && Call(d, p).ret == -2
    ensures Whole(d, p + t).output == Call(d, p).decoded + Whole(Call(d, p).next, t).output
    ensures Agrees(f, Whole(Call(d, p).next, t), t) ==>
              Agrees(f.(decoded := Call(d, p).decoded + f.decoded), Whole(d, p + t), p + t)
  {
    RunFacts(d.trailer, d.core, p, 0);
    RunAppend(d.trailer, d.core, p, t);
    var q := Whole(Call(d, p).next, t);
    assert (p + t)[|p| + q.at..] == t[q.at..];
  }

  lemma FeedStep(d: Decoder, pieces: seq<seq<byte>>)
    requires pieces != [] && Call(d, pieces[0]).ret == -2
    ensures var c := Call(d, pieces[0]);
            var f := Feed(c.next, pieces[1..]);
            && Feed(d, pieces) == f.(decoded := c.decoded + f.decoded)
            && Flatten(pieces) == pieces[0] + Flatten(pieces[1..])
  {
  }

  /** Framing only grows along a stream. */
  lemma FramingMonotone(d: Decoder, a: seq<byte>, b: seq<byte>)
    requires Valid(d.core)
    ensures var r, w := Whole(d, a), Whole(d, a + b);
            && 0 <= Framing(r) <= Framing(w)
            && (r.verdict.NeedMore? || w == r)
  {
    RunFacts(d.trailer, d.core, a, 0);
    RunAppend(d.trailer, d.core, a, b);
    var r := Whole(d, a);
    if r.verdict.NeedMore? {
      RunFacts(d.trailer, r.verdict.core, b, 0);
    }
  }

  lemma FramingAdds(d: Decoder, a: seq<byte>, b: seq<byte>)
    requires Valid(d.core) && Whole(d, a).verdict.NeedMore?
    ensures var r := Whole(d, a);
            && Framing(Whole(d, a + b)) == Framing(r) + Framing(Run(d.trailer, r.verdict.core, b))
            && 0 <= Framing(r)
            && 0 <= Framing(Run(d.trailer, r.verdict.core, b))
            && Valid(r.verdict.core)
  {
    RunFacts(d.trailer, d.core, a, 0);
    RunFacts(d.trailer, Whole(d, a).verdict.core, b, 0);
    RunAppend(d.trailer, d.core, a, b);
    hide Run, Valid;
  }

  /** A call under the limit is a run. */
  lemma CallUnderLimit(d: Decoder, s: seq<byte>)
    requires Valid(d.core) && d.totalOverhead + Framing(Whole(d, s)) < OVERHEAD_FLOOR
    ensures var c, r := Call(d, s), Whole(d, s);
            && Agrees(FeedResult(c.ret, c.decoded, c.rest, c.next), r, s)
            && c.next.trailer == d.trailer && c.next.totalRead == Wrap64(d.totalRead + |s|)
            && (r.verdict.NeedMore? ==> c.next.totalOverhead == d.totalOverhead + Framing(r))
  {
    RunFacts(d.trailer, d.core, s, 0);
    hide Run, Valid;
  }

  /** The totals may wrap, but overhead below the floor is counted exactly. */
  lemma {:induction false} UnderLimitNeverTrips(d: Decoder, pieces: seq<seq<byte>>)
    requires Valid(d.core)
    requires d.totalOverhead + Framing(Whole(d, Flatten(pieces))) < OVERHEAD_FLOOR
    ensures !TripsSomewhere(d, pieces)
    ensures Feed(d, pieces).ret == -2 ==>
              Feed(d, pieces).next.totalOverhead == d.totalOverhead + Framing(Whole(d, Flatten(pieces)))
    decreases |pieces|
  {
    if pieces != [] && Whole(d, pieces[0]).verdict.NeedMore? {
      hide Run, Valid, Wrap64, Trips, Call;
      var p, ps := pieces[0], pieces[1..];
      FramingAdds(d, p, Flatten(ps));
      CallUnderLimit(d, p);
      UnderLimitNeverTrips(Call(d, p).next, ps);
    }
  }

  /** While the stream is shorter than 2 to the 64 octets both totals are exact. */
  lemma {:induction false} FeedCounts(d: Decoder, pieces: seq<seq<byte>>)
    requires Valid(d.core) && d.totalOverhead <= d.totalRead && d.totalRead + |Flatten(pieces)| < SIZE_MODULUS
    requires Feed(d, pieces).ret == -2
    ensures var f, w := Feed(d, pieces), Whole(d, Flatten(pieces));
            && w.verdict == NeedMore(f.next.core) && f.decoded == w.output && Valid(f.next.core)
            && f.next.trailer == d.trailer && |f.decoded| <= |Flatten(pieces)|
            && f.next.totalRead == d.totalRead + |Flatten(pieces)|
            && f.next.totalOverhead == d.totalOverhead + |Flatten(pieces)| - |f.decoded|
    decreases |pieces|
  {
    if pieces != [] {
      var p, ps := pieces[0], pieces[1..];
      CallCounts(d, p);
      hide Run, Valid, Wrap64, Trips, Call;
      FeedCounts(Call(d, p).next, ps);
      WholeAppend(d, p, Flatten(ps), Call(d, p).next);
    }
  }

  lemma CallCounts(d: Decoder, p: seq<byte>)
    requires Valid(d.core) && d.totalOverhead <= d.totalRead && d.totalRead + |p| < SIZE_MODULUS
    ensures var c, w := Call(d, p), Whole(d, p);
            && (c.ret == -2 ==> w.verdict.NeedMore?)
            && (w.verdict.NeedMore? ==>
                  && c.decoded == w.output && w.verdict.core == c.next.core && Valid(c.next.core)
                  && c.next.trailer == d.trailer && |c.decoded| <= |p|
                  && c.next.totalRead == d.totalRead + |p|
                  && c.next.totalOverhead == d.totalOverhead + |p| - |c.decoded|
                  && c.ret == if Trips(c.next.totalRead, c.next.totalOverhead) then -1 else -2)
  {
    RunFacts(d.trailer, d.core, p, 0);
    hide Run, Valid;
  }

  lemma WholeAppend(d: Decoder, p: seq<byte>, t: seq<byte>, next: Decoder)
    requires Whole(d, p).verdict == NeedMore(next.core) && next.trailer == d.trailer
    ensures Whole(d, p + t).verdict == Whole(next, t).verdict
    ensures Whole(d, p + t).output == Whole(d, p).output + Whole(next, t).output
    ensures Whole(d, p + t).at == |p| + Whole(next, t).at
  {
    RunAppend(d.trailer, d.core, p, t);
  }

  /** The guard, in terms of the stream: a stream still incomplete is given up at the end of a call if and only if at
      least 100 KiB of it were framing and fewer than a quarter of its octets data. */
  lemma GuardExactly(trailer: bool, pieces: seq<seq<byte>>, p: seq<byte>)
    requires Feed(Fresh(trailer), pieces).ret == -2
    requires |Flatten(pieces)| + |p| < SIZE_MODULUS
    requires Whole(Fresh(trailer), Flatten(pieces) + p).verdict.NeedMore?
    ensures var s := Flatten(pieces) + p;
            var data := |Whole(Fresh(trailer), s).output|;
            Call(Feed(Fresh(trailer), pieces).next, p).ret ==
            if |s| - data >= 100 * 1024 && data < |s| / 4 then -1 else -2
  {
    var d := Fresh(trailer);
    StartsBalanced(trailer);
    hide Run, Valid, Call, Feed, Fresh;
    FeedCounts(d, pieces);
    var next := Feed(d, pieces).next;
    WholeAppend(d, Flatten(pieces), p, next);
    CallCounts(next, p);
  }

  lemma StartsBalanced(trailer: bool)
    ensures var d := Fresh(trailer);
            && Balanced(d, 0) && Valid(d.core) && d.trailer == trailer && d.totalRead == d.totalOverhead == 0
  {
  }

  /** Two ways of reading a stream that agree with its run agree with each other. */
  lemma BothAgree(f: FeedResult, w: FeedResult, r: RunResult, s: seq<byte>)
    requires Agrees(f, r, s) && Agrees(w, r, s)
    ensures f.decoded == w.decoded && f.rest == w.rest && f.next.core == w.next.core
    ensures (f.ret < 0 || w.ret < 0 ==> f.ret == w.ret) && (f.ret == -2 ==> r.verdict.NeedMore?)
  {
  }

  /** With under 100 KiB of framing, every way of cutting a stream into calls gives the decoded octets,
      the verdict and the undecoded rest of a single call on the whole stream. */
  lemma CutsDoNotMatter(trailer: bool, pieces: seq<seq<byte>>)
    requires Framing(Whole(Fresh(trailer), Flatten(pieces))) < OVERHEAD_FLOOR
    ensures var f, w := Feed(Fresh(trailer), pieces), Call(Fresh(trailer), Flatten(pieces));
            && f.decoded == w.decoded
            && f.rest == w.rest
            && f.next.core == w.next.core
            && (f.ret < 0 || w.ret < 0 ==> f.ret == w.ret)
            && (f.ret == -2 ==> f.next == w.next)
  {
    hide *;
    var d, s := Fresh(trailer), Flatten(pieces);
    StartsBalanced(trailer);
    UnderLimitNeverTrips(d, pieces);
    CutIndependence(d, pieces);
    CallUnderLimit(d, s);
    var w := Call(d, s);
    BothAgree(Feed(d, pieces), FeedResult(w.ret, w.decoded, w.rest, w.next), Whole(d, s), s);
    FeedBalanced(d, pieces, 0);
    FeedTrailer(d, pieces);
  }

  lemma {:induction false} FeedTrailer(d: Decoder, pieces: seq<seq<byte>>)
    ensures Feed(d, pieces).next.trailer == d.trailer
    decreases |pieces|
  {
    if pieces != [] && Call(d, pieces[0]).ret == -2 {
      FeedTrailer(Call(d, pieces[0]).next, pieces[1..]);
    }
  }
}
