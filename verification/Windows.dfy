/** What a sequence of checks of one address comes to. */
module Windows {
  const RATE_LIMIT_RPS := 100
  const MAX_SAVED_IP := 10000

  datatype RateEntry = RateEntry(countCurr: nat, countPrev: nat, windowStart: int)

  const ZERO := RateEntry(0, 0, 0)

  /** A new second starts a new window; the old current window becomes the previous one. */
  function Rotate(e: RateEntry, now: int): RateEntry {
    if now - e.windowStart >= 1 then RateEntry(0, e.countCurr, now) else e
  }

  /** The previous window weighted by the part of it that has not elapsed, plus the current one. */
  function Estimate(e: RateEntry, now: int): real {
    e.countPrev as real * (1.0 - (now - e.windowStart) as real) + e.countCurr as real
  }

  function Admits(e: RateEntry, now: int): bool {
    Estimate(Rotate(e, now), now) < RATE_LIMIT_RPS as real
  }

  function Next(e: RateEntry, now: int): RateEntry {
    var r := Rotate(e, now);
    if Admits(e, now) then r.(countCurr := r.countCurr + 1) else r
  }

  /** The entry after checks at the given times. */
  function EntryAfter(times: seq<int>): RateEntry {
    if times == [] then ZERO else Next(EntryAfter(times[..|times| - 1]), times[|times| - 1])
  }

  /** The answer to a check at `now` that follows checks at the given times. */
  predicate Allowed(times: seq<int>, now: int) {
    Admits(EntryAfter(times), now)
  }

  /** How many of the checks made in second t were allowed. */
  function Admitted(times: seq<int>, t: int): nat {
    if times == [] then 0
    else
      var k := |times| - 1;
      Admitted(times[..k], t) + if times[k] == t && Allowed(times[..k], t) then 1 else 0
  }

  /** A clock that starts after the epoch and never runs back. */
  predicate Monotone(times: seq<int>) {
    && (forall i | 0 <= i < |times| :: times[i] >= 1)
    && forall i, j | 0 <= i < j < |times| :: times[i] <= times[j]
  }

  function Last(times: seq<int>): int {
    if times == [] then 0 else times[|times| - 1]
  }

  /** The last active second before the one of the last check; 0 if there is none. */
  function SecondBefore(times: seq<int>): int {
    if |times| <= 1 then 0
    else
      var k := |times| - 1;
      if times[k - 1] == times[k] then SecondBefore(times[..k]) else times[k - 1]
  }

  lemma {:induction false} NoneAdmitted(times: seq<int>, t: int)
    requires forall i | 0 <= i < |times| :: times[i] != t
    ensures Admitted(times, t) == 0
  {
    if times != [] { NoneAdmitted(times[..|times| - 1], t); }
  }

  /** The entry holds the admissions of the current second and of the active second before it. */
  lemma {:induction false} EntryMeaning(times: seq<int>)
    requires Monotone(times)
    ensures var e := EntryAfter(times);
            && e.windowStart == Last(times)
            && e.countCurr == Admitted(times, Last(times))
            && e.countPrev == Admitted(times, SecondBefore(times))
            && SecondBefore(times) <= Last(times)
            && (times != [] ==> SecondBefore(times) < Last(times))
            && e.countPrev + e.countCurr <= RATE_LIMIT_RPS
    decreases |times|
  {
    if times != [] {
      var k := |times| - 1;
      var was, now := times[..k], times[k];
      EntryMeaning(was);
      var e := EntryAfter(was);
      assert k > 0 ==> Last(was) == times[k - 1];
      if Last(was) < now {
        NoneAdmitted(was, now);
        EstimateNow(Rotate(e, now), now);
      } else {
        EstimateNow(e, now);
      }
    }
  }

  lemma EstimateNow(e: RateEntry, now: int)
    requires e.windowStart == now
    ensures Estimate(e, now) == (e.countPrev + e.countCurr) as real
  {
  }

  /** A check is allowed exactly when this second and the active second before it have together admitted
      fewer than RATE_LIMIT_RPS requests. */
  lemma AllowedExactly(times: seq<int>, now: int)
    requires Monotone(times + [now])
    ensures var before := if Last(times) < now then Last(times) else SecondBefore(times);
            Allowed(times, now) <==> Admitted(times, before) + Admitted(times, now) < RATE_LIMIT_RPS
  {
    MonotonePrefix(times, now);
    EntryMeaning(times);
    var e := EntryAfter(times);
    if Last(times) < now {
      NoneAdmitted(times, now);
      EstimateNow(Rotate(e, now), now);
    } else {
      EstimateNow(e, now);
    }
  }

  lemma MonotonePrefix(times: seq<int>, now: int)
    requires Monotone(times + [now])
    ensures Monotone(times)
    ensures now >= 1 && Last(times) <= now
    ensures forall i | 0 <= i < |times| :: times[i] <= Last(times)
  {
    var all := times + [now];
    assert all[|times|] == now;
    assert forall i | 0 <= i < |times| :: times[i] == all[i];
  }

  lemma {:induction false} NotLast(times: seq<int>, t1: int, t2: int)
    requires Monotone(times) && times != [] && t1 < t2 && t1 in times && t2 == Last(times)
    requires forall i | 0 <= i < |times| :: times[i] <= t1 || t2 <= times[i]
    ensures SecondBefore(times) == t1
    decreases |times|
  {
    var k := |times| - 1;
    assert k > 0;
    if times[k - 1] == times[k] {
      NotLast(times[..k], t1, t2);
    }
  }

  /** Any two consecutive active seconds admit at most RATE_LIMIT_RPS requests between them. */
  lemma {:induction false} ConsecutiveWindows(times: seq<int>, t1: int, t2: int)
    requires Monotone(times) && t1 < t2 && t1 in times && t2 in times
    requires forall i | 0 <= i < |times| :: times[i] <= t1 || t2 <= times[i]
    ensures Admitted(times, t1) + Admitted(times, t2) <= RATE_LIMIT_RPS
    decreases |times|
  {
    var k := |times| - 1;
    if times[k] == t2 {
      NotLast(times, t1, t2);
      EntryMeaning(times);
    } else {
      var i :| 0 <= i < |times| && times[i] == t2;
      assert times[..k][i] == t2;
      var j :| 0 <= j < |times| && times[j] == t1;
      assert j < k && times[..k][j] == t1;
      ConsecutiveWindows(times[..k], t1, t2);
    }
  }

  /** A second that admitted nothing is followed by one whose first check is allowed. */
  lemma IdleThenAdmits(times: seq<int>, now: int)
    requires Monotone(times + [now]) && Last(times) < now && Admitted(times, Last(times)) == 0
    ensures Allowed(times, now)
  {
    AllowedExactly(times, now);
    MonotonePrefix(times, now);
    NoneAdmitted(times, now);
  }

  lemma {:induction false} RealProduct(a: nat, b: nat)
    ensures a as real * b as real == (a * b) as real
    decreases b
  {
    if b > 0 {
      RealProduct(a, b - 1);
      assert b as real == (b - 1) as real + 1.0;
      Distributes(a as real, (b - 1) as real);
      assert a * b == a * (b - 1) + a;
    }
  }

  lemma Distributes(x: real, y: real)
    ensures x * (y + 1.0) == x * y + x
  {
  }

  lemma EstimateBack(e: RateEntry, now: int)
    requires now < e.windowStart
    ensures Estimate(e, now) == (e.countPrev * (1 + (e.windowStart - now)) + e.countCurr) as real
  {
    RealProduct(e.countPrev, 1 + (e.windowStart - now));
    assert 1.0 - (now - e.windowStart) as real == (1 + (e.windowStart - now)) as real;
  }

  lemma NotRotated(e: RateEntry, now: int)
    requires now < e.windowStart
    ensures Rotate(e, now) == e
    ensures Next(e, now) == if Admits(e, now) then e.(countCurr := e.countCurr + 1) else e
    ensures Admits(e, now) <==> Estimate(e, now) < RATE_LIMIT_RPS as real
  {
    hide Estimate;
  }

  lemma LastCheck(times: seq<int>, now: int)
    ensures EntryAfter(times + [now]) == Next(EntryAfter(times), now)
  {
    hide Next;
    assert (times + [now])[..|times|] == times;
  }

  /** When the clock has run back by d seconds the window stays, and the one before it weighs 1 + d times. */
  lemma ClockRunBack(times: seq<int>, now: int)
    requires now < EntryAfter(times).windowStart
    ensures var e := EntryAfter(times);
            var d := e.windowStart - now;
            && (Allowed(times, now) <==> e.countPrev * (1 + d) + e.countCurr < RATE_LIMIT_RPS)
            && EntryAfter(times + [now]) == if Allowed(times, now) then e.(countCurr := e.countCurr + 1) else e
  {
    hide EntryAfter, Estimate, Admits, Next, Rotate;
    LastCheck(times, now);
    NotRotated(EntryAfter(times), now);
    EstimateBack(EntryAfter(times), now);
  }

  lemma MonotoneMore(times: seq<int>, now: int)
    requires Monotone(times) && Last(times) <= now && now >= 1
    ensures Monotone(times + [now]) && Last(times + [now]) == now
  {
    assert forall i | 0 <= i < |times| :: times[i] <= Last(times);
  }
}
