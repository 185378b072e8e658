/** The per-address rate limiter: one entry per address in a hash table, two counters an entry. */
module RateLimiter {
  import HashTable
  import Options
  import opened Windows

  type History = map<string, seq<int>>

  /** The table holds what each address's checks come to. */
  ghost predicate Recorded(contents: map<string, RateEntry>, history: History) {
    contents.Keys == history.Keys && forall ip | ip in history :: contents[ip] == EntryAfter(history[ip])
  }

  /** No address was checked before the epoch, backwards in time, or later than the clock. */
  ghost predicate Timed(history: History, clock: int) {
    forall ip | ip in history :: Monotone(history[ip]) && Last(history[ip]) <= clock
  }

  ghost function TimesOf(history: History, ip: string): seq<int> {
    if ip in history then history[ip] else []
  }

  lemma OneMoreRecorded(contents: map<string, RateEntry>, history: History, ip: string, now: int)
    requires Recorded(contents, history)
    ensures var times := TimesOf(history, ip);
            Recorded(contents[ip := Next(EntryAfter(times), now)], history[ip := times + [now]])
  {
    var times := TimesOf(history, ip);
    assert (times + [now])[..|times|] == times;
  }

  lemma OneMoreTimed(history: History, clock: int, ip: string, now: int)
    requires Timed(history, clock) && 1 <= clock <= now
    ensures Timed(history[ip := TimesOf(history, ip) + [now]], now)
  {
    MonotoneMore(TimesOf(history, ip), now);
  }

  function Later(a: int, b: int): int { if a < b then b else a }

  class Limiter {
    var table: HashTable.Table<string, RateEntry>
    const hashFunction: (string, nat) -> nat
    /** The times of the checks of each address since the table was last recycled. */
    ghost var history: History
    /** The latest time seen, and whether the clock has never run back. */
    ghost var clock: int
    ghost var timely: bool

    ghost predicate Valid()
      reads this, table, table.pool, table.Entries()`next, table.Entries()`value
    {
      && table.Valid()
      && table.size <= MAX_SAVED_IP + 1
      && Recorded(table.contents, history)
      && clock >= 1 && (timely ==> Timed(history, clock))
    }

    /** No address has been let through more than RATE_LIMIT_RPS times in its last two active seconds. */
    ghost predicate Bounded()
      reads this, table
    {
      forall ip | ip in table.contents :: table.contents[ip].countPrev + table.contents[ip].countCurr <= RATE_LIMIT_RPS
    }

    lemma TimelyIsBounded()
      requires Valid()
      ensures timely ==> Bounded()
    {
      if timely {
        forall ip | ip in table.contents
          ensures table.contents[ip].countPrev + table.contents[ip].countCurr <= RATE_LIMIT_RPS
        {
          EntryMeaning(history[ip]);
        }
      }
    }

    constructor (hash: (string, nat) -> nat, seed: nat)
      ensures Valid() && history == map[] && timely && clock == 1
      ensures fresh(table) && fresh(table.pool) && table.Entries() == {}
    {
      hashFunction := hash;
      table := new HashTable.Table(1024, hash, seed);
      history, clock, timely := map[], 1, true;
    }

    /** One check at time `now`; `seed` is the one a recycled table would draw.  The answer depends on the
        earlier checks of this address alone, and only this address's history grows.  While the clock does not run
        back, every address keeps to the limit. */
    method Check(ip: string, now: int, seed: nat) returns (allowed: bool)
      requires Valid()
      modifies this, table, table.pool, table.Entries()
      ensures Valid()
      ensures ip == "" ==> allowed && history == old(history)
      ensures ip != "" ==>
                var before := if old(table.size) > MAX_SAVED_IP then map[] else old(history);
                var times := if ip in before then before[ip] else [];
                && history == before[ip := times + [now]]
                && allowed == Allowed(times, now)
      ensures timely == (old(timely) && (ip == "" || old(clock) <= now))
      ensures clock == if ip == "" then old(clock) else Later(old(clock), now)
      ensures timely ==> Bounded()
    {
      hide HashTable.BucketsOk, HashTable.Represents, Next, Admits;
      TimelyIsBounded();
      if ip == "" { return true; }
      RecycleIfFull(seed);
      allowed := Count(ip, now);
      TimelyIsBounded();
    }

    /** A table with too many addresses is replaced by an empty one. */
    method RecycleIfFull(seed: nat)
      requires Valid()
      modifies this
      ensures Valid() && table.size <= MAX_SAVED_IP
      ensures if old(table.size) > MAX_SAVED_IP
              then history == map[] && fresh(table) && fresh(table.pool) && table.Entries() == {}
              else history == old(history) && table == old(table)
      ensures clock == old(clock) && timely == old(timely)
    {
      hide HashTable.BucketsOk, HashTable.Represents, Next, Admits;
      if table.size > MAX_SAVED_IP {
        table := new HashTable.Table(1024, hashFunction, seed);
        history := map[];
      }
    }

    method Count(ip: string, now: int) returns (allowed: bool)
      requires Valid() && table.size <= MAX_SAVED_IP
      modifies this`history, this`clock, this`timely, table, table.pool, table.Entries()
      ensures Valid()
      ensures timely == (old(timely) && old(clock) <= now) && clock == Later(old(clock), now)
      ensures history == old(history)[ip := TimesOf(old(history), ip) + [now]]
      ensures allowed == Allowed(TimesOf(old(history), ip), now)
    {
      hide HashTable.Table.Valid, Next, Admits, Recorded, Timed, EntryAfter, TimesOf, Monotone, Last;
      ghost var m, times := table.contents, TimesOf(history, ip);
      OneMoreRecorded(m, history, ip, now);
      if timely && clock <= now { OneMoreTimed(history, clock, ip, now); }
      var e := Stored(ip);
      e, allowed := Decide(e, now);
      PutBack(ip, e);
      history := history[ip := times + [now]];
      timely, clock := timely && clock <= now, Later(clock, now);
    }

    method Stored(ip: string) returns (e: RateEntry)
      requires table.Valid() && Recorded(table.contents, history)
      ensures e == EntryAfter(TimesOf(history, ip))
    {
      hide HashTable.Table.Valid;
      var stored := table.Get(ip);
      e := if stored == Options.None then ZERO else stored.value;
    }

    method PutBack(ip: string, e: RateEntry)
      requires table.Valid() && table.size <= MAX_SAVED_IP
      modifies table, table.pool, table.Entries()
      ensures table.Valid() && table.contents == old(table.contents)[ip := e] && table.size <= MAX_SAVED_IP + 1
    {
      hide HashTable.BucketsOk, HashTable.Represents;
      ghost var m := table.contents;
      table.Set(ip, e);
      assert |table.contents| <= |m| + 1;
    }

    method Decide(stored: RateEntry, now: int) returns (e: RateEntry, allowed: bool)
      ensures e == Next(stored, now) && allowed == Admits(stored, now)
    {
      e := stored;
      if now - e.windowStart >= 1 {
        e := RateEntry(0, e.countCurr, now);
      }
      var elapsed := (now - e.windowStart) as real;
      var estimated := e.countPrev as real * (1.0 - elapsed) + e.countCurr as real;
      allowed := estimated < RATE_LIMIT_RPS as real;
      if allowed { e := e.(countCurr := e.countCurr + 1); }
    }
  }
}
