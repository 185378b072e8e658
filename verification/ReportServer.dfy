/**
 The report module as it runs: a fixed array of cache slots scanned and overwritten in
 loops, rows updated through guards, handlers that check one condition after another.
 Every method is proved to take the step of module ReportHandlers it implements.
 */
module ReportServer {
  import opened Options
  import opened Reports
  import opened ReportCache
  import opened ReportHandlers

  class Server {
    var users: map<nat, User>
    var nextUser: nat
    var reports: Table
    var nextReport: nat
    var sessions: map<string, Session>
    const cache: array<Slot>
    const render: Render

    ghost predicate Valid()
      reads this
    {
      cache.Length == CACHE_MAX_ENTRIES
    }

    ghost function View(now: int): State
      requires Valid()
      reads this, cache
    {
      State(users, nextUser, reports, nextReport, sessions, cache[..], now)
    }

    constructor (json: Render)
      ensures Valid() && fresh(cache) && View(0) == INIT
    {
      users, nextUser, reports, nextReport, sessions := map[], 1, map[], 1, map[];
      cache := new Slot[CACHE_MAX_ENTRIES](_ => FREE);
      render := json;
    }

    // ----- The cache -----

    /** The slot of a live entry with the key, or the number of slots; expired entries on the way are freed. */
    method CacheFind(city: string, q: Query, now: int) returns (hit: nat)
      requires Valid()
      modifies cache
      ensures var (c, h) := Find(old(cache[..]), now, city, q, 0);
              cache[..] == c && hit == if h.Some? then h.value else CACHE_MAX_ENTRIES
    {
      hide HasKey;
      ghost var was := cache[..];
      var i := 0;
      while i < CACHE_MAX_ENTRIES
        invariant i <= CACHE_MAX_ENTRIES && Find(was, now, city, q, 0) == Find(cache[..], now, city, q, i)
      {
        var e := cache[i];
        if e.cachedAt != 0 {
          if now - e.cachedAt > CACHE_TTL_SECONDS {
            ghost var before := cache[..];
            cache[i] := e.(cachedAt := 0);
            assert cache[..] == before[i := e.(cachedAt := 0)];
          } else if HasKey(e, city, q) {
            return i;
          }
        }
        i := i + 1;
      }
      hit := CACHE_MAX_ENTRIES;
    }

    /** One pass finds the first free slot and, failing that, the oldest. */
    method CacheStore(city: string, q: Query, json: string, now: int)
      requires Valid()
      modifies cache
      ensures cache[..] == Store(old(cache[..]), city, q, json, now)
    {
      if |json| >= CACHE_JSON_MAX { return; }
      ghost var was := cache[..];
      var slot, oldest, oldestTime, i := -1, 0, cache[0].cachedAt, 0;
      while i < CACHE_MAX_ENTRIES
        invariant i <= CACHE_MAX_ENTRIES && oldest < CACHE_MAX_ENTRIES && cache[..] == was
        invariant slot == -1 && oldestTime == cache[oldest].cachedAt
        invariant Choose(was, 0, 0) == Choose(was, i, oldest)
      {
        if cache[i].cachedAt == 0 {
          slot := i;
          break;
        }
        if cache[i].cachedAt < oldestTime {
          oldestTime := cache[i].cachedAt;
          oldest := i;
        }
        i := i + 1;
      }
      if slot == -1 { slot := oldest; }
      cache[slot] := Slot(Clip(city, CITY_LEN - 1), q, now, json);
    }

    method InvalidateCity(city: string, author: nat)
      requires Valid()
      modifies cache
      ensures cache[..] == Invalidate(old(cache[..]), city, author)
    {
      hide SameCity;
      ghost var was := cache[..];
      for i := 0 to CACHE_MAX_ENTRIES
        invariant forall k | 0 <= k < i :: cache[k] == InvalidateSlot(was[k], city, author)
        invariant forall k | i <= k < CACHE_MAX_ENTRIES :: cache[k] == was[k]
      {
        var e := cache[i];
        if e.cachedAt == 0 { continue; }
        if !SameCity(e.city, city) { continue; }
        if e.query.isOperator || e.query.userId == author { cache[i] := e.(cachedAt := 0); }
      }
    }

    // ----- Guarded updates -----

    /** Store an updated row, then read it back to drop the lists it may appear in. */
    method Update(id: nat, row: Option<Row>) returns (rc: int)
      requires Valid()
      modifies this`reports, cache
      ensures forall now :: (View(now), rc) == WriteRow(old(View(now)), id, row)
      ensures rc == (if row.Some? then 1 else 0)
      ensures reports == if row.Some? then old(reports)[id := row.value] else old(reports)
    {
      if row.None? { return 0; }
      reports := reports[id := row.value];
      InvalidateCity(Clip(reports[id].city, CITY_LEN - 1), reports[id].author);
      rc := 1;
    }

    /** An active report that nobody has goes to an operator. */
    method Assign(id: nat, operator: nat, now: int) returns (rc: int)
      requires Valid()
      modifies this`reports, cache
      ensures forall t :: (View(t), rc) == WriteRow(old(View(t)), id, AssignRow(old(reports), id, operator, now))
      ensures rc == 1 <==> id in old(reports) && old(reports)[id].status == Active && old(reports)[id].assignedTo == None
      ensures reports == if rc == 1 then old(reports)[id := old(reports)[id].(status := Assigned, assignedTo := Some(operator), assignedAt := Some(now))] else old(reports)
    {
      hide WriteRow;
      rc := Update(id, AssignRow(reports, id, operator, now));
    }

    /** The operator it is assigned to takes it up. */
    method Accept(id: nat, operator: nat) returns (rc: int)
      requires Valid()
      modifies this`reports, cache
      ensures forall t :: (View(t), rc) == WriteRow(old(View(t)), id, AcceptRow(old(reports), id, operator))
      ensures rc == 1 <==> id in old(reports) && old(reports)[id].status == Assigned && old(reports)[id].assignedTo == Some(operator)
      ensures reports == if rc == 1 then old(reports)[id := old(reports)[id].(status := InProgress)] else old(reports)
    {
      hide WriteRow;
      rc := Update(id, AcceptRow(reports, id, operator));
    }

    /** The operator it is assigned to gives it back. */
    method Reject(id: nat, operator: nat) returns (rc: int)
      requires Valid()
      modifies this`reports, cache
      ensures forall t :: (View(t), rc) == WriteRow(old(View(t)), id, RejectRow(old(reports), id, operator))
      ensures rc == 1 <==> id in old(reports) && old(reports)[id].status == Assigned && old(reports)[id].assignedTo == Some(operator)
      ensures reports == if rc == 1 then old(reports)[id := old(reports)[id].(status := Active, assignedTo := None, assignedAt := None)] else old(reports)
    {
      hide WriteRow;
      rc := Update(id, RejectRow(reports, id, operator));
    }

    /** The operator at work on it resolves it. */
    method Resolve(id: nat, operator: nat, now: int) returns (rc: int)
      requires Valid()
      modifies this`reports, cache
      ensures forall t :: (View(t), rc) == WriteRow(old(View(t)), id, ResolveRow(old(reports), id, operator, now))
      ensures rc == 1 <==> id in old(reports) && old(reports)[id].status == InProgress && old(reports)[id].assignedTo == Some(operator)
      ensures reports == if rc == 1 then old(reports)[id := old(reports)[id].(status := Resolved, resolvedAt := Some(now))] else old(reports)
    {
      hide WriteRow;
      rc := Update(id, ResolveRow(reports, id, operator, now));
    }

    /** The author rates a resolved report, once; -1 for stars out of range. */
    method SetFeedback(id: nat, author: nat, stars: int) returns (rc: int)
      requires Valid()
      modifies this`reports, cache
      ensures stars < 1 || stars > 5 ==> rc == -1 && forall t :: View(t) == old(View(t))
      ensures 1 <= stars <= 5 ==>
                forall t :: (View(t), rc) == WriteRow(old(View(t)), id, FeedbackRow(old(reports), id, author, stars))
      ensures rc == 1 <==>
                && 1 <= stars <= 5 && id in old(reports) && old(reports)[id].author == author
                && old(reports)[id].status == Resolved && old(reports)[id].feedback == None
      ensures reports == if rc == 1 then old(reports)[id := old(reports)[id].(feedback := Some(stars))] else old(reports)
    {
      hide WriteRow;
      if stars < 1 || stars > 5 { return -1; }
      rc := Update(id, FeedbackRow(reports, id, author, stars));
    }

    method Insert(author: nat, city: string, details: Details, now: int)
      requires Valid()
      modifies this`reports, this`nextReport, cache
      ensures View(now) == ReportInsert(old(View(now)), author, city, details, now)
    {
      reports := reports[nextReport := NewRow(author, city, details, now)];
      nextReport := nextReport + 1;
      InvalidateCity(city, author);
    }

    // ----- Reading -----

    method GetJson(userId: nat, city: string, isOperator: bool, isArchived: bool, now: int, storeTime: int)
      returns (json: string)
      requires Valid()
      modifies cache
      ensures var q := Query(userId, isOperator, isArchived);
              var (c, h) := Find(old(cache[..]), now, city, q, 0);
              var answer := FreshJson(render, reports, nextReport, q);
              if h.Some? then cache[..] == c && json == c[h.value].json
              else json == answer && cache[..] == if answer == "" then c else Store(c, city, q, answer, storeTime)
    {
      hide Find, Store, FreshJson;
      var q := Query(userId, isOperator, isArchived);
      var hit := CacheFind(city, q, now);
      if hit < CACHE_MAX_ENTRIES { return cache[hit].json; }
      json := FreshJson(render, reports, nextReport, q);
      if |json| > 0 { CacheStore(city, q, json, storeTime); }
    }

    // ----- Handlers -----

    method HandleList(token: string, archived: bool, now: int, storeTime: int) returns (reply: Reply)
      requires Valid()
      modifies cache
      ensures (View(now), reply) == ListHandler(render, old(View(now)), token, archived, now, storeTime)
    {
      hide Find, Store, FreshJson;
      if token !in sessions { return Fail(401); }
      var u := sessions[token];
      var json := GetJson(u.userId, u.user.city, u.user.role == Operator, archived, now, storeTime);
      reply := Ok(json);
    }

    method HandleSubmit(token: string, details: Details, inCity: bool, now: int) returns (reply: Reply)
      requires Valid()
      modifies this`reports, this`nextReport, cache
      ensures (View(now), reply) == SubmitHandler(old(View(now)), token, details, inCity, now)
    {
      hide ReportInsert;
      if token !in sessions { return Fail(302); }
      var u := sessions[token];
      if u.user.role == Operator || u.user.role == Admin { return Fail(302); }
      if details.description == "" { return Fail(200); }
      if !inCity { return Fail(200); }
      Insert(u.userId, u.user.city, details, now);
      reply := Fail(302);
    }

    method HandleSetStatus(token: string, report: Option<nat>, newStatus: Option<int>, now: int) returns (reply: Reply)
      requires Valid()
      modifies this`reports, cache
      ensures (View(now), reply) == SetStatusHandler(old(View(now)), token, report, newStatus, now)
    {
      hide WriteRow, ResolveRow, SameCity;
      if token !in sessions || sessions[token].user.role != Operator { return Fail(403); }
      var u := sessions[token];
      if report == None || newStatus == None { return Fail(400); }
      if report.value !in reports { return Fail(404); }
      if !SameCity(Clip(reports[report.value].city, CITY_LEN - 1), u.user.city) { return Fail(403); }
      if newStatus.value != 3 { return Fail(400); }
      var rc := Resolve(report.value, u.userId, now);
      if rc == 0 { return Fail(403); }
      reply := Ok(OK_BODY);
    }

    method HandleRespond(token: string, report: Option<nat>, action: string, now: int) returns (reply: Reply)
      requires Valid()
      modifies this`reports, cache
      ensures (View(now), reply) == RespondHandler(old(View(now)), token, report, action)
    {
      hide WriteRow, AcceptRow, RejectRow, SameCity, StartsWith;
      if token !in sessions || sessions[token].user.role != Operator { return Fail(403); }
      var u := sessions[token];
      if report == None || action == "" { return Fail(400); }
      var isAccept := StartsWith(action, "accept");
      if !isAccept && !StartsWith(action, "reject") { return Fail(400); }
      if report.value !in reports { return Fail(404); }
      if !SameCity(Clip(reports[report.value].city, CITY_LEN - 1), u.user.city) { return Fail(403); }
      var rc;
      if isAccept {
        rc := Accept(report.value, u.userId);
      } else {
        rc := Reject(report.value, u.userId);
      }
      if rc == 0 { return Fail(409); }
      reply := Ok(OK_BODY);
    }

    method HandleRate(token: string, report: Option<nat>, stars: Option<int>, now: int) returns (reply: Reply)
      requires Valid()
      modifies this`reports, cache
      ensures (View(now), reply) == RateHandler(old(View(now)), token, report, stars)
    {
      hide WriteRow, FeedbackRow;
      if token !in sessions || sessions[token].user.role == Operator || sessions[token].user.role == Admin { return Fail(403); }
      if report == None || stars == None { return Fail(400); }
      if stars.value < 1 || stars.value > 5 { return Fail(400); }
      var rc := SetFeedback(report.value, sessions[token].userId, stars.value);
      if rc == 0 { return Fail(409); }
      reply := Ok(OK_BODY);
    }

    method HandleAssign(token: string, report: Option<nat>, operator: Option<nat>, now: int) returns (reply: Reply)
      requires Valid()
      modifies this`reports, cache
      ensures (View(now), reply) == AssignHandler(old(View(now)), token, report, operator, now)
    {
      hide WriteRow, AssignRow, ResetRow, SameCity;
      if token !in sessions || sessions[token].user.role != Admin { return Fail(403); }
      var u := sessions[token].user;
      if report == None || operator == None { return Fail(400); }
      var id, op := report.value, operator.value;
      if id !in reports { return Fail(404); }
      if !SameCity(Clip(reports[id].city, CITY_LEN - 1), u.city) { return Fail(403); }
      if op !in users || users[op].role != Operator || !SameCity(ReadUser(users[op]).city, u.city) { return Fail(400); }
      WriteRefused(View(now), id, AssignRow(reports, id, op, now));
      var rc := Assign(id, op, now);
      if rc == 0 {
        if reports[id].status == Assigned {
          var reset := ResetRow(reports, id);
          if reset.Some? { reports := reports[id := reset.value]; }
          rc := Assign(id, op, now);
        }
        if rc == 0 { return Fail(409); }
      }
      reply := Ok(OK_BODY);
    }
  }

  /** A refused update leaves everything as it was. */
  lemma WriteRefused(s: State, id: nat, r: Option<Row>)
    ensures WriteRow(s, id, r).1 == 0 <==> r.None?
    ensures r.None? ==> WriteRow(s, id, r).0 == s
  {
  }
}
