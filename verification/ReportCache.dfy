/** The JSON cache as functions on its slots. */
module ReportCache {
  import opened Options
  import opened Reports

  const CACHE_TTL_SECONDS := 5
  const CACHE_MAX_ENTRIES := 32
  const CACHE_JSON_MAX := 16 * 1024

  /** cachedAt is 0 in a free slot. */
  datatype Slot = Slot(city: string, query: Query, cachedAt: int, json: string)

  const FREE := Slot("", Query(0, false, false), 0, "")

  /** The array has a fixed number of slots. */
  type Cache = c: seq<Slot> | |c| == CACHE_MAX_ENTRIES witness seq(CACHE_MAX_ENTRIES, _ => FREE)

  predicate Live(e: Slot) { e.cachedAt != 0 }

  predicate Expired(e: Slot, now: int) { now - e.cachedAt > CACHE_TTL_SECONDS }

  predicate HasKey(e: Slot, city: string, q: Query) { e.query == q && SameCity(e.city, city) }

  /** Expired slots met before the one looked for are freed on the way. */
  function Find(cache: Cache, now: int, city: string, q: Query, i: nat): (r: (Cache, Option<nat>))
    ensures r.1.Some? ==> r.1.value < |cache|
    decreases |cache| - i
  {
    if i >= |cache| then (cache, None)
    else if !Live(cache[i]) then Find(cache, now, city, q, i + 1)
    else if Expired(cache[i], now) then Find(cache[i := cache[i].(cachedAt := 0)], now, city, q, i + 1)
    else if HasKey(cache[i], city, q) then (cache, Some(i))
    else Find(cache, now, city, q, i + 1)
  }

  /** The first free slot, or else the oldest. */
  function Choose(cache: Cache, i: nat, oldest: nat): (k: nat)
    requires i <= |cache| && oldest < |cache|
    ensures k < |cache|
    decreases |cache| - i
  {
    if i == |cache| then oldest
    else if !Live(cache[i]) then i
    else Choose(cache, i + 1, if cache[i].cachedAt < cache[oldest].cachedAt then i else oldest)
  }

  lemma {:induction false} ChooseMeaning(cache: Cache, i: nat, oldest: nat)
    requires i <= |cache| && oldest < |cache|
    requires forall k | 0 <= k < i :: Live(cache[k]) && cache[oldest].cachedAt <= cache[k].cachedAt
    ensures var k := Choose(cache, i, oldest);
            Live(cache[k]) ==> forall j | 0 <= j < |cache| :: Live(cache[j]) && cache[k].cachedAt <= cache[j].cachedAt
    decreases |cache| - i
  {
    if i < |cache| && Live(cache[i]) {
      ChooseMeaning(cache, i + 1, if cache[i].cachedAt < cache[oldest].cachedAt then i else oldest);
    }
  }

  /** An entry is evicted only when no slot is free, and then it is one of the oldest. */
  lemma EvictsOldest(cache: Cache)
    ensures var k := Choose(cache, 0, 0);
            Live(cache[k]) ==> forall j | 0 <= j < |cache| :: Live(cache[j]) && cache[k].cachedAt <= cache[j].cachedAt
  {
    ChooseMeaning(cache, 0, 0);
  }

  function Store(cache: Cache, city: string, q: Query, json: string, now: int): Cache
  {
    if |json| >= CACHE_JSON_MAX then cache
    else cache[Choose(cache, 0, 0) := Slot(Clip(city, CITY_LEN - 1), q, now, json)]
  }

  function InvalidateSlot(e: Slot, city: string, author: nat): Slot {
    if Live(e) && SameCity(e.city, city) && (e.query.isOperator || e.query.userId == author) then e.(cachedAt := 0) else e
  }

  /** Every operator's list of the city, and every list of the author in it. */
  function Invalidate(cache: Cache, city: string, author: nat): Cache {
    seq(|cache|, i requires 0 <= i < |cache| => InvalidateSlot(cache[i], city, author))
  }

  // ----- The cache agrees with the database -----

  ghost predicate SlotOk(render: Render, users: map<nat, User>, t: Table, n: nat, e: Slot) {
    && e.query.userId in users
    && users[e.query.userId].city == e.city
    && (e.query.isOperator <==> users[e.query.userId].role == Operator)
    && e.json == FreshJson(render, t, n, e.query)
  }

  ghost predicate UniqueKeys(cache: Cache) {
    forall i, j | 0 <= i < j < |cache| && Live(cache[i]) && Live(cache[j]) :: cache[i].query != cache[j].query
  }

  ghost predicate CacheOk(render: Render, users: map<nat, User>, t: Table, n: nat, cache: Cache) {
    && (forall i | 0 <= i < |cache| && Live(cache[i]) :: SlotOk(render, users, t, n, cache[i]))
    && UniqueKeys(cache)
  }

  /** Freeing slots keeps the others. */
  ghost predicate Fewer(cache: Cache, cache': Cache) {
    forall i | 0 <= i < |cache| :: Live(cache'[i]) ==> cache'[i] == cache[i]
  }

  lemma FewerOk(render: Render, users: map<nat, User>, t: Table, n: nat, cache: Cache, cache': Cache)
    requires CacheOk(render, users, t, n, cache) && Fewer(cache, cache')
    ensures CacheOk(render, users, t, n, cache')
  {
    hide SlotOk;
  }

  /** A lookup only frees slots; a hit is live and has the key; after a miss no live slot has it. */
  lemma {:induction false} FindMeaning(cache: Cache, now: int, city: string, q: Query, i: nat)
    requires i <= |cache|
    ensures var (cache', hit) := Find(cache, now, city, q, i);
            && Fewer(cache, cache')
            && (forall k | 0 <= k < i :: cache'[k] == cache[k])
            && (hit.Some? ==> hit.value < |cache'| && Live(cache'[hit.value]) && HasKey(cache'[hit.value], city, q))
            && (hit.None? ==> forall k | i <= k < |cache'| :: !(Live(cache'[k]) && HasKey(cache'[k], city, q)))
    decreases |cache| - i
  {
    hide HasKey;
    if i < |cache| {
      if !Live(cache[i]) {
        FindMeaning(cache, now, city, q, i + 1);
      } else if Expired(cache[i], now) {
        FindMeaning(cache[i := cache[i].(cachedAt := 0)], now, city, q, i + 1);
      } else if !HasKey(cache[i], city, q) {
        FindMeaning(cache, now, city, q, i + 1);
      }
    }
  }

  /** A live entry of that key, at most CACHE_TTL_SECONDS old. */
  ghost predicate Serves(e: Slot, now: int, city: string, q: Query) {
    && e.cachedAt != 0 && now - e.cachedAt <= CACHE_TTL_SECONDS && e.query == q
    && Clip(e.city, CITY_LEN) == Clip(city, CITY_LEN)
  }

  /** A lookup from slot i on finds the first entry that serves, if there is one, and frees just the entries before
      it that are too old. */
  lemma {:induction false} FindExact(cache: Cache, now: int, city: string, q: Query, i: nat)
    requires i <= |cache|
    ensures var (cache', hit) := Find(cache, now, city, q, i);
            var end := if hit.Some? then hit.value else |cache|;
            && i <= end
            && (hit.Some? ==> Serves(cache[end], now, city, q))
            && (forall k | i <= k < end :: !Serves(cache[k], now, city, q))
            && (forall k | 0 <= k < |cache| ::
                  cache'[k] == if i <= k < end && now - cache[k].cachedAt > CACHE_TTL_SECONDS then cache[k].(cachedAt := 0)
                               else cache[k])
    decreases |cache| - i
  {
    hide Clip;
    if i < |cache| {
      if !Live(cache[i]) {
        FindExact(cache, now, city, q, i + 1);
      } else if Expired(cache[i], now) {
        var freed := cache[i := cache[i].(cachedAt := 0)];
        FindExact(freed, now, city, q, i + 1);
        assert forall k | 0 <= k < |cache| && k != i :: freed[k] == cache[k];
        assert !Serves(cache[i], now, city, q);
        hide Serves, Find;
      } else if !HasKey(cache[i], city, q) {
        FindExact(cache, now, city, q, i + 1);
      }
    }
  }

  lemma {:induction false} ChooseFree(cache: Cache, i: nat, oldest: nat)
    requires i <= |cache| && oldest < |cache|
    ensures var k := Choose(cache, i, oldest);
            !Live(cache[k]) ==> forall j | i <= j < k :: Live(cache[j])
    decreases |cache| - i
  {
    if i < |cache| && Live(cache[i]) {
      ChooseFree(cache, i + 1, if cache[i].cachedAt < cache[oldest].cachedAt then i else oldest);
    }
  }

  /** An answer that fits goes to one slot, the first free one or else an oldest one; a longer one is not kept. */
  lemma StoreExact(cache: Cache, city: string, q: Query, json: string, now: int)
    returns (k: nat)
    ensures k < |cache|
    ensures Store(cache, city, q, json, now) ==
            if |json| < CACHE_JSON_MAX then cache[k := Slot(Clip(city, CITY_LEN - 1), q, now, json)] else cache
    ensures if Live(cache[k]) then forall j | 0 <= j < |cache| :: Live(cache[j]) && cache[k].cachedAt <= cache[j].cachedAt
            else forall j | 0 <= j < k :: Live(cache[j])
  {
    k := Choose(cache, 0, 0);
    EvictsOldest(cache);
    ChooseFree(cache, 0, 0);
  }

  /** What was stored is served for CACHE_TTL_SECONDS and no longer, whatever else was there under other keys. */
  lemma StoredIsServed(cache: Cache, city: string, q: Query, json: string, t: int, now: int)
    requires t != 0 && |city| < CITY_LEN && |json| < CACHE_JSON_MAX
    requires forall k | 0 <= k < |cache| :: !(Live(cache[k]) && HasKey(cache[k], city, q))
    ensures var (cache', hit) := Find(Store(cache, city, q, json, t), now, city, q, 0);
            && (hit.Some? <==> now - t <= CACHE_TTL_SECONDS)
            && (hit.Some? ==> cache'[hit.value].json == json)
  {
    var k := StoreExact(cache, city, q, json, t);
    var c := Store(cache, city, q, json, t);
    FindExact(c, now, city, q, 0);
    hide Find, Store, Clip;
    assert Clip(city, CITY_LEN - 1) == city;
    forall j | 0 <= j < |c| && j != k ensures !Serves(c[j], now, city, q) {
      assert c[j] == cache[j];
    }
    assert c[k] == Slot(city, q, t, json);
  }

  /** An invalidation frees every operator's list of the city and the author's own lists, and no other. */
  lemma InvalidateExact(cache: Cache, city: string, author: nat, k: nat)
    requires k < |cache| && |city| < CITY_LEN && |cache[k].city| < CITY_LEN
    ensures var e, e' := cache[k], Invalidate(cache, city, author)[k];
            && (e'.cachedAt != 0 <==> e.cachedAt != 0 && !(e.city == city && (e.query.isOperator || e.query.userId == author)))
            && e' == e.(cachedAt := e'.cachedAt)
            && (e'.cachedAt == e.cachedAt || e'.cachedAt == 0)
  {
  }

  /** Storing a fresh answer under a key no live slot has keeps the cache right. */
  lemma StoreOk(render: Render, users: map<nat, User>, t: Table, n: nat, cache: Cache, city: string, q: Query, json: string, now: int)
    requires CacheOk(render, users, t, n, cache) && |city| < CITY_LEN
    requires SlotOk(render, users, t, n, Slot(city, q, now, json))
    requires forall k | 0 <= k < |cache| :: !(Live(cache[k]) && HasKey(cache[k], city, q))
    ensures CacheOk(render, users, t, n, Store(cache, city, q, json, now))
  {
    hide FreshJson, Choose;
    forall k | 0 <= k < |cache| && Live(cache[k]) ensures cache[k].query != q {
      assert SlotOk(render, users, t, n, cache[k]);
    }
  }

  /** After the invalidation of (city, author), a live slot's query matches no report of that author filed in
      that city and assigned to nobody or to an operator of the city. */
  lemma SurvivorsDoNotMatch(users: map<nat, User>, e: Slot, city: string, author: nat, r: Row)
    requires Live(InvalidateSlot(e, city, author)) && e.query.userId in users
    requires users[e.query.userId].city == e.city
    requires r.author == author && author in users && users[author].city == city
    requires r.assignedTo.Some? ==> r.assignedTo.value in users && users[r.assignedTo.value].city == city
    ensures !Matches(e.query, r)
  {
  }

  ghost predicate Placed(users: map<nat, User>, r: Row) {
    && r.author in users && users[r.author].city == r.city
    && (r.assignedTo.Some? ==>
          r.assignedTo.value in users && users[r.assignedTo.value].city == r.city && users[r.assignedTo.value].role == Operator)
  }

  /** Writing a row and invalidating its city and author keeps the cache right. */
  lemma WriteOk(render: Render, users: map<nat, User>, t: Table, n: nat, cache: Cache, id: nat, r: Row)
    requires CacheOk(render, users, t, n, cache) && id in t && Placed(users, t[id]) && Placed(users, r)
    requires r.author == t[id].author && r.city == t[id].city
    ensures CacheOk(render, users, t[id := r], n, Invalidate(cache, r.city, r.author))
  {
    hide FreshJson, Matches;
    var cache' := Invalidate(cache, r.city, r.author);
    FewerOk(render, users, t, n, cache, cache');
    forall i | 0 <= i < |cache'| && Live(cache'[i]) ensures SlotOk(render, users, t[id := r], n, cache'[i]) {
      SurvivorsDoNotMatch(users, cache[i], r.city, r.author, r);
      SurvivorsDoNotMatch(users, cache[i], r.city, r.author, t[id]);
      ChangeElsewhere(render, cache[i].query, t, n, id, r);
    }
  }

  lemma InsertOk(render: Render, users: map<nat, User>, t: Table, n: nat, cache: Cache, r: Row)
    requires CacheOk(render, users, t, n, cache) && n !in t && Placed(users, r)
    ensures CacheOk(render, users, t[n := r], n + 1, Invalidate(cache, r.city, r.author))
  {
    hide FreshJson, Matches;
    var cache' := Invalidate(cache, r.city, r.author);
    FewerOk(render, users, t, n, cache, cache');
    forall i | 0 <= i < |cache'| && Live(cache'[i]) ensures SlotOk(render, users, t[n := r], n + 1, cache'[i]) {
      SurvivorsDoNotMatch(users, cache[i], r.city, r.author, r);
      InsertElsewhere(render, cache[i].query, t, n, r);
    }
  }

  /** A new user changes no answer. */
  lemma NewUserOk(render: Render, users: map<nat, User>, t: Table, n: nat, cache: Cache, id: nat, u: User)
    requires CacheOk(render, users, t, n, cache) && id !in users
    ensures CacheOk(render, users[id := u], t, n, cache)
  {
    hide FreshJson;
  }
}
