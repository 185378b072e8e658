/**
 The request handlers as atomic steps of one state: tables, sessions, cache and clock.
 Over every run the cache agrees with the database and every report's columns agree with
 its status.
 */
module ReportHandlers {
  import opened Options
  import opened Reports
  import opened ReportCache

  datatype Session = Session(userId: nat, user: User)

  datatype State = State(users: map<nat, User>, nextUser: nat, reports: Table, nextReport: nat,
                         sessions: map<string, Session>, cache: Cache, clock: int)

  datatype Reply = Reply(status: nat, body: string)

  const OK_BODY := "{\"ok\":true}"

  function Ok(body: string): Reply { Reply(200, body) }
  function Fail(status: nat): Reply { Reply(status, "") }

  /** Form fields are None when missing; `cityKnown`, `inCity` and `accepted` are the answers of the geometry
      table and of the password check. */
  datatype Action =
    | List(token: string, archived: bool, storeTime: int)
    | Submit(token: string, details: Details, inCity: bool)
    | SetStatus(token: string, report: Option<nat>, newStatus: Option<int>)
    | Respond(token: string, report: Option<nat>, action: string)
    | Rate(token: string, report: Option<nat>, stars: Option<int>)
    | Assign(token: string, report: Option<nat>, operator: Option<nat>)
    | Register(role: Role, city: string, cityKnown: bool)
    | Login(token: string, userId: nat, accepted: bool)
    | Logout(token: string)

  datatype Event = Event(now: int, action: Action)

  // ----- Write operations of the report module: the new state and 1, or the old one and 0 -----

  /** The row is written, then read back to invalidate its city and author. */
  function WriteRow(s: State, id: nat, r: Option<Row>): (State, int) {
    if r.None? then (s, 0)
    else (s.(reports := s.reports[id := r.value],
             cache := Invalidate(s.cache, Clip(r.value.city, CITY_LEN - 1), r.value.author)), 1)
  }

  function ReportInsert(s: State, author: nat, city: string, details: Details, now: int): State {
    s.(reports := s.reports[s.nextReport := NewRow(author, city, details, now)], nextReport := s.nextReport + 1,
       cache := Invalidate(s.cache, city, author))
  }

  function ReportAssign(s: State, id: nat, operator: nat, now: int): (State, int) {
    WriteRow(s, id, AssignRow(s.reports, id, operator, now))
  }

  /** The raw UPDATE of the administrator's handler: no invalidation. */
  function RawReset(s: State, id: nat): State {
    var r := ResetRow(s.reports, id);
    if r.None? then s else s.(reports := s.reports[id := r.value])
  }

  // ----- Handlers -----

  /** What cursor_to_user makes of a row. */
  function ReadUser(u: User): User {
    u.(city := Clip(u.city, CITY_LEN - 1))
  }

  function ListHandler(render: Render, s: State, token: string, archived: bool, now: int, storeTime: int): (State, Reply)
  {
    if token !in s.sessions then (s, Fail(401))
    else
      var u := s.sessions[token];
      var q := Query(u.userId, u.user.role == Operator, archived);
      var (cache, hit) := Find(s.cache, now, u.user.city, q, 0);
      if hit.Some? then (s.(cache := cache), Ok(cache[hit.value].json))
      else
        var json := FreshJson(render, s.reports, s.nextReport, q);
        if json == "" then (s.(cache := cache), Ok(json))
        else (s.(cache := Store(cache, u.user.city, q, json, storeTime)), Ok(json))
  }

  function SubmitHandler(s: State, token: string, details: Details, inCity: bool, now: int): (State, Reply) {
    if token !in s.sessions then (s, Fail(302))
    else
      var u := s.sessions[token];
      if u.user.role != Citizen then (s, Fail(302))
      else if details.description == "" || !inCity then (s, Fail(200))
      else (ReportInsert(s, u.userId, u.user.city, details, now), Fail(302))
  }

  /** The report exists and lies in the user's city: 200, or the error to answer with. */
  function CheckReport(s: State, u: User, id: nat): nat {
    if id !in s.reports then 404
    else if !SameCity(Clip(s.reports[id].city, CITY_LEN - 1), u.city) then 403
    else 200
  }

  function Answer(r: (State, int), refused: nat): (State, Reply) {
    if r.1 == 0 then (r.0, Fail(refused)) else (r.0, Ok(OK_BODY))
  }

  function SetStatusHandler(s: State, token: string, report: Option<nat>, newStatus: Option<int>, now: int): (State, Reply) {
    if token !in s.sessions || s.sessions[token].user.role != Operator then (s, Fail(403))
    else if report.None? || newStatus.None? then (s, Fail(400))
    else
      var u, id := s.sessions[token], report.value;
      var check := CheckReport(s, u.user, id);
      if check != 200 then (s, Fail(check))
      else if newStatus.value != 3 then (s, Fail(400))
      else Answer(WriteRow(s, id, ResolveRow(s.reports, id, u.userId, now)), 403)
  }

  predicate StartsWith(s: string, prefix: string) {
    prefix <= s
  }

  function RespondHandler(s: State, token: string, report: Option<nat>, action: string): (State, Reply) {
    if token !in s.sessions || s.sessions[token].user.role != Operator then (s, Fail(403))
    else if report.None? || action == "" then (s, Fail(400))
    else
      var accept := StartsWith(action, "accept");
      if !accept && !StartsWith(action, "reject") then (s, Fail(400))
      else
        var u, id := s.sessions[token], report.value;
        var check := CheckReport(s, u.user, id);
        if check != 200 then (s, Fail(check))
        else Answer(WriteRow(s, id, if accept then AcceptRow(s.reports, id, u.userId) else RejectRow(s.reports, id, u.userId)), 409)
  }

  function RateHandler(s: State, token: string, report: Option<nat>, stars: Option<int>): (State, Reply) {
    if token !in s.sessions || s.sessions[token].user.role != Citizen then (s, Fail(403))
    else if report.None? || stars.None? || !(1 <= stars.value <= 5) then (s, Fail(400))
    else Answer(WriteRow(s, report.value, FeedbackRow(s.reports, report.value, s.sessions[token].userId, stars.value)), 409)
  }

  /** The operator exists, has the role and belongs to the administrator's city. */
  predicate OperatorOk(s: State, admin: User, operator: nat) {
    operator in s.users && s.users[operator].role == Operator && SameCity(ReadUser(s.users[operator]).city, admin.city)
  }

  function AssignHandler(s: State, token: string, report: Option<nat>, operator: Option<nat>, now: int): (State, Reply) {
    if token !in s.sessions || s.sessions[token].user.role != Admin then (s, Fail(403))
    else if report.None? || operator.None? then (s, Fail(400))
    else
      var u, id := s.sessions[token].user, report.value;
      var check := CheckReport(s, u, id);
      if check != 200 then (s, Fail(check))
      else if !OperatorOk(s, u, operator.value) then (s, Fail(400))
      else
        var first := ReportAssign(s, id, operator.value, now);
        if first.1 != 0 then (first.0, Ok(OK_BODY))
        else if id in s.reports && s.reports[id].status == Assigned then
          Answer(ReportAssign(RawReset(s, id), id, operator.value, now), 409)
        else (s, Fail(409))
  }

  function RegisterHandler(s: State, role: Role, city: string, cityKnown: bool): (State, Reply) {
    var c := Clip(city, CITY_LEN - 1);
    if c == "" || !cityKnown then (s, Fail(200))
    else if role == Admin && exists id | id in s.users :: s.users[id] == User(Admin, c) then (s, Fail(200))
    else (s.(users := s.users[s.nextUser := User(role, c)], nextUser := s.nextUser + 1), Fail(302))
  }

  function LoginHandler(s: State, token: string, userId: nat, accepted: bool): (State, Reply) {
    if !accepted || userId !in s.users then (s, Fail(200))
    else (s.(sessions := s.sessions[token := Session(userId, ReadUser(s.users[userId]))]), Fail(302))
  }

  function Step(render: Render, s: State, e: Event): (State, Reply)
  {
    var t := s.(clock := e.now);
    match e.action
    case List(token, archived, storeTime) => ListHandler(render, t, token, archived, e.now, storeTime)
    case Submit(token, details, inCity) => SubmitHandler(t, token, details, inCity, e.now)
    case SetStatus(token, report, newStatus) => SetStatusHandler(t, token, report, newStatus, e.now)
    case Respond(token, report, action) => RespondHandler(t, token, report, action)
    case Rate(token, report, stars) => RateHandler(t, token, report, stars)
    case Assign(token, report, operator) => AssignHandler(t, token, report, operator, e.now)
    case Register(role, city, known) => RegisterHandler(t, role, city, known)
    case Login(token, userId, accepted) => LoginHandler(t, token, userId, accepted)
    case Logout(token) => (t.(sessions := t.sessions - {token}), Fail(302))
  }

  // ----- Invariants -----

  /** The columns of a row agree with its status, and its times are in order. */
  ghost predicate ColumnsOk(r: Row, clock: int) {
    && (r.assignedTo.None? <==> r.status == Active)
    && (r.assignedAt.None? <==> r.status == Active)
    && (r.resolvedAt.Some? <==> r.status == Resolved)
    && (r.feedback.Some? ==> r.status == Resolved && 1 <= r.feedback.value <= 5)
    && r.createdAt <= clock
    && (r.assignedAt.Some? ==> r.createdAt <= r.assignedAt.value <= clock)
    && (r.resolvedAt.Some? && r.assignedAt.Some? ==> r.assignedAt.value <= r.resolvedAt.value <= clock)
  }

  ghost predicate RowsOk(s: State) {
    forall id | id in s.reports ::
      id < s.nextReport && |s.reports[id].city| < CITY_LEN &&
      ColumnsOk(s.reports[id], s.clock) && Placed(s.users, s.reports[id])
  }

  ghost predicate UsersOk(s: State) {
    && (forall id | id in s.users :: id < s.nextUser && |s.users[id].city| < CITY_LEN)
    && (forall k | k in s.sessions :: s.sessions[k].userId in s.users && s.sessions[k].user == s.users[s.sessions[k].userId])
  }

  ghost predicate Inv(render: Render, s: State) {
    && UsersOk(s)
    && RowsOk(s)
    && CacheOk(render, s.users, s.reports, s.nextReport, s.cache)
  }

  const INIT := State(map[], 1, map[], 1, map[], seq(CACHE_MAX_ENTRIES, _ => FREE), 0)

  lemma InvParts(render: Render, s: State)
    requires Inv(render, s)
    ensures UsersOk(s) && RowsOk(s) && Keeps(render, s, s)
  {
  }

  lemma InitInv(render: Render)
    ensures Inv(render, INIT)
  {
  }

  /** What one event may do to a row: assign it, reassign it or give it back, take it up, resolve it, rate it once. */
  ghost predicate Moves(r: Row, r': Row) {
    || r' == r
    || (r' == r.(status := r'.status, assignedTo := r'.assignedTo, assignedAt := r'.assignedAt)
        && (r.status == Active || r.status == Assigned) && (r'.status == Active || r'.status == Assigned)
        && (r.status == Assigned || r'.status == Assigned))
    || (r.status == Assigned && r' == r.(status := InProgress))
    || (r.status == InProgress && r' == r.(status := Resolved, resolvedAt := r'.resolvedAt))
    || (r.status == Resolved && r.feedback == None && r' == r.(feedback := r'.feedback))
  }

  /** Every row moves so, and new ones are active. */
  ghost predicate AllMove(t: Table, t': Table) {
    && (forall id | id in t :: id in t' && Moves(t[id], t'[id]))
    && (forall id | id in t' && id !in t :: t'[id].status == Active)
  }

  /** What may become of a row in later states: nothing it was filed with changes, feedback stays, work begun
      stays with its operator, and a resolved report stays resolved. */
  ghost predicate Later(r: Row, r': Row) {
    && r'.author == r.author && r'.city == r.city && r'.details == r.details && r'.createdAt == r.createdAt
    && (r.feedback.Some? ==> r'.feedback == r.feedback)
    && (r.status == InProgress ==> r'.status == InProgress || r'.status == Resolved)
    && (r.status == Resolved ==> r'.status == Resolved && r'.resolvedAt == r.resolvedAt)
    && (r.status == InProgress || r.status == Resolved ==> r'.assignedTo == r.assignedTo && r'.assignedAt == r.assignedAt)
  }

  ghost predicate AllLater(t: Table, t': Table) {
    forall id | id in t :: id in t' && Later(t[id], t'[id])
  }

  /** What an event keeps and changes, but for the time. */
  ghost predicate Keeps(render: Render, s: State, s': State) {
    && Inv(render, s')
    && AllMove(s.reports, s'.reports)
    && s'.clock == s.clock
  }

  /** The row may replace the one with this id. */
  ghost predicate Admissible(s: State, id: nat, r: Row, now: int) {
    && id in s.reports && Moves(s.reports[id], r)
    && ColumnsOk(r, now) && Placed(s.users, r)
  }

  // ----- Each step keeps them -----

  lemma ClockMoves(render: Render, s: State, now: int)
    requires Inv(render, s) && s.clock <= now
    ensures Inv(render, s.(clock := now))
  {
    hide CacheOk, Placed;
  }

  lemma WriteRowOk(render: Render, s: State, id: nat, r: Option<Row>)
    requires Inv(render, s) && (r.Some? ==> Admissible(s, id, r.value, s.clock))
    ensures Keeps(render, s, WriteRow(s, id, r).0)
  {
    if r.Some? {
      WriteOk(render, s.users, s.reports, s.nextReport, s.cache, id, r.value);
      hide CacheOk, Placed, ColumnsOk;
    }
  }

  lemma UpdatesAdmissible(s: State, id: nat, user: nat, stars: int)
    requires RowsOk(s) && 1 <= stars <= 5
    ensures var r := ResolveRow(s.reports, id, user, s.clock); r.Some? ==> Admissible(s, id, r.value, s.clock)
    ensures var r := AcceptRow(s.reports, id, user); r.Some? ==> Admissible(s, id, r.value, s.clock)
    ensures var r := RejectRow(s.reports, id, user); r.Some? ==> Admissible(s, id, r.value, s.clock)
    ensures var r := FeedbackRow(s.reports, id, user, stars); r.Some? ==> Admissible(s, id, r.value, s.clock)
  {
  }

  /** Assigning an active report, or an assigned one after the raw reset, to an operator of its city. */
  lemma AssignAdmissible(s: State, id: nat, operator: nat)
    requires RowsOk(s) && id in s.reports && operator in s.users
    requires s.users[operator].role == Operator && s.users[operator].city == s.reports[id].city
    ensures var r := AssignRow(s.reports, id, operator, s.clock); r.Some? ==> Admissible(s, id, r.value, s.clock)
    ensures s.reports[id].status == Assigned ==>
              var r := AssignRow(RawReset(s, id).reports, id, operator, s.clock);
              r.Some? && Admissible(s, id, r.value, s.clock) &&
              ReportAssign(RawReset(s, id), id, operator, s.clock) == WriteRow(s, id, r)
  {
    if s.reports[id].status == Assigned {
      var r := AssignRow(RawReset(s, id).reports, id, operator, s.clock);
      assert RawReset(s, id).reports[id := r.value] == s.reports[id := r.value];
    }
  }

  lemma CitiesAgree(s: State, u: User, id: nat, operator: nat)
    requires UsersOk(s) && RowsOk(s) && |u.city| < CITY_LEN
    ensures CheckReport(s, u, id) == 200 ==> id in s.reports && s.reports[id].city == u.city
    ensures OperatorOk(s, u, operator) ==>
              operator in s.users && s.users[operator].role == Operator && s.users[operator].city == u.city
  {
  }

  /** A lookup or a fill keeps the cache right, and the answer is what the database would say. */
  lemma ListOk(render: Render, s: State, token: string, archived: bool, now: int, storeTime: int)
    requires Inv(render, s)
    ensures var (s', reply) := ListHandler(render, s, token, archived, now, storeTime);
            && Inv(render, s') && s'.reports == s.reports && s'.clock == s.clock
            && (token in s.sessions ==>
                  reply == Ok(FreshJson(render, s.reports, s.nextReport,
                                        Query(s.sessions[token].userId, s.sessions[token].user.role == Operator, archived))))
  {
    hide FreshJson, Store, Find;
    if token in s.sessions {
      var u := s.sessions[token];
      var q := Query(u.userId, u.user.role == Operator, archived);
      var (cache, hit) := Find(s.cache, now, u.user.city, q, 0);
      FindMeaning(s.cache, now, u.user.city, q, 0);
      FewerOk(render, s.users, s.reports, s.nextReport, s.cache, cache);
      var json := FreshJson(render, s.reports, s.nextReport, q);
      if hit.None? {
        StoreOk(render, s.users, s.reports, s.nextReport, cache, u.user.city, q, json, storeTime);
      } else {
        assert SlotOk(render, s.users, s.reports, s.nextReport, cache[hit.value]);
      }
    }
  }

  lemma SubmitOk(render: Render, s: State, token: string, details: Details, inCity: bool)
    requires Inv(render, s)
    ensures Keeps(render, s, SubmitHandler(s, token, details, inCity, s.clock).0)
  {
    hide FreshJson;
    if token in s.sessions {
      var u := s.sessions[token];
      InsertOk(render, s.users, s.reports, s.nextReport, s.cache, NewRow(u.userId, u.user.city, details, s.clock));
      hide CacheOk;
    }
  }

  lemma SetStatusOk(render: Render, s: State, token: string, report: Option<nat>, newStatus: Option<int>)
    requires Inv(render, s)
    ensures Keeps(render, s, SetStatusHandler(s, token, report, newStatus, s.clock).0)
  {
    InvParts(render, s);
    hide Inv, Keeps, RowsOk, UsersOk, WriteRow, ResolveRow, CheckReport, Admissible;
    if token in s.sessions && report.Some? {
      var r := ResolveRow(s.reports, report.value, s.sessions[token].userId, s.clock);
      UpdatesAdmissible(s, report.value, s.sessions[token].userId, 1);
      WriteRowOk(render, s, report.value, r);
    }
  }

  lemma RespondOk(render: Render, s: State, token: string, report: Option<nat>, action: string)
    requires Inv(render, s)
    ensures Keeps(render, s, RespondHandler(s, token, report, action).0)
  {
    InvParts(render, s);
    hide Inv, Keeps, RowsOk, UsersOk, WriteRow, AcceptRow, RejectRow, CheckReport, Admissible, StartsWith;
    if token in s.sessions && report.Some? {
      var user := s.sessions[token].userId;
      UpdatesAdmissible(s, report.value, user, 1);
      WriteRowOk(render, s, report.value, AcceptRow(s.reports, report.value, user));
      WriteRowOk(render, s, report.value, RejectRow(s.reports, report.value, user));
    }
  }

  lemma RateOk(render: Render, s: State, token: string, report: Option<nat>, stars: Option<int>)
    requires Inv(render, s)
    ensures Keeps(render, s, RateHandler(s, token, report, stars).0)
  {
    InvParts(render, s);
    hide Inv, Keeps, RowsOk, UsersOk, WriteRow, FeedbackRow, Admissible;
    if token in s.sessions && report.Some? && stars.Some? && 1 <= stars.value <= 5 {
      var user := s.sessions[token].userId;
      UpdatesAdmissible(s, report.value, user, stars.value);
      WriteRowOk(render, s, report.value, FeedbackRow(s.reports, report.value, user, stars.value));
    }
  }

  /** The raw UPDATE leaves stale lists behind for as long as it takes to assign; no other step comes between. */
  lemma AssignOk(render: Render, s: State, token: string, report: Option<nat>, operator: Option<nat>)
    requires Inv(render, s)
    ensures Keeps(render, s, AssignHandler(s, token, report, operator, s.clock).0)
  {
    InvParts(render, s);
    hide Inv, Keeps, RowsOk, UsersOk, WriteRow, Admissible, AssignRow, RawReset, CheckReport, OperatorOk;
    if token in s.sessions && report.Some? && operator.Some? {
      var u, id, op := s.sessions[token].user, report.value, operator.value;
      CitiesAgree(s, u, id, op);
      if CheckReport(s, u, id) == 200 && OperatorOk(s, u, op) {
        AssignAdmissible(s, id, op);
        WriteRowOk(render, s, id, AssignRow(s.reports, id, op, s.clock));
        WriteZero(s, id, AssignRow(s.reports, id, op, s.clock));
        if s.reports[id].status == Assigned {
          WriteRowOk(render, s, id, AssignRow(RawReset(s, id).reports, id, op, s.clock));
        }
      }
    }
  }

  lemma WriteZero(s: State, id: nat, r: Option<Row>)
    ensures WriteRow(s, id, r).1 == 0 ==> WriteRow(s, id, r).0 == s
  {
  }

  lemma RegisterOk(render: Render, s: State, role: Role, city: string, known: bool)
    requires Inv(render, s)
    ensures var s' := RegisterHandler(s, role, city, known).0;
            Inv(render, s') && s'.reports == s.reports && s'.clock == s.clock
  {
    NewUserOk(render, s.users, s.reports, s.nextReport, s.cache, s.nextUser, User(role, Clip(city, CITY_LEN - 1)));
    hide CacheOk, ColumnsOk;
  }

  lemma LoginOk(render: Render, s: State, token: string, userId: nat, accepted: bool)
    requires Inv(render, s)
    ensures var s' := LoginHandler(s, token, userId, accepted).0;
            Inv(render, s') && s'.reports == s.reports && s'.clock == s.clock
    ensures Inv(render, s.(sessions := s.sessions - {token}))
  {
    hide CacheOk, RowsOk;
    assert RowsOk(s.(sessions := s.sessions - {token})) by { SameRows(s, s.sessions - {token}); }
    SameRows(s, LoginHandler(s, token, userId, accepted).0.sessions);
  }

  lemma SameRows(s: State, sessions: map<string, Session>)
    requires RowsOk(s)
    ensures RowsOk(s.(sessions := sessions))
  {
  }

  /** Every handler keeps the invariant and lets rows only move forward. */
  lemma StepOk(render: Render, s: State, e: Event)
    requires Inv(render, s) && s.clock <= e.now
    ensures var s' := Step(render, s, e).0;
            Inv(render, s') && AllMove(s.reports, s'.reports) && s'.clock == e.now
  {
    hide ListHandler, SubmitHandler, SetStatusHandler, RespondHandler, RateHandler, AssignHandler,
         RegisterHandler, LoginHandler, Inv, CacheOk;
    var t := s.(clock := e.now);
    ClockMoves(render, s, e.now);
    assert AllMove(s.reports, s.reports);
    match e.action
    case List(token, archived, storeTime) => ListOk(render, t, token, archived, e.now, storeTime);
    case Submit(token, details, inCity) => SubmitOk(render, t, token, details, inCity);
    case SetStatus(token, report, newStatus) => SetStatusOk(render, t, token, report, newStatus);
    case Respond(token, report, action) => RespondOk(render, t, token, report, action);
    case Rate(token, report, stars) => RateOk(render, t, token, report, stars);
    case Assign(token, report, operator) => AssignOk(render, t, token, report, operator);
    case Register(role, city, known) => RegisterOk(render, t, role, city, known);
    case Login(token, userId, accepted) => LoginOk(render, t, token, userId, accepted);
    case Logout(token) => LoginOk(render, t, token, 0, false);
  }

  // ----- Runs -----

  function Run(render: Render, s: State, es: seq<Event>): State
    decreases |es|
  {
    if es == [] then s
    else Run(render, Step(render, s, es[0]).0, es[1..])
  }

  /** The clock never runs back. */
  predicate Timely(clock: int, es: seq<Event>)
    decreases |es|
  {
    es == [] || (clock <= es[0].now && Timely(es[0].now, es[1..]))
  }

  lemma MovesAreForward(t: Table, t': Table)
    requires AllMove(t, t')
    ensures AllLater(t, t')
  {
  }

  lemma LaterTransitive(t0: Table, t1: Table, t2: Table)
    requires AllLater(t0, t1) && AllLater(t1, t2)
    ensures AllLater(t0, t2)
  {
  }

  /** In every run the invariant holds, and whatever became of a report it became by moving forward. */
  lemma {:induction false} RunOk(render: Render, s: State, es: seq<Event>)
    requires Inv(render, s) && Timely(s.clock, es)
    ensures var s' := Run(render, s, es);
            && Inv(render, s')
            && AllLater(s.reports, s'.reports)
            && s.clock <= s'.clock
    decreases |es|
  {
    hide Step, AllLater, AllMove;
    if es == [] {
      LaterReflexive(s.reports);
    } else {
      StepOk(render, s, es[0]);
      var s1 := Step(render, s, es[0]).0;
      MovesAreForward(s.reports, s1.reports);
      RunOk(render, s1, es[1..]);
      LaterTransitive(s.reports, s1.reports, Run(render, s1, es[1..]).reports);
    }
  }

  lemma LaterReflexive(t: Table)
    ensures AllLater(t, t)
  {
  }

  /** In every state a run reaches, a list request of a logged-in user is answered, from the cache or not, with
      exactly the JSON a fresh query would give, live cache entries have unique keys, and reports, authors and
      assignees agree on the city. */
  lemma CacheNeverStale(render: Render, es: seq<Event>, now: int, token: string, archived: bool, storeTime: int)
    requires Timely(INIT.clock, es)
    ensures var s := Run(render, INIT, es);
            && UniqueKeys(s.cache)
            && (forall id | id in s.reports :: Placed(s.users, s.reports[id]))
            && (s.clock <= now && token in s.sessions ==>
                  Step(render, s, Event(now, List(token, archived, storeTime))).1 ==
                  Ok(FreshJson(render, s.reports, s.nextReport,
                               Query(s.sessions[token].userId, s.sessions[token].user.role == Operator, archived))))
  {
    hide Run, FreshJson, ListHandler;
    InitInv(render);
    RunOk(render, INIT, es);
    var s := Run(render, INIT, es);
    if s.clock <= now {
      ClockMoves(render, s, now);
      ListOk(render, s.(clock := now), token, archived, now, storeTime);
    }
  }

  /** In every state a run reaches, the columns of every report agree with its status. */
  lemma ColumnsAgree(render: Render, es: seq<Event>, id: nat)
    requires Timely(INIT.clock, es)
    ensures var s := Run(render, INIT, es);
            id in s.reports ==> ColumnsOk(s.reports[id], s.clock)
  {
    hide Run;
    InitInv(render);
    RunOk(render, INIT, es);
  }

  const ASSIGNED := Row(2, "A", Details(0.0, 0.0, "c", "d"), 0, Assigned, Some(1), Some(0), None, None)
  const ASSIGNEE := Query(1, true, false)

  /** A report assigned to operator 1, whose list with it is cached. */
  ghost function Listed(render: Render, free: Cache): State {
    State(map[1 := User(Operator, "A"), 2 := User(Citizen, "A")], 3, map[1 := ASSIGNED], 2, map[],
          free[0 := Slot("A", ASSIGNEE, 1, FreshJson(render, map[1 := ASSIGNED], 2, ASSIGNEE))], 0)
  }

  /** With the raw UPDATE alone that list would be stale; the assignment that follows drops it. */
  lemma RawResetAloneIsStale(render: Render)
    ensures var s := Listed(render, INIT.cache);
            && Inv(render, s)
            && (render(ToReports([Found(1, s.reports[1])])) != render([]) ==> !Inv(render, RawReset(s, 1)))
  {
    var s := Listed(render, INIT.cache);
    var now := ResetRow(s.reports, 1).value;
    OneListed(ASSIGNEE, ASSIGNED);
    assert UniqueKeys(s.cache) && SlotOk(render, s.users, s.reports, 2, s.cache[0]);
    var r := RawReset(s, 1);
    NoneListed(ASSIGNEE, now);
    assert r.reports == map[1 := now];
    assert ToReports([]) == [];
    assert r.cache[0] == s.cache[0] && Live(r.cache[0]) && FreshJson(render, r.reports, 2, ASSIGNEE) == render([]);
  }

  lemma OneListed(q: Query, row: Row)
    requires Matches(q, row)
    ensures SortDescending(q, Select(map[1 := row], q, 2)) == [Found(1, row)]
  {
    assert Select(map[1 := row], q, 1) == [];
    assert InsertDescending(q, Found(1, row), []) == [Found(1, row)];
  }

  lemma NoneListed(q: Query, row: Row)
    requires !Matches(q, row)
    ensures SortDescending(q, Select(map[1 := row], q, 2)) == []
  {
    assert Select(map[1 := row], q, 1) == [];
  }
}
