/**
 What each handler answers and what it leaves behind, in columns: when the answer is 200, what the one row
 concerned then is, and that nothing else has changed.
 */
module ReportOutcomes {
  import opened Options
  import opened Reports
  import opened ReportCache
  import opened ReportHandlers

  /** The token belongs to a user with this role. */
  ghost predicate As(s: State, token: string, role: Role) {
    && token in s.sessions
    && s.sessions[token].userId in s.users
    && s.users[s.sessions[token].userId].role == role
  }

  /** The user behind a token. */
  ghost function Who(s: State, token: string): nat {
    if token in s.sessions then s.sessions[token].userId else 0
  }

  /** The report exists. */
  ghost predicate Filed(s: State, report: Option<nat>) {
    report.Some? && report.value in s.reports
  }

  /** The report lies in the city of the user. */
  ghost predicate InCityOf(s: State, token: string, report: Option<nat>) {
    && Filed(s, report) && Who(s, token) in s.users
    && s.reports[report.value].city == s.users[Who(s, token)].city
  }

  /** The report has this status and is assigned to the user. */
  ghost predicate Has(s: State, token: string, report: Option<nat>, status: Status) {
    && Filed(s, report)
    && s.reports[report.value].status == status && s.reports[report.value].assignedTo == Some(Who(s, token))
  }

  /** One row is replaced; users, sessions and all other rows stay. */
  ghost predicate OnlyRow(s: State, s': State, now: int, id: nat, r: Row) {
    s' == s.(clock := now, reports := s.reports[id := r], cache := s'.cache)
  }

  ghost predicate Refused(s: State, s': State, now: int, reply: Reply) {
    s' == s.(clock := now) && reply.status != 200 && reply.body == ""
  }

  lemma SessionIs(render: Render, s: State, token: string, role: Role)
    requires Inv(render, s)
    ensures As(s, token, role) <==> token in s.sessions && s.sessions[token].user.role == role
  {
    hide CacheOk, RowsOk;
  }

  lemma CityIs(render: Render, s: State, token: string, id: nat)
    requires Inv(render, s) && token in s.sessions
    ensures CheckReport(s, s.sessions[token].user, id) ==
            if id !in s.reports then 404 else if !InCityOf(s, token, Some(id)) then 403 else 200
  {
    hide CacheOk, ColumnsOk, Placed;
  }

  /** A report is rated by its author once it is resolved, once only, with one to five stars. */
  lemma RateOutcome(render: Render, s: State, now: int, token: string, report: Option<nat>, stars: Option<int>)
    requires Inv(render, s)
    ensures var (s', reply) := Step(render, s, Event(now, Rate(token, report, stars)));
            var given := report.Some? && stars.Some? && 1 <= stars.value <= 5;
            && (reply.status == 403 <==> !As(s, token, Citizen))
            && (reply.status == 400 <==> As(s, token, Citizen) && !given)
            && (reply.status == 200 <==>
                  && As(s, token, Citizen) && given && Filed(s, report)
                  && s.reports[report.value].author == Who(s, token)
                  && s.reports[report.value].status == Resolved && s.reports[report.value].feedback == None)
            && (reply.status == 200 ==>
                  && reply.body == "{\"ok\":true}"
                  && OnlyRow(s, s', now, report.value, s.reports[report.value].(feedback := Some(stars.value))))
            && (reply.status in {400, 403, 409} || reply.status == 200)
            && (reply.status != 200 ==> Refused(s, s', now, reply))
  {
    SessionIs(render, s, token, Citizen);
    hide Inv, Invalidate;
  }

  /** An operator resolves a report of his city that he is at work on. */
  lemma SetStatusOutcome(render: Render, s: State, now: int, token: string, report: Option<nat>, status: Option<int>)
    requires Inv(render, s)
    ensures var (s', reply) := Step(render, s, Event(now, SetStatus(token, report, status)));
            var asked := As(s, token, Operator) && report.Some? && status.Some?;
            && (reply.status == 200 <==>
                  asked && InCityOf(s, token, report) && status.value == 3 && Has(s, token, report, InProgress))
            && (reply.status == 200 ==>
                  && reply.body == "{\"ok\":true}"
                  && OnlyRow(s, s', now, report.value, s.reports[report.value].(status := Resolved, resolvedAt := Some(now))))
            && (reply.status == 404 <==> asked && !Filed(s, report))
            && (reply.status == 400 <==>
                  || (As(s, token, Operator) && !asked) || (asked && InCityOf(s, token, report) && status.value != 3))
            && (reply.status in {400, 403, 404} || reply.status == 200)
            && (reply.status != 200 ==> Refused(s, s', now, reply))
  {
    SessionIs(render, s, token, Operator);
    if token in s.sessions && report.Some? { CityIs(render, s, token, report.value); }
    hide Inv, Invalidate, CheckReport, InCityOf;
  }

  /** The first six letters decide. */
  ghost predicate Says(action: string, word: string) {
    |action| >= |word| && action[..|word|] == word
  }

  /** An operator takes up a report assigned to him, or gives it back. */
  lemma RespondOutcome(render: Render, s: State, now: int, token: string, report: Option<nat>, action: string)
    requires Inv(render, s)
    ensures var (s', reply) := Step(render, s, Event(now, Respond(token, report, action)));
            var asked := As(s, token, Operator) && report.Some? && (Says(action, "accept") || Says(action, "reject"));
            && (reply.status == 200 <==> asked && InCityOf(s, token, report) && Has(s, token, report, Assigned))
            && (reply.status == 200 ==>
                  && reply.body == "{\"ok\":true}"
                  && (Says(action, "accept") ==>
                        OnlyRow(s, s', now, report.value, s.reports[report.value].(status := InProgress)))
                  && (Says(action, "reject") ==>
                        OnlyRow(s, s', now, report.value,
                                s.reports[report.value].(status := Active, assignedTo := None, assignedAt := None))))
            && (reply.status == 404 <==> asked && !Filed(s, report))
            && (reply.status == 400 <==> As(s, token, Operator) && !asked)
            && (reply.status == 409 <==> asked && InCityOf(s, token, report) && !Has(s, token, report, Assigned))
            && (reply.status in {400, 403, 404, 409} || reply.status == 200)
            && (reply.status != 200 ==> Refused(s, s', now, reply))
  {
    SessionIs(render, s, token, Operator);
    if token in s.sessions && report.Some? { CityIs(render, s, token, report.value); }
    Words(action);
    hide Inv, Invalidate, CheckReport, InCityOf, StartsWith, Says;
  }

  lemma Words(action: string)
    ensures StartsWith(action, "accept") == Says(action, "accept") && StartsWith(action, "reject") == Says(action, "reject")
    ensures !(Says(action, "accept") && Says(action, "reject"))
    ensures Says(action, "accept") || Says(action, "reject") ==> action != ""
  {
    if Says(action, "accept") { assert action[..6][0] == 'a'; }
    if Says(action, "reject") { assert action[..6][0] == 'r'; }
  }

  /** An administrator gives a report of his city that nobody is at work on to an operator of that city. */
  lemma AssignOutcome(render: Render, s: State, now: int, token: string, report: Option<nat>, operator: Option<nat>)
    requires Inv(render, s)
    ensures var (s', reply) := Step(render, s, Event(now, Assign(token, report, operator)));
            var asked := As(s, token, Admin) && report.Some? && operator.Some?;
            var able := asked && operator.value in s.users && s.users[operator.value].role == Operator
                        && s.users[operator.value].city == s.users[Who(s, token)].city;
            && (reply.status == 200 <==>
                  && able && InCityOf(s, token, report)
                  && (s.reports[report.value].status == Active || s.reports[report.value].status == Assigned))
            && (reply.status == 200 ==>
                  && reply.body == "{\"ok\":true}"
                  && OnlyRow(s, s', now, report.value,
                             s.reports[report.value].(status := Assigned, assignedTo := Some(operator.value), assignedAt := Some(now))))
            && (reply.status == 404 <==> asked && !Filed(s, report))
            && (reply.status == 400 <==> (As(s, token, Admin) && !asked) || (asked && InCityOf(s, token, report) && !able))
            && (reply.status == 409 <==>
                  && able && InCityOf(s, token, report)
                  && (s.reports[report.value].status == InProgress || s.reports[report.value].status == Resolved))
            && (reply.status in {400, 403, 404, 409} || reply.status == 200)
            && (reply.status != 200 ==> Refused(s, s', now, reply))
  {
    SessionIs(render, s, token, Admin);
    if token in s.sessions && report.Some? {
      CityIs(render, s, token, report.value);
      if operator.Some? { OperatorIs(render, s, token, operator.value); }
      if report.value in s.reports { AssignedRow(render, s, report.value, if operator.Some? then operator.value else 0, now); }
    }
    hide Inv, CheckReport, InCityOf, OperatorOk, ReportAssign, RawReset;
  }

  lemma OperatorIs(render: Render, s: State, token: string, operator: nat)
    requires Inv(render, s) && token in s.sessions
    ensures OperatorOk(s, s.sessions[token].user, operator) <==>
            && operator in s.users && s.users[operator].role == Operator
            && s.users[operator].city == s.users[Who(s, token)].city
  {
    hide CacheOk, RowsOk;
  }

  /** The first attempt succeeds for an active row, the one after the reset for an assigned one. */
  lemma AssignedRow(render: Render, s: State, id: nat, operator: nat, now: int)
    requires Inv(render, s) && id in s.reports
    ensures var r := s.reports[id].(status := Assigned, assignedTo := Some(operator), assignedAt := Some(now));
            var t := s.(clock := now);
            var first, second := ReportAssign(t, id, operator, now), ReportAssign(RawReset(t, id), id, operator, now);
            && (first.1 != 0 <==> s.reports[id].status == Active)
            && (first.1 != 0 ==> OnlyRow(s, first.0, now, id, r))
            && (s.reports[id].status == Assigned ==> second.1 != 0 && OnlyRow(s, second.0, now, id, r))
  {
    hide CacheOk, Invalidate, Placed;
    var t := s.(clock := now);
    assert ColumnsOk(s.reports[id], s.clock);
    if s.reports[id].status == Assigned {
      var r := s.reports[id].(status := Assigned, assignedTo := Some(operator), assignedAt := Some(now));
      assert RawReset(t, id).reports[id := r] == s.reports[id := r];
    }
  }

  /** A citizen files a report inside his city: a new active row under the next number. */
  lemma SubmitOutcome(render: Render, s: State, now: int, token: string, details: Details, inCity: bool)
    requires Inv(render, s)
    ensures var (s', reply) := Step(render, s, Event(now, Submit(token, details, inCity)));
            var filed := As(s, token, Citizen) && details.description != "" && inCity;
            var n := s.nextReport;
            && (!filed ==> s' == s.(clock := now))
            && (filed ==>
                  && n !in s.reports && n in s'.reports
                  && s' == s.(clock := now, reports := s.reports[n := s'.reports[n]], nextReport := n + 1, cache := s'.cache)
                  && var r := s'.reports[n];
                     && r.author == Who(s, token) && r.city == s.users[Who(s, token)].city && r.details == details
                     && r.createdAt == now && r.status == Active
                     && r.assignedTo == r.assignedAt == r.resolvedAt == r.feedback == None)
            && (reply.status == 200 <==> As(s, token, Citizen) && !filed)
            && (reply.status == 302 || reply.status == 200)
  {
    SessionIs(render, s, token, Citizen);
    hide CacheOk, Invalidate, ColumnsOk, Placed;
  }

  /** A login binds the token to the user as stored, a logout unbinds it; no other token is touched. */
  lemma SessionOutcome(render: Render, s: State, now: int, token: string, userId: nat, accepted: bool)
    requires Inv(render, s)
    ensures var (s', reply) := Step(render, s, Event(now, Login(token, userId, accepted)));
            && (reply.status == 302 <==> accepted && userId in s.users)
            && (reply.status != 302 ==> s' == s.(clock := now))
            && (reply.status == 302 ==>
                  s' == s.(clock := now, sessions := s.sessions[token := Session(userId, s.users[userId])]))
    ensures var s' := Step(render, s, Event(now, Logout(token))).0;
            s' == s.(clock := now, sessions := s'.sessions) && token !in s'.sessions
            && forall k | k != token :: (k in s'.sessions <==> k in s.sessions) && (k in s.sessions ==> s'.sessions[k] == s.sessions[k])
  {
    hide CacheOk, RowsOk;
  }

  /** A registration adds one user under the next number; a city has at most one administrator that registers. */
  lemma RegisterOutcome(render: Render, s: State, now: int, role: Role, city: string, known: bool)
    requires Inv(render, s)
    ensures var (s', reply) := Step(render, s, Event(now, Register(role, city, known)));
            var n := s.nextUser;
            var c := if |city| < CITY_LEN then city else city[..CITY_LEN - 1];
            && (reply.status == 302 <==>
                  city != "" && known && (role == Admin ==> User(Admin, c) !in s.users.Values))
            && (reply.status != 302 ==> s' == s.(clock := now))
            && (reply.status == 302 ==>
                  n !in s.users && s' == s.(clock := now, users := s.users[n := User(role, c)], nextUser := n + 1))
  {
    hide CacheOk, RowsOk;
  }
}
