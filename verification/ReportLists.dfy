/** What the lists hold, column by column, in every state a run reaches. */
module ReportLists {
  import opened Options
  import opened Reports
  import opened ReportCache
  import opened ReportHandlers

  /** As much of a text as a buffer of `size` characters takes, its NUL included. */
  ghost predicate StartOf(x: string, full: string, size: nat) {
    x <= full && |x| < size && (x == full || |x| == size - 1)
  }

  /** The struct carries the columns of the row; a number that is NULL is read as 0. */
  ghost predicate Carries(x: Report, r: Row) {
    && x.author == r.author && x.city == r.city && x.status == r.status && x.createdAt == r.createdAt
    && x.details.lat == r.details.lat && x.details.lon == r.details.lon
    && StartOf(x.details.category, r.details.category, CAT_LEN)
    && StartOf(x.details.description, r.details.description, DESC_LEN)
    && (r.assignedTo == Some(x.assignedTo) || (r.assignedTo == None && x.assignedTo == 0))
    && (r.assignedAt == Some(x.assignedAt) || (r.assignedAt == None && x.assignedAt == 0))
    && (r.resolvedAt == Some(x.resolvedAt) || (r.resolvedAt == None && x.resolvedAt == 0))
    && (r.feedback == Some(x.feedback) || (r.feedback == None && x.feedback == 0))
  }

  ghost predicate Holds(xs: seq<Report>, id: nat) {
    exists k | 0 <= k < |xs| :: xs[k].id == id
  }

  /** Newest first: by the time of resolution, of assignment, or of filing. */
  ghost predicate NewestFirst(isOperator: bool, archived: bool, x: Report, y: Report) {
    if archived then x.resolvedAt >= y.resolvedAt
    else if isOperator then x.assignedAt >= y.assignedAt
    else x.createdAt >= y.createdAt
  }

  /** The archived list holds exactly the resolved reports of an author, or of the operator they are assigned to, the
      active list exactly those not resolved; each once, with its columns, newest first. */
  ghost predicate ListRight(t: Table, user: nat, isOperator: bool, archived: bool, xs: seq<Report>) {
    && (forall id | id in t ::
          Holds(xs, id) <==>
          (if isOperator then t[id].assignedTo == Some(user) else t[id].author == user)
          && (archived <==> t[id].status == Resolved))
    && (forall k | 0 <= k < |xs| :: xs[k].id in t && Carries(xs[k], t[xs[k].id]))
    && (forall i, j | 0 <= i < j < |xs| :: xs[i].id != xs[j].id && NewestFirst(isOperator, archived, xs[i], xs[j]))
  }

  lemma RowCarried(f: Found)
    requires |f.row.city| < CITY_LEN
    ensures Carries(ToReport(f), f.row) && ToReport(f).id == f.id
  {
  }

  lemma KeysInOrder(q: Query, f: Found, g: Found, clock: int)
    requires ColumnsOk(f.row, clock) && ColumnsOk(g.row, clock) && Matches(q, f.row) && Matches(q, g.row)
    requires AtLeast(SortKey(q, f.row), SortKey(q, g.row))
    ensures NewestFirst(q.isOperator, q.isArchived, ToReport(f), ToReport(g))
  {
  }

  lemma ListedRow(s: State, q: Query, k: nat)
    requires RowsOk(s) && k < |Listing(s.reports, s.nextReport, q)|
    ensures var x := Listing(s.reports, s.nextReport, q)[k];
            var f := SortDescending(q, Select(s.reports, q, s.nextReport))[k];
            && x == ToReport(f) && x.id == f.id && x.id in s.reports && s.reports[x.id] == f.row
            && Matches(q, f.row) && Carries(x, f.row)
  {
    hide Select, SortDescending, Matches, Carries, ColumnsOk, Placed;
    var f := SortDescending(q, Select(s.reports, q, s.nextReport))[k];
    QueryExact(s.reports, q, s.nextReport, f);
    RowCarried(f);
  }

  lemma HeldRow(s: State, q: Query, id: nat)
    requires RowsOk(s) && id in s.reports
    ensures Holds(Listing(s.reports, s.nextReport, q), id) <==> Matches(q, s.reports[id])
  {
    hide Select, SortDescending, Matches, Carries, ColumnsOk, Placed;
    var ys := SortDescending(q, Select(s.reports, q, s.nextReport));
    var f := Found(id, s.reports[id]);
    QueryExact(s.reports, q, s.nextReport, f);
    if Matches(q, s.reports[id]) {
      var k :| 0 <= k < |ys| && ys[k] == f;
      assert Listing(s.reports, s.nextReport, q)[k].id == id;
    }
    if Holds(Listing(s.reports, s.nextReport, q), id) {
      var k :| 0 <= k < |ys| && Listing(s.reports, s.nextReport, q)[k].id == id;
      ListedRow(s, q, k);
    }
  }

  /** A status decides in which of the two lists a report is. */
  lemma MatchesColumns(q: Query, r: Row, clock: int)
    requires ColumnsOk(r, clock)
    ensures Matches(q, r) <==>
            (if q.isOperator then r.assignedTo == Some(q.userId) else r.author == q.userId)
            && (q.isArchived <==> r.status == Resolved)
  {
  }

  lemma ListingRight(s: State, q: Query)
    requires RowsOk(s)
    ensures ListRight(s.reports, q.userId, q.isOperator, q.isArchived, Listing(s.reports, s.nextReport, q))
  {
    hide Select, SortDescending, Matches, Carries, ColumnsOk, Placed, NewestFirst, Holds, Listing;
    var xs := Listing(s.reports, s.nextReport, q);
    forall id | id in s.reports
      ensures Holds(xs, id) <==>
              (if q.isOperator then s.reports[id].assignedTo == Some(q.userId) else s.reports[id].author == q.userId)
              && (q.isArchived <==> s.reports[id].status == Resolved)
    {
      HeldRow(s, q, id);
      MatchesColumns(q, s.reports[id], s.clock);
    }
    forall k | 0 <= k < |xs| ensures xs[k].id in s.reports && Carries(xs[k], s.reports[xs[k].id]) {
      ListedRow(s, q, k);
    }
    forall i, j | 0 <= i < j < |xs|
      ensures xs[i].id != xs[j].id && NewestFirst(q.isOperator, q.isArchived, xs[i], xs[j])
    {
      TwoListed(s, q, i, j);
    }
  }

  lemma TwoListed(s: State, q: Query, i: nat, j: nat)
    requires RowsOk(s) && i < j < |Listing(s.reports, s.nextReport, q)|
    ensures var xs := Listing(s.reports, s.nextReport, q);
            xs[i].id != xs[j].id && NewestFirst(q.isOperator, q.isArchived, xs[i], xs[j])
  {
    hide Select, SortDescending, Matches, Carries, ColumnsOk, Placed, NewestFirst, AtLeast, SortKey, ToReport;
    var ys := SortDescending(q, Select(s.reports, q, s.nextReport));
    ListedRow(s, q, i);
    ListedRow(s, q, j);
    ListedOnce(s.reports, q, s.nextReport, i, j);
    SortSorts(q, Select(s.reports, q, s.nextReport));
    KeysInOrder(q, ys[i], ys[j], s.clock);
  }

  /** In every state a run reaches, a logged-in user who asks for a list is answered with the JSON of exactly the
      reports that belong there, whether it comes from the cache or not. */
  lemma ListAnswer(render: Render, es: seq<Event>, now: int, token: string, archived: bool, storeTime: int)
    returns (xs: seq<Report>)
    requires Timely(INIT.clock, es) && Run(render, INIT, es).clock <= now && token in Run(render, INIT, es).sessions
    ensures var s := Run(render, INIT, es);
            var user := s.sessions[token].userId;
            && user in s.users
            && ListRight(s.reports, user, s.users[user].role == Operator, archived, xs)
            && Step(render, s, Event(now, List(token, archived, storeTime))).1 == Reply(200, render(xs))
  {
    hide Run, Listing, Step, ListRight, CacheOk, RowsOk;
    var s := Run(render, INIT, es);
    InitInv(render);
    RunOk(render, INIT, es);
    var q := Query(s.sessions[token].userId, s.sessions[token].user.role == Operator, archived);
    xs := Listing(s.reports, s.nextReport, q);
    CacheNeverStale(render, es, now, token, archived, storeTime);
    ListingRight(s, q);
  }

  /** In every state a run reaches, each report is in exactly one of its author's two lists and in exactly one of its
      assignee's, the archived one if and only if it is resolved, and in nobody else's. */
  lemma OneListEach(render: Render, es: seq<Event>, id: nat, user: nat)
    requires Timely(INIT.clock, es) && id in Run(render, INIT, es).reports
    ensures var s := Run(render, INIT, es);
            var r := s.reports[id];
            var own, ownOld := Listing(s.reports, s.nextReport, Query(user, false, false)),
                               Listing(s.reports, s.nextReport, Query(user, false, true));
            var work, workOld := Listing(s.reports, s.nextReport, Query(user, true, false)),
                                 Listing(s.reports, s.nextReport, Query(user, true, true));
            && (r.author == user ==> (Holds(ownOld, id) <==> r.status == Resolved) && (Holds(own, id) <==> !Holds(ownOld, id)))
            && (r.author != user ==> !Holds(own, id) && !Holds(ownOld, id))
            && (r.assignedTo == Some(user) ==>
                  (Holds(workOld, id) <==> r.status == Resolved) && (Holds(work, id) <==> !Holds(workOld, id)))
            && (r.assignedTo != Some(user) ==> !Holds(work, id) && !Holds(workOld, id))
  {
    hide Run, Listing, CacheOk, RowsOk, Holds, Carries, NewestFirst;
    var s := Run(render, INIT, es);
    InitInv(render);
    RunOk(render, INIT, es);
    ListingRight(s, Query(user, false, false));
    ListingRight(s, Query(user, false, true));
    ListingRight(s, Query(user, true, false));
    ListingRight(s, Query(user, true, true));
  }
}
