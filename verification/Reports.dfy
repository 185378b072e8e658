/** The rows of the database, the guarded updates made to them, and the queries that list them. */
module Reports {
  import opened Options

  const CITY_LEN := 32
  const CAT_LEN := 16
  const DESC_LEN := 128

  /** At most n characters of s. */
  function Clip(s: string, n: nat): (r: string)
    ensures |s| <= n ==> r == s
  {
    if |s| <= n then s else s[..n]
  }

  /** strncmp over CITY_LEN characters. */
  predicate SameCity(a: string, b: string) {
    Clip(a, CITY_LEN) == Clip(b, CITY_LEN)
  }

  datatype Role = Citizen | Operator | Admin

  datatype User = User(role: Role, city: string)

  datatype Status = Active | Assigned | InProgress | Resolved

  /** Where a report is and what it says; never changed after it is filed. */
  datatype Details = Details(lat: real, lon: real, category: string, description: string)

  /** A row of the reports table; None is SQL's NULL. */
  datatype Row = Row(author: nat, city: string, details: Details, createdAt: int, status: Status,
                     assignedTo: Option<nat>, assignedAt: Option<int>, resolvedAt: Option<int>, feedback: Option<int>)

  type Table = map<nat, Row>

  // ----- Guarded updates: None when no row meets the guard -----

  function NewRow(author: nat, city: string, details: Details, now: int): Row {
    Row(author, city, details, now, Active, None, None, None, None)
  }

  function AssignRow(t: Table, id: nat, operator: nat, now: int): Option<Row> {
    if id in t && t[id].status == Active && t[id].assignedTo == None then
      Some(t[id].(status := Assigned, assignedTo := Some(operator), assignedAt := Some(now)))
    else None
  }

  function AcceptRow(t: Table, id: nat, operator: nat): Option<Row> {
    if id in t && t[id].assignedTo == Some(operator) && t[id].status == Assigned then
      Some(t[id].(status := InProgress))
    else None
  }

  function RejectRow(t: Table, id: nat, operator: nat): Option<Row> {
    if id in t && t[id].assignedTo == Some(operator) && t[id].status == Assigned then
      Some(t[id].(status := Active, assignedTo := None, assignedAt := None))
    else None
  }

  function ResolveRow(t: Table, id: nat, operator: nat, now: int): Option<Row> {
    if id in t && t[id].assignedTo == Some(operator) && t[id].status == InProgress then
      Some(t[id].(status := Resolved, resolvedAt := Some(now)))
    else None
  }

  function FeedbackRow(t: Table, id: nat, author: nat, stars: int): Option<Row> {
    if id in t && t[id].author == author && t[id].status == Resolved && t[id].feedback == None then
      Some(t[id].(feedback := Some(stars)))
    else None
  }

  /** The administrator's reset before a forced reassignment. */
  function ResetRow(t: Table, id: nat): Option<Row> {
    if id in t && t[id].status == Assigned then
      Some(t[id].(status := Active, assignedTo := None, assignedAt := None))
    else None
  }

  // ----- Queries -----

  /** The four lists: active or archived, of an operator or of an author. */
  datatype Query = Query(userId: nat, isOperator: bool, isArchived: bool)

  predicate Matches(q: Query, r: Row) {
    && (if q.isOperator then r.assignedTo == Some(q.userId) else r.author == q.userId)
    && (if q.isArchived then r.status == Resolved
        else if q.isOperator then r.status == Assigned || r.status == InProgress
        else r.status != Resolved)
  }

  function SortKey(q: Query, r: Row): Option<int> {
    if q.isArchived then r.resolvedAt else if q.isOperator then r.assignedAt else Some(r.createdAt)
  }

  /** NULL sorts below everything. */
  predicate AtLeast(a: Option<int>, b: Option<int>) {
    b.None? || (a.Some? && a.value >= b.value)
  }

  datatype Found = Found(id: nat, row: Row)

  /** The matching rows with ids below n, by id. */
  function Select(t: Table, q: Query, n: nat): seq<Found> {
    if n == 0 then []
    else Select(t, q, n - 1) + if n - 1 in t && Matches(q, t[n - 1]) then [Found(n - 1, t[n - 1])] else []
  }

  function InsertDescending(q: Query, x: Found, xs: seq<Found>): seq<Found> {
    if xs == [] || AtLeast(SortKey(q, x.row), SortKey(q, xs[0].row)) then [x] + xs
    else [xs[0]] + InsertDescending(q, x, xs[1..])
  }

  /** ORDER BY the key, descending; equal keys by id. */
  function SortDescending(q: Query, xs: seq<Found>): seq<Found> {
    if xs == [] then [] else InsertDescending(q, xs[0], SortDescending(q, xs[1..]))
  }

  /** The C struct a row is read into: NULLs become zeros, texts are cut to their buffers. */
  datatype Report = Report(id: nat, author: nat, assignedTo: nat, details: Details, city: string, status: Status,
                           createdAt: int, assignedAt: int, resolvedAt: int, feedback: int)

  function IntOrZero(x: Option<int>): int {
    if x.Some? then x.value else 0
  }

  function ToReport(f: Found): Report {
    var r := f.row;
    var d := r.details;
    Report(f.id, r.author, if r.assignedTo.Some? then r.assignedTo.value else 0,
           Details(d.lat, d.lon, Clip(d.category, CAT_LEN - 1), Clip(d.description, DESC_LEN - 1)),
           Clip(r.city, CITY_LEN - 1), r.status,
           r.createdAt, IntOrZero(r.assignedAt), IntOrZero(r.resolvedAt), IntOrZero(r.feedback))
  }

  function ToReports(fs: seq<Found>): seq<Report> {
    seq(|fs|, i requires 0 <= i < |fs| => ToReport(fs[i]))
  }

  /** The JSON text of a list of reports; empty when it does not fit the response buffer. */
  type Render = seq<Report> -> string

  /** The structs a query fills, in order. */
  function Listing(t: Table, n: nat, q: Query): seq<Report> {
    ToReports(SortDescending(q, Select(t, q, n)))
  }

  /** What the database answers right now. */
  function FreshJson(render: Render, t: Table, n: nat, q: Query): string {
    render(Listing(t, n, q))
  }

  // ----- What a query depends on -----

  /** The rows below n that match q are the same in both tables. */
  ghost predicate SameMatches(q: Query, t: Table, t': Table, n: nat) {
    forall id | 0 <= id < n ::
      (id in t && Matches(q, t[id]) <==> id in t' && Matches(q, t'[id])) &&
      (id in t && id in t' && Matches(q, t[id]) ==> t[id] == t'[id])
  }

  lemma {:induction false} SelectDepends(q: Query, t: Table, t': Table, n: nat)
    requires SameMatches(q, t, t', n)
    ensures Select(t, q, n) == Select(t', q, n)
  {
    if n > 0 { SelectDepends(q, t, t', n - 1); }
  }

  /** A change to one row that matches a query neither before nor after leaves its answer alone. */
  lemma ChangeElsewhere(render: Render, q: Query, t: Table, n: nat, id: nat, r: Row)
    requires id in t && !Matches(q, t[id]) && !Matches(q, r)
    ensures FreshJson(render, t[id := r], n, q) == FreshJson(render, t, n, q)
  {
    SelectDepends(q, t, t[id := r], n);
  }

  lemma InsertElsewhere(render: Render, q: Query, t: Table, n: nat, r: Row)
    requires n !in t && !Matches(q, r)
    ensures FreshJson(render, t[n := r], n + 1, q) == FreshJson(render, t, n, q)
  {
    SelectDepends(q, t, t[n := r], n);
    assert Select(t[n := r], q, n + 1) == Select(t[n := r], q, n) + [] == Select(t, q, n);
  }

  // ----- What a query returns -----

  ghost predicate Descending(q: Query, xs: seq<Found>) {
    forall i, j | 0 <= i < j < |xs| :: AtLeast(SortKey(q, xs[i].row), SortKey(q, xs[j].row))
  }

  lemma {:induction false} InsertAdds(q: Query, x: Found, xs: seq<Found>)
    ensures multiset(InsertDescending(q, x, xs)) == multiset{x} + multiset(xs)
    decreases |xs|
  {
    hide AtLeast, SortKey;
    if xs != [] {
      assert xs == [xs[0]] + xs[1..];
      InsertAdds(q, x, xs[1..]);
    }
  }

  /** Everything in xs, and x, comes after y. */
  ghost predicate AllAfter(q: Query, y: Found, xs: seq<Found>) {
    forall j | 0 <= j < |xs| :: AtLeast(SortKey(q, y.row), SortKey(q, xs[j].row))
  }

  lemma {:induction false} InsertAfter(q: Query, y: Found, x: Found, xs: seq<Found>)
    requires AllAfter(q, y, xs) && AtLeast(SortKey(q, y.row), SortKey(q, x.row))
    ensures AllAfter(q, y, InsertDescending(q, x, xs))
    decreases |xs|
  {
    hide AtLeast, SortKey;
    if xs != [] {
      assert AllAfter(q, y, xs[1..]);
      InsertAfter(q, y, x, xs[1..]);
    }
  }

  lemma {:induction false} InsertSorts(q: Query, x: Found, xs: seq<Found>)
    requires Descending(q, xs)
    ensures Descending(q, InsertDescending(q, x, xs))
    decreases |xs|
  {
    hide SortKey;
    if xs != [] {
      var y := xs[0];
      if AtLeast(SortKey(q, x.row), SortKey(q, y.row)) {
        assert AllAfter(q, x, xs);
      } else {
        assert AllAfter(q, y, xs[1..]);
        InsertSorts(q, x, xs[1..]);
        InsertAfter(q, y, x, xs[1..]);
      }
    }
  }

  /** The sort loses and invents nothing, and puts the newest first. */
  lemma {:induction false} SortSorts(q: Query, xs: seq<Found>)
    ensures Descending(q, SortDescending(q, xs)) && multiset(SortDescending(q, xs)) == multiset(xs)
    decreases |xs|
  {
    if xs != [] {
      SortSorts(q, xs[1..]);
      InsertSorts(q, xs[0], SortDescending(q, xs[1..]));
      InsertAdds(q, xs[0], SortDescending(q, xs[1..]));
      assert xs == [xs[0]] + xs[1..];
    }
  }

  lemma {:induction false} SelectExact(t: Table, q: Query, n: nat, f: Found)
    ensures f in Select(t, q, n) <==> f.id < n && f.id in t && t[f.id] == f.row && Matches(q, f.row)
  {
    if n > 0 { SelectExact(t, q, n - 1, f); }
  }

  /** A query lists exactly the matching rows of the table. */
  lemma QueryExact(t: Table, q: Query, n: nat, f: Found)
    ensures f in SortDescending(q, Select(t, q, n)) <==>
            f.id < n && f.id in t && t[f.id] == f.row && Matches(q, f.row)
  {
    SelectExact(t, q, n, f);
    SortSorts(q, Select(t, q, n));
    var xs, ys := Select(t, q, n), SortDescending(q, Select(t, q, n));
    assert f in ys <==> f in multiset(ys);
    assert f in xs <==> f in multiset(xs);
  }

  lemma OneMore<T>(s: seq<T>, x: T, f: T)
    ensures multiset(s + [x])[f] == multiset(s)[f] + if x == f then 1 else 0
    ensures f !in s ==> multiset(s)[f] == 0
  {
    assert f !in s ==> f !in multiset(s);
  }

  lemma SelectStep(t: Table, q: Query, n: nat)
    ensures Select(t, q, 0) == []
    ensures Select(t, q, n + 1) ==
            if n in t && Matches(q, t[n]) then Select(t, q, n) + [Found(n, t[n])] else Select(t, q, n)
  {
  }

  lemma {:induction false} SelectOnce(t: Table, q: Query, n: nat, f: Found)
    ensures multiset(Select(t, q, n))[f] <= 1
  {
    hide Matches, Select;
    if n == 0 {
      SelectStep(t, q, 0);
    } else {
      var k := n - 1;
      SelectOnce(t, q, k, f);
      SelectStep(t, q, k);
      SelectExact(t, q, k, f);
      if k in t && Matches(q, t[k]) { OneMore(Select(t, q, k), Found(k, t[k]), f); }
    }
  }

  lemma Twice<T>(s: seq<T>, i: nat, j: nat)
    requires i < j < |s| && s[i] == s[j]
    ensures multiset(s)[s[i]] >= 2
  {
    assert s == s[..j] + [s[j]] + s[j + 1..];
    assert s[..j][i] in multiset(s[..j]);
  }

  /** No row is listed twice. */
  lemma ListedOnce(t: Table, q: Query, n: nat, i: nat, j: nat)
    requires i < j < |SortDescending(q, Select(t, q, n))|
    ensures var ys := SortDescending(q, Select(t, q, n)); ys[i].id != ys[j].id
  {
    hide SortDescending, Select, Matches, Descending;
    var ys := SortDescending(q, Select(t, q, n));
    QueryExact(t, q, n, ys[i]);
    QueryExact(t, q, n, ys[j]);
    if ys[i].id == ys[j].id {
      SortSorts(q, Select(t, q, n));
      SelectOnce(t, q, n, ys[i]);
      Twice(ys, i, j);
      assert false;
    }
  }
}
