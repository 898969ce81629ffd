/** The analytics page: the rows of a date range, the session statistics
    computed from them, the sessions bucketed by the day they started, and
    the two values of the pie chart. */
module Analytics {
  import opened Outcomes
  import opened Seqs
  import opened Sorting
  import opened Records
  import opened Query
  import opened Config
  import opened FilterPredicates
  import opened Grouping

  datatype Stats = Stats(totalSessions: nat, totalMessages: nat, positiveSessions: nat)

  /** A row lies in the selected range: on or after the start date when one
      is given, up to the end of the end date when one is given. */
  predicate InRange(dateFrom: string, dateTo: string, parse: DateParser, r: Row) {
    && (dateFrom != "" && parse(dateFrom).Some? ==> r.createdAt >= parse(dateFrom).value)
    && (dateTo != "" && parse(dateTo).Some? ==> r.createdAt <= EndOfDay(parse(dateTo).value))
  }

  /** Both dates are empty or parse. */
  predicate RangeParses(dateFrom: string, dateTo: string, parse: DateParser) {
    (dateFrom == "" || parse(dateFrom).Some?) && (dateTo == "" || parse(dateTo).Some?)
  }

  /** The range constraints of `fetchData`: `gte` at the start date when it
      is non-empty, `lte` at the end of the end date when it is non-empty.
      An unparsable date makes `toISOString` throw, the start date first. */
  function RangeConstraints(dateFrom: string, dateTo: string, parse: DateParser): (res: Result<seq<Constraint>, DateError>)
    ensures res.Ok? <==> RangeParses(dateFrom, dateTo, parse)
    ensures res.Err? ==> res.error == InvalidDate(if dateFrom != "" && parse(dateFrom).None? then dateFrom else dateTo)
    ensures res.Ok? ==> forall r :: HoldsAll(r, res.value) <==> InRange(dateFrom, dateTo, parse, r)
  {
    if dateFrom != "" && parse(dateFrom).None? then Err(InvalidDate(dateFrom))
    else if dateTo != "" && parse(dateTo).None? then Err(InvalidDate(dateTo))
    else
      var lo := if dateFrom != "" then [Gte(parse(dateFrom).value)] else [];
      var hi := if dateTo != "" then [Lte(EndOfDay(parse(dateTo).value))] else [];
      RangeMeaning(dateFrom, dateTo, parse, lo, hi);
      Ok(lo + hi)
  }

  lemma RangeMeaning(dateFrom: string, dateTo: string, parse: DateParser, lo: seq<Constraint>, hi: seq<Constraint>)
    requires RangeParses(dateFrom, dateTo, parse)
    requires lo == if dateFrom != "" then [Gte(parse(dateFrom).value)] else []
    requires hi == if dateTo != "" then [Lte(EndOfDay(parse(dateTo).value))] else []
    ensures forall r :: HoldsAll(r, lo + hi) <==> InRange(dateFrom, dateTo, parse, r)
  {
    forall r
      ensures HoldsAll(r, lo + hi) <==> InRange(dateFrom, dateTo, parse, r)
    {
      HoldsAllAppend(r, lo, hi);
      if dateFrom != "" {
        assert HoldsAll(r, lo) <==> Holds(r, lo[0]);
      }
      if dateTo != "" {
        assert HoldsAll(r, hi) <==> Holds(r, hi[0]);
      }
    }
  }

  /** The number of sessions in `order` whose group the classifier calls
      positive, counted one group at a time. */
  function CountPositive(groups: Groups, order: seq<string>, isPositive: seq<Row> -> bool): nat
    requires Elems(order) <= groups.Keys
  {
    if order == [] then 0
    else
      var p := order[..|order| - 1];
      assert forall x :: x in p ==> x in order;
      CountPositive(groups, p, isPositive) + (if isPositive(groups[order[|order| - 1]]) then 1 else 0)
  }

  /** The sessions of `rows` whose messages the classifier calls positive. */
  ghost function ClassifiedPositive(rows: seq<Row>, isPositive: seq<Row> -> bool): set<string> {
    set k | k in SessionSet(rows) && isPositive(OfKey(rows, SessionOf, k))
  }

  /** The sessions of `ids` whose group the classifier calls positive. */
  ghost function PositiveAmong(groups: Groups, ids: set<string>, isPositive: seq<Row> -> bool): set<string> {
    set k | k in ids && k in groups && isPositive(groups[k])
  }

  lemma PositiveAmongAdd(groups: Groups, ids: set<string>, x: string, isPositive: seq<Row> -> bool)
    requires x in groups && x !in ids
    ensures |PositiveAmong(groups, ids + {x}, isPositive)|
         == |PositiveAmong(groups, ids, isPositive)| + (if isPositive(groups[x]) then 1 else 0)
  {
    var before := PositiveAmong(groups, ids, isPositive);
    if isPositive(groups[x]) {
      assert PositiveAmong(groups, ids + {x}, isPositive) == before + {x};
    } else {
      assert PositiveAmong(groups, ids + {x}, isPositive) == before;
    }
  }

  /** Counting the positive groups one by one counts each positive session
      once. */
  lemma {:induction false} CountPositiveCard(groups: Groups, order: seq<string>, isPositive: seq<Row> -> bool)
    requires Elems(order) <= groups.Keys
    requires NoDups(order)
    ensures CountPositive(groups, order, isPositive) == |PositiveAmong(groups, Elems(order), isPositive)|
  {
    if order != [] {
      var p := order[..|order| - 1];
      var x := order[|order| - 1];
      NoDupsSnoc(order);
      assert Elems(order) == Elems(p) + {x} by {
        assert order == p + [x];
      }
      CountPositiveCard(groups, p, isPositive);
      PositiveAmongAdd(groups, Elems(p), x, isPositive);
    }
  }

  /** `fetchData`'s statistics: the groups' count, the row count, and the
      number of groups the classifier calls positive. */
  function ComputeStats(rows: seq<Row>, isPositive: seq<Row> -> bool): (st: Stats)
    ensures st.totalMessages == |rows|
    ensures st.totalSessions == |SessionSet(rows)|
    ensures st.positiveSessions == |ClassifiedPositive(rows, isPositive)|
    ensures st.positiveSessions <= st.totalSessions
  {
    StatsMeaning(rows, isPositive);
    Stats(|SessionOrder(rows)|, |rows|, CountPositive(Group(rows), SessionOrder(rows), isPositive))
  }

  lemma StatsMeaning(rows: seq<Row>, isPositive: seq<Row> -> bool)
    ensures Elems(SessionOrder(rows)) <= Group(rows).Keys
    ensures |SessionOrder(rows)| == |SessionSet(rows)|
    ensures CountPositive(Group(rows), SessionOrder(rows), isPositive) == |ClassifiedPositive(rows, isPositive)|
    ensures |ClassifiedPositive(rows, isPositive)| <= |SessionSet(rows)|
  {
    var groups := Group(rows);
    var order := SessionOrder(rows);
    SessionOrderFacts(rows);
    CountPositiveCard(groups, order, isPositive);
    PositiveAmongGroups(rows, isPositive);
    var all := SessionSet(rows);
    var pos := ClassifiedPositive(rows, isPositive);
    assert all == (all - pos) + pos;
    assert (all - pos) * pos == {};
  }

  /** The sessions in the order their keys were created. */
  function SessionOrder(rows: seq<Row>): seq<string> {
    Distinct(SessionIds(rows))
  }

  lemma SessionOrderFacts(rows: seq<Row>)
    ensures NoDups(SessionOrder(rows))
    ensures Elems(SessionOrder(rows)) == SessionSet(rows) == Group(rows).Keys
    ensures |SessionOrder(rows)| == |SessionSet(rows)|
  {
  }

  lemma PositiveAmongGroups(rows: seq<Row>, isPositive: seq<Row> -> bool)
    ensures PositiveAmong(Group(rows), SessionSet(rows), isPositive) == ClassifiedPositive(rows, isPositive)
    ensures ClassifiedPositive(rows, isPositive) <= SessionSet(rows)
  {
    var groups := Group(rows);
    forall k | k in SessionSet(rows)
      ensures groups[k] == OfKey(rows, SessionOf, k)
    {
    }
  }

  /** The two values of the pie chart: positive sessions and the rest. */
  function PieValues(st: Stats): (p: (int, int))
    ensures p.0 == st.positiveSessions
    ensures p.0 + p.1 == st.totalSessions
  {
    (st.positiveSessions, st.totalSessions - st.positiveSessions)
  }

  /** The pie's second slice counts exactly the sessions not classified as
      positive; in particular it is never negative. */
  lemma PieCountsTheRest(rows: seq<Row>, isPositive: seq<Row> -> bool)
    ensures var p := PieValues(ComputeStats(rows, isPositive));
      && p.1 >= 0
      && p.1 == |SessionSet(rows) - ClassifiedPositive(rows, isPositive)|
  {
    var all := SessionSet(rows);
    var pos := ClassifiedPositive(rows, isPositive);
    assert all == (all - pos) + pos;
    assert (all - pos) * pos == {};
  }

  /** The UTC calendar day of an instant, counted from the epoch:
      `new Date(t).toISOString().split('T')[0]`. */
  function Day(t: int): (d: int)
    ensures d * DayMs <= t < (d + 1) * DayMs
  {
    t / DayMs
  }

  /** The position of the first row of session `k`. */
  function FirstIndex(rows: seq<Row>, k: string): (i: nat)
    requires k in SessionSet(rows)
    ensures i < |rows| && rows[i].sessionId == k
    ensures forall j :: 0 <= j < i ==> rows[j].sessionId != k
  {
    if rows[0].sessionId == k then 0
    else
      assert k in SessionSet(rows[1..]) by {
        var x :| x in rows && x.sessionId == k;
        assert x in rows[1..] by {
          var a :| 0 <= a < |rows| && rows[a] == x;
          assert a != 0;
          assert rows[1..][a - 1] == x;
        }
      }
      var i := FirstIndex(rows[1..], k);
      assert forall j :: 1 <= j <= i ==> rows[j] == rows[1..][j - 1];
      1 + i
  }

  /** The day of a session: the day of its first row. */
  function FirstDay(rows: seq<Row>, k: string): int
    requires k in SessionSet(rows)
  {
    Day(rows[FirstIndex(rows, k)].createdAt)
  }

  /** A position holding the session's first row is `FirstIndex`. */
  lemma FirstIndexUnique(rows: seq<Row>, k: string, i: nat)
    requires i < |rows| && rows[i].sessionId == k
    requires forall j :: 0 <= j < i ==> rows[j].sessionId != k
    ensures k in SessionSet(rows)
    ensures FirstIndex(rows, k) == i
  {
    assert rows[i] in rows;
  }

  /** The session-day table as `sessionsByDay` builds it: one pass over the
      rows in order, recording the day of a session's row only when the
      session has no entry yet. */
  function FirstDays(rows: seq<Row>): (m: map<string, int>)
    ensures m.Keys == SessionSet(rows)
    ensures forall k :: k in m ==> m[k] == FirstDay(rows, k)
  {
    if rows == [] then map[]
    else
      var p := rows[..|rows| - 1];
      var x := rows[|rows| - 1];
      assert rows == p + [x];
      var m := FirstDays(p);
      var m' := if x.sessionId in m then m else m[x.sessionId := Day(x.createdAt)];
      FirstDaysStep(p, x, m, m');
      m'
  }

  lemma FirstDaysStep(p: seq<Row>, x: Row, m: map<string, int>, m': map<string, int>)
    requires m.Keys == SessionSet(p)
    requires forall k :: k in m ==> m[k] == FirstDay(p, k)
    requires m' == if x.sessionId in m then m else m[x.sessionId := Day(x.createdAt)]
    ensures m'.Keys == SessionSet(p + [x])
    ensures forall k :: k in m' ==> m'[k] == FirstDay(p + [x], k)
  {
    SessionSetSnoc(p, x);
    forall k | k in m'
      ensures m'[k] == FirstDay(p + [x], k)
    {
      if k in m {
        FirstDayKept(p, x, k);
      } else {
        FirstDayNew(p, x);
      }
    }
  }

  /** A later row does not move a session's first row. */
  lemma FirstDayKept(p: seq<Row>, x: Row, k: string)
    requires k in SessionSet(p)
    ensures k in SessionSet(p + [x]) && FirstDay(p + [x], k) == FirstDay(p, k)
  {
    var i := FirstIndex(p, k);
    assert (p + [x])[i] == p[i];
    assert forall j :: 0 <= j < i ==> (p + [x])[j] == p[j];
    FirstIndexUnique(p + [x], k, i);
  }

  /** The first row of a new session is the row that opens it. */
  lemma FirstDayNew(p: seq<Row>, x: Row)
    requires x.sessionId !in SessionSet(p)
    ensures x.sessionId in SessionSet(p + [x]) && FirstDay(p + [x], x.sessionId) == Day(x.createdAt)
  {
    var rows := p + [x];
    forall j | 0 <= j < |p|
      ensures rows[j].sessionId != x.sessionId
    {
      assert rows[j] == p[j] && p[j] in p;
    }
    FirstIndexUnique(rows, x.sessionId, |p|);
  }

  /** In rows ordered by creation time, a session's first row is its
      earliest, so its day is the day of its earliest message. */
  lemma FirstIsEarliest(rows: seq<Row>, k: string)
    requires SortedBy(rows, CreatedAt)
    requires k in SessionSet(rows)
    ensures forall x :: x in rows && x.sessionId == k ==> rows[FirstIndex(rows, k)].createdAt <= x.createdAt
    ensures forall x :: x in rows && x.sessionId == k ==> FirstDay(rows, k) <= Day(x.createdAt)
  {
    var f := FirstIndex(rows, k);
    forall x | x in rows && x.sessionId == k
      ensures rows[f].createdAt <= x.createdAt
    {
      var a :| 0 <= a < |rows| && rows[a] == x;
      assert f <= a;
      if f < a {
        assert CreatedAt(rows[f]) <= CreatedAt(rows[a]);
      }
    }
    forall x | x in rows && x.sessionId == k
      ensures FirstDay(rows, k) <= Day(x.createdAt)
    {
      DayMono(rows[f].createdAt, x.createdAt);
    }
  }

  lemma DayMono(s: int, t: int)
    requires s <= t
    ensures Day(s) <= Day(t)
  {
    assert Day(s) * DayMs <= s <= t < (Day(t) + 1) * DayMs;
  }

  datatype SessionDay = SessionDay(day: int, positive: bool)

  /** One entry per session: its day from the day table, and the classifier
      applied to its group of messages. */
  function SessionDays(rows: seq<Row>, isPositive: seq<Row> -> bool): (sd: seq<SessionDay>)
    ensures |sd| == |SessionOrder(rows)| == |SessionSet(rows)|
    ensures forall i :: 0 <= i < |sd| ==>
      var k := SessionOrder(rows)[i];
      k in SessionSet(rows) && sd[i] == SessionDay(FirstDay(rows, k), isPositive(OfKey(rows, SessionOf, k)))
  {
    var ids := SessionOrder(rows);
    var first := FirstDays(rows);
    var groups := Group(rows);
    SessionOrderFacts(rows);
    SessionEntries(rows, ids, first, groups);
    DayList(ids, first, groups, isPositive)
  }

  /** The entry of each listed session, from the two tables. */
  function DayList(ids: seq<string>, first: map<string, int>, groups: Groups, isPositive: seq<Row> -> bool)
    : (sd: seq<SessionDay>)
    requires forall i :: 0 <= i < |ids| ==> ids[i] in first && ids[i] in groups
    ensures |sd| == |ids|
    ensures forall i :: 0 <= i < |ids| ==> sd[i] == SessionDay(first[ids[i]], isPositive(groups[ids[i]]))
  {
    seq(|ids|, i requires 0 <= i < |ids| => SessionDay(first[ids[i]], isPositive(groups[ids[i]])))
  }

  lemma SessionEntries(rows: seq<Row>, ids: seq<string>, first: map<string, int>, groups: Groups)
    requires Elems(ids) == SessionSet(rows)
    requires first == FirstDays(rows) && groups == Group(rows)
    ensures forall i :: 0 <= i < |ids| ==>
      && ids[i] in SessionSet(rows) && ids[i] in first && ids[i] in groups
      && first[ids[i]] == FirstDay(rows, ids[i])
      && groups[ids[i]] == OfKey(rows, SessionOf, ids[i])
  {
    forall i | 0 <= i < |ids|
      ensures ids[i] in SessionSet(rows)
    {
      assert ids[i] in Elems(ids);
    }
  }

  datatype DayBucket = DayBucket(day: int, positive: nat, negative: nat)

  function DayOf(b: DayBucket): int {
    b.day
  }

  function BucketPositive(b: DayBucket): int {
    b.positive
  }

  function BucketTotal(b: DayBucket): int {
    b.positive + b.negative
  }

  function Days(bs: seq<DayBucket>): (ds: seq<int>)
    ensures |ds| == |bs|
    ensures forall i :: 0 <= i < |bs| ==> ds[i] == bs[i].day
  {
    seq(|bs|, i requires 0 <= i < |bs| => bs[i].day)
  }

  function Bump(b: DayBucket, positive: bool): DayBucket {
    if positive then b.(positive := b.positive + 1) else b.(negative := b.negative + 1)
  }

  function NewBucket(s: SessionDay): DayBucket {
    DayBucket(s.day, if s.positive then 1 else 0, if s.positive then 0 else 1)
  }

  /** Counts one session into its day's bucket, creating the bucket at the
      end when the day has none yet. */
  function AddSession(buckets: seq<DayBucket>, s: SessionDay): (r: seq<DayBucket>)
    ensures NoDups(Days(buckets)) && s.day in Days(buckets) ==>
      |r| == |buckets| && forall i :: 0 <= i < |r| ==>
        r[i] == if buckets[i].day == s.day then Bump(buckets[i], s.positive) else buckets[i]
    ensures s.day !in Days(buckets) ==> r == buckets + [NewBucket(s)]
  {
    if buckets == [] then [NewBucket(s)]
    else if buckets[0].day == s.day then
      assert NoDups(Days(buckets)) ==> forall i :: 1 <= i < |buckets| ==> buckets[i].day != s.day by {
        if NoDups(Days(buckets)) {
          forall i | 1 <= i < |buckets|
            ensures buckets[i].day != s.day
          {
            assert Days(buckets)[0] != Days(buckets)[i];
          }
        }
      }
      [Bump(buckets[0], s.positive)] + buckets[1..]
    else
      var rest := buckets[1..];
      assert Days(rest) == Days(buckets)[1..];
      assert NoDups(Days(buckets)) ==> NoDups(Days(rest));
      assert s.day in Days(buckets) ==> s.day in Days(rest);
      [buckets[0]] + AddSession(rest, s)
  }

  /** Counting one session adds one to the total and, when the session is
      positive, one to the positive count. */
  lemma {:induction false} AddSessionSums(buckets: seq<DayBucket>, s: SessionDay)
    ensures SumOf(AddSession(buckets, s), BucketTotal) == SumOf(buckets, BucketTotal) + 1
    ensures SumOf(AddSession(buckets, s), BucketPositive)
         == SumOf(buckets, BucketPositive) + (if s.positive then 1 else 0)
  {
    if buckets != [] && buckets[0].day != s.day {
      AddSessionSums(buckets[1..], s);
      var r := AddSession(buckets, s);
      assert r[1..] == AddSession(buckets[1..], s);
    }
  }

  /** The sessions of `sd` with day `d` and classification `positive`. */
  function CountOn(sd: seq<SessionDay>, d: int, positive: bool): nat {
    if sd == [] then 0
    else
      var x := sd[|sd| - 1];
      CountOn(sd[..|sd| - 1], d, positive) + (if x.day == d && x.positive == positive then 1 else 0)
  }

  function PositiveCount(sd: seq<SessionDay>): nat {
    if sd == [] then 0
    else PositiveCount(sd[..|sd| - 1]) + (if sd[|sd| - 1].positive then 1 else 0)
  }

  lemma {:induction false} CountOnAbsent(sd: seq<SessionDay>, d: int, positive: bool)
    requires forall x :: x in sd ==> x.day != d
    ensures CountOn(sd, d, positive) == 0
  {
    if sd != [] {
      assert forall x :: x in sd[..|sd| - 1] ==> x in sd;
      assert sd[|sd| - 1] in sd;
      CountOnAbsent(sd[..|sd| - 1], d, positive);
    }
  }

  /** The days the sessions of `sd` fall on. */
  function SessionDaySet(sd: seq<SessionDay>): set<int> {
    set x | x in sd :: x.day
  }

  /** `dailyData`: the buckets in the order their days first occur. Each
      day of a session has exactly one bucket, and a bucket counts the
      positive and the other sessions of its day. */
  function Tally(sd: seq<SessionDay>): (r: seq<DayBucket>)
    ensures NoDups(Days(r))
    ensures Elems(Days(r)) == SessionDaySet(sd)
    ensures forall i :: 0 <= i < |r| ==>
      r[i].positive == CountOn(sd, r[i].day, true) && r[i].negative == CountOn(sd, r[i].day, false)
    ensures SumOf(r, BucketTotal) == |sd|
    ensures SumOf(r, BucketPositive) == PositiveCount(sd)
  {
    if sd == [] then []
    else
      var q := sd[..|sd| - 1];
      var x := sd[|sd| - 1];
      assert sd == q + [x];
      var b := Tally(q);
      AddSessionSums(b, x);
      TallyStep(q, x, b, sd, AddSession(b, x));
      AddSession(b, x)
  }

  lemma TallyStep(q: seq<SessionDay>, x: SessionDay, b: seq<DayBucket>, sd: seq<SessionDay>, r: seq<DayBucket>)
    requires NoDups(Days(b))
    requires Elems(Days(b)) == SessionDaySet(q)
    requires forall i :: 0 <= i < |b| ==>
      b[i].positive == CountOn(q, b[i].day, true) && b[i].negative == CountOn(q, b[i].day, false)
    requires sd == q + [x] && r == AddSession(b, x)
    ensures NoDups(Days(r))
    ensures Elems(Days(r)) == SessionDaySet(sd)
    ensures forall i :: 0 <= i < |r| ==>
      r[i].positive == CountOn(sd, r[i].day, true) && r[i].negative == CountOn(sd, r[i].day, false)
  {
    assert SessionDaySet(sd) == SessionDaySet(q) + {x.day};
    if x.day in Days(b) {
      TallyBump(q, x, b, r);
    } else {
      TallyNew(q, x, b, r);
    }
  }

  /** Counting one more session adds one to its own day and class only. */
  lemma CountOnSnoc(q: seq<SessionDay>, x: SessionDay, d: int, positive: bool)
    ensures CountOn(q + [x], d, positive) == CountOn(q, d, positive) + (if x.day == d && x.positive == positive then 1 else 0)
  {
    assert (q + [x])[..|q + [x]| - 1] == q;
  }

  /** A session on a day that already has a bucket bumps that bucket. */
  lemma TallyBump(q: seq<SessionDay>, x: SessionDay, b: seq<DayBucket>, r: seq<DayBucket>)
    requires NoDups(Days(b)) && x.day in Days(b)
    requires forall i :: 0 <= i < |b| ==>
      b[i].positive == CountOn(q, b[i].day, true) && b[i].negative == CountOn(q, b[i].day, false)
    requires r == AddSession(b, x)
    ensures Days(r) == Days(b)
    ensures forall i :: 0 <= i < |r| ==>
      r[i].positive == CountOn(q + [x], r[i].day, true) && r[i].negative == CountOn(q + [x], r[i].day, false)
  {
    forall i | 0 <= i < |r|
      ensures r[i].day == b[i].day
      ensures r[i].positive == CountOn(q + [x], r[i].day, true)
      ensures r[i].negative == CountOn(q + [x], r[i].day, false)
    {
      CountOnSnoc(q, x, b[i].day, true);
      CountOnSnoc(q, x, b[i].day, false);
    }
  }

  /** A session on a day without a bucket opens one at the end. */
  lemma TallyNew(q: seq<SessionDay>, x: SessionDay, b: seq<DayBucket>, r: seq<DayBucket>)
    requires NoDups(Days(b)) && x.day !in Days(b)
    requires Elems(Days(b)) == SessionDaySet(q)
    requires forall i :: 0 <= i < |b| ==>
      b[i].positive == CountOn(q, b[i].day, true) && b[i].negative == CountOn(q, b[i].day, false)
    requires r == b + [NewBucket(x)]
    ensures NoDups(Days(r))
    ensures Elems(Days(r)) == Elems(Days(b)) + {x.day}
    ensures forall i :: 0 <= i < |r| ==>
      r[i].positive == CountOn(q + [x], r[i].day, true) && r[i].negative == CountOn(q + [x], r[i].day, false)
  {
    assert Days(r) == Days(b) + [x.day];
    forall y | y in q
      ensures y.day != x.day
    {
      assert y.day in SessionDaySet(q);
    }
    CountOnAbsent(q, x.day, true);
    CountOnAbsent(q, x.day, false);
    forall i | 0 <= i < |r|
      ensures r[i].positive == CountOn(q + [x], r[i].day, true)
      ensures r[i].negative == CountOn(q + [x], r[i].day, false)
    {
      CountOnSnoc(q, x, r[i].day, true);
      CountOnSnoc(q, x, r[i].day, false);
      if i < |b| {
        assert r[i] == b[i] && Days(b)[i] == b[i].day;
      }
    }
    forall i, j | 0 <= i < j < |r|
      ensures Days(r)[i] != Days(r)[j]
    {
      assert Days(r)[i] == Days(b)[i];
      if j < |b| {
        assert Days(r)[j] == Days(b)[j];
      }
    }
  }

  /** `sessionsByDay`: nothing for no rows; otherwise the buckets ordered by
      day. Days strictly increase, every session's day has a bucket, each
      bucket counts its day's positive and other sessions, and the buckets
      add up to the number of sessions and of positive sessions. */
  function SessionsByDay(rows: seq<Row>, isPositive: seq<Row> -> bool): (r: seq<DayBucket>)
    ensures forall i, j :: 0 <= i < j < |r| ==> r[i].day < r[j].day
    ensures Elems(Days(r)) == SessionDaySet(SessionDays(rows, isPositive))
    ensures forall i :: 0 <= i < |r| ==>
      && r[i].positive == CountOn(SessionDays(rows, isPositive), r[i].day, true)
      && r[i].negative == CountOn(SessionDays(rows, isPositive), r[i].day, false)
    ensures SumOf(r, BucketTotal) == |SessionSet(rows)|
    ensures SumOf(r, BucketPositive) == PositiveCount(SessionDays(rows, isPositive))
  {
    if rows == [] then
      assert SessionDays(rows, isPositive) == [];
      []
    else
      var sd := SessionDays(rows, isPositive);
      ByDayMeaning(sd);
      SortBy(Tally(sd), DayOf)
  }

  lemma ByDayMeaning(sd: seq<SessionDay>)
    ensures var r := SortBy(Tally(sd), DayOf);
      && (forall i, j :: 0 <= i < j < |r| ==> r[i].day < r[j].day)
      && Elems(Days(r)) == SessionDaySet(sd)
      && (forall i :: 0 <= i < |r| ==>
           r[i].positive == CountOn(sd, r[i].day, true) && r[i].negative == CountOn(sd, r[i].day, false))
      && SumOf(r, BucketTotal) == |sd|
      && SumOf(r, BucketPositive) == PositiveCount(sd)
  {
    var t := Tally(sd);
    var r := SortBy(t, DayOf);
    SortedDaysIncrease(t, r);
    SumOfPermutation(t, r, BucketTotal);
    SumOfPermutation(t, r, BucketPositive);
    forall i | 0 <= i < |r|
      ensures r[i].positive == CountOn(sd, r[i].day, true) && r[i].negative == CountOn(sd, r[i].day, false)
    {
      assert r[i] in t;
    }
  }

  /** Sorting buckets with distinct days makes the days strictly increase,
      and keeps the buckets and their days. */
  lemma SortedDaysIncrease(t: seq<DayBucket>, r: seq<DayBucket>)
    requires NoDups(Days(t))
    requires SortedBy(r, DayOf) && multiset(r) == multiset(t)
    ensures forall i, j :: 0 <= i < j < |r| ==> r[i].day < r[j].day
    ensures Elems(Days(r)) == Elems(Days(t))
    ensures forall x :: x in r <==> x in t
  {
    forall x
      ensures x in r <==> x in t
    {
      assert x in r <==> x in multiset(r);
      assert x in t <==> x in multiset(t);
    }
    assert NoDups(t) by {
      forall i, j | 0 <= i < j < |t|
        ensures t[i] != t[j]
      {
        assert Days(t)[i] != Days(t)[j];
      }
    }
    NoDupsPermutation(t, r);
    forall i, j | 0 <= i < j < |r|
      ensures r[i].day < r[j].day
    {
      assert DayOf(r[i]) <= DayOf(r[j]);
      SameDaySameBucket(t, r[i], r[j]);
    }
    forall d
      ensures d in Elems(Days(r)) <==> d in Elems(Days(t))
    {
      if d in Elems(Days(r)) {
        var i :| 0 <= i < |r| && Days(r)[i] == d;
        assert r[i] in t;
        var a :| 0 <= a < |t| && t[a] == r[i];
        assert Days(t)[a] == d;
      }
      if d in Elems(Days(t)) {
        var a :| 0 <= a < |t| && Days(t)[a] == d;
        assert t[a] in r;
        var i :| 0 <= i < |r| && r[i] == t[a];
        assert Days(r)[i] == d;
      }
    }
  }

  /** Buckets with distinct days are told apart by their day. */
  lemma SameDaySameBucket(t: seq<DayBucket>, x: DayBucket, y: DayBucket)
    requires NoDups(Days(t))
    requires x in t && y in t
    ensures x.day == y.day ==> x == y
  {
    var a :| 0 <= a < |t| && t[a] == x;
    var b :| 0 <= b < |t| && t[b] == y;
    assert Days(t)[a] == x.day && Days(t)[b] == y.day;
  }

  lemma {:induction false} PositiveCountMatches(groups: Groups, ids: seq<string>, sd: seq<SessionDay>, isPositive: seq<Row> -> bool)
    requires Elems(ids) <= groups.Keys
    requires |sd| == |ids|
    requires forall i :: 0 <= i < |ids| ==> sd[i].positive == isPositive(groups[ids[i]])
    ensures PositiveCount(sd) == CountPositive(groups, ids, isPositive)
  {
    if ids != [] {
      var p := ids[..|ids| - 1];
      assert forall x :: x in p ==> x in ids;
      assert forall i :: 0 <= i < |p| ==> p[i] == ids[i];
      PositiveCountMatches(groups, p, sd[..|sd| - 1], isPositive);
    }
  }

  /** The chart agrees with the stat cards: the daily buckets add up to the
      page's session count and its positive-session count. */
  lemma DailyTotalsMatchStats(rows: seq<Row>, isPositive: seq<Row> -> bool)
    ensures SumOf(SessionsByDay(rows, isPositive), BucketTotal) == ComputeStats(rows, isPositive).totalSessions
    ensures SumOf(SessionsByDay(rows, isPositive), BucketPositive) == ComputeStats(rows, isPositive).positiveSessions
  {
    var ids := SessionOrder(rows);
    var sd := SessionDays(rows, isPositive);
    var groups := Group(rows);
    forall i | 0 <= i < |ids|
      ensures ids[i] in groups && sd[i].positive == isPositive(groups[ids[i]])
    {
      assert ids[i] in Elems(ids);
    }
    PositiveCountMatches(groups, ids, sd, isPositive);
  }

  datatype Load = Idle | Failed(error: DateError) | Loaded(rows: seq<Row>, stats: Stats)

  /** `fetchData`: nothing without a table; the rows of the range in
      ascending creation order and their statistics otherwise. An
      unparsable date throws before any query is sent. */
  function FetchData(config: Option<TableConfig>, table: seq<Row>, dateFrom: string, dateTo: string, parse: DateParser): (l: Load)
    ensures l.Idle? <==> config.None?
    ensures l.Failed? <==> config.Some? && !RangeParses(dateFrom, dateTo, parse)
    ensures l.Loaded? ==> SortedBy(l.rows, CreatedAt)
    ensures l.Loaded? ==> forall r :: r in l.rows <==> r in table && InRange(dateFrom, dateTo, parse, r)
    ensures l.Loaded? ==> forall r :: multiset(l.rows)[r] == if InRange(dateFrom, dateTo, parse, r) then multiset(table)[r] else 0
    ensures l.Loaded? ==> l.stats.totalMessages == |l.rows|
    ensures l.Loaded? ==> l.stats.totalSessions == |SessionSet(l.rows)|
    ensures l.Loaded? ==> l.stats.positiveSessions == |ClassifiedPositive(l.rows, config.value.analysis.isPositive)|
  {
    match config
    case None => Idle
    case Some(c) =>
      match RangeConstraints(dateFrom, dateTo, parse)
      case Err(e) => Failed(e)
      case Ok(cs) =>
        var rows := SortBy(Select(table, cs), CreatedAt);
        assert forall r :: r in rows <==> r in multiset(rows);
        assert forall r :: r in Select(table, cs) <==> r in multiset(Select(table, cs));
        Loaded(rows, ComputeStats(rows, c.analysis.isPositive))
  }

  /** On loaded rows each session's day is the day of its earliest message. */
  lemma LoadedDaysAreEarliest(config: Option<TableConfig>, table: seq<Row>, dateFrom: string, dateTo: string, parse: DateParser, k: string)
    requires FetchData(config, table, dateFrom, dateTo, parse).Loaded?
    requires k in SessionSet(FetchData(config, table, dateFrom, dateTo, parse).rows)
    ensures var rows := FetchData(config, table, dateFrom, dateTo, parse).rows;
      forall x :: x in rows && x.sessionId == k ==> FirstDay(rows, k) <= Day(x.createdAt)
  {
    FirstIsEarliest(FetchData(config, table, dateFrom, dateTo, parse).rows, k);
  }
}
