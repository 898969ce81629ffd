/** The dashboard: every row of the table newest first, grouped by session;
    the five most recently active sessions; and the stat cards of the
    table's configuration. */
module Dashboard {
  import opened Outcomes
  import opened Seqs
  import opened Sorting
  import opened Records
  import opened Config
  import opened Grouping
  import opened Analytics

  /** The screen's state: whether the fetch is still running, the fetched
      rows and their session groups. */
  datatype State = State(loading: bool, data: seq<Row>, sessions: Groups)

  const Initial := State(true, [], map[])

  /** `fetchData`: all rows ordered by `created_at` descending (ties keep
      table order), grouped by session in that order. */
  function Load(table: seq<Row>): (s: State)
    ensures !s.loading
    ensures SortedBy(s.data, Recency) && multiset(s.data) == multiset(table)
    ensures s.sessions.Keys == SessionSet(table)
    ensures forall k :: k in s.sessions ==> s.sessions[k] == OfKey(s.data, SessionOf, k)
  {
    var data := SortBy(table, Recency);
    assert SessionSet(data) == SessionSet(table) by {
      assert forall r :: r in data <==> r in multiset(data);
      assert forall r :: r in table <==> r in multiset(table);
    }
    State(false, data, Group(data))
  }

  /** A row of the recent-sessions list. */
  datatype Summary = Summary(sessionId: string, messageCount: nat, lastMessageAt: int)

  function SummaryRecency(s: Summary): int {
    -s.lastMessageAt
  }

  /** `ss` holds one summary per session of `rows`, in key order, each with
      its session's row count and the creation time of one of its rows. */
  predicate Summarises(rows: seq<Row>, ss: seq<Summary>) {
    && |ss| == |SessionOrder(rows)| == |SessionSet(rows)|
    && (forall i :: 0 <= i < |ss| ==> ss[i].sessionId == SessionOrder(rows)[i])
    && (forall i :: 0 <= i < |ss| ==>
         ss[i].sessionId in SessionSet(rows) && ss[i].messageCount == |OfKey(rows, SessionOf, ss[i].sessionId)|)
    && (forall i :: 0 <= i < |ss| ==>
         exists r :: r in rows && r.sessionId == ss[i].sessionId && r.createdAt == ss[i].lastMessageAt)
  }

  /** One summary per group, in key order: the group's size and the
      creation time of its first row. */
  function Summaries(rows: seq<Row>): (ss: seq<Summary>)
    ensures |ss| == |SessionSet(rows)|
    ensures Summarises(rows, ss)
  {
    var ids := SessionOrder(rows);
    var g := Group(rows);
    SessionOrderFacts(rows);
    SummaryEntries(rows, ids, g);
    var ss := SummaryList(ids, g);
    SummaryListFacts(rows, ids, g, ss);
    ss
  }

  function SummaryList(ids: seq<string>, g: Groups): (ss: seq<Summary>)
    requires forall i :: 0 <= i < |ids| ==> ids[i] in g && g[ids[i]] != []
    ensures |ss| == |ids|
    ensures forall i :: 0 <= i < |ids| ==> ss[i] == Summary(ids[i], |g[ids[i]]|, g[ids[i]][0].createdAt)
  {
    seq(|ids|, i requires 0 <= i < |ids| => Summary(ids[i], |g[ids[i]]|, g[ids[i]][0].createdAt))
  }

  /** What each entry of the summary list says about the rows. */
  lemma SummaryListFacts(rows: seq<Row>, ids: seq<string>, g: Groups, ss: seq<Summary>)
    requires ids == SessionOrder(rows) && |ids| == |SessionSet(rows)| && |ss| == |ids|
    requires forall i :: 0 <= i < |ids| ==>
      && ids[i] in SessionSet(rows) && ids[i] in g
      && g[ids[i]] == OfKey(rows, SessionOf, ids[i])
      && g[ids[i]] != []
      && g[ids[i]][0] in rows && g[ids[i]][0].sessionId == ids[i]
    requires forall i :: 0 <= i < |ids| ==> ss[i] == Summary(ids[i], |g[ids[i]]|, g[ids[i]][0].createdAt)
    ensures Summarises(rows, ss)
  {
    forall i | 0 <= i < |ss|
      ensures ss[i].sessionId == ids[i] && ss[i].sessionId in SessionSet(rows)
      ensures ss[i].messageCount == |OfKey(rows, SessionOf, ss[i].sessionId)|
      ensures exists r :: r in rows && r.sessionId == ss[i].sessionId && r.createdAt == ss[i].lastMessageAt
    {
      var r := g[ids[i]][0];
      assert r in rows && r.sessionId == ss[i].sessionId && r.createdAt == ss[i].lastMessageAt;
    }
  }

  lemma SummaryEntries(rows: seq<Row>, ids: seq<string>, g: Groups)
    requires Elems(ids) == SessionSet(rows) && g == Group(rows)
    ensures forall i :: 0 <= i < |ids| ==>
      && ids[i] in SessionSet(rows) && ids[i] in g
      && g[ids[i]] == OfKey(rows, SessionOf, ids[i])
      && g[ids[i]] != []
      && g[ids[i]][0] in rows && g[ids[i]][0].sessionId == ids[i]
  {
    forall i | 0 <= i < |ids|
      ensures ids[i] in SessionSet(rows) && ids[i] in g && g[ids[i]] != []
      ensures g[ids[i]][0] in rows && g[ids[i]][0].sessionId == ids[i]
    {
      assert ids[i] in Elems(ids);
      GroupsNonEmpty(rows, ids[i]);
      assert g[ids[i]][0] in g[ids[i]];
    }
  }

  /** With rows newest first, a group's first row is its newest, so a
      summary's time is its session's last activity. */
  lemma SummaryIsLastActivity(rows: seq<Row>, i: nat)
    requires SortedBy(rows, Recency)
    requires i < |Summaries(rows)|
    ensures forall r :: r in rows && r.sessionId == Summaries(rows)[i].sessionId ==>
      r.createdAt <= Summaries(rows)[i].lastMessageAt
  {
    var s := Summaries(rows)[i];
    var k := s.sessionId;
    var ids := SessionOrder(rows);
    var g := Group(rows);
    SessionOrderFacts(rows);
    SummaryEntries(rows, ids, g);
    OfKeySortedFirst(rows, k);
  }

  /** In a sequence sorted newest first, the first row of a key's run is
      the newest row with that key. */
  lemma OfKeySortedFirst(rows: seq<Row>, k: string)
    requires SortedBy(rows, Recency)
    requires OfKey(rows, SessionOf, k) != []
    ensures forall r :: r in rows && r.sessionId == k ==> r.createdAt <= OfKey(rows, SessionOf, k)[0].createdAt
  {
    var q := OfKey(rows, SessionOf, k);
    OfKeySorted(rows, Recency, k);
    forall r | r in rows && r.sessionId == k
      ensures r.createdAt <= q[0].createdAt
    {
      assert r in q;
      var j :| 0 <= j < |q| && q[j] == r;
      if j > 0 {
        assert Recency(q[0]) <= Recency(q[j]);
      }
    }
  }

  function Take<T>(s: seq<T>, n: nat): (r: seq<T>)
    ensures |r| == if |s| <= n then |s| else n
    ensures r == s[..|r|]
  {
    if |s| <= n then s else s[..n]
  }

  /** `recentSessions`: the summaries sorted by last activity, newest first
      (ties keep key order), cut to five. */
  function RecentSessions(rows: seq<Row>): (recent: seq<Summary>)
    ensures |recent| == if |SessionSet(rows)| <= 5 then |SessionSet(rows)| else 5
  {
    var all := Summaries(rows);
    var sorted := SortBy(all, SummaryRecency);
    RecentLength(rows, all, sorted, Take(sorted, 5));
    Take(sorted, 5)
  }

  /** The recent list names distinct sessions, newest first, each with its
      own summary, and no session left out is more recent than one shown. */
  lemma RecentMeaning(rows: seq<Row>)
    ensures var recent := RecentSessions(rows);
      && (forall i, j :: 0 <= i < j < |recent| ==> recent[i].sessionId != recent[j].sessionId)
      && (forall i, j :: 0 <= i < j < |recent| ==> recent[i].lastMessageAt >= recent[j].lastMessageAt)
      && (forall s :: s in recent ==> s in Summaries(rows))
      && (forall s, t :: s in Summaries(rows) && s !in recent && t in recent ==> s.lastMessageAt <= t.lastMessageAt)
  {
    var all := Summaries(rows);
    var sorted := SortBy(all, SummaryRecency);
    var recent := Take(sorted, 5);
    RecentDistinct(rows, all, sorted, recent);
    RecentChosen(all, sorted, recent);
  }

  lemma RecentLength(rows: seq<Row>, all: seq<Summary>, sorted: seq<Summary>, recent: seq<Summary>)
    requires all == Summaries(rows)
    requires sorted == SortBy(all, SummaryRecency)
    requires recent == Take(sorted, 5)
    ensures |recent| == if |SessionSet(rows)| <= 5 then |SessionSet(rows)| else 5
  {
  }

  /** The five are in order, come from the list, and beat every summary
      left out. */
  lemma RecentChosen(all: seq<Summary>, sorted: seq<Summary>, recent: seq<Summary>)
    requires sorted == SortBy(all, SummaryRecency)
    requires recent == Take(sorted, 5)
    ensures forall i, j :: 0 <= i < j < |recent| ==> recent[i].lastMessageAt >= recent[j].lastMessageAt
    ensures forall s :: s in recent ==> s in all
    ensures forall s, t :: s in all && s !in recent && t in recent ==> s.lastMessageAt <= t.lastMessageAt
  {
    SameMembers(all, sorted);
    TakeNewest(sorted, 5);
  }

  lemma RecentDistinct(rows: seq<Row>, all: seq<Summary>, sorted: seq<Summary>, recent: seq<Summary>)
    requires all == Summaries(rows)
    requires multiset(sorted) == multiset(all)
    requires recent == Take(sorted, 5)
    ensures forall i, j :: 0 <= i < j < |recent| ==> recent[i].sessionId != recent[j].sessionId
  {
    SameMembers(all, sorted);
    SummariesDistinct(rows);
    NoDupsPermutation(all, sorted);
    forall i, j | 0 <= i < j < |recent|
      ensures recent[i].sessionId != recent[j].sessionId
    {
      assert recent[i] == sorted[i] && recent[j] == sorted[j];
      SummaryIdsDistinct(rows, recent[i], recent[j]);
    }
  }

  lemma SameMembers(all: seq<Summary>, sorted: seq<Summary>)
    requires multiset(sorted) == multiset(all)
    ensures forall s :: s in sorted <==> s in all
  {
    assert forall s :: s in sorted <==> s in multiset(sorted);
    assert forall s :: s in all <==> s in multiset(all);
  }

  /** The summaries are told apart by their session. */
  lemma SummariesDistinct(rows: seq<Row>)
    ensures NoDups(Summaries(rows))
  {
    var all := Summaries(rows);
    SessionOrderFacts(rows);
    forall i, j | 0 <= i < j < |all|
      ensures all[i] != all[j]
    {
      assert all[i].sessionId == SessionOrder(rows)[i];
      assert all[j].sessionId == SessionOrder(rows)[j];
    }
  }

  /** The first `n` of a list sorted newest first are in order and are at
      least as recent as every element left out. */
  lemma TakeNewest(sorted: seq<Summary>, n: nat)
    requires SortedBy(sorted, SummaryRecency)
    ensures var recent := Take(sorted, n);
      && (forall i, j :: 0 <= i < j < |recent| ==> recent[i].lastMessageAt >= recent[j].lastMessageAt)
      && (forall s :: s in recent ==> s in sorted)
      && (forall s, t :: s in sorted && s !in recent && t in recent ==> s.lastMessageAt <= t.lastMessageAt)
  {
    var recent := Take(sorted, n);
    forall i, j | 0 <= i < j < |recent|
      ensures recent[i].lastMessageAt >= recent[j].lastMessageAt
    {
      assert recent[i] == sorted[i] && recent[j] == sorted[j];
      assert SummaryRecency(sorted[i]) <= SummaryRecency(sorted[j]);
    }
    forall s, t | s in sorted && s !in recent && t in recent
      ensures s.lastMessageAt <= t.lastMessageAt
    {
      var a :| 0 <= a < |sorted| && sorted[a] == s;
      var b :| 0 <= b < |recent| && recent[b] == t;
      assert a >= |recent|;
      assert sorted[b] == t;
      assert SummaryRecency(sorted[b]) <= SummaryRecency(sorted[a]);
    }
  }

  /** Two summaries of the same rows with the same session are the same
      summary. */
  lemma SummaryIdsDistinct(rows: seq<Row>, s: Summary, t: Summary)
    requires s in Summaries(rows) && t in Summaries(rows)
    ensures s.sessionId == t.sessionId ==> s == t
  {
    var all := Summaries(rows);
    var a :| 0 <= a < |all| && all[a] == s;
    var b :| 0 <= b < |all| && all[b] == t;
    SessionOrderFacts(rows);
    assert s.sessionId == SessionOrder(rows)[a] && t.sessionId == SessionOrder(rows)[b];
  }

  /** What a stat card shows: a number, an instant, or "N/A". */
  datatype CardValue = Number(n: int) | Instant(t: int) | NotAvailable

  /** The stat getters of the shipped configuration. */
  function StatValue(stat: StatId, data: seq<Row>, sessions: Groups): CardValue {
    match stat
    case TotalMessages => Number(|data|)
    case TotalSessions => Number(|sessions.Keys|)
    case LastMessage => if |data| > 0 then Instant(data[0].createdAt) else NotAvailable
  }

  /** `statCards`: nothing without a table; zero on every card while
      loading; each configured getter's value otherwise. */
  function StatCards(config: Option<TableConfig>, s: State): (cards: seq<CardValue>)
    ensures config.None? ==> cards == []
    ensures config.Some? ==> |cards| == |config.value.stats|
    ensures config.Some? && s.loading ==> forall i :: 0 <= i < |cards| ==> cards[i] == Number(0)
    ensures config.Some? && !s.loading ==> forall i :: 0 <= i < |cards| ==>
      cards[i] == StatValue(config.value.stats[i], s.data, s.sessions)
  {
    match config
    case None => []
    case Some(c) =>
      seq(|c.stats|, i requires 0 <= i < |c.stats| =>
        if s.loading then Number(0) else StatValue(c.stats[i], s.data, s.sessions))
  }

  /** Once loaded, the shipped configuration's cards show the table's row
      count, its session count (the same two numbers the analytics page
      computes over the same rows), and the newest row's time. */
  lemma ShippedCards(table: seq<Row>)
    ensures var s := Load(table);
      var cards := StatCards(Some(N8nHistorial), s);
      var st := ComputeStats(table, N8nHistorial.analysis.isPositive);
      && cards[0] == Number(st.totalMessages)
      && cards[1] == Number(st.totalSessions)
      && (table == [] ==> cards[2] == NotAvailable)
      && (table != [] ==> cards[2].Instant? && forall r :: r in table ==> r.createdAt <= cards[2].t)
  {
    var s := Load(table);
    var stats := N8nHistorial.stats;
    assert stats == [TotalMessages, TotalSessions, LastMessage];
    var cards := StatCards(Some(N8nHistorial), s);
    assert cards[0] == StatValue(TotalMessages, s.data, s.sessions);
    assert cards[1] == StatValue(TotalSessions, s.data, s.sessions);
    assert cards[2] == StatValue(LastMessage, s.data, s.sessions);
    LoadedCounts(table);
    if table != [] {
      NewestFirst(s.data, table);
    }
  }

  lemma LoadedCounts(table: seq<Row>)
    ensures |Load(table).data| == |table|
    ensures |Load(table).sessions.Keys| == |SessionSet(table)|
  {
    var s := Load(table);
    assert |multiset(s.data)| == |multiset(table)|;
  }

  /** The head of rows sorted newest first is a newest row. */
  lemma NewestFirst(data: seq<Row>, table: seq<Row>)
    requires SortedBy(data, Recency) && multiset(data) == multiset(table)
    requires data != []
    ensures forall r :: r in table ==> r.createdAt <= data[0].createdAt
  {
    forall r | r in table
      ensures r.createdAt <= data[0].createdAt
    {
      assert r in multiset(table);
      assert r in data;
      var j :| 0 <= j < |data| && data[j] == r;
      if j > 0 {
        assert Recency(data[0]) <= Recency(data[j]);
      }
    }
  }

  /** While loading every configured card reads zero. */
  lemma LoadingCardsAreZero(config: TableConfig)
    ensures forall v :: v in StatCards(Some(config), Initial) ==> v == Number(0)
  {
  }
}
