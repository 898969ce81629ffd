/** The session resolver of the history page: from the filter values to the
    duplicate-free list of matching session ids, newest activity first,
    without fetching message bodies. */
module Resolver {
  import opened Outcomes
  import opened Seqs
  import opened Sorting
  import opened Records
  import opened Query
  import opened Config
  import opened FilterPredicates

  /** `sessionLastDates`: for each session id of `rows`, the latest
      `created_at` among its rows, built by one pass over the rows that
      overwrites an entry only with a strictly later instant. The source's
      plain object is a true map here: a session id naming an inherited
      object member (`constructor`, `toString`) is not singled out. */
  function LastDates(rows: seq<Row>): (m: map<string, int>)
    ensures m.Keys == SessionSet(rows)
    ensures forall k :: k in m ==> exists r :: r in rows && r.sessionId == k && r.createdAt == m[k]
    ensures forall r :: r in rows ==> r.createdAt <= m[r.sessionId]
  {
    if rows == [] then map[]
    else
      var p := rows[..|rows| - 1];
      var r := rows[|rows| - 1];
      assert rows == p + [r];
      var m := LastDates(p);
      var m' := if r.sessionId !in m || r.createdAt > m[r.sessionId] then m[r.sessionId := r.createdAt] else m;
      LastDatesStep(p, r, m, m');
      m'
  }

  /** One step of the pass keeps the map's meaning. */
  lemma LastDatesStep(p: seq<Row>, r: Row, m: map<string, int>, m': map<string, int>)
    requires m.Keys == SessionSet(p)
    requires forall k :: k in m ==> exists x :: x in p && x.sessionId == k && x.createdAt == m[k]
    requires forall x :: x in p ==> x.createdAt <= m[x.sessionId]
    requires m' == if r.sessionId !in m || r.createdAt > m[r.sessionId] then m[r.sessionId := r.createdAt] else m
    ensures m'.Keys == SessionSet(p + [r])
    ensures forall k :: k in m' ==> exists x :: x in p + [r] && x.sessionId == k && x.createdAt == m'[k]
    ensures forall x :: x in p + [r] ==> x.createdAt <= m'[x.sessionId]
  {
    var q := p + [r];
    assert forall x :: x in q <==> x in p || x == r;
    forall k | k in m'
      ensures exists x :: x in q && x.sessionId == k && x.createdAt == m'[k]
    {
      if k == r.sessionId && m'[k] == r.createdAt {
        assert r in q;
      } else {
        var x :| x in p && x.sessionId == k && x.createdAt == m[k];
        assert x in q;
      }
    }
  }

  /** The candidate session ids: the distinct session ids of the candidate
      rows in first-seen order (the screen reads them as the keys of
      `sessionLastDates`, the export through a `Set`). */
  function Candidates(base: seq<Row>): seq<string> {
    Distinct(SessionIds(base))
  }

  /** Both readings of the candidate rows give the same id set: the keys of
      the aggregation map are exactly the deduplicated session ids. */
  lemma CandidatesAreAggregationKeys(base: seq<Row>)
    ensures NoDups(Candidates(base))
    ensures Elems(Candidates(base)) == LastDates(base).Keys
  {
  }

  /** Keeps the ids whose membership in `positive` is `keep`, in order:
      `candidates.filter(id => positiveIds.includes(id))` and its negation. */
  function KeepIf(ids: seq<string>, positive: seq<string>, keep: bool): (r: seq<string>)
    ensures Elems(r) == if keep then Elems(ids) * Elems(positive) else Elems(ids) - Elems(positive)
    ensures IsSubseq(r, ids)
    ensures NoDups(ids) ==> NoDups(r)
  {
    if ids == [] then []
    else
      var rest := KeepIf(ids[1..], positive, keep);
      assert ids == [ids[0]] + ids[1..];
      assert Elems(ids) == {ids[0]} + Elems(ids[1..]);
      if (ids[0] in positive) == keep then
        NoDupsCons(ids);
        NoDupsPrepend(ids[0], rest);
        assert Elems([ids[0]] + rest) == {ids[0]} + Elems(rest);
        assert ([ids[0]] + rest)[1..] == rest;
        [ids[0]] + rest
      else
        NoDupsCons(ids);
        rest
  }

  /** The special filter's value, when a `select` filter is configured and
      its value is set (neither empty nor `all`). */
  function SpecialValue(config: TableConfig, values: FilterValues): Option<(Filter, string)> {
    var special := FindSelect(config.filters);
    if special.Some? && IsSet(ValueOf(values, special.value.id)) then
      Some((special.value, ValueOf(values, special.value.id)))
    else None
  }

  /** The deduplicated ids returned by the positive-id query. It runs on the
      whole table: the text and date filters do not constrain it. */
  function PositiveIds(f: Filter, table: seq<Row>): seq<string> {
    Distinct(SessionIds(Select(table, PositiveConstraints(f))))
  }

  /** Reference set of positive sessions: those with at least one positive
      row anywhere in the table. */
  ghost function PositiveSessions(f: Filter, table: seq<Row>): set<string> {
    set r | r in table && PositiveRow(f, r) :: r.sessionId
  }

  lemma PositiveIdsMeaning(f: Filter, table: seq<Row>)
    ensures Elems(PositiveIds(f, table)) == PositiveSessions(f, table)
  {
    forall r | r in table
      ensures HoldsAll(r, PositiveConstraints(f)) <==> PositiveRow(f, r)
    {
      PositiveQueryMeaning(f, r);
    }
  }

  /** Special-filter refinement of the candidate ids: unchanged without a set
      special value; the positive ones for `requested`; the others for any
      other value. */
  function Refine(config: TableConfig, table: seq<Row>, values: FilterValues, candidates: seq<string>): (final: seq<string>)
    ensures SpecialValue(config, values).None? ==> final == candidates
    ensures SpecialValue(config, values).Some? && SpecialValue(config, values).value.1 == "requested" ==>
      Elems(final) == Elems(candidates) * PositiveSessions(SpecialValue(config, values).value.0, table)
    ensures SpecialValue(config, values).Some? && SpecialValue(config, values).value.1 != "requested" ==>
      Elems(final) == Elems(candidates) - PositiveSessions(SpecialValue(config, values).value.0, table)
    ensures IsSubseq(final, candidates)
    ensures NoDups(candidates) ==> NoDups(final)
  {
    match SpecialValue(config, values)
    case None => SubseqRefl(candidates); candidates
    case Some((f, v)) =>
      PositiveIdsMeaning(f, table);
      KeepIf(candidates, PositiveIds(f, table), v == "requested")
  }

  /** Sort key for newest activity first. */
  function ActivityKey(last: map<string, int>): string -> int {
    (id: string) => if id in last then -last[id] else 0
  }

  /** The final ids ordered by descending last activity. */
  function SortByActivity(ids: seq<string>, last: map<string, int>): (sorted: seq<string>)
    requires Elems(ids) <= last.Keys
    ensures multiset(sorted) == multiset(ids)
    ensures Elems(sorted) == Elems(ids)
    ensures forall i :: 0 <= i < |sorted| ==> sorted[i] in last
    ensures forall i, j :: 0 <= i < j < |sorted| ==> last[sorted[i]] >= last[sorted[j]]
  {
    var sorted := SortBy(ids, ActivityKey(last));
    ActivitySorted(ids, last, sorted);
    sorted
  }

  lemma ActivitySorted(ids: seq<string>, last: map<string, int>, sorted: seq<string>)
    requires Elems(ids) <= last.Keys
    requires multiset(sorted) == multiset(ids) && SortedBy(sorted, ActivityKey(last))
    ensures Elems(sorted) == Elems(ids)
    ensures forall i :: 0 <= i < |sorted| ==> sorted[i] in last
    ensures forall i, j :: 0 <= i < j < |sorted| ==> last[sorted[i]] >= last[sorted[j]]
  {
    SameElements(sorted, ids);
    forall i | 0 <= i < |sorted|
      ensures sorted[i] in last
    {
      assert sorted[i] in ids;
      assert sorted[i] in Elems(ids);
    }
    ActivityOrder(sorted, last);
  }

  /** Sorted on the activity key, the ids run from the latest activity to
      the earliest. */
  lemma ActivityOrder(sorted: seq<string>, last: map<string, int>)
    requires SortedBy(sorted, ActivityKey(last))
    requires forall x :: x in sorted ==> x in last
    ensures forall i, j :: 0 <= i < j < |sorted| ==> last[sorted[i]] >= last[sorted[j]]
  {
    forall i, j | 0 <= i < j < |sorted|
      ensures last[sorted[i]] >= last[sorted[j]]
    {
      assert sorted[i] in sorted && sorted[j] in sorted;
      assert ActivityKey(last)(sorted[i]) <= ActivityKey(last)(sorted[j]);
    }
  }

  /** Resolver steps 1 to 3, shared by the screen and the export: candidate
      query, candidate ids, special-filter refinement. */
  function FinalIds(config: TableConfig, table: seq<Row>, values: FilterValues, parse: DateParser): Result<seq<string>, DateError> {
    match BuildConstraints(config.filters, values, parse)
    case Err(e) => Err(e)
    case Ok(cs) =>
      var base := Select(table, cs);
      Ok(Refine(config, table, values, Candidates(base)))
  }

  /** The resolver's output on the history screen: the ordered ids and the
      per-session last activity of the candidate rows. */
  datatype Resolution = Resolution(ids: seq<string>, lastDates: map<string, int>)

  /** The sessions with a row that passes the text and date filters. */
  ghost function AdmittedSessions(config: TableConfig, table: seq<Row>, values: FilterValues, parse: DateParser): set<string> {
    set r | r in table && Admits(config.filters, values, parse, r) :: r.sessionId
  }

  /** Reference set of matching sessions: the admitted sessions, refined by
      the special filter against the positive sessions of the whole table. */
  ghost function ExpectedSessions(config: TableConfig, table: seq<Row>, values: FilterValues, parse: DateParser): set<string> {
    var admitted := AdmittedSessions(config, table, values, parse);
    match SpecialValue(config, values)
    case None => admitted
    case Some((f, v)) =>
      if v == "requested" then admitted * PositiveSessions(f, table)
      else admitted - PositiveSessions(f, table)
  }

  /** The candidate rows are the admitted rows of the table. */
  lemma CandidateRows(config: TableConfig, table: seq<Row>, values: FilterValues, parse: DateParser, cs: seq<Constraint>)
    requires BuildConstraints(config.filters, values, parse) == Ok(cs)
    ensures forall r :: r in Select(table, cs) <==> r in table && Admits(config.filters, values, parse, r)
    ensures SessionSet(Select(table, cs)) == AdmittedSessions(config, table, values, parse)
  {
  }

  /** `lastDates[k]` is the latest instant among the admitted rows of
      session `k`, and is attained by one of them. */
  ghost predicate LatestAdmitted(config: TableConfig, table: seq<Row>, values: FilterValues, parse: DateParser, last: map<string, int>) {
    forall k :: k in last ==>
      && (exists r :: r in table && Admits(config.filters, values, parse, r) && r.sessionId == k && r.createdAt == last[k])
      && (forall r :: r in table && Admits(config.filters, values, parse, r) && r.sessionId == k ==> r.createdAt <= last[k])
  }

  /** Ids newest-activity first according to `last`. */
  ghost predicate ByActivity(ids: seq<string>, last: map<string, int>) {
    && (forall i :: 0 <= i < |ids| ==> ids[i] in last)
    && (forall i, j :: 0 <= i < j < |ids| ==> last[ids[i]] >= last[ids[j]])
  }

  /** The resolution computed from the candidate query's constraints. */
  function ResolveWith(config: TableConfig, table: seq<Row>, values: FilterValues, cs: seq<Constraint>): Resolution {
    var base := Select(table, cs);
    var last := LastDates(base);
    Resolution(SortByActivity(Refine(config, table, values, Candidates(base)), last), last)
  }

  lemma ResolveWithMeaning(config: TableConfig, table: seq<Row>, values: FilterValues, parse: DateParser, cs: seq<Constraint>)
    requires BuildConstraints(config.filters, values, parse) == Ok(cs)
    ensures var res := ResolveWith(config, table, values, cs);
      && NoDups(res.ids)
      && Elems(res.ids) == ExpectedSessions(config, table, values, parse)
      && ByActivity(res.ids, res.lastDates)
      && res.lastDates.Keys == AdmittedSessions(config, table, values, parse)
      && LatestAdmitted(config, table, values, parse, res.lastDates)
  {
    var base := Select(table, cs);
    var last := LastDates(base);
    var final := Refine(config, table, values, Candidates(base));
    RefinedMeaning(config, table, values, parse, cs);
    LastDatesMeaning(config, table, values, parse, cs);
    var sorted := SortByActivity(final, last);
    assert ByActivity(sorted, last) by {
      forall i | 0 <= i < |sorted|
        ensures sorted[i] in last
      {
        assert sorted[i] in Elems(sorted);
      }
    }
    NoDupsPermutation(final, sorted);
  }

  lemma RefinedMeaning(config: TableConfig, table: seq<Row>, values: FilterValues, parse: DateParser, cs: seq<Constraint>)
    requires BuildConstraints(config.filters, values, parse) == Ok(cs)
    ensures var final := Refine(config, table, values, Candidates(Select(table, cs)));
      NoDups(final) && Elems(final) == ExpectedSessions(config, table, values, parse)
      && Elems(final) <= AdmittedSessions(config, table, values, parse)
  {
    CandidateRows(config, table, values, parse, cs);
  }

  lemma LastDatesMeaning(config: TableConfig, table: seq<Row>, values: FilterValues, parse: DateParser, cs: seq<Constraint>)
    requires BuildConstraints(config.filters, values, parse) == Ok(cs)
    ensures var last := LastDates(Select(table, cs));
      last.Keys == AdmittedSessions(config, table, values, parse)
      && LatestAdmitted(config, table, values, parse, last)
  {
    CandidateRows(config, table, values, parse, cs);
  }

  /** The history screen's resolution (`fetchMessages` up to the sort). */
  function ResolveSessions(config: TableConfig, table: seq<Row>, values: FilterValues, parse: DateParser): (res: Result<Resolution, DateError>)
    ensures res.Ok? <==> DatesParse(config.filters, values, parse)
    ensures res.Ok? ==> NoDups(res.value.ids)
    ensures res.Ok? ==> Elems(res.value.ids) == ExpectedSessions(config, table, values, parse)
    ensures res.Ok? ==> ByActivity(res.value.ids, res.value.lastDates)
    ensures res.Ok? ==> res.value.lastDates.Keys == AdmittedSessions(config, table, values, parse)
    ensures res.Ok? ==> LatestAdmitted(config, table, values, parse, res.value.lastDates)
  {
    match BuildConstraints(config.filters, values, parse)
    case Err(e) => Err(e)
    case Ok(cs) =>
      ResolveWithMeaning(config, table, values, parse, cs);
      Ok(ResolveWith(config, table, values, cs))
  }

  /** What the screen shows and what the export writes agree: both paths
      fail on the same filter values, and on success the export's final id
      set is the screen's sorted id set, with no id lost or repeated. */
  lemma ScreenExportAgree(config: TableConfig, table: seq<Row>, values: FilterValues, parse: DateParser)
    ensures ResolveSessions(config, table, values, parse).Ok? <==> FinalIds(config, table, values, parse).Ok?
    ensures ResolveSessions(config, table, values, parse).Ok? ==>
      && Elems(ResolveSessions(config, table, values, parse).value.ids) == Elems(FinalIds(config, table, values, parse).value)
      && |ResolveSessions(config, table, values, parse).value.ids| == |FinalIds(config, table, values, parse).value|
  {
    if BuildConstraints(config.filters, values, parse).Ok? {
      var cs := BuildConstraints(config.filters, values, parse).value;
      var base := Select(table, cs);
      var final := Refine(config, table, values, Candidates(base));
      assert FinalIds(config, table, values, parse).value == final;
      var sorted := SortByActivity(final, LastDates(base));
      assert ResolveSessions(config, table, values, parse).value == ResolveWith(config, table, values, cs);
      assert ResolveWith(config, table, values, cs).ids == sorted;
      assert |sorted| == |final| by {
        assert |multiset(sorted)| == |multiset(final)|;
      }
    }
  }

  /** With no text, date or special filter set, every session of the table
      is listed. */
  lemma NoFiltersListsEverySession(config: TableConfig, table: seq<Row>, values: FilterValues, parse: DateParser)
    requires forall i :: 0 <= i < |config.filters| ==> !IsSet(ValueOf(values, config.filters[i].id))
    ensures ResolveSessions(config, table, values, parse).Ok?
    ensures Elems(ResolveSessions(config, table, values, parse).value.ids) == SessionSet(table)
  {
    NoValuesNoConstraints(config.filters, values, parse);
    var special := FindSelect(config.filters);
    if special.Some? {
      var i :| 0 <= i < |config.filters| && config.filters[i] == special.value;
      assert !IsSet(ValueOf(values, config.filters[i].id));
    }
    assert SpecialValue(config, values).None?;
    assert forall r :: Admits(config.filters, values, parse, r);
    assert AdmittedSessions(config, table, values, parse) == SessionSet(table);
  }

  /** Under `requested`, a session is listed when one of its rows passes the
      text and date filters and one of its rows, possibly a different one
      outside the date range, is positive. */
  lemma RequestedUsesWholeTable(config: TableConfig, table: seq<Row>, values: FilterValues, parse: DateParser, k: string)
    requires SpecialValue(config, values).Some? && SpecialValue(config, values).value.1 == "requested"
    requires ResolveSessions(config, table, values, parse).Ok?
    ensures k in ResolveSessions(config, table, values, parse).value.ids <==>
      (exists r :: r in table && Admits(config.filters, values, parse, r) && r.sessionId == k)
      && (exists r :: r in table && PositiveRow(SpecialValue(config, values).value.0, r) && r.sessionId == k)
  {
    var ids := ResolveSessions(config, table, values, parse).value.ids;
    var f := SpecialValue(config, values).value.0;
    ExpectedWhenRequested(config, table, values, parse);
    InMeet(k, ids, AdmittedSessions(config, table, values, parse), PositiveSessions(f, table));
  }

  lemma ExpectedWhenRequested(config: TableConfig, table: seq<Row>, values: FilterValues, parse: DateParser)
    requires SpecialValue(config, values).Some? && SpecialValue(config, values).value.1 == "requested"
    ensures ExpectedSessions(config, table, values, parse)
      == AdmittedSessions(config, table, values, parse) * PositiveSessions(SpecialValue(config, values).value.0, table)
  {
  }

  lemma InMeet(k: string, ids: seq<string>, a: set<string>, b: set<string>)
    requires Elems(ids) == a * b
    ensures k in ids <==> k in a && k in b
  {
    assert k in ids <==> k in Elems(ids);
  }
}
