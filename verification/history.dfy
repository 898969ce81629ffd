/** The history screen: one fetch of a page of sessions (`fetchMessages`)
    and the CSV export of every matching session (`handleExportCSV`). */
module History {
  import opened Outcomes
  import opened Seqs
  import opened Sorting
  import opened Records
  import opened Query
  import opened Config
  import opened FilterPredicates
  import opened Resolver
  import opened Paging
  import opened Grouping
  import opened Csv
  import opened Text

  /** What one fetch leaves on the screen. `Inert` is the fetch that returns
      at once because no table is selected. */
  datatype Screen =
    | Inert
    | Failed(error: DateError)
    | Shown(order: seq<string>, groups: Groups, totalCount: nat, detailFetched: bool)

  /** The rows of the listed sessions, oldest first:
      `.in('session_id', ids).order('created_at', { ascending: true })`. */
  function DetailRows(table: seq<Row>, ids: seq<string>): (rows: seq<Row>)
    ensures SortedBy(rows, CreatedAt)
    ensures multiset(rows) == multiset(Select(table, [In(Elems(ids))]))
    ensures forall r :: r in rows <==> r in table && r.sessionId in ids
  {
    var sel := Select(table, [In(Elems(ids))]);
    var rows := SortBy(sel, CreatedAt);
    SelectIn(table, Elems(ids));
    SameElements(rows, sel);
    rows
  }

  /** What the screen must show for a page listing `order`: one non-empty,
      oldest-first group per listed session, holding exactly that session's
      rows; read in page order, the groups are the rows of the listed
      sessions, each once. */
  ghost predicate GroupsOfPage(table: seq<Row>, order: seq<string>, groups: Groups) {
    && groups.Keys == Elems(order)
    && (forall k :: k in groups ==> groups[k] != [] && SortedBy(groups[k], CreatedAt))
    && (forall k, r :: k in groups ==> (r in groups[k] <==> r in table && r.sessionId == k))
    && multiset(Concat(groups, order)) == multiset(Select(table, [In(Elems(order))]))
  }

  lemma DetailGroups(table: seq<Row>, order: seq<string>)
    requires NoDups(order)
    requires Elems(order) <= SessionSet(table)
    ensures GroupsOfPage(table, order, Group(DetailRows(table, order)))
  {
    var detail := DetailRows(table, order);
    var g := Group(detail);
    assert SessionSet(detail) == Elems(order) by {
      forall k | k in Elems(order)
        ensures k in SessionSet(detail)
      {
        var r :| r in table && r.sessionId == k;
        assert r in detail;
      }
    }
    forall k | k in g
      ensures g[k] != [] && SortedBy(g[k], CreatedAt)
      ensures forall r :: r in g[k] <==> r in table && r.sessionId == k
    {
      GroupsNonEmpty(detail, k);
      OfKeySorted(detail, CreatedAt, k);
    }
    GroupsPartitionRows(detail, order);
  }

  /** Steps 4 and 5 of a fetch, from the sorted session ids: the page slice,
      and the detail rows grouped by session unless the slice is empty. */
  function ShowPage(table: seq<Row>, ids: seq<string>, page: Option<int>): Screen {
    var slice := PageSlice(ids, PageSize, page);
    if slice == [] then Shown([], map[], |ids|, false)
    else Shown(slice, Group(DetailRows(table, slice)), |ids|, true)
  }

  lemma ShowPageMeaning(table: seq<Row>, ids: seq<string>, page: Option<int>)
    requires NoDups(ids) && Elems(ids) <= SessionSet(table)
    ensures var s := ShowPage(table, ids, page);
      && s.Shown?
      && s.totalCount == |ids|
      && s.order == PageSlice(ids, PageSize, page)
      && NoDups(s.order) && Elems(s.order) <= Elems(ids)
      && (s.detailFetched <==> s.order != [])
      && GroupsOfPage(table, s.order, s.groups)
  {
    var slice := PageSlice(ids, PageSize, page);
    assert Elems(slice) <= Elems(ids);
    if slice != [] {
      DetailGroups(table, slice);
    } else {
      EmptyPageGroups(table);
    }
  }

  lemma EmptyPageGroups(table: seq<Row>)
    ensures GroupsOfPage(table, [], map[])
  {
    var cs := [In({})];
    forall r
      ensures !HoldsAll(r, cs)
    {
      assert !Holds(r, cs[0]);
    }
    SelectNone(table, cs);
    assert Elems<string>([]) == {};
  }

  /** `fetchMessages(page, filters)`. */
  function FetchMessages(config: Option<TableConfig>, table: seq<Row>, values: FilterValues, parse: DateParser, page: Option<int>): (s: Screen)
    ensures s.Inert? <==> config.None?
    ensures s.Failed? <==> config.Some? && !DatesParse(config.value.filters, values, parse)
    ensures s.Shown? ==> s.totalCount == |ExpectedSessions(config.value, table, values, parse)|
    ensures s.Shown? ==> s.order == PageSlice(ResolveSessions(config.value, table, values, parse).value.ids, PageSize, page)
    ensures s.Shown? ==> NoDups(s.order) && Elems(s.order) <= ExpectedSessions(config.value, table, values, parse)
    ensures s.Shown? ==> (s.detailFetched <==> s.order != [])
    ensures s.Shown? ==> GroupsOfPage(table, s.order, s.groups)
  {
    match config
    case None => Inert
    case Some(c) =>
      match ResolveSessions(c, table, values, parse)
      case Err(e) => Failed(e)
      case Ok(res) =>
        DistinctCount(res.ids);
        ShownSessionsHaveRows(c, table, values, parse);
        ShowPageMeaning(table, res.ids, page);
        ShowPage(table, res.ids, page)
  }

  /** Every listed session has rows in the table. */
  lemma ShownSessionsHaveRows(config: TableConfig, table: seq<Row>, values: FilterValues, parse: DateParser)
    ensures ExpectedSessions(config, table, values, parse) <= SessionSet(table)
  {
  }

  /** The export's header record, written with `headers.join(',')`. */
  const Header: seq<string> := ["session_id", "created_at", "message_content"]

  /** A data record of the export: three fields, the first a session of
      `sessions`, the message field on one line. */
  predicate ShapedRecord(rec: seq<string>, sessions: set<string>) {
    |rec| == 3 && rec[0] in sessions && OneLine(rec[2])
  }

  /** Some data record (after the header) names session `k` first. */
  predicate HasRecordOf(records: seq<seq<string>>, k: string) {
    exists i :: 1 <= i < |records| && |records[i]| >= 1 && records[i][0] == k
  }

  /** A field with no line feed: it fits on one line of the file. */
  predicate OneLine(f: string) {
    forall j :: 0 <= j < |f| ==> f[j] != '\n'
  }

  /** `rawText.replace(/\n/g, ' ')`. */
  function SingleLine(s: string): (r: string)
    ensures |r| == |s|
    ensures forall i :: 0 <= i < |s| ==> r[i] != '\n'
    ensures forall i :: 0 <= i < |s| && s[i] != '\n' ==> r[i] == s[i]
    ensures forall i :: 0 <= i < |s| && s[i] == '\n' ==> r[i] == ' '
  {
    seq(|s|, i requires 0 <= i < |s| => if s[i] == '\n' then ' ' else s[i])
  }

  /** The three fields exported for one row. */
  function Record(r: Row): seq<string> {
    [r.sessionId, r.createdAtText, SingleLine(TextOf(r.message))]
  }

  /** A message written with CR LF line ends keeps its carriage return: the
      line feed becomes a space and the CR alone does not make `escapeCSV`
      quote the field, so the file holds a bare CR inside an unquoted field,
      where an RFC 4180 reader would end the record. */
  lemma BareCarriageReturn()
    ensures SingleLine("a\r\nb") == "a\r b"
    ensures Escape("a\r b") == "a\r b"
  {
  }

  function RecordsOf(rows: seq<Row>): (recs: seq<seq<string>>)
    ensures |recs| == |rows|
    ensures forall i :: 0 <= i < |rows| ==> recs[i] == Record(rows[i])
  {
    if rows == [] then [] else [Record(rows[0])] + RecordsOf(rows[1..])
  }

  /** The outcome of an export. `NoTable` is the export that returns at once
      because no table is selected; `NothingToExport` is the alert raised
      when no session matches, before any row is fetched. */
  datatype Export =
    | NoTable
    | ExportFailed(error: DateError)
    | NothingToExport
    | Exported(csv: string, records: seq<seq<string>>)

  /** The header fields need no quoting, so the header line is the header
      record written like any other. */
  lemma HeaderLine()
    ensures Line(Header) == Join(Header, ",")
  {
    NoQuotingNeeded("session_id");
    NoQuotingNeeded("created_at");
    NoQuotingNeeded("message_content");
    assert EscapeAll(Header) == Header;
  }

  lemma NoQuotingNeeded(h: string)
    requires forall i :: 0 <= i < |h| ==> 'a' <= h[i] <= 'z' || h[i] == '_'
    ensures Escape(h) == h
  {
    forall i | 0 <= i < |h|
      ensures !IsSpecial(h[i])
    {
    }
  }

  /** What the exported file must hold for the session set `sessions`: it
      reads back as the header followed by the record of each row of those
      sessions, each row as often as the table holds it, oldest first; every
      session appears, and no message field spans lines. */
  ghost predicate ExportedFile(table: seq<Row>, sessions: set<string>, csv: string, records: seq<seq<string>>) {
    && ParseDocument(csv) == Some(records)
    && (exists rows :: && SortedBy(rows, CreatedAt)
                       && multiset(rows) == multiset(Select(table, [In(sessions)]))
                       && records == [Header] + RecordsOf(rows))
    && |records| >= 1 && records[0] == Header
    && |records| - 1 == |Select(table, [In(sessions)])|
    && (forall i :: 1 <= i < |records| ==> ShapedRecord(records[i], sessions))
    && (forall k :: k in sessions ==> HasRecordOf(records, k))
  }

  /** In an exported file, every data record is the record of a table row
      of one of the sessions: its id, its stored creation text and its
      message on one line. */
  lemma ExportedRecordIsRow(table: seq<Row>, sessions: set<string>, csv: string, records: seq<seq<string>>, i: int)
    requires ExportedFile(table, sessions, csv, records)
    requires 1 <= i < |records|
    ensures exists r :: r in table && r.sessionId in sessions && records[i] == Record(r)
  {
    var rows :| && SortedBy(rows, CreatedAt)
                && multiset(rows) == multiset(Select(table, [In(sessions)]))
                && records == [Header] + RecordsOf(rows);
    SelectedRow(table, sessions, rows, i - 1);
    RecordAt(rows, i);
  }

  /** Data record `i` of a file is the record of row `i - 1`. */
  lemma RecordAt(rows: seq<Row>, i: int)
    requires 1 <= i <= |rows|
    ensures ([Header] + RecordsOf(rows))[i] == Record(rows[i - 1])
  {
    ConsIndex(Header, RecordsOf(rows), i);
  }

  /** A row of a permutation of the selection is a table row of one of the
      sessions. */
  lemma SelectedRow(table: seq<Row>, sessions: set<string>, rows: seq<Row>, i: int)
    requires multiset(rows) == multiset(Select(table, [In(sessions)]))
    requires 0 <= i < |rows|
    ensures rows[i] in table && rows[i].sessionId in sessions
  {
    assert rows[i] in multiset(Select(table, [In(sessions)]));
    SelectIn(table, sessions);
  }

  /** The records written for the final ids: the header, then one record per
      row of those sessions, oldest first. */
  function ExportRecords(table: seq<Row>, final: seq<string>): seq<seq<string>> {
    [Header] + RecordsOf(DetailRows(table, final))
  }

  lemma ExportRecordsMeaning(table: seq<Row>, final: seq<string>)
    requires Elems(final) <= SessionSet(table)
    ensures ExportedFile(table, Elems(final), Document(ExportRecords(table, final)), ExportRecords(table, final))
  {
    var rows := DetailRows(table, final);
    assert ExportRecords(table, final) == [Header] + RecordsOf(rows);
    ExportRoundTrip(table, final);
    ExportCount(table, final);
    ExportFields(table, final);
    ExportCoverage(table, final);
  }

  lemma ExportRoundTrip(table: seq<Row>, final: seq<string>)
    ensures ParseDocument(Document(ExportRecords(table, final))) == Some(ExportRecords(table, final))
  {
    var rows := DetailRows(table, final);
    assert ExportRecords(table, final) == [Header] + RecordsOf(rows);
    RecordsRoundTrip(rows);
  }

  /** The header and the records of any rows read back from their file. */
  lemma RecordsRoundTrip(rows: seq<Row>)
    ensures ParseDocument(Document([Header] + RecordsOf(rows))) == Some([Header] + RecordsOf(rows))
  {
    var records := [Header] + RecordsOf(rows);
    forall i | 0 <= i < |records|
      ensures |records[i]| >= 1
    {
      if i > 0 {
        RecordAt(rows, i);
      }
    }
    DocumentRoundTrip(records);
  }

  lemma ExportCount(table: seq<Row>, final: seq<string>)
    ensures |ExportRecords(table, final)| - 1 == |Select(table, [In(Elems(final))])|
  {
    var rows := DetailRows(table, final);
    var sel := Select(table, [In(Elems(final))]);
    assert |multiset(rows)| == |multiset(sel)|;
  }

  /** Each record has three fields: the row's session id, its creation
      text and its message text on a single line. */
  lemma RecordShape(r: Row)
    ensures |Record(r)| == 3
    ensures Record(r)[0] == r.sessionId
    ensures Record(r)[1] == r.createdAtText
    ensures |Record(r)[2]| == |TextOf(r.message)|
    ensures forall j :: 0 <= j < |Record(r)[2]| ==>
      Record(r)[2][j] == if TextOf(r.message)[j] == '\n' then ' ' else TextOf(r.message)[j]
    ensures forall j :: 0 <= j < |Record(r)[2]| ==> Record(r)[2][j] != '\n'
  {
  }

  lemma RecordsFields(rows: seq<Row>, sessions: set<string>)
    requires forall i :: 0 <= i < |rows| ==> rows[i].sessionId in sessions
    ensures var records := [Header] + RecordsOf(rows);
      forall i :: 1 <= i < |records| ==> ShapedRecord(records[i], sessions)
  {
    var records := [Header] + RecordsOf(rows);
    forall i | 1 <= i < |records|
      ensures ShapedRecord(records[i], sessions)
    {
      RecordAt(rows, i);
      RecordOfSession(rows[i - 1], records[i], sessions);
    }
  }

  lemma RecordOfSession(r: Row, rec: seq<string>, sessions: set<string>)
    requires rec == Record(r) && r.sessionId in sessions
    ensures ShapedRecord(rec, sessions)
  {
    RecordShape(r);
  }

  lemma RecordsCover(rows: seq<Row>, k: string, a: nat)
    requires a < |rows| && rows[a].sessionId == k
    ensures HasRecordOf([Header] + RecordsOf(rows), k)
  {
    var records := [Header] + RecordsOf(rows);
    RecordAt(rows, a + 1);
    assert |records[a + 1]| == 3 && records[a + 1][0] == k;
  }

  lemma ExportFields(table: seq<Row>, final: seq<string>)
    ensures var records := ExportRecords(table, final);
      forall i :: 1 <= i < |records| ==> ShapedRecord(records[i], Elems(final))
  {
    var rows := DetailRows(table, final);
    assert ExportRecords(table, final) == [Header] + RecordsOf(rows);
    forall i | 0 <= i < |rows|
      ensures rows[i].sessionId in Elems(final)
    {
      assert rows[i] in rows;
    }
    RecordsFields(rows, Elems(final));
  }

  lemma ExportCoverage(table: seq<Row>, final: seq<string>)
    requires Elems(final) <= SessionSet(table)
    ensures var records := ExportRecords(table, final);
      forall k :: k in Elems(final) ==> HasRecordOf(records, k)
  {
    var rows := DetailRows(table, final);
    assert ExportRecords(table, final) == [Header] + RecordsOf(rows);
    assert Elems(final) <= SessionSet(rows) by {
      forall k | k in Elems(final)
        ensures k in SessionSet(rows)
      {
        var r :| r in table && r.sessionId == k;
        assert r in rows;
      }
    }
    RecordsCoverSessions(rows, Elems(final));
  }

  /** Every session of the rows has a record of its own. */
  lemma RecordsCoverSessions(rows: seq<Row>, sessions: set<string>)
    requires sessions <= SessionSet(rows)
    ensures forall k :: k in sessions ==> HasRecordOf([Header] + RecordsOf(rows), k)
  {
    forall k | k in sessions
      ensures HasRecordOf([Header] + RecordsOf(rows), k)
    {
      var r :| r in rows && r.sessionId == k;
      var a :| 0 <= a < |rows| && rows[a] == r;
      RecordsCover(rows, k, a);
    }
  }

  /** `handleExportCSV`: the matching sessions of every page, all their
      rows oldest first, one CSV line per row under the header. The file is
      `Document(records)`, whose first line is `headers.join(',')` (see
      `HeaderLine`). */
  function ExportCsv(config: Option<TableConfig>, table: seq<Row>, values: FilterValues, parse: DateParser): (e: Export)
    ensures e.NoTable? <==> config.None?
    ensures e.ExportFailed? <==> config.Some? && !DatesParse(config.value.filters, values, parse)
    ensures e.NothingToExport? <==> config.Some? && DatesParse(config.value.filters, values, parse)
                                    && ExpectedSessions(config.value, table, values, parse) == {}
    ensures e.Exported? ==> ExportedFile(table, ExpectedSessions(config.value, table, values, parse), e.csv, e.records)
  {
    match config
    case None => NoTable
    case Some(c) =>
      ExportOutcome(c, table, values, parse);
      match FinalIds(c, table, values, parse)
      case Err(e) => ExportFailed(e)
      case Ok(final) =>
        if final == [] then NothingToExport
        else Exported(Document(ExportRecords(table, final)), ExportRecords(table, final))
  }

  /** The final ids exist exactly when the dates parse, are empty exactly
      when no session matches, and otherwise give the file of the matching
      sessions. */
  lemma ExportOutcome(c: TableConfig, table: seq<Row>, values: FilterValues, parse: DateParser)
    ensures FinalIds(c, table, values, parse).Ok? <==> DatesParse(c.filters, values, parse)
    ensures FinalIds(c, table, values, parse).Ok? ==>
      var final := FinalIds(c, table, values, parse).value;
      && (final == [] <==> ExpectedSessions(c, table, values, parse) == {})
      && (final != [] ==>
            ExportedFile(table, ExpectedSessions(c, table, values, parse),
                         Document(ExportRecords(table, final)), ExportRecords(table, final)))
  {
    ScreenExportAgree(c, table, values, parse);
    ShownSessionsHaveRows(c, table, values, parse);
    if FinalIds(c, table, values, parse).Ok? {
      var final := FinalIds(c, table, values, parse).value;
      assert Elems(final) == ExpectedSessions(c, table, values, parse);
      if final != [] {
        assert final[0] in Elems(final);
      }
      ExportRecordsMeaning(table, final);
    }
  }
}
