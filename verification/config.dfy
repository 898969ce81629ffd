/** Table configurations: the filters, stat cards and session classifier the
    dashboard is driven by, and the one configuration it ships with. */
module Config {
  import opened Outcomes
  import opened Text
  import opened Records

  datatype FilterKind = TextFilter | DateFilter | SelectFilter

  /** How a `select` filter is evaluated on the backend. */
  datatype MatchStrategy = BooleanColumn | TextMatch

  /** A filter descriptor. `dbColumn` and `dbMatchString` are "" when the
      descriptor leaves them out. */
  datatype Filter = Filter(
    id: string,
    kind: FilterKind,
    dbColumn: string,
    dbColumnType: Option<MatchStrategy>,
    dbMatchString: string)

  datatype StatId = TotalMessages | TotalSessions | LastMessage

  /** The session classifier: a predicate over a session's messages and the
      backend column and match string that replicate it as a row filter. */
  datatype SessionAnalysis = SessionAnalysis(
    isPositive: seq<Row> -> bool,
    filterColumn: string,
    filterType: MatchStrategy,
    filterMatchString: string)

  datatype TableConfig = TableConfig(
    id: string,
    tableName: string,
    filters: seq<Filter>,
    stats: seq<StatId>,
    analysis: SessionAnalysis)

  const RxNeedle := "radiograf"

  /** The message's classifier text, lower-cased, mentions an X-ray. */
  predicate MentionsRx(m: Row) {
    Contains(Lower(ClassifierText(m.message)), RxNeedle)
  }

  /** `msgs.some(...)`, scanning from the front. */
  function AnyMentionsRx(msgs: seq<Row>): (b: bool)
    ensures b <==> exists i :: 0 <= i < |msgs| && MentionsRx(msgs[i])
  {
    if msgs == [] then false
    else MentionsRx(msgs[0]) || AnyMentionsRx(msgs[1..])
  }

  /** `hasRxRequest`: false for a missing list, otherwise whether some
      message mentions an X-ray. */
  function HasRxRequest(msgs: Option<seq<Row>>): (b: bool)
    ensures b <==> msgs.Some? && exists m :: m in msgs.value && MentionsRx(m)
  {
    msgs.Some? && AnyMentionsRx(msgs.value)
  }

  /** Only which messages are present matters, not their order or count. */
  lemma HasRxRequestOrderFree(xs: seq<Row>, ys: seq<Row>)
    requires forall m :: m in xs <==> m in ys
    ensures HasRxRequest(Some(xs)) == HasRxRequest(Some(ys))
  {
  }

  /** Adding messages never withdraws a request. */
  lemma HasRxRequestMonotone(xs: seq<Row>, ys: seq<Row>)
    ensures HasRxRequest(Some(xs)) ==> HasRxRequest(Some(xs + ys))
    ensures HasRxRequest(Some(ys)) ==> HasRxRequest(Some(xs + ys))
  {
    if HasRxRequest(Some(xs)) {
      var m :| m in xs && MentionsRx(m);
      assert m in xs + ys;
    }
    if HasRxRequest(Some(ys)) {
      var m :| m in ys && MentionsRx(m);
      assert m in xs + ys;
    }
  }

  /** The classifier of the shipped configuration. */
  function RxRequested(msgs: seq<Row>): bool {
    HasRxRequest(Some(msgs))
  }

  /** The shipped configuration for the `n8n_historial` table. */
  const N8nHistorial := TableConfig(
    "n8n_historial",
    "n8n_historial",
    [ Filter("q", TextFilter, "", None, ""),
      Filter("session_id", TextFilter, "", None, ""),
      Filter("from", DateFilter, "", None, ""),
      Filter("to", DateFilter, "", None, ""),
      Filter("special_request", SelectFilter, MessageTextColumn, Some(TextMatch), RxNeedle) ],
    [TotalMessages, TotalSessions, LastMessage],
    SessionAnalysis(RxRequested, MessageTextColumn, TextMatch, RxNeedle))

  /** The shipped configuration has exactly one `select` filter, and its
      backend strategy is the one the analytics classifier declares. */
  lemma ShippedSelectFilterMatchesAnalysis()
    ensures var fs := N8nHistorial.filters;
      && (forall i :: 0 <= i < |fs| && fs[i].kind == SelectFilter ==> i == 4)
      && fs[4].kind == SelectFilter
      && fs[4].id == "special_request"
      && fs[4].dbColumn == N8nHistorial.analysis.filterColumn
      && fs[4].dbColumnType == Some(N8nHistorial.analysis.filterType)
      && fs[4].dbMatchString == N8nHistorial.analysis.filterMatchString
  {
  }
}
