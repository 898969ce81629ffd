/** The filter-predicate builder shared by the history screen and the CSV
    export: from the configured filters and the current filter values to
    the list of backend constraints, and the strategy of the special
    (`select`) filter's positive-id query. */
module FilterPredicates {
  import opened Outcomes
  import opened Text
  import opened Records
  import opened Query
  import opened Config

  /** The current filter values, by filter id (the page number included). */
  type FilterValues = map<string, string>

  /** `filters[id]`, with a missing entry read as "" (both are falsy). */
  function ValueOf(values: FilterValues, id: string): string {
    if id in values then values[id] else ""
  }

  /** `value && value !== 'all'`. */
  predicate IsSet(v: string) {
    v != "" && v != "all"
  }

  /** Parses a date filter value to an instant; `None` is an Invalid Date,
      whose `toISOString()` throws. */
  type DateParser = string -> Option<int>

  datatype DateError = InvalidDate(value: string)

  const DayMs := 86_400_000

  /** The last millisecond of the day containing `t`. */
  function EndOfDay(t: int): (e: int)
    ensures t <= e < t + DayMs
    ensures (e + 1) % DayMs == 0
  {
    t - t % DayMs + DayMs - 1
  }

  /** The column a text filter searches: the message text for `q`, the
      filter's own column otherwise. */
  function TextColumn(id: string): string {
    if id == "q" then MessageTextColumn else id
  }

  /** The constraints one filter adds to the candidate query. */
  function Contribution(f: Filter, v: string, parse: DateParser): Result<seq<Constraint>, DateError> {
    if !IsSet(v) || f.kind == SelectFilter then Ok([])
    else if f.kind == TextFilter then Ok([ILike(TextColumn(f.id), v)])
    else if Contains(f.id, "from") then
      (match parse(v)
       case None => Err(InvalidDate(v))
       case Some(t) => Ok([Gte(t)]))
    else if Contains(f.id, "to") then
      (match parse(v)
       case None => Err(InvalidDate(v))
       case Some(t) => Ok([Lte(EndOfDay(t))]))
    else Ok([])
  }

  /** An active date filter whose bound must be parsed. */
  predicate NeedsDate(f: Filter, v: string) {
    IsSet(v) && f.kind == DateFilter && (Contains(f.id, "from") || Contains(f.id, "to"))
  }

  /** Every date bound the filters need parses. */
  predicate DatesParse(filters: seq<Filter>, values: FilterValues, parse: DateParser) {
    forall i :: 0 <= i < |filters| && NeedsDate(filters[i], ValueOf(values, filters[i].id)) ==>
      parse(ValueOf(values, filters[i].id)).Some?
  }

  /** Reference meaning of one filter: what a row must satisfy for the
      filter to let it through. */
  predicate FilterAdmits(f: Filter, v: string, parse: DateParser, r: Row) {
    IsSet(v) ==>
      && (f.kind == TextFilter ==>
            var c := Column(r, TextColumn(f.id));
            c.Some? && c.value.TextCell? && Contains(Lower(c.value.s), Lower(v)))
      && (f.kind == DateFilter && Contains(f.id, "from") ==>
            parse(v).Some? && r.createdAt >= parse(v).value)
      && (f.kind == DateFilter && !Contains(f.id, "from") && Contains(f.id, "to") ==>
            parse(v).Some? && r.createdAt <= EndOfDay(parse(v).value))
  }

  /** A row passes every text and date filter of the filter set. */
  predicate Admits(filters: seq<Filter>, values: FilterValues, parse: DateParser, r: Row) {
    forall i :: 0 <= i < |filters| ==> FilterAdmits(filters[i], ValueOf(values, filters[i].id), parse, r)
  }

  /** Builds the candidate query's constraints, visiting the filters in
      order; the first date that does not parse aborts the build. The
      history screen and the CSV export run this same code. */
  function BuildConstraints(filters: seq<Filter>, values: FilterValues, parse: DateParser): (res: Result<seq<Constraint>, DateError>)
    ensures res.Ok? <==> DatesParse(filters, values, parse)
    ensures res.Ok? ==> |res.value| <= |filters|
    ensures res.Ok? ==> forall r :: HoldsAll(r, res.value) <==> Admits(filters, values, parse, r)
    ensures res.Err? ==> exists i :: 0 <= i < |filters| && NeedsDate(filters[i], res.error.value)
                                 && res.error.value == ValueOf(values, filters[i].id)
                                 && parse(res.error.value).None?
  {
    if filters == [] then Ok([])
    else
      var f := filters[0];
      var v := ValueOf(values, f.id);
      match Contribution(f, v, parse)
      case Err(e) => Err(e)
      case Ok(c) =>
        match BuildConstraints(filters[1..], values, parse)
        case Err(e) => Err(e)
        case Ok(cs) =>
          BuildStep(filters, values, parse, c, cs);
          Ok(c + cs)
  }

  lemma ContributionMeaning(f: Filter, v: string, parse: DateParser, r: Row)
    requires Contribution(f, v, parse).Ok?
    ensures HoldsAll(r, Contribution(f, v, parse).value) <==> FilterAdmits(f, v, parse, r)
  {
    var cs := Contribution(f, v, parse).value;
    if |cs| == 1 {
      assert HoldsAll(r, cs) <==> Holds(r, cs[0]);
    }
  }

  lemma BuildStep(filters: seq<Filter>, values: FilterValues, parse: DateParser, c: seq<Constraint>, cs: seq<Constraint>)
    requires filters != []
    requires Contribution(filters[0], ValueOf(values, filters[0].id), parse) == Ok(c)
    requires forall r :: HoldsAll(r, cs) <==> Admits(filters[1..], values, parse, r)
    ensures forall r :: HoldsAll(r, c + cs) <==> Admits(filters, values, parse, r)
  {
    forall r
      ensures HoldsAll(r, c + cs) <==> Admits(filters, values, parse, r)
    {
      HoldsAllAppend(r, c, cs);
      ContributionMeaning(filters[0], ValueOf(values, filters[0].id), parse, r);
      if Admits(filters[1..], values, parse, r) && FilterAdmits(filters[0], ValueOf(values, filters[0].id), parse, r) {
        forall i | 0 <= i < |filters|
          ensures FilterAdmits(filters[i], ValueOf(values, filters[i].id), parse, r)
        {
          if i > 0 {
            assert filters[i] == filters[1..][i - 1];
          }
        }
      }
      if Admits(filters, values, parse, r) {
        forall i | 0 <= i < |filters[1..]|
          ensures FilterAdmits(filters[1..][i], ValueOf(values, filters[1..][i].id), parse, r)
        {
          assert filters[1..][i] == filters[i + 1];
        }
      }
    }
  }

  /** With no text or date filter set, the candidate query is unconstrained. */
  lemma NoValuesNoConstraints(filters: seq<Filter>, values: FilterValues, parse: DateParser)
    requires forall i :: 0 <= i < |filters| ==> !IsSet(ValueOf(values, filters[i].id))
    ensures BuildConstraints(filters, values, parse) == Ok([])
  {
    if filters != [] {
      NoValuesNoConstraints(filters[1..], values, parse);
    }
  }

  /** The first `select` filter, if any (`filters.find(f => f.type === 'select')`). */
  function FindSelect(filters: seq<Filter>): (r: Option<Filter>)
    ensures r.Some? <==> exists i :: 0 <= i < |filters| && filters[i].kind == SelectFilter
    ensures r.Some? ==> exists i :: 0 <= i < |filters| && filters[i] == r.value
                                 && (forall j :: 0 <= j < i ==> filters[j].kind != SelectFilter)
    ensures r.Some? ==> r.value.kind == SelectFilter
  {
    if filters == [] then None
    else if filters[0].kind == SelectFilter then Some(filters[0])
    else
      var r := FindSelect(filters[1..]);
      if r.Some? then
        var i :| 0 <= i < |filters[1..]| && filters[1..][i] == r.value
                && (forall j :: 0 <= j < i ==> filters[1..][j].kind != SelectFilter);
        assert filters[i + 1] == r.value;
        r
      else
        r
  }

  /** The constraint of the positive-id query: `eq(column, true)` for a
      boolean column, `ilike(column, '%match%')` for a text match, and no
      constraint when the descriptor declares neither completely. The text
      and date filters are not applied to this query. */
  function PositiveConstraints(f: Filter): seq<Constraint> {
    if f.dbColumnType == Some(BooleanColumn) && f.dbColumn != "" then [Eq(f.dbColumn, true)]
    else if f.dbColumnType == Some(TextMatch) && f.dbColumn != "" && f.dbMatchString != "" then
      [ILike(f.dbColumn, f.dbMatchString)]
    else []
  }

  /** Reference meaning of the special filter: the rows that make their
      session positive. */
  predicate PositiveRow(f: Filter, r: Row) {
    if f.dbColumnType == Some(BooleanColumn) && f.dbColumn != "" then
      Column(r, f.dbColumn) == Some(BoolCell(true))
    else if f.dbColumnType == Some(TextMatch) && f.dbColumn != "" && f.dbMatchString != "" then
      var c := Column(r, f.dbColumn);
      c.Some? && c.value.TextCell? && Contains(Lower(c.value.s), Lower(f.dbMatchString))
    else true
  }

  /** The positive-id query returns exactly the positive rows; with an
      incomplete descriptor every row is positive. */
  lemma PositiveQueryMeaning(f: Filter, r: Row)
    ensures HoldsAll(r, PositiveConstraints(f)) <==> PositiveRow(f, r)
  {
    var cs := PositiveConstraints(f);
    if |cs| == 1 {
      assert HoldsAll(r, cs) <==> Holds(r, cs[0]);
    }
  }
}
