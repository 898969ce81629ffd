/** The history screen's filter state and its mirror in the address bar:
    the page number read with `parseInt`, the filter-change handler (whose
    page reset swallows page changes, modelled as written and corrected),
    the date-preset handler, and the round trip of the filters through the
    URL's search parameters. */
module UrlState {
  import opened Outcomes
  import opened Text
  import opened Records
  import opened Query
  import opened Config
  import opened FilterPredicates
  import opened Resolver
  import opened Paging
  import opened History

  predicate IsDigit(c: char) {
    '0' <= c <= '9'
  }

  function DigitValue(c: char): nat
    requires IsDigit(c)
  {
    c as int - '0' as int
  }

  function DigitChar(d: nat): (c: char)
    requires d < 10
    ensures IsDigit(c) && DigitValue(c) == d
  {
    ('0' as int + d) as char
  }

  predicate AllDigits(s: string) {
    forall i :: 0 <= i < |s| ==> IsDigit(s[i])
  }

  /** Length of the longest run of digits at the start of `s`. */
  function DigitRun(s: string): (n: nat)
    ensures n <= |s|
    ensures AllDigits(s[..n])
    ensures n < |s| ==> !IsDigit(s[n])
  {
    if s != [] && IsDigit(s[0]) then
      var n := 1 + DigitRun(s[1..]);
      assert forall i :: 1 <= i < n ==> s[..n][i] == s[1..][..n - 1][i - 1];
      n
    else 0
  }

  /** The base-10 value of a digit string, most significant digit first. */
  function DigitsValue(ds: string): nat
    requires AllDigits(ds)
  {
    if ds == [] then 0
    else
      assert AllDigits(ds[..|ds| - 1]) by {
        assert forall i :: 0 <= i < |ds| - 1 ==> ds[..|ds| - 1][i] == ds[i];
      }
      DigitsValue(ds[..|ds| - 1]) * 10 + DigitValue(ds[|ds| - 1])
  }

  /** `parseInt(s, 10)`: leading white space is skipped, one optional sign
      is read, then the longest run of decimal digits; anything after the
      run is ignored. With no digit at all the result is NaN (`None`). */
  function ParseInt(s: string): (r: Option<int>)
    ensures r.None? <==> var t := TrimStart(s);
      var u := if t != [] && (t[0] == '-' || t[0] == '+') then t[1..] else t;
      u == [] || !IsDigit(u[0])
  {
    var t := TrimStart(s);
    var negative := t != [] && t[0] == '-';
    var u := if t != [] && (t[0] == '-' || t[0] == '+') then t[1..] else t;
    var n := DigitRun(u);
    if n == 0 then None
    else
      var m: int := DigitsValue(u[..n]);
      Some(if negative then -m else m)
  }

  /** `String(n)` for a natural number. */
  function NatToString(n: nat): (s: string)
    ensures s != [] && AllDigits(s)
    ensures DigitsValue(s) == n
  {
    if n < 10 then
      var s := [DigitChar(n)];
      assert s[..0] == [];
      s
    else
      var p := NatToString(n / 10);
      var s := p + [DigitChar(n % 10)];
      assert s[..|s| - 1] == p;
      s
  }

  /** `String(n)` for an integer. */
  function IntToString(n: int): (s: string)
    ensures s != []
    ensures s[0] == '-' <==> n < 0
  {
    if n < 0 then "-" + NatToString(-n) else NatToString(n)
  }

  lemma DigitRunOf(ds: string, t: string)
    requires AllDigits(ds)
    requires t == [] || !IsDigit(t[0])
    ensures DigitRun(ds + t) == |ds|
    ensures (ds + t)[..|ds|] == ds
  {
    if ds != [] {
      DigitRunOf(ds[1..], t);
      assert (ds + t)[1..] == ds[1..] + t;
    }
  }

  /** `parseInt` reads back what `String` wrote, whatever non-digit text
      follows it. */
  lemma ParseIntRoundTrip(n: int, t: string)
    requires t == [] || !IsDigit(t[0])
    ensures ParseInt(IntToString(n) + t) == Some(n)
  {
    if n < 0 {
      var ds := NatToString(-n);
      assert IntToString(n) + t == ['-'] + (ds + t);
      ParseNegative(ds, t);
    } else {
      ParseNatural(NatToString(n), t);
    }
  }

  /** A run of digits followed by a non-digit reads as its value. */
  lemma ParseNatural(ds: string, t: string)
    requires ds != [] && AllDigits(ds)
    requires t == [] || !IsDigit(t[0])
    ensures ParseInt(ds + t) == Some(DigitsValue(ds))
  {
    var s := ds + t;
    assert s[0] == ds[0] && IsDigit(s[0]);
    assert TrimStart(s) == s;
    DigitRunOf(ds, t);
  }

  /** A minus sign, a run of digits and a non-digit read as the negated
      value. */
  lemma ParseNegative(ds: string, t: string)
    requires ds != [] && AllDigits(ds)
    requires t == [] || !IsDigit(t[0])
    ensures ParseInt(['-'] + (ds + t)) == Some(-(DigitsValue(ds) as int))
  {
    var s := ['-'] + (ds + t);
    assert s[0] == '-' && s[1..] == ds + t;
    assert TrimStart(s) == s;
    DigitRunOf(ds, t);
    NegatedRun(s, ds + t, |ds|);
  }

  /** A minus sign, then a run of `n` digits. */
  lemma NegatedRun(s: string, u: string, n: nat)
    requires s == ['-'] + u && TrimStart(s) == s
    requires 0 < n == DigitRun(u)
    ensures ParseInt(s) == Some(-(DigitsValue(u[..n]) as int))
  {
    assert s[0] == '-' && s[1..] == u;
  }

  /** Leading white space does not change what `parseInt` reads. */
  lemma ParseIntSkipsWhitespace(w: string, s: string)
    requires forall i :: 0 <= i < |w| ==> IsWhitespace(w[i])
    ensures ParseInt(w + s) == ParseInt(s)
  {
    TrimStartSkips(w, s);
  }

  lemma {:induction false} TrimStartSkips(w: string, s: string)
    requires forall i :: 0 <= i < |w| ==> IsWhitespace(w[i])
    ensures TrimStart(w + s) == TrimStart(s)
  {
    if w != [] {
      assert (w + s)[0] == w[0];
      assert (w + s)[1..] == w[1..] + s;
      assert TrimStart(w + s) == TrimStart(w[1..] + s);
      TrimStartSkips(w[1..], s);
    } else {
      assert w + s == s;
    }
  }

  /** `parseInt(filters.page || '1', 10)`: a missing or empty page reads as
      1, a non-numeric one as NaN. */
  function CurrentPage(values: FilterValues): (p: Option<int>)
    ensures ValueOf(values, "page") == "" || ValueOf(values, "page") == "1" ==> p == Some(1)
    ensures ValueOf(values, "page") != "" ==> p == ParseInt(ValueOf(values, "page"))
  {
    var raw := ValueOf(values, "page");
    var r := ParseInt(if raw == "" then "1" else raw);
    ParseIntRoundTrip(1, "");
    assert IntToString(1) + "" == "1";
    r
  }

  /** A page number written with `String` reads back as that number. */
  lemma PageReadsBack(values: FilterValues, p: int)
    requires ValueOf(values, "page") == IntToString(p)
    ensures CurrentPage(values) == Some(p)
  {
    ParseIntRoundTrip(p, "");
    assert IntToString(p) + "" == IntToString(p);
  }

  /** `handleFilterChange` as written: `{ ...prev, [id]: value, page: '1' }`.
      The trailing `page: '1'` also overwrites the value when `id` is
      `page`, which is how the pagination control reports a page change. */
  function FilterChangeAsWritten(values: FilterValues, id: string, v: string): (r: FilterValues)
    ensures ValueOf(r, "page") == "1"
    ensures id != "page" ==> ValueOf(r, id) == v
    ensures forall k :: k != id && k != "page" ==> ValueOf(r, k) == ValueOf(values, k)
  {
    values[id := v]["page" := "1"]
  }

  /** Whatever page the control asks for, the handler as written lands on
      page 1. */
  lemma PageNeverAdvances(values: FilterValues, p: int)
    ensures CurrentPage(FilterChangeAsWritten(values, "page", IntToString(p))) == Some(1)
  {
  }

  /** The concrete case: 30 sessions make two pages; on page 1 the next
      button is enabled and asks for page 2, yet the screen stays on page 1. */
  lemma NextButtonStaysOnFirstPage()
    ensures var values := map["page" := "1"];
      var tp := TotalPages(30, PageSize);
      && tp == 2
      && Next(CurrentPage(values), tp) == Some(2)
      && !NextDisabled(CurrentPage(values), tp)
      && CurrentPage(FilterChangeAsWritten(values, "page", IntToString(2))) == Some(1)
  {
    var values := map["page" := "1"];
    assert ValueOf(values, "page") == "1";
  }

  /** The evident intent: a page change stores the requested page; any
      other filter change stores its value and goes back to page 1. */
  function FilterChange(values: FilterValues, id: string, v: string): (r: FilterValues)
    ensures ValueOf(r, id) == v
    ensures id != "page" ==> ValueOf(r, "page") == "1"
    ensures forall k :: k != id && k != "page" ==> ValueOf(r, k) == ValueOf(values, k)
  {
    if id == "page" then values["page" := v] else values[id := v]["page" := "1"]
  }

  /** The corrected handler moves to the requested page, resets the page
      for every other filter, and agrees with the handler as written
      whenever the change is not a page change. */
  lemma FilterChangeMeaning(values: FilterValues, id: string, v: string, p: int)
    ensures CurrentPage(FilterChange(values, "page", IntToString(p))) == Some(p)
    ensures id != "page" ==> CurrentPage(FilterChange(values, id, v)) == Some(1)
    ensures id != "page" ==> FilterChange(values, id, v) == FilterChangeAsWritten(values, id, v)
  {
    PageReadsBack(FilterChange(values, "page", IntToString(p)), p);
  }

  /** With the corrected handler the previous and next buttons move exactly
      one page. */
  lemma NavigationMovesOnePage(values: FilterValues, totalPages: nat)
    ensures var cur := CurrentPage(values);
      Next(cur, totalPages).Some? ==>
        CurrentPage(FilterChange(values, "page", IntToString(Next(cur, totalPages).value))) == Some(cur.value + 1)
    ensures var cur := CurrentPage(values);
      Previous(cur).Some? ==>
        CurrentPage(FilterChange(values, "page", IntToString(Previous(cur).value))) == Some(cur.value - 1)
  {
    var cur := CurrentPage(values);
    if Next(cur, totalPages).Some? {
      FilterChangeMeaning(values, "page", "", Next(cur, totalPages).value);
    }
    if Previous(cur).Some? {
      FilterChangeMeaning(values, "page", "", Previous(cur).value);
    }
  }

  /** `handlePresetSelect`: both dates are written at once and the page goes
      back to 1. The two dates come from the clock and are parameters. */
  function PresetSelect(values: FilterValues, from: string, to: string): FilterValues {
    values["from" := from]["to" := to]["page" := "1"]
  }

  /** Picking a preset is the same as typing the two dates one after the
      other. */
  lemma PresetIsTwoChanges(values: FilterValues, from: string, to: string)
    ensures PresetSelect(values, from, to) == FilterChange(FilterChange(values, "from", from), "to", to)
    ensures CurrentPage(PresetSelect(values, from, to)) == Some(1)
    ensures ValueOf(PresetSelect(values, from, to), "from") == from
    ensures ValueOf(PresetSelect(values, from, to), "to") == to
  {
    var a := PresetSelect(values, from, to);
    var b := FilterChange(FilterChange(values, "from", from), "to", to);
    assert a.Keys == b.Keys;
    assert forall k :: k in a ==> a[k] == b[k];
  }

  /** The search parameters written back to the address bar: every filter
      with a non-empty value, except the page when it is 1. */
  function UrlParams(values: FilterValues): (params: map<string, string>)
    ensures forall k :: k in params ==> params[k] != ""
    ensures "page" in params ==> params["page"] != "1"
    ensures forall k :: k in values && values[k] != "" && (k != "page" || values[k] != "1") ==>
      k in params && params[k] == values[k]
    ensures params.Keys <= values.Keys
    ensures forall k :: k in params <==> k in values && values[k] != "" && (k != "page" || values[k] != "1")
    ensures forall k :: k in params ==> params[k] == values[k]
  {
    map k | k in values && values[k] != "" && (k != "page" || values[k] != "1") :: values[k]
  }

  /** The initial filter state: `{ page: '1' }`, then every search
      parameter on top. */
  function InitialFilters(params: map<string, string>): (values: FilterValues)
    ensures "page" in values
    ensures forall k :: k != "page" ==> ValueOf(values, k) == ValueOf(params, k)
    ensures ValueOf(values, "page") == if "page" in params then params["page"] else "1"
  {
    map["page" := "1"] + params
  }

  /** Reloading the screen from its own address loses nothing: every
      filter reads the same value and the page number is the same. */
  lemma ReloadPreserves(values: FilterValues)
    ensures var back := InitialFilters(UrlParams(values));
      && (forall k :: k != "page" ==> ValueOf(back, k) == ValueOf(values, k))
      && CurrentPage(back) == CurrentPage(values)
  {
    var back := InitialFilters(UrlParams(values));
    forall k | k != "page"
      ensures ValueOf(back, k) == ValueOf(values, k)
    {
      if k in values && values[k] == "" {
        assert k !in UrlParams(values);
      }
    }
    if ValueOf(values, "page") == "" || ValueOf(values, "page") == "1" {
      assert "page" !in UrlParams(values);
    }
  }

  /** Two filter states that agree on every configured filter. */
  predicate SameFilterValues(filters: seq<Filter>, a: FilterValues, b: FilterValues) {
    forall i :: 0 <= i < |filters| ==> ValueOf(a, filters[i].id) == ValueOf(b, filters[i].id)
  }

  /** The candidate query reads the filter state only at the configured
      filters' ids. */
  lemma {:induction false} BuildConstraintsLocal(filters: seq<Filter>, a: FilterValues, b: FilterValues, parse: DateParser)
    requires SameFilterValues(filters, a, b)
    ensures BuildConstraints(filters, a, parse) == BuildConstraints(filters, b, parse)
  {
    if filters != [] {
      assert ValueOf(a, filters[0].id) == ValueOf(b, filters[0].id);
      assert SameFilterValues(filters[1..], a, b) by {
        forall i | 0 <= i < |filters[1..]|
          ensures ValueOf(a, filters[1..][i].id) == ValueOf(b, filters[1..][i].id)
        {
          assert filters[1..][i] == filters[i + 1];
        }
      }
      BuildConstraintsLocal(filters[1..], a, b, parse);
    }
  }

  /** The special filter's value is read at a configured filter's id. */
  lemma SpecialValueLocal(config: TableConfig, a: FilterValues, b: FilterValues)
    requires SameFilterValues(config.filters, a, b)
    ensures SpecialValue(config, a) == SpecialValue(config, b)
  {
    var special := FindSelect(config.filters);
    if special.Some? {
      var i :| 0 <= i < |config.filters| && config.filters[i] == special.value;
      assert ValueOf(a, special.value.id) == ValueOf(b, special.value.id);
    }
  }

  lemma RefineLocal(config: TableConfig, table: seq<Row>, a: FilterValues, b: FilterValues, cands: seq<string>)
    requires SpecialValue(config, a) == SpecialValue(config, b)
    ensures Refine(config, table, a, cands) == Refine(config, table, b, cands)
  {
  }

  /** So does everything the screen and the export compute. */
  lemma ResolutionLocal(config: TableConfig, table: seq<Row>, a: FilterValues, b: FilterValues, parse: DateParser)
    requires SameFilterValues(config.filters, a, b)
    ensures ResolveSessions(config, table, a, parse) == ResolveSessions(config, table, b, parse)
    ensures FinalIds(config, table, a, parse) == FinalIds(config, table, b, parse)
  {
    BuildConstraintsLocal(config.filters, a, b, parse);
    SpecialValueLocal(config, a, b);
    var built := BuildConstraints(config.filters, a, parse);
    if built.Ok? {
      var base := Select(table, built.value);
      RefineLocal(config, table, a, b, Candidates(base));
      assert ResolveWith(config, table, a, built.value) == ResolveWith(config, table, b, built.value);
    }
  }

  lemma ExportLocal(config: TableConfig, table: seq<Row>, a: FilterValues, b: FilterValues, parse: DateParser)
    requires SameFilterValues(config.filters, a, b)
    ensures ExportCsv(Some(config), table, a, parse) == ExportCsv(Some(config), table, b, parse)
  {
    ResolutionLocal(config, table, a, b, parse);
  }

  /** A shared or reloaded address shows the same page of the same sessions
      and exports the same file, provided no configured filter is itself
      called `page`. */
  lemma ReloadShowsSameScreen(config: TableConfig, table: seq<Row>, values: FilterValues, parse: DateParser)
    requires forall i :: 0 <= i < |config.filters| ==> config.filters[i].id != "page"
    ensures var back := InitialFilters(UrlParams(values));
      && FetchMessages(Some(config), table, back, parse, CurrentPage(back))
         == FetchMessages(Some(config), table, values, parse, CurrentPage(values))
      && ExportCsv(Some(config), table, back, parse) == ExportCsv(Some(config), table, values, parse)
  {
    var back := InitialFilters(UrlParams(values));
    ReloadPreserves(values);
    ResolutionLocal(config, table, back, values, parse);
    ExportLocal(config, table, back, values, parse);
  }

  /** `handleFilterSubmit`: fetches page 1 with the current filters. */
  lemma SubmitShowsFirstPage(config: TableConfig, table: seq<Row>, values: FilterValues, parse: DateParser)
    ensures var s := FetchMessages(Some(config), table, values, parse, Some(1));
      s.Shown? ==> s.order == Page(ResolveSessions(config, table, values, parse).value.ids, PageSize, 1)
  {
  }
}
