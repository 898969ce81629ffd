/** CSV serialisation of the export: fields quoted as in section 2 (rules 6
    and 7) of RFC 4180, fields joined with commas, lines joined with a bare
    line feed. A reader for that format is given alongside so that the
    round trip can be stated: reading the serialised document gives back
    exactly the records that were written. The reader is more lenient than
    RFC 4180: a carriage return is ordinary text in an unquoted field, as
    `escapeCSV` leaves it (see `History.BareCarriageReturn`). */
module Csv {
  import opened Outcomes
  import opened Text

  /** `escapeCSV` quotes a field that contains a comma, a double quote or a
      line feed. A carriage return alone does not trigger quoting. */
  predicate NeedsQuoting(f: string) {
    exists i :: 0 <= i < |f| && IsSpecial(f[i])
  }

  /** `str.includes(',') || str.includes('"') || str.includes('\n')`,
      one character at a time. */
  predicate IsSpecial(c: char) {
    c == ',' || c == '"' || c == '\n'
  }

  /** A character that ends an unquoted field. A carriage return is not
      one: this is the dialect the export writes, not RFC 4180's. */
  predicate IsDelimiter(c: char) {
    c == ',' || c == '\n'
  }

  /** `str.replace(/"/g, '""')`. */
  function DoubleQuotes(s: string): (r: string)
    ensures |r| >= |s|
    ensures (forall i :: 0 <= i < |s| ==> s[i] != '"') ==> r == s
  {
    if s == [] then []
    else (if s[0] == '"' then "\"\"" else [s[0]]) + DoubleQuotes(s[1..])
  }

  /** `escapeCSV`. */
  function Escape(f: string): (e: string)
    ensures !NeedsQuoting(f) ==> e == f
    ensures NeedsQuoting(f) ==> |e| >= 2 && e[0] == '"' && e[|e| - 1] == '"'
  {
    if NeedsQuoting(f) then "\"" + DoubleQuotes(f) + "\"" else f
  }

  /** Reads the rest of a quoted field, just after its opening quote: a
      doubled quote stands for one quote, a lone quote closes the field.
      Returns the field and the input after the closing quote. */
  function ReadQuoted(s: string): (res: Option<(string, string)>)
    ensures res.Some? ==> |res.value.1| < |s|
    decreases |s|
  {
    if s == [] then None
    else if s[0] == '"' then
      if |s| >= 2 && s[1] == '"' then
        match ReadQuoted(s[2..])
        case None => None
        case Some((c, rest)) => Some(("\"" + c, rest))
      else Some(("", s[1..]))
    else
      match ReadQuoted(s[1..])
      case None => None
      case Some((c, rest)) => Some(([s[0]] + c, rest))
  }

  /** Reads an unquoted field: everything up to the next comma or line feed. */
  function ReadUnquoted(s: string): (res: (string, string))
    ensures |res.1| <= |s|
    ensures res.1 == [] || IsDelimiter(res.1[0])
  {
    if s == [] || IsDelimiter(s[0]) then ("", s)
    else
      var r := ReadUnquoted(s[1..]);
      ([s[0]] + r.0, r.1)
  }

  predicate Undelimited(f: string) {
    forall i :: 0 <= i < |f| ==> !IsDelimiter(f[i])
  }

  /** The unquoted field and the input after it make up the input, and the
      field stops at the first comma or line feed. */
  lemma {:induction false} UnquotedSplits(s: string)
    ensures ReadUnquoted(s).0 + ReadUnquoted(s).1 == s
    ensures Undelimited(ReadUnquoted(s).0)
  {
    if s != [] && !IsDelimiter(s[0]) {
      UnquotedSplits(s[1..]);
      var r := ReadUnquoted(s[1..]);
      assert ReadUnquoted(s) == ([s[0]] + r.0, r.1);
      UnquotedCons(s, r.0, r.1);
    }
  }

  lemma UnquotedCons(s: string, f: string, rest: string)
    requires s != [] && !IsDelimiter(s[0])
    requires f + rest == s[1..] && Undelimited(f)
    ensures ([s[0]] + f) + rest == s && Undelimited([s[0]] + f)
  {
    var g := [s[0]] + f;
    assert s == [s[0]] + s[1..];
    forall i | 0 <= i < |g|
      ensures !IsDelimiter(g[i])
    {
      if i > 0 {
        assert g[i] == f[i - 1];
      }
    }
  }

  function ReadField(s: string): (res: Option<(string, string)>)
    ensures res.Some? ==> |res.value.1| <= |s|
  {
    if s != [] && s[0] == '"' then ReadQuoted(s[1..]) else Some(ReadUnquoted(s))
  }

  /** Reads the comma-separated fields of one record, up to (not past) the
      line feed that ends it or the end of the input. */
  function ReadFields(s: string): (res: Option<(seq<string>, string)>)
    ensures res.Some? ==> |res.value.0| >= 1 && |res.value.1| <= |s|
    ensures res.Some? ==> res.value.1 == [] || res.value.1[0] == '\n'
    decreases |s|
  {
    match ReadField(s)
    case None => None
    case Some((f, rest)) =>
      if rest != [] && rest[0] == ',' then
        match ReadFields(rest[1..])
        case None => None
        case Some((fs, after)) => Some(([f] + fs, after))
      else if rest == [] || rest[0] == '\n' then Some(([f], rest))
      else None
  }

  /** Reads a whole document: records separated by line feeds. */
  function ParseDocument(s: string): (res: Option<seq<seq<string>>>)
    ensures res.Some? ==> |res.value| >= 1
    decreases |s|
  {
    match ReadFields(s)
    case None => None
    case Some((fs, rest)) =>
      if rest == [] then Some([fs])
      else
        match ParseDocument(rest[1..])
        case None => None
        case Some(records) => Some([fs] + records)
  }

  function EscapeAll(fields: seq<string>): (r: seq<string>)
    ensures |r| == |fields|
    ensures forall i :: 0 <= i < |fields| ==> r[i] == Escape(fields[i])
  {
    if fields == [] then [] else [Escape(fields[0])] + EscapeAll(fields[1..])
  }

  /** One line of the file: `row.join(',')` over the escaped fields. */
  function Line(fields: seq<string>): string {
    Join(EscapeAll(fields), ",")
  }

  function Lines(records: seq<seq<string>>): (r: seq<string>)
    ensures |r| == |records|
    ensures forall i :: 0 <= i < |records| ==> r[i] == Line(records[i])
  {
    if records == [] then [] else [Line(records[0])] + Lines(records[1..])
  }

  /** The file: `csvRows.join('\n')`. */
  function Document(records: seq<seq<string>>): string {
    Join(Lines(records), "\n")
  }

  lemma {:induction false} QuotedRoundTrip(f: string, rest: string)
    requires rest == [] || rest[0] != '"'
    ensures ReadQuoted(DoubleQuotes(f) + "\"" + rest) == Some((f, rest))
  {
    var s := DoubleQuotes(f) + "\"" + rest;
    if f == [] {
      assert s == ['"'] + rest;
      assert s[1..] == rest;
      assert !(|s| >= 2 && s[1] == '"');
    } else {
      var t := DoubleQuotes(f[1..]) + "\"" + rest;
      QuotedRoundTrip(f[1..], rest);
      if f[0] == '"' {
        assert DoubleQuotes(f) == "\"\"" + DoubleQuotes(f[1..]);
        QuotedSplice("\"\"", DoubleQuotes(f[1..]), rest);
        QuotedPairStep(s, t, f[1..], rest);
      } else {
        assert DoubleQuotes(f) == [f[0]] + DoubleQuotes(f[1..]);
        QuotedSplice([f[0]], DoubleQuotes(f[1..]), rest);
        QuotedCharStep(s, t, f[1..], rest);
      }
      assert [f[0]] + f[1..] == f;
    }
  }

  lemma QuotedSplice(head: string, body: string, rest: string)
    ensures (head + body) + "\"" + rest == head + (body + "\"" + rest)
    ensures (head + (body + "\"" + rest))[|head|..] == body + "\"" + rest
  {
  }

  /** A doubled quote inside a quoted field reads as one quote. */
  lemma QuotedPairStep(s: string, t: string, c: string, rest: string)
    requires |s| >= 2 && s[0] == '"' && s[1] == '"' && s[2..] == t
    requires ReadQuoted(t) == Some((c, rest))
    ensures ReadQuoted(s) == Some(("\"" + c, rest))
  {
  }

  /** Any other character inside a quoted field reads as itself. */
  lemma QuotedCharStep(s: string, t: string, c: string, rest: string)
    requires s != [] && s[0] != '"' && s[1..] == t
    requires ReadQuoted(t) == Some((c, rest))
    ensures ReadQuoted(s) == Some(([s[0]] + c, rest))
  {
  }

  lemma {:induction false} UnquotedRoundTrip(f: string, rest: string)
    requires Undelimited(f)
    requires rest == [] || IsDelimiter(rest[0])
    ensures ReadUnquoted(f + rest) == (f, rest)
  {
    if f == [] {
      assert f + rest == rest;
    } else {
      var s := f + rest;
      assert s[0] == f[0];
      assert !IsDelimiter(s[0]);
      assert s[1..] == f[1..] + rest;
      assert forall i :: 0 <= i < |f[1..]| ==> f[1..][i] == f[i + 1];
      UnquotedRoundTrip(f[1..], rest);
      assert [f[0]] + f[1..] == f;
    }
  }

  /** An escaped field followed by a comma, a line feed or nothing reads
      back as the original field, with the input after it untouched. */
  lemma FieldRoundTrip(f: string, rest: string)
    requires rest == [] || IsDelimiter(rest[0])
    ensures ReadField(Escape(f) + rest) == Some((f, rest))
  {
    if NeedsQuoting(f) {
      QuotedFieldRoundTrip(f, rest);
    } else {
      PlainFieldRoundTrip(f, rest);
    }
  }

  lemma QuotedFieldRoundTrip(f: string, rest: string)
    requires NeedsQuoting(f)
    requires rest == [] || IsDelimiter(rest[0])
    ensures ReadField(Escape(f) + rest) == Some((f, rest))
  {
    var d := DoubleQuotes(f);
    QuotedRoundTrip(f, rest);
    QuoteWrap(d, rest);
    ReadFieldQuoted(Escape(f) + rest, d + "\"" + rest, f, rest);
  }

  lemma QuoteWrap(d: string, rest: string)
    ensures ("\"" + d + "\"") + rest == ['"'] + (d + "\"" + rest)
  {
  }

  lemma ReadFieldQuoted(s: string, t: string, f: string, rest: string)
    requires s == ['"'] + t
    requires ReadQuoted(t) == Some((f, rest))
    ensures ReadField(s) == Some((f, rest))
  {
    assert s[1..] == t;
  }

  lemma PlainFieldRoundTrip(f: string, rest: string)
    requires !NeedsQuoting(f)
    requires rest == [] || IsDelimiter(rest[0])
    ensures ReadField(Escape(f) + rest) == Some((f, rest))
  {
    var s := f + rest;
    assert forall i :: 0 <= i < |f| ==> !IsSpecial(f[i]);
    UnquotedRoundTrip(f, rest);
    if s != [] && f != [] {
      assert s[0] == f[0] && !IsSpecial(f[0]);
    }
  }

  /** `escapeCSV` is injective: distinct fields are written differently. */
  lemma EscapeInjective(a: string, b: string)
    ensures Escape(a) == Escape(b) ==> a == b
  {
    FieldRoundTrip(a, []);
    FieldRoundTrip(b, []);
    assert Escape(a) + [] == Escape(a);
    assert Escape(b) + [] == Escape(b);
  }

  lemma {:induction false} FieldsRoundTrip(fields: seq<string>, rest: string)
    requires |fields| >= 1
    requires rest == [] || rest[0] == '\n'
    ensures ReadFields(Line(fields) + rest) == Some((fields, rest))
    decreases |fields|
  {
    if |fields| == 1 {
      LastFieldRoundTrip(fields, rest);
    } else {
      FieldsRoundTrip(fields[1..], rest);
      NextFieldRoundTrip(fields, rest);
    }
  }

  lemma LastFieldRoundTrip(fields: seq<string>, rest: string)
    requires |fields| == 1
    requires rest == [] || rest[0] == '\n'
    ensures ReadFields(Line(fields) + rest) == Some((fields, rest))
  {
    var s := Line(fields) + rest;
    assert EscapeAll(fields) == [Escape(fields[0])];
    assert Line(fields) == Escape(fields[0]);
    FieldRoundTrip(fields[0], rest);
    assert ReadField(s) == Some((fields[0], rest));
    assert [fields[0]] == fields;
  }

  lemma NextFieldRoundTrip(fields: seq<string>, rest: string)
    requires |fields| >= 2
    requires rest == [] || rest[0] == '\n'
    requires ReadFields(Line(fields[1..]) + rest) == Some((fields[1..], rest))
    ensures ReadFields(Line(fields) + rest) == Some((fields, rest))
  {
    var e := Escape(fields[0]);
    var more := Line(fields[1..]);
    LineCons(fields);
    FieldRoundTrip(fields[0], "," + more + rest);
    CommaStep(fields[0], e, more, rest, fields[1..]);
    assert [fields[0]] + fields[1..] == fields;
  }

  /** A field, a comma, and the fields after it. */
  lemma CommaStep(f: string, e: string, more: string, rest: string, fs: seq<string>)
    requires ReadField(e + ("," + more + rest)) == Some((f, "," + more + rest))
    requires ReadFields(more + rest) == Some((fs, rest))
    ensures ReadFields(e + "," + more + rest) == Some(([f] + fs, rest))
  {
    CommaSplice(e, more, rest);
    ReadFieldsStep(e + ("," + more + rest), f, "," + more + rest, fs, rest);
  }

  lemma CommaSplice(e: string, more: string, rest: string)
    ensures e + "," + more + rest == e + ("," + more + rest)
    ensures ("," + more + rest)[1..] == more + rest
  {
  }

  lemma LineCons(fields: seq<string>)
    requires |fields| >= 2
    ensures Line(fields) == Escape(fields[0]) + "," + Line(fields[1..])
  {
    assert EscapeAll(fields) == [Escape(fields[0])] + EscapeAll(fields[1..]);
    JoinCons(Escape(fields[0]), EscapeAll(fields[1..]), ",");
  }

  /** A field followed by a comma, then the fields after it. */
  lemma ReadFieldsStep(s: string, f: string, tail: string, fs: seq<string>, after: string)
    requires ReadField(s) == Some((f, tail))
    requires tail != [] && tail[0] == ','
    requires ReadFields(tail[1..]) == Some((fs, after))
    ensures ReadFields(s) == Some(([f] + fs, after))
  {
  }

  /** The CSV round trip: every document written from records of at least
      one field reads back as exactly those records. */
  lemma {:induction false} DocumentRoundTrip(records: seq<seq<string>>)
    requires |records| >= 1
    requires forall i :: 0 <= i < |records| ==> |records[i]| >= 1
    ensures ParseDocument(Document(records)) == Some(records)
    decreases |records|
  {
    if |records| == 1 {
      LastRecordRoundTrip(records);
    } else {
      var rest := "\n" + Document(records[1..]);
      DocumentCons(records);
      FieldsRoundTrip(records[0], rest);
      DocumentRoundTrip(records[1..]);
      assert rest[1..] == Document(records[1..]);
      ParseDocumentStep(Document(records), records[0], rest, records[1..]);
      assert [records[0]] + records[1..] == records;
    }
  }

  lemma LastRecordRoundTrip(records: seq<seq<string>>)
    requires |records| == 1 && |records[0]| >= 1
    ensures ParseDocument(Document(records)) == Some(records)
  {
    var s := Document(records);
    assert Lines(records) == [Line(records[0])];
    assert s == Line(records[0]) + [];
    FieldsRoundTrip(records[0], []);
    assert [records[0]] == records;
  }

  lemma DocumentCons(records: seq<seq<string>>)
    requires |records| >= 2
    ensures Document(records) == Line(records[0]) + ("\n" + Document(records[1..]))
  {
    assert Lines(records) == [Line(records[0])] + Lines(records[1..]);
    JoinCons(Line(records[0]), Lines(records[1..]), "\n");
  }

  /** A record, a line feed, and the records after it. */
  lemma ParseDocumentStep(s: string, fs: seq<string>, rest: string, records: seq<seq<string>>)
    requires ReadFields(s) == Some((fs, rest))
    requires rest != [] && ParseDocument(rest[1..]) == Some(records)
    ensures ParseDocument(s) == Some([fs] + records)
  {
  }
}
