/** How a message cell is shown. The payload's text is cut into the user's
    and the assistant's turns when it reads as a dialogue; each turn is cut
    into lines at the two characters backslash and `n`; and each line into
    plain text and Markdown links `[text](http…)`. */
module MessageText {
  import opened Outcomes
  import opened Text
  import opened Records

  /** One piece of a shown line: plain text, or a link with its label and
      its target. */
  datatype Token = Plain(s: string) | Link(text: string, url: string)

  /** What the cell shows. */
  datatype View =
    | NoMessage
    | Monologue(lines: seq<seq<Token>>)
    | Dialogue(human: seq<seq<Token>>, ai: seq<seq<Token>>)

  // ---------------------------------------------------------------------
  // Markdown links: the expression \[([^\]]+)\]\((https?:\/\/[^\s)]+)\)

  predicate IsLabelChar(c: char) {
    c != ']'
  }

  predicate IsUrlChar(c: char) {
    !IsWhitespace(c) && c != ')'
  }

  /** A label the expression accepts between the brackets. */
  predicate IsLabel(text: string) {
    text != [] && forall k :: 0 <= k < |text| ==> IsLabelChar(text[k])
  }

  /** A target the expression accepts between the parentheses: `http://` or
      `https://` and at least one more character, none of them whitespace
      or a closing parenthesis. */
  predicate IsUrl(url: string) {
    && SchemeLength(url, 0) != 0
    && |url| > SchemeLength(url, 0)
    && forall k :: 0 <= k < |url| ==> IsUrlChar(url[k])
  }

  predicate WellFormed(t: Token) {
    match t
    case Plain(s) => s != []
    case Link(text, url) => IsLabel(text) && IsUrl(url)
  }

  /** The characters a token stands for in the message. */
  function Source(t: Token): string {
    match t
    case Plain(s) => s
    case Link(text, url) => "[" + text + "](" + url + ")"
  }

  function Unparse(toks: seq<Token>): string {
    if toks == [] then "" else Source(toks[0]) + Unparse(toks[1..])
  }

  /** A link match: its label, its target, and the index just past it. */
  datatype LinkMatch = LinkMatch(text: string, url: string, end: nat)

  /** End of the run of label characters from `i`. */
  function LabelEnd(s: string, i: nat): (j: nat)
    requires i <= |s|
    ensures i <= j <= |s|
    decreases |s| - i
  {
    if i < |s| && IsLabelChar(s[i]) then LabelEnd(s, i + 1) else i
  }

  /** End of the run of target characters from `i`. */
  function UrlEnd(s: string, i: nat): (j: nat)
    requires i <= |s|
    ensures i <= j <= |s|
    decreases |s| - i
  {
    if i < |s| && IsUrlChar(s[i]) then UrlEnd(s, i + 1) else i
  }

  /** Length of the `http://` or `https://` at `i`, or 0. */
  function SchemeLength(s: string, i: nat): nat {
    if OccursAt(s, "https://", i) then 8 else if OccursAt(s, "http://", i) then 7 else 0
  }

  /** The link the expression matches at index `i` of `s`, if any. Each
      quantifier is followed by a character it cannot consume, so the
      match at a given index is unique and backtracking never changes it. */
  function LinkAt(s: string, i: nat): Option<LinkMatch>
  {
    if !(i < |s| && s[i] == '[') then None
    else
      var j := LabelEnd(s, i + 1);
      if j == i + 1 || j + 1 >= |s| || s[j + 1] != '(' then None
      else
        var k := j + 2;
        var n := SchemeLength(s, k);
        if n == 0 then None
        else
          var e := UrlEnd(s, k + n);
          if e == k + n || e == |s| || s[e] != ')' then None
          else Some(LinkMatch(s[i + 1..j], s[k..e], e + 1))
  }

  /** What a match stands for: a well-formed link written at `i`, ending
      just before the index it reports. */
  lemma LinkAtWritten(s: string, i: nat, m: LinkMatch)
    requires LinkAt(s, i) == Some(m)
    ensures i < m.end <= |s|
    ensures IsLabel(m.text) && IsUrl(m.url)
    ensures s[i..m.end] == Source(Link(m.text, m.url))
  {
    var j, n, e := LinkAtShape(s, i);
    WrittenAt(s, i, j, n, e);
  }

  /** The characters at the indices of a match spell its link. */
  lemma WrittenAt(s: string, i: nat, j: nat, n: nat, e: nat)
    requires i < |s| && s[i] == '['
    requires i + 1 <= |s| && j == LabelEnd(s, i + 1) && i + 1 < j && j + 1 < |s| && s[j + 1] == '('
    requires n == SchemeLength(s, j + 2) && n != 0
    requires j + 2 + n <= |s| && e == UrlEnd(s, j + 2 + n) && j + 2 + n < e < |s| && s[e] == ')'
    ensures IsLabel(s[i + 1..j]) && IsUrl(s[j + 2..e])
    ensures s[i..e + 1] == Source(Link(s[i + 1..j], s[j + 2..e]))
  {
    LabelEndFacts(s, i + 1);
    UrlEndFacts(s, j + 2 + n);
    LinkAtSound(s, i, j, j + 2, n, e);
  }

  /** The indices a match of `LinkAt` was found at. */
  lemma LinkAtShape(s: string, i: nat) returns (j: nat, n: nat, e: nat)
    requires LinkAt(s, i).Some?
    ensures i < |s| && s[i] == '['
    ensures i + 1 <= |s| && j == LabelEnd(s, i + 1) && i + 1 < j && j + 1 < |s| && s[j + 1] == '('
    ensures n == SchemeLength(s, j + 2) && n != 0
    ensures j + 2 + n <= |s| && e == UrlEnd(s, j + 2 + n) && j + 2 + n < e < |s| && s[e] == ')'
    ensures LinkAt(s, i) == Some(LinkMatch(s[i + 1..j], s[j + 2..e], e + 1))
  {
    j := LabelEnd(s, i + 1);
    n := SchemeLength(s, j + 2);
    e := UrlEnd(s, j + 2 + n);
  }

  lemma LinkAtSound(s: string, i: nat, j: nat, k: nat, n: nat, e: nat)
    requires i + 1 < j && j + 1 < |s| && k == j + 2 && k + n < e < |s|
    requires s[i] == '[' && s[j] == ']' && s[j + 1] == '(' && s[e] == ')'
    requires forall p :: i + 1 <= p < j ==> IsLabelChar(s[p])
    requires n == SchemeLength(s, k) && n != 0
    requires forall p :: k + n <= p < e ==> IsUrlChar(s[p])
    ensures IsLabel(s[i + 1..j]) && IsUrl(s[k..e])
    ensures s[i..e + 1] == Source(Link(s[i + 1..j], s[k..e]))
  {
    var text := s[i + 1..j];
    var url := s[k..e];
    forall p | 0 <= p < |text|
      ensures IsLabelChar(text[p])
    {
      assert text[p] == s[i + 1 + p];
    }
    UrlSound(s, k, n, e);
    assert s[i..e + 1] == s[i..i + 1] + text + s[j..k] + url + s[e..e + 1];
    assert s[i..i + 1] == "[";
    assert s[j..k] == "](";
    assert s[e..e + 1] == ")";
  }

  lemma UrlSound(s: string, k: nat, n: nat, e: nat)
    requires k + n < e <= |s|
    requires n == SchemeLength(s, k) && n != 0
    requires forall p :: k + n <= p < e ==> IsUrlChar(s[p])
    ensures IsUrl(s[k..e])
  {
    var url := s[k..e];
    var scheme := if n == 8 then "https://" else "http://";
    assert s[k..k + n] == scheme;
    assert url[..n] == scheme;
    forall p | 0 <= p < |url|
      ensures IsUrlChar(url[p])
    {
      if p >= n {
        assert url[p] == s[k + p];
      } else {
        assert url[p] == scheme[p];
      }
    }
  }

  /** The other direction: wherever a well-formed link is written, the
      expression matches exactly that link there. */
  lemma LinkRecognised(s: string, i: nat, text: string, url: string)
    requires IsLabel(text) && IsUrl(url)
    requires OccursAt(s, Source(Link(text, url)), i)
    ensures LinkAt(s, i) == Some(LinkMatch(text, url, i + |Source(Link(text, url))|))
  {
    assert |Source(Link(text, url))| == |text| + |url| + 4;
    LinkPieces(s, i, text, url);
    RecognisedFromPieces(s, i, text, url);
  }

  lemma RecognisedFromPieces(s: string, i: nat, text: string, url: string)
    requires IsLabel(text) && IsUrl(url)
    requires i + |text| + |url| + 3 < |s|
    requires s[i] == '[' && s[i + 1..i + 1 + |text|] == text
    requires s[i + 1 + |text|] == ']' && s[i + 2 + |text|] == '('
    requires s[i + 3 + |text|..i + 3 + |text| + |url|] == url
    requires s[i + 3 + |text| + |url|] == ')'
    ensures LinkAt(s, i) == Some(LinkMatch(text, url, i + |text| + |url| + 4))
  {
    var j := i + 1 + |text|;
    var k := j + 2;
    var e := k + |url|;
    LabelRead(s, i + 1, text);
    var n := SchemeLength(url, 0);
    SchemeOf(s, k, url);
    UrlRead(s, k, n, url);
    LinkAtWhen(s, i, j, n, e, text, url);
  }

  /** The match `LinkAt` finds once each of its checks passes. */
  lemma LinkAtWhen(s: string, i: nat, j: nat, n: nat, e: nat, text: string, url: string)
    requires i < |s| && s[i] == '['
    requires i + 1 <= |s| && LabelEnd(s, i + 1) == j && j != i + 1 && j + 1 < |s| && s[j + 1] == '('
    requires SchemeLength(s, j + 2) == n && n != 0
    requires j + 2 + n <= |s| && UrlEnd(s, j + 2 + n) == e && e != j + 2 + n && e < |s| && s[e] == ')'
    requires s[i + 1..j] == text && s[j + 2..e] == url
    ensures LinkAt(s, i) == Some(LinkMatch(text, url, e + 1))
  {
  }

  /** A label written at `i` and closed by a bracket is read whole. */
  lemma LabelRead(s: string, i: nat, text: string)
    requires IsLabel(text)
    requires i + |text| < |s| && s[i..i + |text|] == text && s[i + |text|] == ']'
    ensures LabelEnd(s, i) == i + |text|
  {
    forall p | i <= p < i + |text|
      ensures IsLabelChar(s[p])
    {
      assert s[p] == text[p - i];
    }
    LabelEndAt(s, i, i + |text|);
  }

  /** A target written at `k` and closed by a parenthesis is read whole. */
  lemma UrlRead(s: string, k: nat, n: nat, url: string)
    requires IsUrl(url) && n < |url|
    requires k + |url| < |s| && s[k..k + |url|] == url && s[k + |url|] == ')'
    ensures UrlEnd(s, k + n) == k + |url|
  {
    forall p | k + n <= p < k + |url|
      ensures IsUrlChar(s[p])
    {
      assert s[p] == url[p - k];
    }
    UrlEndAt(s, k + n, k + |url|);
  }

  /** Where the characters of a written link sit. */
  lemma LinkPieces(s: string, i: nat, text: string, url: string)
    requires OccursAt(s, Source(Link(text, url)), i)
    ensures i + |text| + |url| + 3 < |s|
    ensures s[i] == '[' && s[i + 1..i + 1 + |text|] == text
    ensures s[i + 1 + |text|] == ']' && s[i + 2 + |text|] == '('
    ensures s[i + 3 + |text|..i + 3 + |text| + |url|] == url
    ensures s[i + 3 + |text| + |url|] == ')'
  {
    var src := Source(Link(text, url));
    var t := |text|;
    assert s[i..i + |src|] == src;
    forall p | 0 <= p < |src|
      ensures s[i + p] == src[p]
    {
      assert s[i..i + |src|][p] == s[i + p];
    }
    forall p | 0 <= p < t
      ensures s[i + 1 + p] == text[p]
    {
      assert src[1 + p] == text[p];
    }
    forall p | 0 <= p < |url|
      ensures s[i + 3 + t + p] == url[p]
    {
      assert src[3 + t + p] == url[p];
    }
    assert src[0] == '[' && src[1 + t] == ']' && src[2 + t] == '(' && src[3 + t + |url|] == ')';
    assert s[i + 1..i + 1 + t] == text;
    assert s[i + 3 + t..i + 3 + t + |url|] == url;
  }

  /** The run of label characters stops at the first character that is not
      one, and only there. */
  lemma {:induction false} LabelEndAt(s: string, i: nat, j: nat)
    requires i <= j < |s|
    requires forall p :: i <= p < j ==> IsLabelChar(s[p])
    requires !IsLabelChar(s[j])
    ensures LabelEnd(s, i) == j
    decreases j - i
  {
    if i < j {
      LabelEndAt(s, i + 1, j);
    }
  }

  lemma {:induction false} LabelEndFacts(s: string, i: nat)
    requires i <= |s|
    ensures forall p :: i <= p < LabelEnd(s, i) ==> IsLabelChar(s[p])
    ensures LabelEnd(s, i) < |s| ==> !IsLabelChar(s[LabelEnd(s, i)])
    decreases |s| - i
  {
    if i < |s| && IsLabelChar(s[i]) {
      LabelEndFacts(s, i + 1);
    }
  }

  lemma {:induction false} UrlEndAt(s: string, i: nat, j: nat)
    requires i <= j < |s|
    requires forall p :: i <= p < j ==> IsUrlChar(s[p])
    requires !IsUrlChar(s[j])
    ensures UrlEnd(s, i) == j
    decreases j - i
  {
    if i < j {
      UrlEndAt(s, i + 1, j);
    }
  }

  lemma {:induction false} UrlEndFacts(s: string, i: nat)
    requires i <= |s|
    ensures forall p :: i <= p < UrlEnd(s, i) ==> IsUrlChar(s[p])
    ensures UrlEnd(s, i) < |s| ==> !IsUrlChar(s[UrlEnd(s, i)])
    decreases |s| - i
  {
    if i < |s| && IsUrlChar(s[i]) {
      UrlEndFacts(s, i + 1);
    }
  }

  /** A target written at `k` starts with the scheme the expression reads. */
  lemma SchemeOf(s: string, k: nat, url: string)
    requires IsUrl(url)
    requires k + |url| <= |s| && s[k..k + |url|] == url
    ensures SchemeLength(s, k) == SchemeLength(url, 0)
  {
    assert s[k..k + 8] == url[..8];
    assert s[k..k + 7] == url[..7];
  }

  /** The tokens of `s` from index `start` on, where the search for the next
      link has reached `i`: the global `exec` loop finds the leftmost match,
      pushes the text before it (when there is any) and the link, and
      resumes after the match; the rest of the text is pushed at the end. */
  function Scan(s: string, start: nat, i: nat): seq<Token>
    requires start <= i <= |s|
    decreases |s| - i
  {
    var before := Before(s, start, i);
    if i == |s| then before
    else
      match LinkAt(s, i)
      case Some(m) => before + [Link(m.text, m.url)] + Scan(s, m.end, m.end)
      case None => Scan(s, start, i + 1)
  }

  /** The text pushed before a match at `i`, when there is any. */
  function Before(s: string, start: nat, i: nat): (toks: seq<Token>)
    requires start <= i <= |s|
    ensures Unparse(toks) == s[start..i]
  {
    if start < i then [Plain(s[start..i])] else []
  }

  /** `processText(line)`. */
  function Tokenize(s: string): seq<Token> {
    Scan(s, 0, 0)
  }

  lemma {:induction false} UnparseAppend(a: seq<Token>, b: seq<Token>)
    ensures Unparse(a + b) == Unparse(a) + Unparse(b)
    decreases |a|
  {
    if a != [] {
      assert (a + b)[0] == a[0];
      assert (a + b)[1..] == a[1..] + b;
      UnparseAppend(a[1..], b);
      calc {
        Unparse(a + b);
        Source(a[0]) + Unparse(a[1..] + b);
        Source(a[0]) + (Unparse(a[1..]) + Unparse(b));
        (Source(a[0]) + Unparse(a[1..])) + Unparse(b);
      }
    } else {
      assert a + b == b;
    }
  }

  lemma {:induction false} ScanRoundTrip(s: string, start: nat, i: nat)
    requires start <= i <= |s|
    ensures Unparse(Scan(s, start, i)) == s[start..]
    decreases |s| - i
  {
    if i == |s| {
      assert s[start..] == s[start..i];
    } else if LinkAt(s, i).Some? {
      var m := LinkAt(s, i).value;
      LinkAtWritten(s, i, m);
      ScanRoundTrip(s, m.end, m.end);
      RoundTripLink(s, start, i, m);
    } else {
      ScanRoundTrip(s, start, i + 1);
    }
  }

  lemma RoundTripLink(s: string, start: nat, i: nat, m: LinkMatch)
    requires start <= i < |s|
    requires LinkAt(s, i) == Some(m)
    requires Unparse(Scan(s, m.end, m.end)) == s[m.end..]
    ensures Unparse(Scan(s, start, i)) == s[start..]
  {
    var before := Before(s, start, i);
    var link := [Link(m.text, m.url)];
    var rest := Scan(s, m.end, m.end);
    ScanLinkStep(s, start, i, m);
    LinkAtWritten(s, i, m);
    UnparseSingle(Link(m.text, m.url));
    UnparseAppend(before, link);
    UnparseAppend(before + link, rest);
    SliceThree(s, start, i, m.end);
  }

  lemma UnparseSingle(t: Token)
    ensures Unparse([t]) == Source(t)
  {
    assert [t][1..] == [];
  }

  lemma SliceThree(s: string, a: nat, b: nat, c: nat)
    requires a <= b <= c <= |s|
    ensures s[a..] == s[a..b] + s[b..c] + s[c..]
  {
  }

  lemma ScanSkip(s: string, start: nat, i: nat)
    requires start <= i < |s|
    requires LinkAt(s, i).None?
    ensures Scan(s, start, i) == Scan(s, start, i + 1)
  {
  }

  lemma ScanLinkStep(s: string, start: nat, i: nat, m: LinkMatch)
    requires start <= i < |s|
    requires LinkAt(s, i) == Some(m)
    ensures Scan(s, start, i) == Before(s, start, i) + [Link(m.text, m.url)] + Scan(s, m.end, m.end)
  {
  }

  /** Printing the tokens of a line gives the line back: nothing is lost or
      added, a link's label and target are its characters between the
      brackets and between the parentheses. */
  lemma TokenizeRoundTrip(s: string)
    ensures Unparse(Tokenize(s)) == s
  {
    ScanRoundTrip(s, 0, 0);
  }

  /** Every token is well formed, and the text between two links is pushed
      as one piece, so two plain pieces are never adjacent. */
  predicate WellFormedTokens(toks: seq<Token>) {
    && (forall k :: 0 <= k < |toks| ==> WellFormed(toks[k]))
    && (forall k :: 0 < k < |toks| ==> toks[k - 1].Link? || toks[k].Link?)
  }

  lemma WellFormedPrepend(t: Token, toks: seq<Token>)
    requires WellFormed(t) && WellFormedTokens(toks)
    requires t.Link? || toks == [] || toks[0].Link?
    ensures WellFormedTokens([t] + toks)
  {
    var all := [t] + toks;
    forall k | 0 < k < |all|
      ensures all[k - 1].Link? || all[k].Link?
    {
      assert all[k] == toks[k - 1];
      if k > 1 {
        assert all[k - 1] == toks[k - 2];
      }
    }
    forall k | 0 <= k < |all|
      ensures WellFormed(all[k])
    {
      if k > 0 {
        assert all[k] == toks[k - 1];
      }
    }
  }

  lemma {:induction false} ScanWellFormed(s: string, start: nat, i: nat)
    requires start <= i <= |s|
    ensures WellFormedTokens(Scan(s, start, i))
    decreases |s| - i
  {
    if i == |s| {
      assert Scan(s, start, i) == Before(s, start, i);
    } else if LinkAt(s, i).Some? {
      var m := LinkAt(s, i).value;
      LinkAtWritten(s, i, m);
      ScanWellFormed(s, m.end, m.end);
      ScanLinkStep(s, start, i, m);
      LinkAtWritten(s, i, m);
      WellFormedStep(s, start, i, Link(m.text, m.url), Scan(s, m.end, m.end));
    } else {
      ScanWellFormed(s, start, i + 1);
    }
  }

  lemma WellFormedStep(s: string, start: nat, i: nat, link: Token, rest: seq<Token>)
    requires start <= i <= |s|
    requires link.Link? && WellFormed(link) && WellFormedTokens(rest)
    ensures WellFormedTokens(Before(s, start, i) + [link] + rest)
  {
    WellFormedPrepend(link, rest);
    if start < i {
      WellFormedPrepend(Plain(s[start..i]), [link] + rest);
      assert Before(s, start, i) + [link] + rest == [Plain(s[start..i])] + ([link] + rest);
    } else {
      assert Before(s, start, i) + [link] + rest == [link] + rest;
    }
  }

  lemma TokensWellFormed(s: string)
    ensures WellFormedTokens(Tokenize(s))
  {
    ScanWellFormed(s, 0, 0);
  }

  /** `toks`, laid over `s` from index `at`: each link token is the match the
      expression finds where it stands, and no match begins anywhere inside
      a plain token. */
  ghost predicate Located(s: string, at: nat, toks: seq<Token>)
    decreases |toks|
  {
    toks == [] ||
    (&& (match toks[0]
         case Plain(t) => forall p :: at <= p < at + |t| ==> LinkAt(s, p).None?
         case Link(text, url) => LinkAt(s, at) == Some(LinkMatch(text, url, at + |Source(toks[0])|)))
     && Located(s, at + |Source(toks[0])|, toks[1..]))
  }

  lemma {:induction false} ScanLocated(s: string, start: nat, i: nat)
    requires start <= i <= |s|
    requires forall p :: start <= p < i ==> LinkAt(s, p).None?
    ensures Located(s, start, Scan(s, start, i))
    decreases |s| - i
  {
    if i == |s| {
      LocatedAtEnd(s, start, i);
    } else if LinkAt(s, i).Some? {
      var m := LinkAt(s, i).value;
      LinkAtWritten(s, i, m);
      ScanLocated(s, m.end, m.end);
      LocatedAtLink(s, start, i, m);
    } else {
      ScanLocated(s, start, i + 1);
      ScanSkip(s, start, i);
    }
  }

  lemma LocatedAtEnd(s: string, start: nat, i: nat)
    requires start <= i == |s|
    requires forall p :: start <= p < i ==> LinkAt(s, p).None?
    ensures Located(s, start, Scan(s, start, i))
  {
    assert Scan(s, start, i) == Before(s, start, i);
    if start < i {
      LocatedCons(s, start, Plain(s[start..i]), []);
      assert [Plain(s[start..i])] + [] == Before(s, start, i);
    }
  }

  lemma LocatedAtLink(s: string, start: nat, i: nat, m: LinkMatch)
    requires start <= i < |s|
    requires forall p :: start <= p < i ==> LinkAt(s, p).None?
    requires LinkAt(s, i) == Some(m)
    requires Located(s, m.end, Scan(s, m.end, m.end))
    ensures Located(s, start, Scan(s, start, i))
  {
    ScanLinkStep(s, start, i, m);
    LinkAtWritten(s, i, m);
    LocatedStep(s, start, i, Link(m.text, m.url), Scan(s, m.end, m.end));
  }

  lemma LocatedStep(s: string, start: nat, i: nat, link: Token, rest: seq<Token>)
    requires start <= i <= |s|
    requires forall p :: start <= p < i ==> LinkAt(s, p).None?
    requires link.Link? && LinkAt(s, i) == Some(LinkMatch(link.text, link.url, i + |Source(link)|))
    requires Located(s, i + |Source(link)|, rest)
    ensures Located(s, start, Before(s, start, i) + [link] + rest)
  {
    LocatedCons(s, i, link, rest);
    if start < i {
      LocatedCons(s, start, Plain(s[start..i]), [link] + rest);
      assert Before(s, start, i) + [link] + rest == [Plain(s[start..i])] + ([link] + rest);
    } else {
      assert Before(s, start, i) + [link] + rest == [link] + rest;
    }
  }

  lemma LocatedCons(s: string, at: nat, t: Token, rest: seq<Token>)
    requires t.Plain? ==> forall p :: at <= p < at + |t.s| ==> LinkAt(s, p).None?
    requires t.Link? ==> LinkAt(s, at) == Some(LinkMatch(t.text, t.url, at + |Source(t)|))
    requires Located(s, at + |Source(t)|, rest)
    ensures Located(s, at, [t] + rest)
  {
    assert ([t] + rest)[0] == t;
    assert ([t] + rest)[1..] == rest;
  }

  /** The links are found leftmost first: laid over the line, every link
      token is the match at its own position and no match begins inside a
      plain piece. With the round trip this pins the tokens down. */
  lemma TokenizeFindsLeftmost(s: string)
    ensures Located(s, 0, Tokenize(s))
  {
    ScanLocated(s, 0, 0);
  }

  /** A written link on a line of its own comes back as that one link. */
  lemma LoneLink(text: string, url: string)
    requires IsLabel(text) && IsUrl(url)
    ensures Tokenize(Source(Link(text, url))) == [Link(text, url)]
  {
    var s := Source(Link(text, url));
    assert s[0..|s|] == s;
    LinkRecognised(s, 0, text, url);
    assert Scan(s, |s|, |s|) == [];
  }

  // ---------------------------------------------------------------------
  // Lines: `text.split('\\n')`, the two characters backslash and `n`

  const LineBreak: string := "\\n"

  /** `renderWithNewlines(text)`: the lines, each cut into tokens. */
  function Lines(t: string): seq<seq<Token>> {
    var parts := Split(t, [LineBreak]);
    seq(|parts|, k requires 0 <= k < |parts| => Tokenize(parts[k]))
  }

  /** The text a list of shown lines spells out. */
  function Shown(lines: seq<seq<Token>>): string {
    Join(seq(|lines|, k requires 0 <= k < |lines| => Unparse(lines[k])), LineBreak)
  }

  /** The lines spell out the text they were cut from, and no line holds a
      line break. */
  lemma LinesShowText(t: string)
    ensures Shown(Lines(t)) == t
    ensures forall k :: 0 <= k < |Lines(t)| ==> !Contains(Unparse(Lines(t)[k]), LineBreak)
  {
    var parts := Split(t, [LineBreak]);
    var lines := Lines(t);
    forall k | 0 <= k < |parts|
      ensures Unparse(lines[k]) == parts[k]
    {
      TokenizeRoundTrip(parts[k]);
    }
    assert seq(|lines|, k requires 0 <= k < |lines| => Unparse(lines[k])) == parts;
    SplitJoinFrom(t, [LineBreak], 0, 0);
    CanonSingle(t, LineBreak, 0);
    assert t[0..0] + t[0..] == t;
    SplitPartsFree(t, [LineBreak], 0, 0);
    forall k | 0 <= k < |lines|
      ensures !Contains(Unparse(lines[k]), LineBreak)
    {
      assert parts[k] in parts;
      assert [LineBreak][0] == LineBreak;
    }
  }

  /** What the renderer shows for each line: no line break inside it, and
      its tokens are the leftmost-first link scan of the line's text. */
  ghost predicate RenderedLines(lines: seq<seq<Token>>) {
    forall k :: 0 <= k < |lines| ==>
      && !Contains(Unparse(lines[k]), LineBreak)
      && WellFormedTokens(lines[k])
      && Located(Unparse(lines[k]), 0, lines[k])
  }

  /** Every line of `renderWithNewlines` is cut at the line breaks and
      scanned for links. */
  lemma LinesRendered(t: string)
    ensures RenderedLines(Lines(t))
  {
    var parts := Split(t, [LineBreak]);
    var lines := Lines(t);
    LinesShowText(t);
    forall k | 0 <= k < |lines|
      ensures WellFormedTokens(lines[k]) && Located(Unparse(lines[k]), 0, lines[k])
    {
      assert lines[k] == Tokenize(parts[k]);
      TokenizeRoundTrip(parts[k]);
      TokensWellFormed(parts[k]);
      TokenizeFindsLeftmost(parts[k]);
    }
  }

  // ---------------------------------------------------------------------
  // Turns: `rawText.split(/IA:|IA\n/)` and the speaker label

  const TurnMarkers: seq<string> := ["IA:", "IA\n"]

  function Turns(raw: string): (parts: seq<string>)
    ensures |parts| >= 1
  {
    Split(raw, TurnMarkers)
  }

  /** The text names the user's side in either spelling, ignoring case. */
  predicate NamesSpeaker(raw: string) {
    Contains(Lower(raw), "humano:") || Contains(Lower(raw), "usuario:")
  }

  /** `hasBothParts`: an assistant marker splits the text and the user's side
      is named somewhere in it. */
  predicate HasBothParts(raw: string) {
    |Turns(raw)| > 1 && NamesSpeaker(raw)
  }

  /** The text opens with `Humano:` or `Usuario:` in any case. */
  predicate HasSpeakerLabel(t: string) {
    || (|t| >= 7 && Lower(t[..7]) == "humano:")
    || (|t| >= 8 && Lower(t[..8]) == "usuario:")
  }

  /** The length of the leading speaker label: 7 for `humano:`, 8 for
      `usuario:`, 0 when there is none. */
  function LabelLength(t: string): (n: nat)
    ensures n == 0 <==> !HasSpeakerLabel(t)
    ensures n <= |t|
  {
    if |t| >= 7 && Lower(t[..7]) == "humano:" then 7
    else if |t| >= 8 && Lower(t[..8]) == "usuario:" then 8
    else 0
  }

  /** `replace(/^(Humano|Usuario):\s*\/i, '')`: drops a leading speaker label
      and the whitespace after it, and nothing else. */
  function StripSpeaker(t: string): (r: string)
    ensures |r| <= |t| && r == t[|t| - |r|..]
    ensures r != t <==> HasSpeakerLabel(t)
    ensures HasSpeakerLabel(t) ==>
      && LabelLength(t) <= |t| - |r|
      && (forall j :: LabelLength(t) <= j < |t| - |r| ==> IsWhitespace(t[j]))
      && (r == [] || !IsWhitespace(r[0]))
  {
    var n := LabelLength(t);
    if n == 0 then t
    else
      StripAfterLabel(t, n);
      TrimStart(t[n..])
  }

  lemma StripAfterLabel(t: string, n: nat)
    requires 0 < n <= |t|
    ensures var r := TrimStart(t[n..]);
      && |r| <= |t| - n && r == t[|t| - |r|..]
      && (forall j :: n <= j < |t| - |r| ==> IsWhitespace(t[j]))
      && (r == [] || !IsWhitespace(r[0]))
  {
    var s := t[n..];
    TrimStartDropsWhitespace(s);
    var r := TrimStart(s);
    assert r == t[|t| - |r|..];
    forall j | n <= j < |t| - |r|
      ensures IsWhitespace(t[j])
    {
      assert t[j] == s[j - n];
    }
  }

  function HumanText(raw: string): string {
    Trim(StripSpeaker(Turns(raw)[0]))
  }

  /** `parts.slice(1).join('IA:').trim()`. */
  function AiText(raw: string): string {
    Trim(Join(Turns(raw)[1..], "IA:"))
  }

  /** The user's turn is everything before the first assistant marker, and
      the assistant's turn, rejoined with `IA:`, is everything after it, with
      every later `IA` plus line break written as `IA:`. */
  lemma TurnsRebuild(raw: string)
    requires |Turns(raw)| > 1
    ensures Turns(raw)[0] + "IA:" + Join(Turns(raw)[1..], "IA:") == Canon(raw, TurnMarkers, 0)
    ensures !Contains(Turns(raw)[0], "IA:") && !Contains(Turns(raw)[0], "IA\n")
  {
    SplitJoinFrom(raw, TurnMarkers, 0, 0);
    assert raw[0..0] == "";
    SplitPartsFree(raw, TurnMarkers, 0, 0);
    assert Turns(raw)[0] in Turns(raw);
    assert TurnMarkers[0] == "IA:" && TurnMarkers[1] == "IA\n";
  }

  /** When the assistant is never marked with `IA` plus a line break, the
      rewriting of markers changes nothing. */
  lemma {:induction false} CanonColonOnly(s: string, i: nat)
    requires i <= |s|
    requires forall j :: i <= j <= |s| ==> !OccursAt(s, "IA\n", j)
    ensures Canon(s, TurnMarkers, i) == s[i..]
    decreases |s| - i
  {
    if i < |s| {
      var k := SepAt(s, TurnMarkers, i);
      if k < |TurnMarkers| {
        assert !OccursAt(s, TurnMarkers[1], i);
        assert k == 0;
        SplitCutStep(s, TurnMarkers, i, i, i + 3);
        CanonColonOnly(s, i + 3);
        SliceAround(s, i, i + 3);
      } else {
        CanonColonOnly(s, i + 1);
        SliceAround(s, i, i + 1);
      }
    }
  }

  lemma SliceAround(s: string, i: nat, j: nat)
    requires i <= j <= |s|
    ensures s[i..] == s[i..j] + s[j..]
  {
  }

  /** A dialogue written with `IA:` markers only: the user's turn is the
      text before the first marker, and the assistant's text is everything
      after that marker, trimmed. */
  lemma DialogueCutsAtFirstMarker(raw: string)
    requires |Turns(raw)| > 1
    requires !Contains(raw, "IA\n")
    ensures raw == Turns(raw)[0] + "IA:" + Join(Turns(raw)[1..], "IA:")
    ensures !Contains(Turns(raw)[0], "IA:")
    ensures AiText(raw) == Trim(raw[|Turns(raw)[0]| + 3..])
  {
    TurnsRebuild(raw);
    CanonColonOnly(raw, 0);
    var rest := Join(Turns(raw)[1..], "IA:");
    assert raw[|Turns(raw)[0]| + 3..] == rest;
  }

  // ---------------------------------------------------------------------
  // The cell

  /** The payload counts as false in JavaScript: null or the empty string. */
  predicate Falsy(p: Payload) {
    p.Null? || p == Scalar("")
  }

  /** `MessageRenderer`: nothing for a false payload; a dialogue when the
      text has both parts; otherwise the whole text as lines. Whatever is
      shown spells out the text it was cut from. */
  function Render(p: Payload): (v: View)
    ensures v.NoMessage? <==> Falsy(p)
    ensures v.Dialogue? <==> !Falsy(p) && HasBothParts(TextOf(p))
    ensures v.Monologue? ==> Shown(v.lines) == TextOf(p)
    ensures v.Dialogue? ==>
      Shown(v.human) == HumanText(TextOf(p)) && Shown(v.ai) == AiText(TextOf(p))
    ensures v.Monologue? ==> RenderedLines(v.lines)
    ensures v.Dialogue? ==> RenderedLines(v.human) && RenderedLines(v.ai)
  {
    if Falsy(p) then NoMessage
    else
      var raw := TextOf(p);
      if HasBothParts(raw) then
        LinesShowText(HumanText(raw));
        LinesShowText(AiText(raw));
        LinesRendered(HumanText(raw));
        LinesRendered(AiText(raw));
        Dialogue(Lines(HumanText(raw)), Lines(AiText(raw)))
      else
        LinesShowText(raw);
        LinesRendered(raw);
        Monologue(Lines(raw))
  }
}
