/** String operations the dashboard takes from JavaScript: `toLowerCase`,
    `includes`, `trim`, `split` on a string or on an alternation of literal
    strings, and `join`. */
module Text {

  /** JavaScript's WhiteSpace and LineTerminator characters: what `trim`
      removes and what `\s` matches in a regular expression. */
  predicate IsWhitespace(c: char) {
    || c == '\t' || c == '\n' || c == '\U{000B}' || c == '\U{000C}' || c == '\r'
    || c == ' ' || c == '\U{00A0}' || c == '\U{1680}'
    || ('\U{2000}' <= c <= '\U{200A}')
    || c == '\U{2028}' || c == '\U{2029}' || c == '\U{202F}' || c == '\U{205F}'
    || c == '\U{3000}' || c == '\U{FEFF}'
  }

  predicate IsUpper(c: char) {
    ('A' <= c <= 'Z') || ('\U{00C0}' <= c <= '\U{00DE}' && c != '\U{00D7}')
  }

  /** Lower case for ASCII and Latin-1 letters. */
  function LowerChar(c: char): char {
    if IsUpper(c) then (c as int + 32) as char else c
  }

  function Lower(s: string): string {
    seq(|s|, i requires 0 <= i < |s| => LowerChar(s[i]))
  }

  /** `sub` occurs in `s` starting at index `i`. */
  predicate OccursAt(s: string, sub: string, i: nat) {
    i + |sub| <= |s| && s[i..i + |sub|] == sub
  }

  /** JavaScript's `s.includes(sub)`. */
  predicate Contains(s: string, sub: string) {
    exists i :: 0 <= i <= |s| && OccursAt(s, sub, i)
  }

  function TrimStart(s: string): string {
    if s != [] && IsWhitespace(s[0]) then TrimStart(s[1..]) else s
  }

  function TrimEnd(s: string): string {
    if s != [] && IsWhitespace(s[|s| - 1]) then TrimEnd(s[..|s| - 1]) else s
  }

  /** `trimStart` only removes characters from the front. */
  lemma {:induction false} TrimStartSuffix(s: string)
    ensures |TrimStart(s)| <= |s|
    ensures TrimStart(s) == s[|s| - |TrimStart(s)|..]
  {
    if s != [] && IsWhitespace(s[0]) {
      TrimStartSuffix(s[1..]);
    }
  }

  /** `trimStart` removes exactly the leading run of white space: what it
      drops is white space, and what it keeps does not start with any. */
  lemma {:induction false} TrimStartDropsWhitespace(s: string)
    ensures |TrimStart(s)| <= |s| && TrimStart(s) == s[|s| - |TrimStart(s)|..]
    ensures forall j :: 0 <= j < |s| - |TrimStart(s)| ==> IsWhitespace(s[j])
    ensures TrimStart(s) == [] || !IsWhitespace(TrimStart(s)[0])
  {
    if s != [] && IsWhitespace(s[0]) {
      TrimStartDropsWhitespace(s[1..]);
      forall j | 1 <= j < |s| - |TrimStart(s)|
        ensures IsWhitespace(s[j])
      {
        assert s[1..][j - 1] == s[j];
      }
    }
  }

  /** JavaScript's `s.trim()`. */
  function Trim(s: string): string {
    TrimEnd(TrimStart(s))
  }

  /** JavaScript's `parts.join(sep)`. */
  function Join(parts: seq<string>, sep: string): string {
    if parts == [] then ""
    else if |parts| == 1 then parts[0]
    else parts[0] + sep + Join(parts[1..], sep)
  }

  predicate NonEmptySeparators(seps: seq<string>) {
    forall k :: 0 <= k < |seps| ==> seps[k] != ""
  }

  /** Index in `seps` of the first alternative that occurs at position `i`
      of `s` (a regular-expression alternation tries them in order), or
      `|seps|` when none does. */
  function SepAt(s: string, seps: seq<string>, i: nat): (k: nat)
    ensures k <= |seps|
    ensures k < |seps| ==> OccursAt(s, seps[k], i)
    ensures forall j :: 0 <= j < k ==> !OccursAt(s, seps[j], i)
    decreases |seps|
  {
    if seps == [] then 0
    else if OccursAt(s, seps[0], i) then 0
    else 1 + SepAt(s, seps[1..], i)
  }

  /** The parts of `s` from `start` on, where the scan for separators has
      reached `i`: JavaScript's `split` scans left to right and cuts at every
      separator it meets, resuming after it. */
  function SplitFrom(s: string, seps: seq<string>, start: nat, i: nat): (parts: seq<string>)
    requires NonEmptySeparators(seps)
    requires start <= i <= |s|
    ensures |parts| >= 1
    decreases |s| - i
  {
    if i == |s| then [s[start..]]
    else
      var k := SepAt(s, seps, i);
      if k < |seps| then [s[start..i]] + SplitFrom(s, seps, i + |seps[k]|, i + |seps[k]|)
      else SplitFrom(s, seps, start, i + 1)
  }

  /** JavaScript's `s.split(/a|b|.../)` for literal alternatives, and
      `s.split("a")` when `seps` is `["a"]`. */
  function Split(s: string, seps: seq<string>): seq<string>
    requires NonEmptySeparators(seps)
  {
    SplitFrom(s, seps, 0, 0)
  }

  /** `s` from index `i` on, with every separator the split would cut at
      replaced by the first alternative `seps[0]`. */
  function Canon(s: string, seps: seq<string>, i: nat): string
    requires NonEmptySeparators(seps)
    requires i <= |s|
    decreases |s| - i
  {
    if i == |s| then ""
    else
      var k := SepAt(s, seps, i);
      if k < |seps| then seps[0] + Canon(s, seps, i + |seps[k]|)
      else [s[i]] + Canon(s, seps, i + 1)
  }

  lemma JoinCons(a: string, rest: seq<string>, sep: string)
    requires rest != []
    ensures Join([a] + rest, sep) == a + sep + Join(rest, sep)
  {
    assert ([a] + rest)[1..] == rest;
  }

  /** Joining the parts of a split with the first alternative rebuilds the
      string, except that each separator becomes the first alternative. */
  lemma {:induction false} SplitJoinFrom(s: string, seps: seq<string>, start: nat, i: nat)
    requires NonEmptySeparators(seps) && seps != []
    requires start <= i <= |s|
    ensures Join(SplitFrom(s, seps, start, i), seps[0]) == s[start..i] + Canon(s, seps, i)
    decreases |s| - i
  {
    if i == |s| {
      assert s[start..] == s[start..i];
    } else if SepAt(s, seps, i) < |seps| {
      var j := i + |seps[SepAt(s, seps, i)]|;
      SplitJoinFrom(s, seps, j, j);
      assert s[j..j] == [];
      SplitJoinCut(s, seps, start, i, j);
    } else {
      SplitJoinFrom(s, seps, start, i + 1);
      SplitJoinSkip(s, seps, start, i);
    }
  }

  lemma SplitJoinCut(s: string, seps: seq<string>, start: nat, i: nat, j: nat)
    requires NonEmptySeparators(seps) && seps != []
    requires start <= i < |s|
    requires SepAt(s, seps, i) < |seps| && j == i + |seps[SepAt(s, seps, i)]|
    requires Join(SplitFrom(s, seps, j, j), seps[0]) == Canon(s, seps, j)
    ensures Join(SplitFrom(s, seps, start, i), seps[0]) == s[start..i] + Canon(s, seps, i)
  {
    SplitCutStep(s, seps, start, i, j);
    JoinCutAlgebra(SplitFrom(s, seps, start, i), s[start..i], SplitFrom(s, seps, j, j), seps[0],
      Canon(s, seps, j), Canon(s, seps, i));
  }

  /** One cut of the split and of the rewriting, at a separator. */
  lemma SplitCutStep(s: string, seps: seq<string>, start: nat, i: nat, j: nat)
    requires NonEmptySeparators(seps) && seps != []
    requires start <= i < |s|
    requires SepAt(s, seps, i) < |seps| && j == i + |seps[SepAt(s, seps, i)]|
    ensures j <= |s|
    ensures SplitFrom(s, seps, start, i) == [s[start..i]] + SplitFrom(s, seps, j, j)
    ensures Canon(s, seps, i) == seps[0] + Canon(s, seps, j)
  {
    var k := SepAt(s, seps, i);
    assert OccursAt(s, seps[k], i);
    assert j <= |s|;
    SplitCutOnce(s, seps, start, i, k, j);
    CanonCutOnce(s, seps, i, k, j);
  }

  lemma SplitCutOnce(s: string, seps: seq<string>, start: nat, i: nat, k: nat, j: nat)
    requires NonEmptySeparators(seps)
    requires start <= i < |s| && k == SepAt(s, seps, i) && k < |seps|
    requires j == i + |seps[k]| <= |s|
    ensures SplitFrom(s, seps, start, i) == [s[start..i]] + SplitFrom(s, seps, j, j)
  {
    assert i != |s|;
    var tail := SplitFrom(s, seps, j, j);
    assert SplitFrom(s, seps, start, i) == [s[start..i]] + tail;
  }

  lemma CanonCutOnce(s: string, seps: seq<string>, i: nat, k: nat, j: nat)
    requires NonEmptySeparators(seps) && seps != []
    requires i < |s| && k == SepAt(s, seps, i) && k < |seps|
    requires j == i + |seps[k]| <= |s|
    ensures Canon(s, seps, i) == seps[0] + Canon(s, seps, j)
  {
    assert i != |s|;
    var tail := Canon(s, seps, j);
    assert Canon(s, seps, i) == seps[0] + tail;
  }

  lemma JoinCutAlgebra(parts: seq<string>, piece: string, rest: seq<string>, sep: string,
                        tail: string, whole: string)
    requires parts == [piece] + rest && rest != []
    requires Join(rest, sep) == tail && whole == sep + tail
    ensures Join(parts, sep) == piece + whole
  {
    JoinCons(piece, rest, sep);
  }

  lemma SplitJoinSkip(s: string, seps: seq<string>, start: nat, i: nat)
    requires NonEmptySeparators(seps) && seps != []
    requires start <= i < |s|
    requires SepAt(s, seps, i) == |seps|
    requires Join(SplitFrom(s, seps, start, i + 1), seps[0]) == s[start..i + 1] + Canon(s, seps, i + 1)
    ensures Join(SplitFrom(s, seps, start, i), seps[0]) == s[start..i] + Canon(s, seps, i)
  {
    assert SplitFrom(s, seps, start, i) == SplitFrom(s, seps, start, i + 1);
    assert Canon(s, seps, i) == [s[i]] + Canon(s, seps, i + 1);
    assert s[start..i + 1] == s[start..i] + [s[i]];
  }

  /** With a single separator, joining the parts of a split with that
      separator gives back the string. */
  lemma {:induction false} CanonSingle(s: string, sep: string, i: nat)
    requires sep != ""
    requires i <= |s|
    ensures Canon(s, [sep], i) == s[i..]
    decreases |s| - i
  {
    if i < |s| {
      var k := SepAt(s, [sep], i);
      if k < 1 {
        CanonSingle(s, sep, i + |sep|);
        assert s[i..] == s[i..i + |sep|] + s[i + |sep|..];
      } else {
        CanonSingle(s, sep, i + 1);
        assert s[i..] == [s[i]] + s[i + 1..];
      }
    }
  }

  /** No part produced by a split contains any of the separators. */
  lemma {:induction false} SplitPartsFree(s: string, seps: seq<string>, start: nat, i: nat)
    requires NonEmptySeparators(seps)
    requires start <= i <= |s|
    requires forall j, k :: start <= j < i && 0 <= k < |seps| ==> !OccursAt(s, seps[k], j)
    ensures forall p, k :: p in SplitFrom(s, seps, start, i) && 0 <= k < |seps| ==> !Contains(p, seps[k])
    decreases |s| - i
  {
    if i == |s| {
      PieceFree(s, seps, start, i);
      assert s[start..] == s[start..i];
    } else {
      var k := SepAt(s, seps, i);
      if k < |seps| {
        PieceFree(s, seps, start, i);
        SplitPartsFree(s, seps, i + |seps[k]|, i + |seps[k]|);
      } else {
        forall j, k' | start <= j < i + 1 && 0 <= k' < |seps|
          ensures !OccursAt(s, seps[k'], j)
        {
          if j == i {
            assert SepAt(s, seps, i) == |seps|;
          }
        }
        SplitPartsFree(s, seps, start, i + 1);
      }
    }
  }

  /** A piece `s[start..i]` of a string with no separator starting inside it
      contains no separator. */
  lemma PieceFree(s: string, seps: seq<string>, start: nat, i: nat)
    requires NonEmptySeparators(seps)
    requires start <= i <= |s|
    requires forall j, k :: start <= j < i && 0 <= k < |seps| ==> !OccursAt(s, seps[k], j)
    ensures forall k :: 0 <= k < |seps| ==> !Contains(s[start..i], seps[k])
  {
    forall k, o | 0 <= k < |seps| && 0 <= o <= i - start
      ensures !OccursAt(s[start..i], seps[k], o)
    {
      if o + |seps[k]| <= i - start {
        SliceOccurs(s, start, i, seps[k], o);
      }
    }
  }

  /** An occurrence inside the slice `s[start..i]` is an occurrence in `s`,
      shifted by `start`. */
  lemma SliceOccurs(s: string, start: nat, i: nat, sub: string, o: nat)
    requires start <= i <= |s| && o + |sub| <= i - start
    ensures OccursAt(s[start..i], sub, o) <==> OccursAt(s, sub, start + o)
  {
    var a := s[start..i][o..o + |sub|];
    var b := s[start + o..start + o + |sub|];
    forall t | 0 <= t < |sub|
      ensures a[t] == b[t]
    {
      assert a[t] == s[start + o + t] == b[t];
    }
    assert a == b;
  }
}
