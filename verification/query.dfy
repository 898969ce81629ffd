/** The backend's row filters, given their meaning over an in-memory table:
    a query is a list of constraints, all of which a returned row meets. */
module Query {
  import opened Outcomes
  import opened Seqs
  import opened Text
  import opened Records

  datatype Constraint =
    | ILike(column: string, needle: string)   // `ilike(column, '%needle%')`
    | Gte(bound: int)                         // `gte('created_at', bound)`
    | Lte(bound: int)                         // `lte('created_at', bound)`
    | Eq(column: string, value: bool)         // `eq(column, value)`
    | In(ids: set<string>)                    // `in('session_id', ids)`

  /** Case-insensitive substring match. */
  predicate ILikeMatch(value: string, needle: string) {
    Contains(Lower(value), Lower(needle))
  }

  predicate Holds(r: Row, c: Constraint) {
    match c
    case ILike(col, needle) =>
      var v := Column(r, col);
      v.Some? && v.value.TextCell? && ILikeMatch(v.value.s, needle)
    case Gte(b) => r.createdAt >= b
    case Lte(b) => r.createdAt <= b
    case Eq(col, b) => Column(r, col) == Some(BoolCell(b))
    case In(ids) => r.sessionId in ids
  }

  predicate HoldsAll(r: Row, cs: seq<Constraint>) {
    forall i :: 0 <= i < |cs| ==> Holds(r, cs[i])
  }

  lemma HoldsAllAppend(r: Row, a: seq<Constraint>, b: seq<Constraint>)
    ensures HoldsAll(r, a + b) <==> HoldsAll(r, a) && HoldsAll(r, b)
  {
    if HoldsAll(r, a) && HoldsAll(r, b) {
      forall i | 0 <= i < |a + b|
        ensures Holds(r, (a + b)[i])
      {
        if i >= |a| {
          assert (a + b)[i] == b[i - |a|];
        }
      }
    }
    if HoldsAll(r, a + b) {
      forall i | 0 <= i < |a|
        ensures Holds(r, a[i])
      {
        assert (a + b)[i] == a[i];
      }
      forall i | 0 <= i < |b|
        ensures Holds(r, b[i])
      {
        assert (a + b)[|a| + i] == b[i];
      }
    }
  }

  /** The rows of `rows` that meet every constraint, in table order. */
  function Select(rows: seq<Row>, cs: seq<Constraint>): (out: seq<Row>)
    ensures forall r :: r in out <==> r in rows && HoldsAll(r, cs)
    ensures forall r :: multiset(out)[r] == if HoldsAll(r, cs) then multiset(rows)[r] else 0
    ensures IsSubseq(out, rows)
    ensures |out| <= |rows|
  {
    if rows == [] then []
    else
      var tail := Select(rows[1..], cs);
      SubseqKeepOrDrop(rows, tail, HoldsAll(rows[0], cs));
      SelectCount(rows, cs, tail);
      (if HoldsAll(rows[0], cs) then [rows[0]] else []) + tail
  }

  /** One step of `Select` keeps each row's multiplicity among the rows
      meeting the constraints. */
  lemma SelectCount(rows: seq<Row>, cs: seq<Constraint>, tail: seq<Row>)
    requires rows != []
    requires forall r :: multiset(tail)[r] == if HoldsAll(r, cs) then multiset(rows[1..])[r] else 0
    ensures var out := (if HoldsAll(rows[0], cs) then [rows[0]] else []) + tail;
      forall r :: multiset(out)[r] == if HoldsAll(r, cs) then multiset(rows)[r] else 0
  {
    assert rows == [rows[0]] + rows[1..];
    assert multiset(rows) == multiset{rows[0]} + multiset(rows[1..]);
  }

  /** `in('session_id', ids)` keeps exactly the rows of the listed sessions. */
  lemma SelectIn(rows: seq<Row>, ids: set<string>)
    ensures forall r :: r in Select(rows, [In(ids)]) <==> r in rows && r.sessionId in ids
  {
    var cs := [In(ids)];
    forall r
      ensures HoldsAll(r, cs) <==> r.sessionId in ids
    {
      assert |cs| == 1 && cs[0] == In(ids);
      if r.sessionId in ids {
        assert Holds(r, cs[0]);
      }
    }
  }

  /** A constraint no row meets selects nothing. */
  lemma {:induction false} SelectNone(rows: seq<Row>, cs: seq<Constraint>)
    requires forall r :: !HoldsAll(r, cs)
    ensures Select(rows, cs) == []
  {
    if rows != [] {
      SelectNone(rows[1..], cs);
    }
  }
}
