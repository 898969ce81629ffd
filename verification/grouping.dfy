/** Grouping rows by session: `groups[msg.session_id].push(msg)` over the
    fetched rows, as the history screen, the analytics page and the
    dashboard all do it. */
module Grouping {
  import opened Seqs
  import opened Sorting
  import opened Records

  type Groups = map<string, seq<Row>>

  /** Appends each row to its session's group, visiting the rows in order;
      a group is created at its session's first row. */
  function Group(rows: seq<Row>): (g: Groups)
    ensures g.Keys == SessionSet(rows)
    ensures forall k :: k in g ==> g[k] == OfKey(rows, SessionOf, k)
  {
    if rows == [] then map[]
    else
      var p := rows[..|rows| - 1];
      var r := rows[|rows| - 1];
      assert rows == p + [r];
      var g := Group(p);
      var g' := g[r.sessionId := (if r.sessionId in g then g[r.sessionId] else []) + [r]];
      GroupStep(p, r, g, g');
      g'
  }

  lemma GroupStep(p: seq<Row>, r: Row, g: Groups, g': Groups)
    requires g.Keys == SessionSet(p)
    requires forall k :: k in g ==> g[k] == OfKey(p, SessionOf, k)
    requires g' == g[r.sessionId := (if r.sessionId in g then g[r.sessionId] else []) + [r]]
    ensures g'.Keys == SessionSet(p + [r])
    ensures forall k :: k in g' ==> g'[k] == OfKey(p + [r], SessionOf, k)
  {
    forall k | k in g'
      ensures g'[k] == OfKey(p + [r], SessionOf, k)
    {
      OfKeySnoc(p, r, SessionOf, k);
      if k == r.sessionId && k !in g {
        OfKeyEmpty(p, k);
      }
    }
  }

  /** A session with no row has no rows to select. */
  lemma OfKeyEmpty(rows: seq<Row>, k: string)
    requires k !in SessionSet(rows)
    ensures OfKey(rows, SessionOf, k) == []
  {
  }

  /** The rows of `g`'s groups, taken in the order `order` lists the
      sessions (a session without a group contributes nothing). */
  function Concat(g: Groups, order: seq<string>): seq<Row> {
    if order == [] then []
    else (if order[0] in g then g[order[0]] else []) + Concat(g, order[1..])
  }

  /** Every group is non-empty and holds rows of its own session only. */
  lemma GroupsNonEmpty(rows: seq<Row>, k: string)
    requires k in Group(rows)
    ensures Group(rows)[k] != []
    ensures forall r :: r in Group(rows)[k] <==> r in rows && r.sessionId == k
  {
    var r :| r in rows && r.sessionId == k;
    assert r in Group(rows)[k];
  }

  /** Reading the groups in `order` is reading the rows session by session. */
  lemma {:induction false} ConcatIsGather(rows: seq<Row>, order: seq<string>)
    ensures Concat(Group(rows), order) == Gather(rows, SessionOf, order)
  {
    if order != [] {
      ConcatIsGather(rows, order[1..]);
      var k := order[0];
      if k !in Group(rows) {
        OfKeyEmpty(rows, k);
      }
    }
  }

  /** Grouping loses and duplicates nothing: reading the groups in any
      duplicate-free order that lists every session gives back a
      permutation of the rows. */
  lemma GroupsPartitionRows(rows: seq<Row>, order: seq<string>)
    requires NoDups(order)
    requires SessionSet(rows) <= Elems(order)
    ensures multiset(Concat(Group(rows), order)) == multiset(rows)
  {
    ConcatIsGather(rows, order);
    forall r | r in rows
      ensures SessionOf(r) in order
    {
      assert r.sessionId in SessionSet(rows);
    }
    GatherIsPermutation(rows, SessionOf, order);
  }

  /** Selecting one key's rows out of a sorted sequence keeps it sorted. */
  lemma {:induction false} OfKeySorted(s: seq<Row>, key: Row -> int, k: string)
    requires SortedBy(s, key)
    ensures SortedBy(OfKey(s, SessionOf, k), key)
  {
    if s != [] {
      var p := s[..|s| - 1];
      var last := s[|s| - 1];
      assert s == p + [last];
      SortedPrefix(s, key);
      OfKeySorted(p, key, k);
      OfKeySnoc(p, last, SessionOf, k);
      if last.sessionId == k {
        var q := OfKey(p, SessionOf, k);
        forall i | 0 <= i < |q|
          ensures key(q[i]) <= key(last)
        {
          assert q[i] in p;
          LastIsGreatest(s, q[i], key);
        }
        SortedSnoc(q, last, key);
      }
    }
  }

  /** No element of a sorted sequence has a key above its last one's. */
  lemma LastIsGreatest<T>(s: seq<T>, x: T, key: T -> int)
    requires SortedBy(s, key) && s != []
    requires x in s[..|s| - 1]
    ensures key(x) <= key(s[|s| - 1])
  {
    var a :| 0 <= a < |s| - 1 && s[..|s| - 1][a] == x;
    assert s[a] == x;
  }

  /** Dropping the last element keeps a sequence sorted. */
  lemma SortedPrefix<T>(s: seq<T>, key: T -> int)
    requires SortedBy(s, key) && s != []
    ensures SortedBy(s[..|s| - 1], key)
  {
    var p := s[..|s| - 1];
    forall i, j | 0 <= i < j < |p|
      ensures key(p[i]) <= key(p[j])
    {
      assert p[i] == s[i] && p[j] == s[j];
    }
  }

  /** An element with a key no lower than any other may go last. */
  lemma SortedSnoc<T>(q: seq<T>, last: T, key: T -> int)
    requires SortedBy(q, key)
    requires forall i :: 0 <= i < |q| ==> key(q[i]) <= key(last)
    ensures SortedBy(q + [last], key)
  {
    var t := q + [last];
    forall i, j | 0 <= i < j < |t|
      ensures key(t[i]) <= key(t[j])
    {
      assert t[i] == q[i];
      if j < |q| {
        assert t[j] == q[j];
      }
    }
  }
}
