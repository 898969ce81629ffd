/** A stable insertion sort on an integer key. The dashboard sorts with
    JavaScript's `Array.prototype.sort` and the backend orders with
    `order by created_at`; both are modelled by this one sort, ascending on
    the key (descending orders use the negated key). */
module Sorting {

  /** Keys never decrease from left to right. */
  predicate SortedBy<T>(s: seq<T>, key: T -> int) {
    forall i, j :: 0 <= i < j < |s| ==> key(s[i]) <= key(s[j])
  }

  /** Inserts `x` before the first element whose key is not below its own. */
  function Insert<T>(x: T, s: seq<T>, key: T -> int): (r: seq<T>)
    requires SortedBy(s, key)
    ensures SortedBy(r, key)
    ensures multiset(r) == multiset(s) + multiset{x}
  {
    if s == [] then [x]
    else if key(x) <= key(s[0]) then [x] + s
    else
      var t := Insert(x, s[1..], key);
      assert s == [s[0]] + s[1..];
      InsertHead(s, x, t, key);
      [s[0]] + t
  }

  /** Putting the head of a sorted sequence back in front of the sorted
      insertion into its tail keeps it sorted. */
  lemma InsertHead<T>(s: seq<T>, x: T, t: seq<T>, key: T -> int)
    requires SortedBy(s, key) && s != [] && key(s[0]) < key(x)
    requires SortedBy(t, key) && multiset(t) == multiset(s[1..]) + multiset{x}
    ensures SortedBy([s[0]] + t, key)
  {
    forall j | 0 <= j < |t|
      ensures key(s[0]) <= key(t[j])
    {
      assert t[j] in multiset(t);
      if t[j] != x {
        assert t[j] in multiset(s[1..]);
        HeadIsLeast(s, t[j], key);
      }
    }
    var r := [s[0]] + t;
    forall i, j | 0 <= i < j < |r|
      ensures key(r[i]) <= key(r[j])
    {
      assert r[j] == t[j - 1];
      if i > 0 {
        assert r[i] == t[i - 1];
      }
    }
  }

  /** No element of a sorted sequence has a key below its head's. */
  lemma HeadIsLeast<T>(s: seq<T>, y: T, key: T -> int)
    requires SortedBy(s, key) && s != []
    requires y in multiset(s[1..])
    ensures key(s[0]) <= key(y)
  {
    assert y in s[1..];
    var i :| 0 <= i < |s[1..]| && s[1..][i] == y;
    assert s[i + 1] == y;
  }

  /** `s` reordered so that keys never decrease; elements with equal keys
      keep their relative order. */
  function SortBy<T>(s: seq<T>, key: T -> int): (r: seq<T>)
    ensures SortedBy(r, key)
    ensures multiset(r) == multiset(s)
    ensures |r| == |s|
  {
    if s == [] then []
    else
      assert s == [s[0]] + s[1..];
      Insert(s[0], SortBy(s[1..], key), key)
  }
}
