/** Sequence helpers shared by the session pipeline: distinct elements in
    first-occurrence order, order-preserving selection by key, and the
    partition of a sequence into per-key runs. */
module Seqs {

  /** No element occurs twice. */
  predicate NoDups<T(==)>(s: seq<T>) {
    forall i, j :: 0 <= i < j < |s| ==> s[i] != s[j]
  }

  /** The elements of `s` as a set. */
  function Elems<T>(s: seq<T>): set<T> {
    set x | x in s
  }

  /** `a` is obtained from `b` by deleting elements (order kept): the head
      of `b` is either matched by the head of `a` or dropped. */
  predicate IsSubseq<T(==)>(a: seq<T>, b: seq<T>)
    decreases |b|
  {
    if b == [] then a == []
    else (a != [] && a[0] == b[0] && IsSubseq(a[1..], b[1..])) || IsSubseq(a, b[1..])
  }

  /** Sequences with the same multiset have the same elements. */
  lemma SameElements<T>(a: seq<T>, b: seq<T>)
    requires multiset(a) == multiset(b)
    ensures forall x :: x in a <==> x in b
  {
    forall x
      ensures x in a <==> x in b
    {
      assert x in a <==> x in multiset(a);
      assert x in b <==> x in multiset(b);
    }
  }

  /** Keeping or dropping the head of `b` in front of a subsequence of its
      tail gives a subsequence of `b`. */
  lemma SubseqKeepOrDrop<T>(b: seq<T>, tail: seq<T>, keep: bool)
    requires b != [] && IsSubseq(tail, b[1..])
    ensures IsSubseq((if keep then [b[0]] else []) + tail, b)
  {
    var a := (if keep then [b[0]] else []) + tail;
    if keep {
      assert a[0] == b[0] && a[1..] == tail;
    } else {
      assert a == tail;
    }
  }

  /** Indexing past a prepended element. */
  lemma ConsIndex<T>(h: T, t: seq<T>, i: int)
    requires 1 <= i <= |t|
    ensures ([h] + t)[i] == t[i - 1]
  {
  }

  /** Every sequence is a subsequence of itself. */
  lemma {:induction false} SubseqRefl<T>(s: seq<T>)
    ensures IsSubseq(s, s)
  {
    if s != [] {
      SubseqRefl(s[1..]);
    }
  }

  /** Deleting elements neither adds elements nor length. */
  lemma {:induction false} SubseqElems<T>(a: seq<T>, b: seq<T>)
    requires IsSubseq(a, b)
    ensures Elems(a) <= Elems(b) && |a| <= |b|
    decreases |b|
  {
    if b != [] {
      assert b == [b[0]] + b[1..];
      if a != [] && a[0] == b[0] && IsSubseq(a[1..], b[1..]) {
        SubseqElems(a[1..], b[1..]);
        assert a == [a[0]] + a[1..];
        assert Elems(a) == {a[0]} + Elems(a[1..]);
      } else {
        SubseqElems(a, b[1..]);
      }
    }
  }

  /** A duplicate-free sequence has a duplicate-free tail not containing its
      head. */
  lemma NoDupsCons<T>(s: seq<T>)
    requires s != []
    ensures NoDups(s) ==> NoDups(s[1..]) && s[0] !in Elems(s[1..])
  {
    forall a, b | 0 <= a < b < |s[1..]| && NoDups(s)
      ensures s[1..][a] != s[1..][b]
    {
      assert s[1..][a] == s[a + 1] && s[1..][b] == s[b + 1];
    }
  }

  lemma NoDupsPrepend<T>(x: T, s: seq<T>)
    ensures NoDups(s) && x !in Elems(s) ==> NoDups([x] + s)
  {
    var t := [x] + s;
    forall a, b | 0 <= a < b < |t| && NoDups(s) && x !in Elems(s)
      ensures t[a] != t[b]
    {
      assert t[b] == s[b - 1];
      if a > 0 {
        assert t[a] == s[a - 1];
      } else {
        assert t[b] in Elems(s);
      }
    }
  }

  lemma {:induction false} DistinctCount<T>(s: seq<T>)
    requires NoDups(s)
    ensures |Elems(s)| == |s|
  {
    if s != [] {
      var p := s[..|s| - 1];
      assert s == p + [s[|s| - 1]];
      assert Elems(s) == Elems(p) + {s[|s| - 1]};
      assert s[|s| - 1] !in Elems(p);
      DistinctCount(p);
    }
  }

  /** The distinct elements of `s`, each kept at its first occurrence: what
      inserting the elements one by one into a JavaScript `Set` and reading
      them back yields. */
  function Distinct<T(==)>(s: seq<T>): (r: seq<T>)
    ensures NoDups(r)
    ensures Elems(r) == Elems(s)
    ensures |r| == |Elems(s)|
  {
    if s == [] then []
    else
      var p := s[..|s| - 1];
      var d := Distinct(p);
      assert s == p + [s[|s| - 1]];
      assert Elems(s) == Elems(p) + {s[|s| - 1]};
      var r := if s[|s| - 1] in d then d else d + [s[|s| - 1]];
      DistinctCount(r);
      r
  }

  /** The elements of `s` whose key is `k`, in their order in `s`. */
  function OfKey<T(!new), K(==)>(s: seq<T>, key: T -> K, k: K): (r: seq<T>)
    ensures forall x :: x in r <==> x in s && key(x) == k
  {
    if s == [] then []
    else
      var p := s[..|s| - 1];
      assert s == p + [s[|s| - 1]];
      OfKey(p, key, k) + (if key(s[|s| - 1]) == k then [s[|s| - 1]] else [])
  }

  /** Appending an element extends the run of its key only. */
  lemma OfKeySnoc<T(!new), K>(p: seq<T>, x: T, key: T -> K, k: K)
    ensures OfKey(p + [x], key, k) == OfKey(p, key, k) + (if key(x) == k then [x] else [])
  {
    assert (p + [x])[..|p + [x]| - 1] == p;
  }

  /** The elements of `s` whose key is not `k`, in their order in `s`. */
  function Except<T(!new), K(==)>(s: seq<T>, key: T -> K, k: K): (r: seq<T>)
    ensures forall x :: x in r <==> x in s && key(x) != k
  {
    if s == [] then []
    else
      var p := s[..|s| - 1];
      assert s == p + [s[|s| - 1]];
      Except(p, key, k) + (if key(s[|s| - 1]) != k then [s[|s| - 1]] else [])
  }

  /** The runs `OfKey(s, key, k)` for `k` in `ks`, one after the other. */
  function Gather<T(!new), K(==)>(s: seq<T>, key: T -> K, ks: seq<K>): seq<T> {
    if ks == [] then [] else OfKey(s, key, ks[0]) + Gather(s, key, ks[1..])
  }

  lemma {:induction false} OfKeyExceptSplit<T(!new), K>(s: seq<T>, key: T -> K, k: K)
    ensures multiset(OfKey(s, key, k)) + multiset(Except(s, key, k)) == multiset(s)
  {
    if s != [] {
      var p := s[..|s| - 1];
      assert s == p + [s[|s| - 1]];
      OfKeyExceptSplit(p, key, k);
    }
  }

  lemma {:induction false} OfKeyOfExcept<T(!new), K>(s: seq<T>, key: T -> K, k: K, k0: K)
    requires k != k0
    ensures OfKey(Except(s, key, k0), key, k) == OfKey(s, key, k)
  {
    if s != [] {
      var p := s[..|s| - 1];
      var x := s[|s| - 1];
      OfKeyOfExcept(p, key, k, k0);
      assert OfKey(s, key, k) == OfKey(p, key, k) + (if key(x) == k then [x] else []);
      if key(x) != k0 {
        var e := Except(s, key, k0);
        assert e == Except(p, key, k0) + [x];
        assert e[..|e| - 1] == Except(p, key, k0);
        assert OfKey(e, key, k) == OfKey(Except(p, key, k0), key, k) + (if key(x) == k then [x] else []);
      } else {
        assert Except(s, key, k0) == Except(p, key, k0);
      }
    }
  }

  lemma {:induction false} GatherOfExcept<T(!new), K>(s: seq<T>, key: T -> K, ks: seq<K>, k0: K)
    requires k0 !in ks
    ensures Gather(Except(s, key, k0), key, ks) == Gather(s, key, ks)
  {
    if ks != [] {
      OfKeyOfExcept(s, key, ks[0], k0);
      GatherOfExcept(s, key, ks[1..], k0);
    }
  }

  /** Grouping by key and reading the groups back in any duplicate-free
      order that lists every key loses and duplicates nothing. */
  lemma {:induction false} GatherIsPermutation<T(!new), K>(s: seq<T>, key: T -> K, ks: seq<K>)
    requires NoDups(ks)
    requires forall x :: x in s ==> key(x) in ks
    ensures multiset(Gather(s, key, ks)) == multiset(s)
    decreases |ks|
  {
    assert s != [] ==> key(s[0]) in ks;
    if ks != [] {
      var rest := Except(s, key, ks[0]);
      assert ks[0] !in ks[1..] by {
        forall i | 0 <= i < |ks[1..]|
          ensures ks[1..][i] != ks[0]
        {
          assert ks[1..][i] == ks[i + 1];
        }
      }
      GatherOfExcept(s, key, ks[1..], ks[0]);
      forall x | x in rest
        ensures key(x) in ks[1..]
      {
        var i :| 0 <= i < |ks| && ks[i] == key(x);
        assert i != 0;
        assert ks[1..][i - 1] == ks[i];
      }
      assert NoDups(ks[1..]) by {
        forall i, j | 0 <= i < j < |ks[1..]|
          ensures ks[1..][i] != ks[1..][j]
        {
          assert ks[1..][i] == ks[i + 1] && ks[1..][j] == ks[j + 1];
        }
      }
      GatherIsPermutation(rest, key, ks[1..]);
      OfKeyExceptSplit(s, key, ks[0]);
    }
  }
  /** A permutation of a duplicate-free sequence is duplicate-free. */
  lemma NoDupsPermutation<T>(a: seq<T>, b: seq<T>)
    requires NoDups(a) && multiset(a) == multiset(b)
    ensures NoDups(b)
  {
    DistinctCount(a);
    assert Elems(a) == Elems(b) by {
      forall x
        ensures x in Elems(a) <==> x in Elems(b)
      {
        assert x in a <==> x in multiset(a);
        assert x in b <==> x in multiset(b);
      }
    }
    assert |b| == |a| by {
      assert |multiset(a)| == |multiset(b)|;
    }
    if !NoDups(b) {
      var i, j :| 0 <= i < j < |b| && b[i] == b[j];
      ElemsWithoutDuplicate(b, i, j);
    }
  }

  /** A sequence with a repeated element has fewer distinct elements than
      positions. */
  lemma {:induction false} ElemsWithoutDuplicate<T>(s: seq<T>, i: int, j: int)
    requires 0 <= i < j < |s| && s[i] == s[j]
    ensures |Elems(s)| < |s|
  {
    var t := s[..j] + s[j + 1..];
    assert s == s[..j] + [s[j]] + s[j + 1..];
    assert Elems(s) == Elems(t) by {
      assert s[j] == t[i];
      forall x | x in Elems(s)
        ensures x in Elems(t)
      {
        var k :| 0 <= k < |s| && s[k] == x;
        if k < j {
          assert t[k] == x;
        } else if k > j {
          assert t[k - 1] == x;
        }
      }
      forall x | x in Elems(t)
        ensures x in Elems(s)
      {
        var k :| 0 <= k < |t| && t[k] == x;
        if k < j {
          assert s[k] == x;
        } else {
          assert s[k + 1] == x;
        }
      }
    }
    ElemsBound(t);
  }

  lemma {:induction false} ElemsBound<T>(s: seq<T>)
    ensures |Elems(s)| <= |s|
  {
    if s != [] {
      ElemsBound(s[1..]);
      assert s == [s[0]] + s[1..];
      assert Elems(s) == {s[0]} + Elems(s[1..]);
    }
  }

  /** Dropping the last element keeps a sequence duplicate-free, and the
      dropped element occurs nowhere else. */
  lemma NoDupsSnoc<T>(s: seq<T>)
    requires s != [] && NoDups(s)
    ensures NoDups(s[..|s| - 1])
    ensures s[|s| - 1] !in Elems(s[..|s| - 1])
  {
    var p := s[..|s| - 1];
    assert forall i :: 0 <= i < |p| ==> p[i] == s[i];
  }

  /** The sum of `f` over the elements of `s`. */
  function SumOf<T>(s: seq<T>, f: T -> int): int {
    if s == [] then 0 else f(s[0]) + SumOf(s[1..], f)
  }

  lemma {:induction false} SumOfAppend<T>(a: seq<T>, b: seq<T>, f: T -> int)
    ensures SumOf(a + b, f) == SumOf(a, f) + SumOf(b, f)
  {
    if a == [] {
      assert a + b == b;
    } else {
      assert (a + b)[1..] == a[1..] + b;
      SumOfAppend(a[1..], b, f);
    }
  }

  /** A sum does not depend on the order of its terms. */
  lemma {:induction false} SumOfPermutation<T>(a: seq<T>, b: seq<T>, f: T -> int)
    requires multiset(a) == multiset(b)
    ensures SumOf(a, f) == SumOf(b, f)
    decreases |a|
  {
    if a == [] {
      assert |b| == |multiset(b)| == 0;
    } else {
      var i := IndexIn(b, a[0]);
      MultisetTail(a, b, i);
      SumOfPermutation(a[1..], b[..i] + b[i + 1..], f);
      SumOfRemove(b, i, f);
    }
  }

  /** Matching the head of `a` with a copy of it in `b` leaves two
      permutations of each other. */
  lemma MultisetTail<T>(a: seq<T>, b: seq<T>, i: nat)
    requires multiset(a) == multiset(b)
    requires a != [] && i < |b| && b[i] == a[0]
    ensures multiset(a[1..]) == multiset(b[..i] + b[i + 1..])
  {
    MultisetRemove(b, i);
    assert a == [a[0]] + a[1..];
  }

  lemma IndexIn<T>(b: seq<T>, x: T) returns (i: nat)
    requires x in multiset(b)
    ensures i < |b| && b[i] == x
  {
    assert x in b;
    i :| 0 <= i < |b| && b[i] == x;
  }

  /** Taking out the element at `i` takes one copy of it out of the
      multiset. */
  lemma MultisetRemove<T>(b: seq<T>, i: nat)
    requires i < |b|
    ensures multiset(b[..i] + b[i + 1..]) == multiset(b) - multiset{b[i]}
  {
    assert b == b[..i] + [b[i]] + b[i + 1..];
    assert multiset(b) == multiset(b[..i]) + multiset{b[i]} + multiset(b[i + 1..]);
  }

  lemma SumOfRemove<T>(b: seq<T>, i: nat, f: T -> int)
    requires i < |b|
    ensures SumOf(b, f) == f(b[i]) + SumOf(b[..i] + b[i + 1..], f)
  {
    var a, c := b[..i], b[i + 1..];
    SpliceAt(b, i);
    SumOfSplice(a, b[i], c, f);
  }

  lemma SpliceAt<T>(b: seq<T>, i: nat)
    requires i < |b|
    ensures b == b[..i] + ([b[i]] + b[i + 1..])
  {
  }

  lemma SumOfSplice<T>(a: seq<T>, x: T, c: seq<T>, f: T -> int)
    ensures SumOf(a + ([x] + c), f) == f(x) + SumOf(a + c, f)
  {
    SumOfAppend(a, [x] + c, f);
    SumOfAppend(a, c, f);
    assert ([x] + c)[1..] == c;
  }
}
