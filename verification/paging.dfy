/** Pagination of the sorted session list: the page-count arithmetic and the
    previous/next controls, and the slice that cuts one page out of the list.
    A page number is `Option<int>`: `None` stands for the NaN that parsing a
    non-numeric page parameter yields. */
module Paging {
  import opened Outcomes
  import opened Seqs

  /** Sessions per page on the history screen. */
  const PageSize := 15

  /** `Math.ceil(totalCount / pageSize)`. */
  function TotalPages(count: nat, size: int): (tp: nat)
    requires size > 0
    ensures count == 0 ==> tp == 0
    ensures count > 0 ==> (tp - 1) * size < count <= tp * size
  {
    (count + size - 1) / size
  }

  /** The controls are rendered only with more than one page. */
  predicate ShowsControls(count: nat, size: int)
    requires size > 0
  {
    TotalPages(count, size) > 1
  }

  lemma ControlsHiddenIffOnePage(count: nat, size: int)
    requires size > 0
    ensures !ShowsControls(count, size) <==> count <= size
  {
    var tp := TotalPages(count, size);
    if count > size && tp <= 1 {
      MulMono(tp, 1, size);
    }
  }

  /** `handlePrevious`: the page to move to, if any (NaN compares false). */
  function Previous(current: Option<int>): (p: Option<int>)
    ensures p.Some? <==> current.Some? && current.value > 1
    ensures p.Some? ==> p.value >= 1 && p.value == current.value - 1
  {
    if current.Some? && current.value > 1 then Some(current.value - 1) else None
  }

  /** `handleNext`. */
  function Next(current: Option<int>, totalPages: nat): (p: Option<int>)
    ensures p.Some? <==> current.Some? && current.value < totalPages
    ensures p.Some? ==> p.value <= totalPages && p.value == current.value + 1
  {
    if current.Some? && current.value < totalPages then Some(current.value + 1) else None
  }

  /** `currentPage === 1` (NaN equals nothing). */
  predicate PreviousDisabled(current: Option<int>) {
    current == Some(1)
  }

  /** `currentPage === totalPages`. */
  predicate NextDisabled(current: Option<int>, totalPages: nat) {
    current == Some(totalPages)
  }

  /** On a page within range a button is disabled exactly when its handler
      would do nothing. */
  lemma DisabledIffInert(current: int, totalPages: nat)
    requires 1 <= current <= totalPages
    ensures PreviousDisabled(Some(current)) <==> Previous(Some(current)).None?
    ensures NextDisabled(Some(current), totalPages) <==> Next(Some(current), totalPages).None?
  {
  }

  /** `Array.prototype.slice`'s reading of an index: negative counts from the
      end; the result is clipped to `[0, n]`. */
  function SliceIndex(x: int, n: nat): (i: nat)
    ensures i <= n
    ensures 0 <= x ==> i == if x <= n then x else n
    ensures x < 0 ==> i == if n + x >= 0 then n + x else 0
  {
    if x < 0 then (if n + x >= 0 then n + x else 0)
    else if x <= n then x else n
  }

  /** `s.slice(start, end)`. */
  function JsSlice<T>(s: seq<T>, start: int, end: int): (r: seq<T>)
    ensures start <= end ==> |r| <= end - start
    ensures 0 <= start <= end ==> r == s[SliceIndex(start, |s|)..SliceIndex(end, |s|)]
    ensures forall x :: x in r ==> x in s
    ensures NoDups(s) ==> NoDups(r)
  {
    var a := SliceIndex(start, |s|);
    var b := SliceIndex(end, |s|);
    if a < b then
      assert forall i :: 0 <= i < b - a ==> s[a..b][i] == s[a + i];
      s[a..b]
    else []
  }

  /** Page `p` (counted from 1) for non-negative offsets: the elements at
      positions `(p - 1) * size` up to `p * size`, clipped to the list. */
  function Page<T>(s: seq<T>, size: nat, p: nat): seq<T>
    requires p >= 1
  {
    var lo := (p - 1) * size;
    var hi := p * size;
    s[if lo <= |s| then lo else |s| .. if hi <= |s| then hi else |s|]
  }

  /** The history page slice: `sorted.slice((page - 1) * size, (page - 1) * size + size)`.
      A NaN page gives NaN offsets, which `slice` reads as 0. */
  function PageSlice<T>(s: seq<T>, size: nat, page: Option<int>): (r: seq<T>)
    ensures |r| <= size
    ensures forall x :: x in r ==> x in s
    ensures NoDups(s) ==> NoDups(r)
    ensures page.Some? && page.value >= 1 ==> r == Page(s, size, page.value)
    ensures page.None? || page == Some(0) ==> r == []
  {
    match page
    case None => JsSlice(s, 0, 0)
    case Some(p) =>
      if p >= 1 then
        PageSliceIsPage(s, size, p);
        JsSlice(s, (p - 1) * size, (p - 1) * size + size)
      else
        JsSlice(s, (p - 1) * size, (p - 1) * size + size)
  }

  lemma PageSliceIsPage<T>(s: seq<T>, size: nat, p: nat)
    requires p >= 1
    ensures JsSlice(s, (p - 1) * size, (p - 1) * size + size) == Page(s, size, p)
  {
    var lo := (p - 1) * size;
    assert lo + size == p * size;
    assert 0 <= lo;
  }

  /** Pages 1 to `n`, concatenated in order. */
  function Pages<T>(s: seq<T>, size: nat, n: nat): seq<T> {
    if n == 0 then [] else Pages(s, size, n - 1) + Page(s, size, n)
  }

  /** The first `n` pages are the first `n * size` elements. */
  lemma {:induction false} PagesPrefix<T>(s: seq<T>, size: nat, n: nat)
    ensures Pages(s, size, n) == s[..if n * size <= |s| then n * size else |s|]
  {
    if n > 0 {
      PagesPrefix(s, size, n - 1);
      MulMono(n - 1, n, size);
      var lo := if (n - 1) * size <= |s| then (n - 1) * size else |s|;
      var hi := if n * size <= |s| then n * size else |s|;
      assert Page(s, size, n) == s[lo..hi];
      PrefixThenSlice(s, lo, hi);
    }
  }

  lemma PrefixThenSlice<T>(s: seq<T>, lo: nat, hi: nat)
    requires lo <= hi <= |s|
    ensures s[..lo] + s[lo..hi] == s[..hi]
  {
  }

  /** Pages are exhaustive and in order: pages 1 to `TotalPages`
      concatenate to the whole list, and the page after the last is empty. */
  lemma PagesCoverList<T>(s: seq<T>, size: nat)
    requires size > 0
    ensures Pages(s, size, TotalPages(|s|, size)) == s
    ensures Page(s, size, TotalPages(|s|, size) + 1) == []
  {
    PagesPrefix(s, size, TotalPages(|s|, size));
  }

  /** Each position lies on exactly one page: position `i` is on page
      `i / size + 1` and on no other. */
  lemma PositionOnOnePage<T>(s: seq<T>, size: nat, i: nat, p: nat)
    requires size > 0 && i < |s| && p >= 1
    ensures var lo := (p - 1) * size;
      (lo <= i < lo + size) <==> p == i / size + 1
  {
    var lo := (p - 1) * size;
    var q := i / size;
    assert q * size <= i < q * size + size;
    if p == q + 1 {
      assert lo == q * size;
    } else if p <= q {
      MulMono(p, q, size);
      assert lo + size == p * size;
    } else {
      MulMono(q + 1, p - 1, size);
      assert (q + 1) * size == q * size + size;
    }
  }

  lemma MulMono(a: nat, b: nat, size: nat)
    requires a <= b
    ensures a * size <= b * size
  {
  }

  /** A position at which an element of the slice `s[lo..hi]` occurs. */
  lemma PositionIn<T>(s: seq<T>, lo: nat, hi: nat, x: T) returns (i: nat)
    requires lo <= hi <= |s| && x in s[lo..hi]
    ensures lo <= i < hi && s[i] == x
  {
    var k :| 0 <= k < |s[lo..hi]| && s[lo..hi][k] == x;
    i := lo + k;
  }

  /** Pages of a duplicate-free list do not overlap. */
  lemma PagesDisjoint<T>(s: seq<T>, size: nat, p: nat, q: nat)
    requires NoDups(s) && size > 0 && 1 <= p < q
    ensures Elems(Page(s, size, p)) !! Elems(Page(s, size, q))
  {
    var lop := if (p - 1) * size <= |s| then (p - 1) * size else |s|;
    var hip := if p * size <= |s| then p * size else |s|;
    var loq := if (q - 1) * size <= |s| then (q - 1) * size else |s|;
    var hiq := if q * size <= |s| then q * size else |s|;
    MulMono(p, q - 1, size);
    MulMono(p - 1, p, size);
    MulMono(q - 1, q, size);
    assert Page(s, size, p) == s[lop..hip];
    assert Page(s, size, q) == s[loq..hiq];
    forall x | x in Elems(Page(s, size, p)) && x in Elems(Page(s, size, q))
      ensures false
    {
      var a := PositionIn(s, lop, hip, x);
      var b := PositionIn(s, loq, hiq, x);
    }
  }
}
