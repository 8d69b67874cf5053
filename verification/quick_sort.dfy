/**
 * Quick sort with the first element of each range as the pivot: partition the
 * rest with two cursors, swap the pivot into the boundary, and recurse on the
 * two sides. Sub-slices of the original are index ranges `lo..hi` (half-open)
 * of the same array.
 */
module QuickSort {
  import opened Ordering
  import opened SliceOps

  /**
   * The state of the partition loop over `b`, started from `s`: the pivot
   * `s[lo]` is still at `lo`; `rest` begins at `lo + 1`; the elements of `rest`
   * before cursor `left` are at most the pivot, those after cursor `right`
   * greater; nothing outside `lo..hi` has moved.
   */
  ghost predicate Cursors(s: seq<int>, b: seq<int>, lo: int, hi: int, left: int, right: int) {
    && 0 <= lo && lo + 2 <= hi <= |s| == |b|
    && 0 <= left <= right + 1 <= hi - lo - 1
    && b[lo] == s[lo]
    && (forall k :: lo + 1 <= k < lo + 1 + left ==> b[k] <= s[lo])
    && (forall k :: lo + 1 + right < k < hi ==> s[lo] < b[k])
    && UnchangedOutside(s, b, lo, hi)
  }

  /**
   * The loop is over: the elements of `rest` before `left` are at most the
   * pivot and all from `left` on are greater.
   */
  ghost predicate Split(s: seq<int>, b: seq<int>, lo: int, hi: int, left: int) {
    && 0 <= lo && lo + 2 <= hi <= |s| == |b|
    && 0 <= left <= hi - lo - 1
    && b[lo] == s[lo]
    && (forall k :: lo + 1 <= k < lo + 1 + left ==> b[k] <= s[lo])
    && (forall k :: lo + 1 + left <= k < hi ==> s[lo] < b[k])
    && UnchangedOutside(s, b, lo, hi)
  }

  /** The first branch: an element at most the pivot stays on the left. */
  lemma AdvanceLeft(s: seq<int>, b: seq<int>, lo: int, hi: int, left: int, right: int)
    requires Cursors(s, b, lo, hi, left, right) && left <= right && b[lo + 1 + left] <= s[lo]
    ensures Cursors(s, b, lo, hi, left + 1, right)
  {
  }

  /** The second branch: an element above the pivot stays on the right. */
  lemma RetreatRight(s: seq<int>, b: seq<int>, lo: int, hi: int, left: int, right: int)
    requires Cursors(s, b, lo, hi, left, right) && left <= right && 0 < right
    requires s[lo] < b[lo + 1 + right]
    ensures Cursors(s, b, lo, hi, left, right - 1)
  {
  }

  /** The swap in the third branch keeps the cursor invariant, one step further on each side. */
  lemma SwapCursors(s: seq<int>, b: seq<int>, c: seq<int>, lo: int, hi: int, left: int, right: int)
    requires Cursors(s, b, lo, hi, left, right) && left <= right
    requires s[lo] < b[lo + 1 + left] && b[lo + 1 + right] <= s[lo]
    requires c == b[lo + 1 + left := b[lo + 1 + right]][lo + 1 + right := b[lo + 1 + left]]
    ensures left < right
    ensures Cursors(s, c, lo, hi, left + 1, right - 1)
  {
  }

  /** The loop ends with the cursors crossed, or at a `break` with `right == 0`. */
  lemma CursorsCrossed(s: seq<int>, b: seq<int>, lo: int, hi: int, left: int, right: int)
    requires Cursors(s, b, lo, hi, left, right)
    requires right < left || (right == 0 && s[lo] < b[lo + 1 + right])
    ensures Split(s, b, lo, hi, left)
  {
  }

  /** `slice.swap(0, left)` puts the pivot between the two sides; `c` is the array after it. */
  lemma PlacePivot(s: seq<int>, b: seq<int>, c: seq<int>, lo: int, hi: int, left: int)
    requires Split(s, b, lo, hi, left)
    requires c == b[lo := b[lo + left]][lo + left := b[lo]]
    ensures c[lo + left] == s[lo]
    ensures forall k :: lo <= k < lo + left ==> c[k] <= c[lo + left]
    ensures forall k :: lo + left < k < hi ==> c[lo + left] < c[k]
    ensures UnchangedOutside(s, c, lo, hi)
  {
    forall k | lo <= k < lo + left ensures c[k] <= c[lo + left] {
      if k == lo {
        assert c[k] == b[lo + left];
      } else {
        assert c[k] == b[k];
      }
    }
  }

  /**
   * The third branch of the cursor loop: `rest.swap(left, right)` exchanges an
   * element above the pivot with one at most the pivot, so both belong to
   * the side the other came from.
   */
  method ExchangePair(a: array<int>, ghost s: seq<int>, lo: int, hi: int, left: int, right: int)
    requires Cursors(s, a[..], lo, hi, left, right) && left <= right
    requires s[lo] < a[lo + 1 + left] && a[lo + 1 + right] <= s[lo]
    modifies a
    ensures left < right
    ensures Cursors(s, a[..], lo, hi, left + 1, right - 1)
    ensures multiset(a[..]) == multiset(old(a[..]))
  {
    ghost var b := a[..];
    Swap(a, lo + 1 + left, lo + 1 + right);
    SwapCursors(s, b, a[..], lo, hi, left, right);
  }

  /**
   * The cursor loop of `quicksort` over a range of at least two elements:
   * with the pivot at `lo` (`split_first_mut`) and `rest` from `lo + 1`, move
   * the elements of `rest` that are at most the pivot to its front. Returns
   * the final `left` cursor, the number of such elements.
   */
  method PartitionRest(a: array<int>, lo: int, hi: int) returns (left: int)
    requires 0 <= lo && lo + 2 <= hi <= a.Length
    modifies a
    ensures Split(old(a[..]), a[..], lo, hi, left)
    ensures multiset(a[..]) == multiset(old(a[..]))
  {
    ghost var s := a[..];
    var pivot := a[lo];
    var rest := lo + 1;
    left := 0;
    var right := hi - rest - 1;
    while left <= right
      invariant Cursors(s, a[..], lo, hi, left, right)
      invariant multiset(a[..]) == multiset(s)
    {
      if a[rest + left] <= pivot {
        AdvanceLeft(s, a[..], lo, hi, left, right);
        left := left + 1;
      } else if a[rest + right] > pivot {
        // an element above the pivot is already on its side; at `right == 0` the loop stops
        if right == 0 {
          CursorsCrossed(s, a[..], lo, hi, left, right);
          break;
        }
        RetreatRight(s, a[..], lo, hi, left, right);
        right := right - 1;
      } else {
        // an out-of-place pair: exchange it, moving both cursors
        ExchangePair(a, s, lo, hi, left, right);
        left := left + 1;
        if right == 0 {
          break;
        }
        right := right - 1;
      }
    }
    CursorsCrossed(s, a[..], lo, hi, left, right);
  }

  /**
   * The partition of `quicksort`: after the cursor loop, `slice.swap(0, left)`
   * places the pivot at `p`, with every element before it at most the pivot
   * and every element after it greater.
   */
  method Partition(a: array<int>, lo: int, hi: int) returns (p: int)
    requires 0 <= lo && lo + 2 <= hi <= a.Length
    modifies a
    ensures lo <= p < hi && a[p] == old(a[lo])
    ensures forall k :: lo <= k < p ==> a[k] <= a[p]
    ensures forall k :: p < k < hi ==> a[p] < a[k]
    ensures multiset(a[..]) == multiset(old(a[..]))
    ensures UnchangedOutside(old(a[..]), a[..], lo, hi)
  {
    ghost var s := a[..];
    var left := PartitionRest(a, lo, hi);
    // the pivot goes to the boundary between the two sides
    ghost var b := a[..];
    Swap(a, lo, lo + left);
    PlacePivot(s, b, a[..], lo, hi, left);
    p := lo + left;
  }

  /**
   * The two sides of a partitioned range, each sorted in place, make the range
   * sorted: `b` is the array after partitioning with the pivot at `p`, `c`
   * after sorting `lo..p`, `d` after sorting `p + 1..hi`.
   */
  lemma SortedAroundPivot(b: seq<int>, c: seq<int>, d: seq<int>, lo: int, p: int, hi: int)
    requires 0 <= lo <= p < hi <= |b| == |c| == |d|
    requires forall k :: lo <= k < p ==> b[k] <= b[p]
    requires forall k :: p < k < hi ==> b[p] < b[k]
    requires SortedBetween(c, lo, p) && multiset(c) == multiset(b)
    requires UnchangedOutside(b, c, lo, p)
    requires SortedBetween(d, p + 1, hi) && multiset(d) == multiset(c)
    requires UnchangedOutside(c, d, p + 1, hi)
    ensures SortedBetween(d, lo, hi)
  {
    var v := b[p];
    RangeMultiset(b, c, lo, p);
    assert AllAtMost(b[lo..p], v);
    AtMostFollowsMultiset(c[lo..p], b[lo..p], v);
    RangeMultiset(c, d, p + 1, hi);
    assert c[p + 1..hi] == b[p + 1..hi];
    assert AllAbove(b[p + 1..hi], v);
    AboveFollowsMultiset(d[p + 1..hi], b[p + 1..hi], v);
    assert d[lo..p] == c[lo..p];
    forall i, j | lo <= i < j < hi ensures d[i] <= d[j] {
      if j < p {
        assert d[i] == c[lo..p][i - lo] && d[j] == c[lo..p][j - lo];
      } else if p < i {
      } else if i < p {
        assert d[i] == c[lo..p][i - lo];
        if p < j {
          assert d[j] == d[p + 1..hi][j - p - 1];
        }
      } else {
        assert d[j] == d[p + 1..hi][j - p - 1];
      }
    }
  }

  /**
   * `quicksort` on the range `lo..hi`: lengths 0 and 1 are left alone, a pair
   * is swapped when out of order, anything longer is partitioned and both
   * sides sorted recursively, each on a strictly shorter range. Nothing
   * outside the range changes.
   */
  method QuickSortRange(a: array<int>, lo: int, hi: int)
    requires 0 <= lo <= hi <= a.Length
    modifies a
    ensures SortedBetween(a[..], lo, hi)
    ensures multiset(a[..]) == multiset(old(a[..]))
    ensures UnchangedOutside(old(a[..]), a[..], lo, hi)
    decreases hi - lo
  {
    var len := hi - lo;
    if len <= 1 {
      return;
    }
    if len == 2 {
      if a[lo] > a[lo + 1] {
        Swap(a, lo, lo + 1);
      }
      return;
    }
    var p := Partition(a, lo, hi);
    // `left.last() <= right.first()`: the element before the pivot is at most the pivot
    assert lo < p ==> a[p - 1] <= a[p];
    ghost var b := a[..];
    QuickSortRange(a, lo, p);
    ghost var c := a[..];
    QuickSortRange(a, p + 1, hi);
    SortedAroundPivot(b, c, a[..], lo, p, hi);
  }

  /** `QuickSort::sort`: `quicksort` on the whole slice. */
  method Sort(a: array<int>)
    modifies a
    ensures Sorted(a[..])
    ensures multiset(a[..]) == multiset(old(a[..]))
  {
    QuickSortRange(a, 0, a.Length);
    SortedBetweenSlice(a[..], 0, a.Length);
    assert a[..] == a[..][0..a.Length];
  }
}
