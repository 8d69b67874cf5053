/**
 * Top-down merge sort on inclusive index ranges, merging in place: when the
 * head of the right run is smaller than the head of the left run, it is
 * rotated into place in front of the rest of the left run.
 */
module MergeSort {
  import opened Ordering
  import opened SliceOps

  /**
   * The state of `merge` over `b`, started from `s`, on `first..=end`: the
   * output `b[first..start]` is sorted and at most every element still to be
   * merged; what is left of the left run, `b[start..=mid]`, and the right run
   * `b[mid + 1..=end]` are each sorted; nothing outside `first..=end` has moved.
   */
  ghost predicate Merging(s: seq<int>, b: seq<int>, first: int, start: int, mid: int, end: int) {
    && start <= mid + 1 <= end + 1
    && OutputBelow(b, first, start, end)
    && RunsSorted(b, start, mid, end)
    && UnchangedOutside(s, b, first, end + 1)
  }

  /** The merged output `b[first..start]` is sorted and at most everything in `b[start..=end]`. */
  ghost predicate OutputBelow(b: seq<int>, first: int, start: int, end: int) {
    && 0 <= first <= start <= end + 1 <= |b|
    && SortedBetween(b, first, start)
    && (forall i, j :: first <= i < start <= j <= end ==> b[i] <= b[j])
  }

  /** The runs `b[start..=mid]` and `b[mid + 1..=end]` are each sorted. */
  ghost predicate RunsSorted(b: seq<int>, start: int, mid: int, end: int) {
    SortedBetween(b, start, mid + 1) && SortedBetween(b, mid + 1, end + 1)
  }

  /** Two adjacent sorted runs with the last of the first at most the first of the second are one sorted run. */
  lemma JoinRuns(b: seq<int>, first: int, mid: int, end: int)
    requires 0 <= first <= mid < end < |b|
    requires SortedBetween(b, first, mid + 1) && SortedBetween(b, mid + 1, end + 1)
    requires b[mid] <= b[mid + 1]
    ensures SortedBetween(b, first, end + 1)
  {
    forall i, j | first <= i < j < end + 1 ensures b[i] <= b[j] {
      if i <= mid < j {
        assert b[i] <= b[mid] && b[mid + 1] <= b[j];
      }
    }
  }

  /** Merging starts with an empty output. */
  lemma MergeStart(s: seq<int>, first: int, mid: int, end: int)
    requires 0 <= first <= mid < end < |s|
    requires SortedBetween(s, first, mid + 1) && SortedBetween(s, mid + 1, end + 1)
    ensures Merging(s, s, first, first, mid, end)
  {
  }

  /** The head of the left run is at most the head of the right run: it joins the output. */
  lemma TakeLeft(s: seq<int>, b: seq<int>, first: int, start: int, mid: int, end: int)
    requires Merging(s, b, first, start, mid, end) && start <= mid < end
    requires b[start] <= b[mid + 1]
    ensures Merging(s, b, first, start + 1, mid, end)
  {
    forall i, j | first <= i < start + 1 <= j <= end ensures b[i] <= b[j] {
      if i == start && mid < j {
        assert b[mid + 1] <= b[j];
      }
    }
  }

  /**
   * The head of the right run is smaller than the head of the left run:
   * `rotate_right(1)` on `start..=start2` moves it to the output and shifts
   * the left run up by one place.
   */
  lemma TakeRight(s: seq<int>, b: seq<int>, c: seq<int>, first: int, start: int, mid: int, start2: int, end: int)
    requires Merging(s, b, first, start, mid, end) && start <= mid && start2 == mid + 1 <= end
    requires b[start2] < b[start]
    requires Rotated(b, c, start, start2)
    ensures Merging(s, c, first, start + 1, mid + 1, end)
  {
    TakeRightOutput(b, c, first, start, mid, end);
    TakeRightRuns(b, c, start, mid, end);
  }

  /** The rotated head of the right run extends the output and stays below what remains. */
  lemma TakeRightOutput(b: seq<int>, c: seq<int>, first: int, start: int, mid: int, end: int)
    requires OutputBelow(b, first, start, end) && RunsSorted(b, start, mid, end)
    requires start <= mid < end && b[mid + 1] < b[start]
    requires Rotated(b, c, start, mid + 1)
    ensures OutputBelow(c, first, start + 1, end)
  {
    forall i, j | first <= i < j < start + 1 ensures c[i] <= c[j] {
      if j == start {
        assert b[i] <= b[mid + 1];
      }
    }
    forall i, j | first <= i < start + 1 <= j <= end ensures c[i] <= c[j] {
      if i < start {
        if j <= mid + 1 {
          assert b[i] <= b[j - 1];
        } else {
          assert b[i] <= b[j];
        }
      } else if j <= mid + 1 {
        assert b[start] <= b[j - 1];
      } else {
        assert b[mid + 1] <= b[j];
      }
    }
  }

  /** After the rotation the left run sits one place higher, still sorted, and the right run lost its head. */
  lemma TakeRightRuns(b: seq<int>, c: seq<int>, start: int, mid: int, end: int)
    requires 0 <= start <= mid < end < |b| && RunsSorted(b, start, mid, end)
    requires Rotated(b, c, start, mid + 1)
    ensures RunsSorted(c, start + 1, mid + 1, end)
  {
    forall i, j | start + 1 <= i < j < mid + 2 ensures c[i] <= c[j] {
      assert b[i - 1] <= b[j - 1];
    }
  }

  /**
   * The `else` branch of `merge`: `slice[start..=start2].rotate_right(1)`
   * brings the head of the right run in front of the rest of the left run,
   * and the merge state moves on with both `start` and `mid` one place higher.
   */
  method ShiftIn(a: array<int>, ghost s: seq<int>, first: int, start: int, mid: int, start2: int, end: int)
    requires Merging(s, a[..], first, start, mid, end) && start <= mid && start2 == mid + 1 <= end
    requires a[start2] < a[start]
    modifies a
    ensures Merging(s, a[..], first, start + 1, mid + 1, end)
    ensures multiset(a[..]) == multiset(old(a[..]))
  {
    ghost var b := a[..];
    RotateRight1(a, start, start2);
    RotatedRightIsRotated(b, start, start2);
    TakeRight(s, b, a[..], first, start, mid, start2, end);
  }

  /** When either run is used up, the whole range is sorted. */
  lemma MergeEnd(s: seq<int>, b: seq<int>, first: int, start: int, mid: int, end: int)
    requires Merging(s, b, first, start, mid, end)
    requires mid < start || end < mid + 1
    ensures SortedBetween(b, first, end + 1) && UnchangedOutside(s, b, first, end + 1)
  {
  }

  /**
   * `merge(slice, start, mid, end)`: merge the sorted runs `start..=mid` and
   * `mid + 1..=end` in place. Nothing happens when the runs are already in
   * order; otherwise the cursors `start`, `mid` and `start2` advance as
   * elements join the output. Only `first..=end` changes.
   */
  method Merge(a: array<int>, first: int, middle: int, end: int)
    requires 0 <= first <= middle < end < a.Length
    requires SortedBetween(a[..], first, middle + 1) && SortedBetween(a[..], middle + 1, end + 1)
    modifies a
    ensures SortedBetween(a[..], first, end + 1)
    ensures multiset(a[..]) == multiset(old(a[..]))
    ensures UnchangedOutside(old(a[..]), a[..], first, end + 1)
  {
    var start, mid := first, middle;
    var start2 := mid + 1;
    if a[mid] <= a[start2] {
      JoinRuns(a[..], first, mid, end);
      return;
    }
    ghost var s := a[..];
    MergeStart(s, first, mid, end);
    while start <= mid && start2 <= end
      invariant start2 == mid + 1
      invariant Merging(s, a[..], first, start, mid, end)
      invariant multiset(a[..]) == multiset(s)
      decreases end - start2, mid - start
    {
      if a[start] <= a[start2] {
        TakeLeft(s, a[..], first, start, mid, end);
        start := start + 1;
      } else {
        ShiftIn(a, s, first, start, mid, start2, end);
        // the left run now starts, and ends, one place higher
        start := start + 1;
        mid := mid + 1;
        start2 := start2 + 1;
      }
    }
    MergeEnd(s, a[..], first, start, mid, end);
  }

  /**
   * `merge_sort(slice, left, right)` on the inclusive range `left..=right`:
   * sort both halves around `mid = (left + right) / 2`, then merge them.
   */
  method MergeSortRange(a: array<int>, left: int, right: int)
    requires 0 <= left <= right < a.Length
    modifies a
    ensures SortedBetween(a[..], left, right + 1)
    ensures multiset(a[..]) == multiset(old(a[..]))
    ensures UnchangedOutside(old(a[..]), a[..], left, right + 1)
    decreases right - left
  {
    if left < right {
      var mid := (left + right) / 2;
      MergeSortRange(a, left, mid);
      ghost var b := a[..];
      MergeSortRange(a, mid + 1, right);
      assert forall k :: left <= k <= mid ==> a[k] == b[k];
      Merge(a, left, mid, right);
    }
  }

  /** `MergeSort::sort`: slices of length 0 and 1 are left alone. */
  method Sort(a: array<int>)
    modifies a
    ensures Sorted(a[..])
    ensures multiset(a[..]) == multiset(old(a[..]))
  {
    if a.Length == 0 || a.Length == 1 {
      ShortIsSorted(a[..]);
      return;
    }
    MergeSortRange(a, 0, a.Length - 1);
    SortedBetweenSlice(a[..], 0, a.Length);
    assert a[..] == a[..][0..a.Length];
  }
}
