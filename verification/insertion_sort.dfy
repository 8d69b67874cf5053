/**
 * Insertion sort: the slice is `[sorted | not sorted]`, and each round moves
 * the first unsorted element into the sorted prefix, either by walking it left
 * with adjacent swaps or, in the `smart` variant, by a binary search followed
 * by a one-place rotation.
 */
module InsertionSort {
  import opened Ordering
  import opened SliceOps

  /**
   * `after` is `before` with the element at `unsorted` moved to position `at`
   * of the prefix, where it may go in order: everything before `at` is at
   * most it and everything from `at` to `unsorted` at least it. Nothing past
   * `unsorted` moves.
   */
  ghost predicate InsertedAt(before: seq<int>, after: seq<int>, unsorted: int, at: int) {
    && MovedTo(before, after, unsorted, at)
    && InsertionPoint(before[..unsorted], at, before[unsorted])
  }

  /** `after` is `before` with the element at `unsorted` moved to position `at`. */
  ghost predicate MovedTo(before: seq<int>, after: seq<int>, unsorted: int, at: int) {
    && 0 <= at <= unsorted < |before| == |after|
    && after[..unsorted + 1] == before[..at] + [before[unsorted]] + before[at..unsorted]
    && after[unsorted + 1..] == before[unsorted + 1..]
  }

  /**
   * The walk of the linear variant: while the left neighbour is strictly
   * greater, swap with it. The element lands just after the last element of
   * the prefix that is at most it, so it never passes an equal element; the
   * ghost `at` is where it lands.
   */
  method InsertByWalk(a: array<int>, unsorted: int) returns (ghost at: int)
    requires 0 < unsorted < a.Length && Sorted(a[..unsorted])
    modifies a
    ensures InsertedAt(old(a[..]), a[..], unsorted, at)
    ensures forall k :: at <= k < unsorted ==> old(a[unsorted]) < old(a[k])
  {
    ghost var s := a[..];
    ghost var p, x := a[..unsorted], a[unsorted];
    var i := unsorted;
    while i > 0 && a[i - 1] > a[i]
      invariant 0 <= i <= unsorted
      invariant a[i] == x
      invariant a[..i] == p[..i]
      invariant a[i + 1..unsorted + 1] == p[i..]
      invariant forall k :: i <= k < unsorted ==> x < p[k]
      invariant a[unsorted + 1..] == old(a[unsorted + 1..])
    {
      Swap(a, i - 1, i);
      i := i - 1;
    }
    at := i;
    assert a[..unsorted + 1] == a[..i] + [a[i]] + a[i + 1..unsorted + 1];
    if i > 0 {
      assert p[i - 1] == a[i - 1] <= x;
    }
    assert p[..i] == s[..i] && p[i..] == s[i..unsorted];
    assert a[unsorted + 1..] == s[unsorted + 1..];
  }

  /**
   * The binary-search variant: find an insertion point `i` for the new element
   * in the sorted prefix (any equal element's index will do), then
   * `slice[i..=unsorted].rotate_right(1)`. Nothing outside `i..=unsorted` moves.
   */
  method InsertBySearch(a: array<int>, unsorted: int) returns (ghost at: int)
    requires 0 < unsorted < a.Length && Sorted(a[..unsorted])
    modifies a
    ensures 0 <= at <= unsorted
    ensures a[..] == RotatedRight(old(a[..]), at, unsorted)
    ensures InsertedAt(old(a[..]), a[..], unsorted, at)
  {
    ghost var s := a[..];
    var r := BinarySearch(a, unsorted, a[unsorted]);
    // `Ok(i) | Err(i) => i`: found or not, the index is where the element goes.
    var i := r.index;
    ghost var p := s[..unsorted];
    assert r.Found? ==> p[i] == s[unsorted];
    assert r.NotFound? ==> forall k :: 0 <= k < i ==> p[k] < s[unsorted];
    assert r.NotFound? ==> forall k :: i <= k < unsorted ==> s[unsorted] < p[k];
    SearchIndexIsInsertionPoint(p, r, s[unsorted]);
    RotateRight1(a, i, unsorted);
    at := i;
    RotationInserts(s, i, unsorted);
  }

  /**
   * Rotating `s[at..=unsorted]` right by one, where `at` is an insertion
   * point for `s[unsorted]` in the sorted prefix, is an insertion.
   */
  lemma RotationInserts(s: seq<int>, at: int, unsorted: int)
    requires 0 <= at <= unsorted < |s|
    requires InsertionPoint(s[..unsorted], at, s[unsorted])
    ensures InsertedAt(s, RotatedRight(s, at, unsorted), unsorted, at)
  {
    var r := RotatedRight(s, at, unsorted);
    forall j | 0 <= j <= unsorted
      ensures r[j] == (s[..at] + [s[unsorted]] + s[at..unsorted])[j]
    {
      RotatedRightAt(s, at, unsorted, j);
    }
    assert r[..unsorted + 1] == s[..at] + [s[unsorted]] + s[at..unsorted];
    forall j | unsorted < j < |s| ensures r[j] == s[j] {
      RotatedRightAt(s, at, unsorted, j);
    }
    assert r[unsorted + 1..] == s[unsorted + 1..];
  }

  /** Inserting at a valid point keeps the prefix sorted. */
  lemma InsertedSorted(before: seq<int>, after: seq<int>, unsorted: int, at: int)
    requires InsertedAt(before, after, unsorted, at) && Sorted(before[..unsorted])
    ensures Sorted(after[..unsorted + 1])
  {
    var p := before[..unsorted];
    assert p[..at] == before[..at] && p[at..] == before[at..unsorted];
    InsertSorted(p, at, before[unsorted]);
  }

  /** Inserting only rearranges the prefix and its new element. */
  lemma InsertedPermutes(before: seq<int>, after: seq<int>, unsorted: int, at: int)
    requires InsertedAt(before, after, unsorted, at)
    ensures multiset(after[..unsorted + 1]) == multiset(before[..unsorted + 1])
  {
    var front, back, x := before[..at], before[at..unsorted], before[unsorted];
    assert before[..unsorted + 1] == front + back + [x];
    assert multiset(after[..unsorted + 1]) == multiset(front) + multiset([x]) + multiset(back);
    assert multiset(before[..unsorted + 1]) == multiset(front) + multiset(back) + multiset([x]);
  }

  /**
   * One round grows the sorted prefix by one: if `before[..unsorted]` is sorted
   * and a permutation of the original prefix, with the rest untouched, then
   * the same holds of `after` one place further on.
   */
  lemma InsertionRound(orig: seq<int>, before: seq<int>, after: seq<int>, unsorted: int, at: int)
    requires InsertedAt(before, after, unsorted, at) && |orig| == |before|
    requires Sorted(before[..unsorted])
    requires multiset(before[..unsorted]) == multiset(orig[..unsorted])
    requires before[unsorted..] == orig[unsorted..]
    ensures Sorted(after[..unsorted + 1])
    ensures multiset(after[..unsorted + 1]) == multiset(orig[..unsorted + 1])
    ensures after[unsorted + 1..] == orig[unsorted + 1..]
  {
    InsertedSorted(before, after, unsorted, at);
    InsertedPermutes(before, after, unsorted, at);
    GrowPrefix(orig, before, unsorted);
    assert after[unsorted + 1..] == before[unsorted..][1..];
  }

  /** Prefixes that are permutations of each other stay so when both take the same next element. */
  lemma GrowPrefix(orig: seq<int>, before: seq<int>, unsorted: int)
    requires 0 <= unsorted < |before| == |orig|
    requires multiset(before[..unsorted]) == multiset(orig[..unsorted])
    requires before[unsorted..] == orig[unsorted..]
    ensures multiset(before[..unsorted + 1]) == multiset(orig[..unsorted + 1])
  {
    assert before[..unsorted + 1] == before[..unsorted] + [before[unsorted]];
    assert orig[..unsorted + 1] == orig[..unsorted] + [orig[unsorted]];
    assert orig[unsorted] == orig[unsorted..][0];
  }

  /** `InsertionSort::sort`; `smart` selects the binary-search variant. */
  method Sort(a: array<int>, smart: bool)
    modifies a
    ensures Sorted(a[..])
    ensures multiset(a[..]) == multiset(old(a[..]))
  {
    var n := a.Length;
    if n == 0 {
      return;
    }
    ghost var orig := a[..];
    var unsorted := 1;
    while unsorted < n
      invariant 1 <= unsorted <= n
      invariant Sorted(a[..unsorted])
      invariant multiset(a[..unsorted]) == multiset(orig[..unsorted])
      invariant a[unsorted..] == orig[unsorted..]
    {
      ghost var before := a[..];
      ghost var at;
      if !smart {
        at := InsertByWalk(a, unsorted);
      } else {
        at := InsertBySearch(a, unsorted);
      }
      InsertionRound(orig, before, a[..], unsorted, at);
      unsorted := unsorted + 1;
    }
    assert a[..] == a[..n] && orig == orig[..n];
  }
}
