/**
 * Heap sort: turn the slice into a max-heap (children of `i` at `2 * i + 1`
 * and `2 * i + 2`), then repeatedly swap the root with the last element of the
 * heap, shrink the heap by one and sift the new root down.
 */
module HeapSort {
  import opened Ordering
  import opened SliceOps

  /** The element at `c` is at most its parent `(c - 1) / 2`. */
  ghost predicate UnderParent(s: seq<int>, c: int) {
    0 < c < |s| && s[c] <= s[(c - 1) / 2]
  }

  /**
   * The max-heap property on `s[..=end]` for every parent at index `lo` or
   * later: no child is greater than its parent `(c - 1) / 2`.
   */
  ghost predicate HeapFrom(s: seq<int>, lo: int, end: int) {
    && 0 <= lo && 0 <= end < |s|
    && forall c :: 0 < c <= end && lo <= (c - 1) / 2 ==> UnderParent(s, c)
  }

  /**
   * The state of `sift_down(start, end)` with the moving element at `root`:
   * the heap property holds for every parent from `start` on except `root`,
   * and when `root` has a parent in the sifted range, that parent is at least
   * the children of `root`.
   */
  ghost predicate HeapBut(s: seq<int>, start: int, end: int, root: int) {
    && 0 <= start <= root <= end < |s|
    && (forall c :: 0 < c <= end && start <= (c - 1) / 2 && (c - 1) / 2 != root ==> UnderParent(s, c))
    && (start < root && 2 * root + 1 <= end ==> s[2 * root + 1] <= s[(root - 1) / 2])
    && (start < root && 2 * root + 2 <= end ==> s[2 * root + 2] <= s[(root - 1) / 2])
  }

  /**
   * The loop state of `sift_down` over `b`, started from `s`: the heap
   * property holds but at `root`, and nothing outside `start..=end` has moved.
   */
  ghost predicate SiftInv(s: seq<int>, b: seq<int>, start: int, end: int, root: int) {
    && HeapBut(b, start, end, root) && |b| == |s|
    && UnchangedOutside(s, b, start, end + 1)
  }

  /** In a heap every element of `s[..=end]` is at most the root: the root is the maximum. */
  lemma {:induction false} HeapRootIsMax(s: seq<int>, end: int, k: int)
    requires HeapFrom(s, 0, end) && 0 <= k <= end
    ensures s[k] <= s[0]
  {
    if k > 0 {
      assert UnderParent(s, k);
      HeapRootIsMax(s, end, (k - 1) / 2);
    }
  }

  /** Sifting starts with the root at `start`, the subtrees below it being heaps. */
  lemma SiftStart(s: seq<int>, start: int, end: int)
    requires 0 <= start <= end < |s| && HeapFrom(s, start + 1, end)
    ensures SiftInv(s, s, start, end, start)
  {
  }

  /**
   * Swapping `root` with its greater child `swap`, when that child exceeds it,
   * moves the hole of the heap property down to `swap`.
   */
  lemma SiftSwap(b: seq<int>, c: seq<int>, start: int, end: int, root: int, swap: int)
    requires HeapBut(b, start, end, root)
    requires (swap == 2 * root + 1 || swap == 2 * root + 2) && swap <= end
    requires b[root] < b[swap]
    requires 2 * root + 1 <= end ==> b[2 * root + 1] <= b[swap]
    requires 2 * root + 2 <= end ==> b[2 * root + 2] <= b[swap]
    requires c == b[root := b[swap]][swap := b[root]]
    ensures HeapBut(c, start, end, swap)
  {
    forall k | 0 < k <= end && start <= (k - 1) / 2 && (k - 1) / 2 != swap
      ensures UnderParent(c, k)
    {
      var p := (k - 1) / 2;
      if p == root {
        assert k == 2 * root + 1 || k == 2 * root + 2;
      } else if k == root {
        assert UnderParent(b, k) && c[p] == b[p];
      } else {
        assert UnderParent(b, k);
      }
    }
    if 2 * swap + 1 <= end {
      assert UnderParent(b, 2 * swap + 1);
    }
    if 2 * swap + 2 <= end {
      assert UnderParent(b, 2 * swap + 2);
    }
  }

  /** One round of `sift_down` keeps its loop state, with the hole one level lower. */
  lemma SiftStep(s: seq<int>, b: seq<int>, c: seq<int>, start: int, end: int, root: int, swap: int)
    requires SiftInv(s, b, start, end, root)
    requires (swap == 2 * root + 1 || swap == 2 * root + 2) && swap <= end
    requires b[root] < b[swap]
    requires 2 * root + 1 <= end ==> b[2 * root + 1] <= b[swap]
    requires 2 * root + 2 <= end ==> b[2 * root + 2] <= b[swap]
    requires c == b[root := b[swap]][swap := b[root]]
    ensures SiftInv(s, c, start, end, swap)
  {
    SiftSwap(b, c, start, end, root, swap);
  }

  /** Sifting stops when `root` is at least its children, or has none: the range is a heap. */
  lemma SiftEnd(s: seq<int>, start: int, end: int, root: int)
    requires HeapBut(s, start, end, root)
    requires 2 * root + 1 <= end ==> s[2 * root + 1] <= s[root]
    requires 2 * root + 2 <= end ==> s[2 * root + 2] <= s[root]
    ensures HeapFrom(s, start, end)
  {
    forall c | 0 < c <= end && start <= (c - 1) / 2 ensures UnderParent(s, c) {
      if (c - 1) / 2 == root {
        assert c == 2 * root + 1 || c == 2 * root + 2;
      }
    }
  }

  /**
   * `sift_down(slice, start, end)`, `end` inclusive: with the subtrees below
   * `start` already heaps, move the element at `start` down, swapping it with
   * its greater child while that child is greater, until the range from
   * `start` is a heap. Only `start..=end` changes.
   */
  method SiftDown(a: array<int>, start: int, end: int)
    requires 0 <= start <= end < a.Length
    requires HeapFrom(a[..], start + 1, end)
    modifies a
    ensures HeapFrom(a[..], start, end)
    ensures multiset(a[..]) == multiset(old(a[..]))
    ensures UnchangedOutside(old(a[..]), a[..], start, end + 1)
  {
    ghost var s := a[..];
    SiftStart(s, start, end);
    var root := start;
    while 2 * root + 1 <= end
      invariant SiftInv(s, a[..], start, end, root)
      invariant multiset(a[..]) == multiset(s)
      decreases end - root
    {
      var child := 2 * root + 1;
      var swap := root;
      if a[swap] < a[child] {
        swap := child;
      }
      if child + 1 <= end && a[swap] < a[child + 1] {
        swap := child + 1;
      }
      if swap == root {
        SiftEnd(a[..], start, end, root);
        return;
      }
      ghost var b := a[..];
      Swap(a, root, swap);
      SiftStep(s, b, a[..], start, end, root, swap);
      root := swap;
    }
    SiftEnd(a[..], start, end, root);
  }

  /**
   * `heapify`: sift down every parent, from the parent of the last element
   * back to the root, so that the whole slice is a heap.
   */
  method Heapify(a: array<int>)
    requires 2 <= a.Length
    modifies a
    ensures HeapFrom(a[..], 0, a.Length - 1)
    ensures multiset(a[..]) == multiset(old(a[..]))
  {
    var n := a.Length;
    var start := (n - 1 - 1) / 2;
    while start >= 0
      invariant -1 <= start <= (n - 2) / 2
      invariant HeapFrom(a[..], start + 1, n - 1)
      invariant multiset(a[..]) == multiset(old(a[..]))
    {
      SiftDown(a, start, n - 1);
      start := start - 1;
    }
  }

  /**
   * Swapping the root of the heap `b[..=end]` with its last element puts the
   * maximum in front of the settled suffix; what remains below `end` is a
   * heap except at its root.
   */
  lemma ExtractMax(b: seq<int>, c: seq<int>, end: int)
    requires 0 < end < |b| && HeapFrom(b, 0, end) && Settled(b, end + 1)
    requires c == b[0 := b[end]][end := b[0]]
    ensures HeapFrom(c, 1, end - 1) && Settled(c, end)
  {
    forall k | 0 < k <= end - 1 && 1 <= (k - 1) / 2 ensures UnderParent(c, k) {
      assert UnderParent(b, k);
    }
    forall i, j | 0 <= i < end <= j < |c| ensures c[i] <= c[j] {
      if i == 0 {
        HeapRootIsMax(b, end, end);
      } else {
        HeapRootIsMax(b, end, i);
      }
      if j > end {
        HeapRootIsMax(b, end, 0);
        assert b[0] <= b[j];
      }
    }
  }

  /** Rearranging the elements before a settled suffix keeps it settled. */
  lemma RearrangeKeepsSettled(c: seq<int>, d: seq<int>, m: int)
    requires 0 <= m < |c| == |d| && Settled(c, m)
    requires multiset(d) == multiset(c)
    requires UnchangedOutside(c, d, 0, m)
    ensures Settled(d, m)
  {
    RangeMultiset(c, d, 0, m);
    assert AllAtMost(c[..m], c[m]);
    assert c[0..m] == c[..m] && d[0..m] == d[..m];
    AtMostFollowsMultiset(d[..m], c[..m], c[m]);
    forall i, j | 0 <= i < m <= j < |d| ensures d[i] <= d[j] {
      assert d[i] == d[..m][i];
    }
  }

  /** `HeapSort::sort`: heapify, then move the maximum to the end one element at a time. */
  method Sort(a: array<int>)
    modifies a
    ensures Sorted(a[..])
    ensures multiset(a[..]) == multiset(old(a[..]))
  {
    if a.Length == 0 || a.Length == 1 {
      ShortIsSorted(a[..]);
      return;
    }
    Heapify(a);
    var end := a.Length - 1;
    while end > 0
      invariant 0 <= end < a.Length
      invariant HeapFrom(a[..], 0, end) && Settled(a[..], end + 1)
      invariant multiset(a[..]) == multiset(old(a[..]))
    {
      ghost var b := a[..];
      Swap(a, 0, end);
      ExtractMax(b, a[..], end);
      end := end - 1;
      ghost var c := a[..];
      SiftDown(a, 0, end);
      RearrangeKeepsSettled(c, a[..], end + 1);
    }
  }
}
