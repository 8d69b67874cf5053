/**
 * Selection sort: for each position in turn, find the first minimum of the
 * remaining suffix and swap it into place.
 */
module SelectionSort {
  import opened Ordering
  import opened SliceOps

  /**
   * `slice[lo..].iter().enumerate().min_by_key(..)` mapped back to an index of
   * the whole slice: the position of a minimum of `a[lo..]`, the first one on
   * ties. The suffix is never empty, since `lo` is a valid index.
   */
  method FirstMinIndex(a: array<int>, lo: int) returns (m: int)
    requires 0 <= lo < a.Length
    ensures lo <= m < a.Length
    ensures forall k :: lo <= k < a.Length ==> a[m] <= a[k]
    ensures forall k :: lo <= k < m ==> a[m] < a[k]
  {
    m := lo;
    var k := lo + 1;
    while k < a.Length
      invariant lo <= m < k <= a.Length
      invariant forall j :: lo <= j < k ==> a[m] <= a[j]
      invariant forall j :: lo <= j < m ==> a[m] < a[j]
    {
      if a[k] < a[m] {
        m := k;
      }
      k := k + 1;
    }
  }

  /**
   * The first `u` elements are in order and the last of them is at most every
   * later element (so all of them are): the settled prefix of selection sort.
   */
  ghost predicate SettledPrefix(s: seq<int>, u: int) {
    && 0 <= u <= |s|
    && (forall i, j :: 0 <= i < j < u ==> s[i] <= s[j])
    && (0 < u ==> forall j :: u <= j < |s| ==> s[u - 1] <= s[j])
  }

  /**
   * Swapping a minimum of the suffix to its front, or leaving it there when
   * it is the front already, grows the settled prefix by one.
   */
  lemma SelectStep(b: seq<int>, c: seq<int>, u: int, m: int)
    requires SettledPrefix(b, u) && u <= m < |b|
    requires forall k :: u <= k < |b| ==> b[m] <= b[k]
    requires u != m ==> c == b[u := b[m]][m := b[u]]
    requires u == m ==> c == b
    ensures SettledPrefix(c, u + 1)
  {
    forall j | u + 1 <= j < |c| ensures c[u] <= c[j] {
      if j == m {
        assert c[j] == b[u];
      }
    }
  }

  /** A settled prefix that covers everything is a sorted sequence. */
  lemma SettledPrefixIsSorted(s: seq<int>)
    requires SettledPrefix(s, |s|)
    ensures Sorted(s)
  {
  }

  /**
   * One round of `SelectionSort::sort` at position `unsorted`: find the first
   * minimum of the rest and swap it into place unless it is there already.
   * Reports whether it swapped: exactly when some later element is strictly
   * smaller, and then `unsorted` is exchanged with the first minimum of the
   * rest and nothing else moves.
   * The last position never swaps.
   */
  method SelectInto(a: array<int>, unsorted: int) returns (swapped: bool)
    requires 0 <= unsorted < a.Length && SettledPrefix(a[..], unsorted)
    modifies a
    ensures SettledPrefix(a[..], unsorted + 1)
    ensures multiset(a[..]) == multiset(old(a[..]))
    ensures swapped <==> exists k :: unsorted < k < a.Length && old(a[k]) < old(a[unsorted])
    ensures swapped ==> exists m :: unsorted < m < a.Length && (forall k :: unsorted <= k < m ==> old(a[m]) < old(a[k]))
                                   && a[..] == old(a[..])[unsorted := old(a[m])][m := old(a[unsorted])]
    ensures swapped ==> unsorted < a.Length - 1
    ensures !swapped ==> a[..] == old(a[..])
  {
    ghost var b := a[..];
    var smallest := FirstMinIndex(a, unsorted);
    assert forall k :: unsorted <= k < a.Length ==> b[smallest] <= b[k];
    swapped := unsorted != smallest;
    if swapped {
      Swap(a, unsorted, smallest);
    }
    SelectStep(b, a[..], unsorted, smallest);
  }

  /**
   * `SelectionSort::sort`. The ghost `swaps` counts the swaps made: one per
   * position at most, and none at the last position, so at most `n - 1`.
   */
  method Sort(a: array<int>) returns (ghost swaps: nat)
    modifies a
    ensures Sorted(a[..])
    ensures multiset(a[..]) == multiset(old(a[..]))
    ensures 0 < a.Length ==> swaps <= a.Length - 1
    ensures a.Length == 0 ==> swaps == 0
  {
    var n := a.Length;
    swaps := 0;
    var unsorted := 0;
    while unsorted < n
      invariant 0 <= unsorted <= n
      invariant SettledPrefix(a[..], unsorted)
      invariant multiset(a[..]) == multiset(old(a[..]))
      invariant swaps <= unsorted
      invariant 0 < n ==> swaps < n
    {
      var swapped := SelectInto(a, unsorted);
      if swapped {
        swaps := swaps + 1;
      }
      unsorted := unsorted + 1;
    }
    SettledPrefixIsSorted(a[..]);
  }
}
