/**
 * Bubble sort: passes of adjacent compare-and-swap over the whole slice,
 * repeated until a pass makes no swap.
 */
module BubbleSort {
  import opened Ordering
  import opened SliceOps

  /**
   * What holds of the slice `b` after the first `i - 1` comparisons of a pass
   * that started from `s` with settled suffix `m` (after `|s| - m` passes that
   * swapped; the sorter itself keeps only the `swapped` flag). Without a swap
   * nothing has moved and the elements compared so far were in order; a swap
   * means the slice was not in order, so the settled suffix is not all of it.
   */
  ghost predicate PassInv(s: seq<int>, b: seq<int>, i: int, m: nat, swapped: bool) {
    match swapped
    case false => Scanned(s, b, i, m) && b == s && AdjacentSortedBelow(s, i)
    case true => Scanned(s, b, i, m) && !AdjacentSorted(s) && 0 < m
  }

  /**
   * Whatever the flag: the settled suffix of `s` is untouched in `b` and its
   * least element `s[m]` is still at least every element before it, and `b[i - 1]` is the largest
   * element seen so far, up to the suffix.
   */
  ghost predicate Scanned(s: seq<int>, b: seq<int>, i: int, m: nat) {
    && Settled(s, m) && |b| == |s|
    && 1 <= i && (0 < |s| ==> i <= |s|)
    && (forall j :: m <= j < |s| ==> b[j] == s[j])
    && (m < |s| ==> forall k :: 0 <= k < m ==> b[k] <= s[m])
    && (i <= m ==> forall k :: 0 <= k < i ==> b[k] <= b[i - 1])
    && (m < i ==> forall k :: 0 <= k < m ==> b[k] <= b[m - 1])
  }

  /** The neighbours among the first `i` elements are in order. */
  ghost predicate AdjacentSortedBelow(s: seq<int>, i: int) {
    forall k :: 0 < k < i && k < |s| ==> s[k - 1] <= s[k]
  }

  /** A pass starts at `i == 1` with nothing swapped. */
  lemma PassStart(s: seq<int>, m: nat)
    requires Settled(s, m)
    ensures PassInv(s, s, 1, m, false)
  {
  }

  /** A comparison in the settled suffix never swaps. */
  lemma NoSwapInSettled(s: seq<int>, b: seq<int>, i: int, m: nat, swapped: bool)
    requires PassInv(s, b, i, m, swapped) && m <= i < |s|
    ensures b[i - 1] <= b[i]
  {
    if m < i {
      assert b[i - 1] == s[i - 1] && b[i] == s[i];
    }
  }

  /** A comparison that swaps keeps the pass invariant. */
  lemma SwapStep(s: seq<int>, b: seq<int>, c: seq<int>, i: int, m: nat, swapped: bool)
    requires PassInv(s, b, i, m, swapped) && i < |s| && b[i] < b[i - 1]
    requires c == b[i := b[i - 1]][i - 1 := b[i]]
    ensures PassInv(s, c, i + 1, m, true)
  {
    if m <= i {
      NoSwapInSettled(s, b, i, m, swapped);
    }
    if !swapped {
      assert s[i] < s[i - 1];
    }
    forall k | 0 <= k < i + 1 ensures c[k] <= c[i] {
      if k < i - 1 {
        assert c[k] == b[k];
      }
    }
  }

  /** A comparison that does not swap keeps the pass invariant. */
  lemma KeepStep(s: seq<int>, b: seq<int>, i: int, m: nat, swapped: bool)
    requires PassInv(s, b, i, m, swapped) && i < |s| && b[i - 1] <= b[i]
    ensures PassInv(s, b, i + 1, m, swapped)
  {
  }

  /**
   * One pass, `for i in 1..len`: swap `i - 1` and `i` when `slice[i] < slice[i - 1]`.
   * It reports a swap exactly when the slice was not in order, and a pass
   * without a swap changes nothing. The ghost `m` names the settled suffix,
   * which the pass leaves alone and extends by one when it swaps.
   */
  method Pass(a: array<int>, ghost m: nat) returns (swapped: bool)
    requires Settled(a[..], m)
    modifies a
    ensures multiset(a[..]) == multiset(old(a[..]))
    ensures swapped <==> !AdjacentSorted(old(a[..]))
    ensures !swapped ==> a[..] == old(a[..])
    ensures swapped ==> 0 < m && Settled(a[..], m - 1)
  {
    ghost var s := a[..];
    var n := a.Length;
    swapped := false;
    var i := 1;
    PassStart(s, m);
    while i < n
      invariant PassInv(s, a[..], i, m, swapped)
      invariant multiset(a[..]) == multiset(s)
    {
      if a[i] < a[i - 1] {
        ghost var b := a[..];
        Swap(a, i, i - 1);
        SwapStep(s, b, a[..], i, m, swapped);
        swapped := true;
      } else {
        KeepStep(s, a[..], i, m, swapped);
      }
      i := i + 1;
    }
    PassEnd(s, a[..], i, m, swapped);
  }

  /** At the end of a pass the flag and the settled suffix are as `Pass` promises. */
  lemma PassEnd(s: seq<int>, b: seq<int>, i: int, m: nat, swapped: bool)
    requires PassInv(s, b, i, m, swapped) && |s| <= i
    ensures swapped <==> !AdjacentSorted(s)
    ensures !swapped ==> b == s
    ensures swapped ==> 0 < m && Settled(b, m - 1)
  {
    if swapped {
      var n := |s|;
      forall k, j | 0 <= k < m - 1 <= j < n ensures b[k] <= b[j] {
        if j >= m {
          assert b[k] <= b[j];
        }
      }
    }
  }

  /**
   * `BubbleSort::sort`: passes until one makes no swap. The ghost `passes`
   * counts the passes made: input already in order takes exactly one, and
   * no input takes more than `n + 1`.
   */
  method Sort(a: array<int>) returns (ghost passes: nat)
    modifies a
    ensures Sorted(a[..])
    ensures multiset(a[..]) == multiset(old(a[..]))
    ensures AdjacentSorted(old(a[..])) ==> passes == 1
    ensures 1 <= passes <= a.Length + 1
  {
    var swapped := true;
    ghost var m: nat := a.Length;
    passes := 0;
    while swapped
      invariant Settled(a[..], m)
      invariant multiset(a[..]) == multiset(old(a[..]))
      invariant !swapped ==> AdjacentSorted(a[..])
      invariant swapped ==> passes + m == a.Length
      invariant !swapped ==> passes + m == a.Length + 1 && 1 <= passes
      invariant AdjacentSorted(old(a[..])) ==> a[..] == old(a[..]) && passes == (if swapped then 0 else 1)
      decreases m + (if swapped then 1 else 0)
    {
      swapped := Pass(a, m);
      passes := passes + 1;
      if swapped {
        m := m - 1;
      }
    }
    AdjacentSortedIsSorted(a[..]);
  }
}
