/**
 * The slice primitives the sorters are built from: `swap`, `rotate_right(1)`
 * on an inclusive sub-range, and `binary_search` on a sorted prefix. A slice is
 * an `array<int>`; a sub-slice is a pair of indices into the same array.
 */
module SliceOps {
  import opened Ordering

  /** `slice.swap(i, j)`: exchanges two elements; `i == j` is allowed and changes nothing. */
  method Swap(a: array<int>, i: int, j: int)
    requires 0 <= i < a.Length && 0 <= j < a.Length
    modifies a
    ensures a[..] == old(a[..])[i := old(a[j])][j := old(a[i])]
    ensures multiset(a[..]) == multiset(old(a[..]))
  {
    var t := a[i];
    a[i] := a[j];
    a[j] := t;
  }

  /**
   * The contents of `s` after `s[lo..=hi].rotate_right(1)`: the element at `hi`
   * moves to `lo` and the elements of `lo..hi` move up one place.
   */
  function RotatedRight(s: seq<int>, lo: int, hi: int): (r: seq<int>)
    requires 0 <= lo <= hi < |s|
    ensures |r| == |s| && multiset(r) == multiset(s)
    ensures r[..lo] == s[..lo] && r[hi + 1..] == s[hi + 1..]
    ensures r[lo] == s[hi] && r[lo + 1..hi + 1] == s[lo..hi]
  {
    var r := s[..lo] + [s[hi]] + s[lo..hi] + s[hi + 1..];
    assert s == s[..lo] + s[lo..hi] + [s[hi]] + s[hi + 1..];
    assert multiset(r) == multiset(s[..lo]) + multiset{s[hi]} + multiset(s[lo..hi]) + multiset(s[hi + 1..]);
    assert r[..lo] == s[..lo];
    assert r[lo + 1..hi + 1] == s[lo..hi];
    r
  }

  /** `slice[lo..=hi].rotate_right(1)`, shifting one element at a time from the top. */
  method RotateRight1(a: array<int>, lo: int, hi: int)
    requires 0 <= lo <= hi < a.Length
    modifies a
    ensures a[..] == RotatedRight(old(a[..]), lo, hi)
  {
    ghost var s := a[..];
    var last := a[hi];
    var k := hi;
    while k > lo
      invariant lo <= k <= hi
      invariant forall j :: 0 <= j <= k || hi < j < a.Length ==> a[j] == s[j]
      invariant forall j :: k < j <= hi ==> a[j] == s[j - 1]
    {
      a[k] := a[k - 1];
      k := k - 1;
    }
    a[lo] := last;
    forall j | 0 <= j < a.Length ensures a[j] == RotatedRight(s, lo, hi)[j] {
      RotatedRightAt(s, lo, hi, j);
    }
  }

  /** Where each element of a rotated range comes from. */
  lemma RotatedRightAt(s: seq<int>, lo: int, hi: int, j: int)
    requires 0 <= lo <= hi < |s| && 0 <= j < |s|
    ensures RotatedRight(s, lo, hi)[j] == if j < lo || hi < j then s[j] else if j == lo then s[hi] else s[j - 1]
  {
    var r := RotatedRight(s, lo, hi);
    if j < lo {
      assert r[j] == r[..lo][j];
    } else if hi < j {
      assert r[j] == r[hi + 1..][j - hi - 1];
    } else if lo < j {
      assert r[j] == r[lo + 1..hi + 1][j - lo - 1];
    }
  }

  /** `c` is `b` after `b[lo..=hi].rotate_right(1)`, stated element by element. */
  ghost predicate Rotated(b: seq<int>, c: seq<int>, lo: int, hi: int) {
    && 0 <= lo <= hi < |b| == |c|
    && c[lo] == b[hi]
    && (forall k :: lo < k <= hi ==> c[k] == b[k - 1])
    && (forall k :: 0 <= k < |b| && (k < lo || hi < k) ==> c[k] == b[k])
  }

  /** `RotatedRight` rotates. */
  lemma RotatedRightIsRotated(b: seq<int>, lo: int, hi: int)
    requires 0 <= lo <= hi < |b|
    ensures Rotated(b, RotatedRight(b, lo, hi), lo, hi)
  {
    forall k | 0 <= k < |b| {
      RotatedRightAt(b, lo, hi, k);
    }
  }

  /** What `binary_search` reports: the index of some equal element, or where one would go. */
  datatype Search = Found(index: nat) | NotFound(index: nat)

  /**
   * `slice[..n].binary_search(&x)` over the sorted prefix `a[..n]`. `Found(i)`
   * names some position holding `x` (any one, if there are several);
   * `NotFound(i)` names the insertion point, everything before it being
   * smaller than `x` and everything from it on larger.
   */
  method BinarySearch(a: array<int>, n: int, x: int) returns (r: Search)
    requires 0 <= n <= a.Length && Sorted(a[..n])
    ensures r.index <= n
    ensures r.Found? <==> x in a[..n]
    ensures r.Found? ==> r.index < n && a[r.index] == x
    ensures r.NotFound? ==>
              (forall k :: 0 <= k < r.index ==> a[k] < x) && (forall k :: r.index <= k < n ==> x < a[k])
  {
    var lo, hi := 0, n;
    while lo < hi
      invariant 0 <= lo <= hi <= n
      invariant forall k :: 0 <= k < lo ==> a[k] < x
      invariant forall k :: hi <= k < n ==> x < a[k]
    {
      var mid := lo + (hi - lo) / 2;
      if a[mid] < x {
        lo := mid + 1;
      } else if x < a[mid] {
        hi := mid;
      } else {
        assert a[..n][mid] == x;
        return Found(mid);
      }
    }
    r := NotFound(lo);
    forall k | 0 <= k < n ensures a[..n][k] != x {
      assert a[..n][k] == a[k];
    }
  }

  /** The index `binary_search` yields, found or not, is a valid insertion point for `x`. */
  lemma SearchIndexIsInsertionPoint(s: seq<int>, r: Search, x: int)
    requires Sorted(s) && r.index <= |s|
    requires r.Found? ==> r.index < |s| && s[r.index] == x
    requires r.NotFound? ==>
               (forall k :: 0 <= k < r.index ==> s[k] < x) && (forall k :: r.index <= k < |s| ==> x < s[k])
    ensures InsertionPoint(s, r.index, x)
  {
  }
}
