/**
 * The ordering contract every sorter of the library promises: afterwards the
 * slice is ascending, and it holds the same multiset of elements as before.
 * Elements are integers, compared by their natural total order.
 */
module Ordering {

  /** Every earlier element is at most every later one. */
  ghost predicate Sorted(s: seq<int>) {
    forall i, j :: 0 <= i < j < |s| ==> s[i] <= s[j]
  }

  /** The range `lo..hi` of `s` is sorted, stated on the indices of `s` itself. */
  ghost predicate SortedBetween(s: seq<int>, lo: int, hi: int) {
    && 0 <= lo && hi <= |s|
    && forall i, j :: lo <= i < j < hi ==> s[i] <= s[j]
  }

  /** Every neighbouring pair is in order: what a pass of adjacent comparisons observes. */
  ghost predicate AdjacentSorted(s: seq<int>) {
    forall i :: 0 < i < |s| ==> s[i - 1] <= s[i]
  }

  /** Every element of `s` is at most `v`. */
  ghost predicate AllAtMost(s: seq<int>, v: int) {
    forall i :: 0 <= i < |s| ==> s[i] <= v
  }

  /**
   * `x` may go at index `i` of `p`: every element before `i` is at most `x`
   * and every element from `i` on is at least `x`.
   */
  ghost predicate InsertionPoint(p: seq<int>, i: int, x: int) {
    && 0 <= i <= |p|
    && (forall k :: 0 <= k < i ==> p[k] <= x)
    && (forall k :: i <= k < |p| ==> x <= p[k])
  }

  /** Every element of `s` is strictly greater than `v`. */
  ghost predicate AllAbove(s: seq<int>, v: int) {
    forall i :: 0 <= i < |s| ==> v < s[i]
  }

  /**
   * The elements from `m` on are in order and at least every element before
   * `m`: a suffix already in its final place.
   */
  ghost predicate Settled(s: seq<int>, m: int) {
    && 0 <= m <= |s|
    && (forall i, j :: m <= i < j < |s| ==> s[i] <= s[j])
    && (forall i, j :: 0 <= i < m <= j < |s| ==> s[i] <= s[j])
  }

  /**
   * `b` is `s` rearranged at most inside `lo..hi`: same length, and every
   * element outside the range is where it was.
   */
  ghost predicate UnchangedOutside(s: seq<int>, b: seq<int>, lo: int, hi: int) {
    && |b| == |s|
    && forall k :: 0 <= k < |s| && (k < lo || hi <= k) ==> b[k] == s[k]
  }

  /** Neighbour order is enough for full order: `<=` is transitive. */
  lemma {:induction false} AdjacentSortedIsSorted(s: seq<int>)
    requires AdjacentSorted(s)
    ensures Sorted(s)
  {
    if |s| > 1 {
      var init := s[..|s| - 1];
      assert AdjacentSorted(init) by {
        forall i | 0 < i < |init| ensures init[i - 1] <= init[i] {
          assert init[i - 1] == s[i - 1] && init[i] == s[i];
        }
      }
      AdjacentSortedIsSorted(init);
      forall i, j | 0 <= i < j < |s| ensures s[i] <= s[j] {
        if j < |s| - 1 {
          assert s[i] == init[i] && s[j] == init[j];
        } else if i < |s| - 2 {
          assert s[i] == init[i] && s[|s| - 2] == init[|s| - 2];
        }
      }
    }
  }

  /**
   * Inserting `x` into a sorted sequence at a point where everything before is
   * at most `x` and everything after is at least `x` keeps it sorted.
   */
  lemma InsertSorted(p: seq<int>, i: int, x: int)
    requires Sorted(p) && InsertionPoint(p, i, x)
    ensures Sorted(p[..i] + [x] + p[i..])
  {
    var r := p[..i] + [x] + p[i..];
    forall m, n | 0 <= m < n < |r| ensures r[m] <= r[n] {
      if n < i {
        assert r[m] == p[m] && r[n] == p[n];
      } else if n == i {
        assert r[m] == p[m] && r[n] == x;
      } else if m < i {
        assert r[m] == p[m] && r[n] == p[n - 1];
      } else if m == i {
        assert r[m] == x && r[n] == p[n - 1];
      } else {
        assert r[m] == p[m - 1] && r[n] == p[n - 1];
      }
    }
  }

  /** An upper bound on the elements depends only on their multiset. */
  lemma AtMostFollowsMultiset(s: seq<int>, t: seq<int>, v: int)
    requires multiset(s) == multiset(t) && AllAtMost(t, v)
    ensures AllAtMost(s, v)
  {
    forall i | 0 <= i < |s| ensures s[i] <= v {
      assert s[i] in multiset(t);
      var j :| 0 <= j < |t| && t[j] == s[i];
    }
  }

  /** A strict lower bound on the elements depends only on their multiset. */
  lemma AboveFollowsMultiset(s: seq<int>, t: seq<int>, v: int)
    requires multiset(s) == multiset(t) && AllAbove(t, v)
    ensures AllAbove(s, v)
  {
    forall i | 0 <= i < |s| ensures v < s[i] {
      assert s[i] in multiset(t);
      var j :| 0 <= j < |t| && t[j] == s[i];
    }
  }

  /**
   * The sorted arrangement of a multiset is unique: any two sorters that
   * both keep their contract produce the same output from the same input.
   */
  lemma {:induction false} SortedPermutationUnique(s: seq<int>, t: seq<int>)
    requires Sorted(s) && Sorted(t) && multiset(s) == multiset(t)
    ensures s == t
  {
    assert |s| == |multiset(s)| == |multiset(t)| == |t|;
    if |s| > 0 {
      SameHead(s, t);
      SameTail(s, t);
      SortedTail(s);
      SortedTail(t);
      SortedPermutationUnique(s[1..], t[1..]);
      assert s == [s[0]] + s[1..] && t == [t[0]] + t[1..];
    }
  }

  /** Two sorted arrangements of the same multiset start with the same element. */
  lemma SameHead(s: seq<int>, t: seq<int>)
    requires Sorted(s) && Sorted(t) && multiset(s) == multiset(t) && |s| > 0 && |t| > 0
    ensures s[0] == t[0]
  {
    assert t[0] in multiset(t) && s[0] in multiset(s);
    HeadIsLeast(s, t[0]);
    HeadIsLeast(t, s[0]);
  }

  /** Removing equal heads from equal multisets leaves equal multisets. */
  lemma SameTail(s: seq<int>, t: seq<int>)
    requires multiset(s) == multiset(t) && |s| > 0 && |t| > 0 && s[0] == t[0]
    ensures multiset(s[1..]) == multiset(t[1..])
  {
    TailMultiset(s);
    TailMultiset(t);
  }

  /** The tail of a sorted sequence is sorted. */
  lemma SortedTail(s: seq<int>)
    requires Sorted(s) && |s| > 0
    ensures Sorted(s[1..])
  {
    forall i, j | 0 <= i < j < |s| - 1 ensures s[1..][i] <= s[1..][j] {
      assert s[1..][i] == s[i + 1] && s[1..][j] == s[j + 1];
    }
  }

  /** Dropping the head removes exactly one copy of it from the multiset. */
  lemma TailMultiset(s: seq<int>)
    requires |s| > 0
    ensures multiset(s[1..]) == multiset(s) - multiset{s[0]}
  {
    assert s == [s[0]] + s[1..];
  }

  /** The head of a non-empty sorted sequence is at most each of its elements. */
  lemma HeadIsLeast(s: seq<int>, x: int)
    requires Sorted(s) && |s| > 0 && x in multiset(s)
    ensures s[0] <= x
  {
    var i :| 0 <= i < |s| && s[i] == x;
  }

  /**
   * A rearrangement that keeps the whole multiset and leaves everything
   * outside `lo..hi` in place keeps the multiset of the range `lo..hi`.
   */
  lemma RangeMultiset(s: seq<int>, b: seq<int>, lo: int, hi: int)
    requires 0 <= lo <= hi <= |s| == |b|
    requires multiset(s) == multiset(b) && UnchangedOutside(s, b, lo, hi)
    ensures multiset(s[lo..hi]) == multiset(b[lo..hi])
  {
    assert s[..lo] == b[..lo];
    assert s[hi..] == b[hi..];
    RangeIsRest(s, lo, hi);
    RangeIsRest(b, lo, hi);
  }

  /** The multiset of a range is what remains of the whole once the parts around it are removed. */
  lemma RangeIsRest(s: seq<int>, lo: int, hi: int)
    requires 0 <= lo <= hi <= |s|
    ensures multiset(s[lo..hi]) == multiset(s) - (multiset(s[..lo]) + multiset(s[hi..]))
  {
    assert s == s[..lo] + s[lo..hi] + s[hi..];
  }

  /** `SortedBetween` is `Sorted` of the slice. */
  lemma SortedBetweenSlice(s: seq<int>, lo: int, hi: int)
    requires 0 <= lo <= hi <= |s|
    ensures SortedBetween(s, lo, hi) <==> Sorted(s[lo..hi])
  {
    var t := s[lo..hi];
    if SortedBetween(s, lo, hi) {
      forall i, j | 0 <= i < j < |t| ensures t[i] <= t[j] {
        assert t[i] == s[lo + i] && t[j] == s[lo + j];
      }
    }
    if Sorted(t) {
      forall i, j | lo <= i < j < hi ensures s[i] <= s[j] {
        assert s[i] == t[i - lo] && s[j] == t[j - lo];
      }
    }
  }

  /** A sequence of at most one element is already sorted. */
  lemma ShortIsSorted(s: seq<int>)
    requires |s| <= 1
    ensures Sorted(s)
  {
  }
}
