/**
 * The `Sorter` interface: each sorter of the library, chosen by value, and
 * the free function `sort(slice, sorter)` that hands the slice to it. Every
 * sorter keeps the same contract, so on the same input all of them agree.
 */
module Sorters {
  import opened Ordering
  import BubbleSort
  import InsertionSort
  import SelectionSort
  import QuickSort
  import HeapSort
  import MergeSort

  /** The sorters of the library; `Insertion(smart)` selects the binary-search variant. */
  datatype Sorter = Bubble | Insertion(smart: bool) | Selection | Quick | Heap | Merge

  /**
   * `sort(slice, sorter)`: `sorter.sort(slice)`. Whichever sorter is chosen,
   * the slice ends ascending and holds the same elements; since a sorted
   * arrangement of a multiset is unique, the result does not depend on the
   * sorter, and a slice already in order is left exactly as it was.
   */
  method Sort(a: array<int>, sorter: Sorter)
    modifies a
    ensures Sorted(a[..])
    ensures multiset(a[..]) == multiset(old(a[..]))
    ensures Sorted(old(a[..])) ==> a[..] == old(a[..])
  {
    ghost var s := a[..];
    match sorter {
      case Bubble => ghost var passes := BubbleSort.Sort(a);
      case Insertion(smart) => InsertionSort.Sort(a, smart);
      case Selection => ghost var swaps := SelectionSort.Sort(a);
      case Quick => QuickSort.Sort(a);
      case Heap => HeapSort.Sort(a);
      case Merge => MergeSort.Sort(a);
    }
    if Sorted(s) {
      SortedPermutationUnique(s, a[..]);
    }
  }

  /**
   * Two sorters run on copies of the same input produce the same output.
   */
  method SameResult(input: seq<int>, x: Sorter, y: Sorter) returns (r: seq<int>, t: seq<int>)
    ensures Sorted(r) && multiset(r) == multiset(input)
    ensures r == t
  {
    var a := new int[|input|](i requires 0 <= i < |input| => input[i]);
    assert a[..] == input;
    Sort(a, x);
    r := a[..];
    var b := new int[|input|](i requires 0 <= i < |input| => input[i]);
    assert b[..] == input;
    Sort(b, y);
    t := b[..];
    SortedPermutationUnique(r, t);
  }

  /**
   * The library's test case for every sorter: `[5, 1, 4, 2, 3]` comes out as
   * `[1, 2, 3, 4, 5]`.
   */
  method SortFive(sorter: Sorter) returns (r: seq<int>)
    ensures r == [1, 2, 3, 4, 5]
  {
    var tings := new int[5];
    tings[0], tings[1], tings[2], tings[3], tings[4] := 5, 1, 4, 2, 3;
    assert tings[..] == [5, 1, 4, 2, 3];
    Sort(tings, sorter);
    r := tings[..];
    FiveSorted();
    FivePermuted();
    SortedPermutationUnique(r, [1, 2, 3, 4, 5]);
  }

  /** The expected output of the test case is in order. */
  lemma FiveSorted()
    ensures Sorted([1, 2, 3, 4, 5])
  {
    var e := [1, 2, 3, 4, 5];
    forall i, j | 0 <= i < j < |e| ensures e[i] <= e[j] {
      assert e[i] == i + 1 && e[j] == j + 1;
    }
  }

  /** The expected output of the test case holds the same elements as its input. */
  lemma FivePermuted()
    ensures multiset([5, 1, 4, 2, 3]) == multiset([1, 2, 3, 4, 5])
  {
    assert multiset([5, 1, 4, 2, 3]) == multiset{5, 1, 4, 2, 3};
    assert multiset([1, 2, 3, 4, 5]) == multiset{1, 2, 3, 4, 5};
  }
}
