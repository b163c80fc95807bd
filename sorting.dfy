/** The comparison sorts of sorting.cpp on `array[0 .. count)`: insertion,
    bubble, selection, merge (with Merge) and quick (with the Lomuto
    Partition). Each is proved to leave the range ascending and a
    permutation of its input, and to leave the rest of the array alone. */
module Sorting {
  import opened SortSpec
  import opened Utilities
  import opened Wrappers

  /** The result every sort promises on `a[0 .. count)`. */
  ghost predicate SortsRange(a: seq<int>, old_a: seq<int>, lo: nat, hi: nat)
    requires lo <= hi <= |a| == |old_a|
  {
    Sorted(a[lo..hi]) && multiset(a[lo..hi]) == multiset(old_a[lo..hi]) &&
    a[..lo] == old_a[..lo] && a[hi..] == old_a[hi..]
  }

  /** SortsRange for a range that starts at 0, from facts about prefixes. */
  lemma SortsWhole(a: seq<int>, old_a: seq<int>, count: nat)
    requires count <= |a| == |old_a| && Sorted(a[..count])
    requires multiset(a[..count]) == multiset(old_a[..count]) && a[count..] == old_a[count..]
    ensures SortsRange(a, old_a, 0, count)
  {
    assert a[0..count] == a[..count] && old_a[0..count] == old_a[..count];
  }

  // ---------------------------------------------------------------------
  // Insertion sort

  /** `s[..i + 1]` with its last element moved to position `k`. */
  function Inserted(s: seq<int>, i: nat, k: nat): (u: seq<int>)
    requires k <= i < |s|
    ensures |u| == i + 1
  {
    s[..k] + [s[i]] + s[k..i]
  }

  /** Moving `s[i]` to position `k` keeps the elements of `s[..i + 1]`. */
  lemma InsertedPermutes(s: seq<int>, i: nat, k: nat)
    requires k <= i < |s|
    ensures multiset(Inserted(s, i, k)) == multiset(s[..i + 1])
  {
    assert s[..i + 1] == s[..k] + s[k..i] + [s[i]];
  }

  /** Putting `s[i]` at position `k` of a sorted prefix `s[..i]`, after the
      elements not above it and before those above it, gives an ascending
      sequence. */
  lemma InsertedSorted(s: seq<int>, i: nat, k: nat)
    requires k <= i < |s| && Sorted(s[..i])
    requires k > 0 ==> s[k - 1] <= s[i]
    requires forall m :: k <= m < i ==> s[i] < s[m]
    ensures Sorted(Inserted(s, i, k))
  {
    var u := Inserted(s, i, k);
    assert forall p :: 0 <= p < k ==> u[p] == s[p];
    assert u[k] == s[i];
    assert forall p :: k < p <= i ==> u[p] == s[p - 1];
    forall p, q | 0 <= p < q < i + 1
      ensures u[p] <= u[q]
    {
      if q < k {
        assert s[..i][p] <= s[..i][q];
      } else if q == k {
        assert s[..i][p] <= s[..i][k - 1];
      } else if p < k {
        assert s[..i][p] <= s[..i][q - 1];
      } else if p > k {
        assert s[..i][p - 1] <= s[..i][q - 1];
      }
    }
  }

  /** Where each element of `Inserted(s, i, k)` comes from. */
  lemma InsertedAt(s: seq<int>, i: nat, k: nat)
    requires k <= i < |s|
    ensures forall p :: 0 <= p < k ==> Inserted(s, i, k)[p] == s[p]
    ensures Inserted(s, i, k)[k] == s[i]
    ensures forall p :: k < p <= i ==> Inserted(s, i, k)[p] == s[p - 1]
  {
  }

  /** A sequence that agrees slot by slot with `Inserted(s, i, k)` below
      `i + 1` and with `s` above it is that insertion followed by the rest
      of `s`. */
  lemma InsertedFrom(t: seq<int>, s: seq<int>, i: nat, k: nat)
    requires k <= i < |s| == |t|
    requires forall m :: 0 <= m < k ==> t[m] == s[m]
    requires t[k] == s[i]
    requires forall m :: k < m <= i ==> t[m] == s[m - 1]
    requires forall m :: i < m < |t| ==> t[m] == s[m]
    ensures t[..i + 1] == Inserted(s, i, k) && t[i + 1..] == s[i + 1..]
  {
    InsertedAt(s, i, k);
  }

  /** Rearranging a prefix of `s` and keeping the rest rearranges every
      longer prefix the same way. */
  lemma PrefixRearranged(a: seq<int>, s: seq<int>, n: nat, count: nat)
    requires n <= count <= |a| == |s|
    requires multiset(a[..n]) == multiset(s[..n]) && a[n..] == s[n..]
    ensures multiset(a[..count]) == multiset(s[..count]) && a[count..] == s[count..]
  {
    assert a[..count] == a[..n] + a[n..count];
    assert s[..count] == s[..n] + s[n..count];
    assert a[n..count] == a[n..][..count - n];
    assert s[n..count] == s[n..][..count - n];
    assert a[count..] == a[n..][count - n..];
    assert s[count..] == s[n..][count - n..];
  }

  /** One pass of the outer loop of InsertionSort: shifts the elements of
      `a[..i]` above `a[i]` one slot up and drops `a[i]` into the gap, at
      position `k`. */
  method InsertAt(a: array<int>, i: nat) returns (k: nat)
    requires i < a.Length
    modifies a
    ensures k <= i
    ensures a[..i + 1] == Inserted(old(a[..]), i, k) && a[i + 1..] == old(a[i + 1..])
    ensures k > 0 ==> old(a[k - 1]) <= old(a[i])
    ensures forall m :: k <= m < i ==> old(a[i]) < old(a[m])
  {
    ghost var s := a[..];
    var element := a[i];
    var j: int := i - 1;
    while j >= 0 && element < a[j]
      invariant -1 <= j < i
      invariant forall m :: 0 <= m <= j ==> a[m] == s[m]
      invariant forall m :: j + 2 <= m <= i ==> a[m] == s[m - 1]
      invariant forall m :: i < m < a.Length ==> a[m] == s[m]
      invariant forall m :: j + 1 <= m < i ==> element < s[m]
    {
      a[j + 1] := a[j];
      j := j - 1;
    }
    a[j + 1] := element;
    k := j + 1;
    InsertedFrom(a[..], s, i, k);
  }

  /** InsertionSort, with `j` signed so that the scan stops below index 0
      (the source's `j >= 0` on an unsigned index does not; see
      InsertStepAsWritten). */
  method InsertionSort(a: array<int>, count: nat)
    requires count <= a.Length
    modifies a
    ensures SortsRange(a[..], old(a[..]), 0, count)
    ensures count <= 1 ==> a[..] == old(a[..])
  {
    if count <= 1 {
      return;
    }
    for i := 1 to count
      invariant Sorted(a[..i])
      invariant multiset(a[..count]) == multiset(old(a[..count]))
      invariant a[count..] == old(a[count..])
    {
      ghost var s := a[..];
      assert s[..i] == a[..i];
      var k := InsertAt(a, i);
      InsertedSorted(s, i, k);
      InsertedPermutes(s, i, k);
      PrefixRearranged(a[..], s, i + 1, count);
    }
  }

  // ---------------------------------------------------------------------
  // Bubble sort

  /** The state after some passes of bubble sort over `s[..count]`: the
      part from `n` up is ascending and no element below `n` exceeds an
      element from `n` up. */
  ghost predicate Bubbled(s: seq<int>, n: nat, count: nat)
    requires n <= count <= |s|
  {
    (forall p, q :: n <= p < q < count ==> s[p] <= s[q]) &&
    (forall p, q :: 0 <= p < n <= q < count ==> s[p] <= s[q])
  }

  /** A pass that rearranges `s[..n]` and leaves its maximum at `n - 1`
      moves the boundary of the sorted part down by one. */
  lemma BubbledStep(s: seq<int>, t: seq<int>, n: nat, count: nat)
    requires 0 < n <= count <= |s| == |t| && Bubbled(s, n, count)
    requires multiset(t[..n]) == multiset(s[..n]) && t[n..] == s[n..]
    requires MaxAt(t, n - 1)
    ensures Bubbled(t, n - 1, count)
  {
    forall p, q | 0 <= p < n <= q < count
      ensures t[p] <= t[q]
    {
      assert t[p] == t[..n][p];
      assert t[p] in multiset(s[..n]);
      var p' :| 0 <= p' < n && s[..n][p'] == t[p];
      assert t[q] == t[n..][q - n] == s[q];
    }
    forall q | n <= q < count
      ensures t[n - 1] <= t[q]
    {
      assert t[n - 1] == t[..n][n - 1];
      assert t[n - 1] in multiset(s[..n]);
      var p' :| 0 <= p' < n && s[..n][p'] == t[n - 1];
      assert t[q] == t[n..][q - n] == s[q];
    }
    forall p, q | n <= p < q < count
      ensures t[p] <= t[q]
    {
      assert t[p] == t[n..][p - n] == s[p];
      assert t[q] == t[n..][q - n] == s[q];
    }
  }

  /** Bubbled down to the first element means ascending. */
  lemma BubbledSorted(s: seq<int>, count: nat)
    requires 0 < count <= |s| && Bubbled(s, 1, count)
    ensures Sorted(s[..count])
  {
  }

  /** Ascending neighbours make an ascending sequence. */
  lemma {:induction false} NeighboursSorted(s: seq<int>, n: nat)
    requires 0 < n <= |s| && NeighboursUpTo(s, n - 1)
    ensures Sorted(s[..n])
    decreases n
  {
    if n > 1 {
      NeighboursSorted(s, n - 1);
      forall p, q | 0 <= p < q < n
        ensures s[p] <= s[q]
      {
        if q < n - 1 {
          assert s[..n - 1][p] <= s[..n - 1][q];
        } else if p < n - 2 {
          assert s[..n - 1][p] <= s[..n - 1][n - 2];
        }
      }
    }
  }

  /** No element of `s[..j]` exceeds `s[j]`. */
  ghost predicate MaxAt(s: seq<int>, j: nat)
    requires j < |s|
  {
    forall p :: 0 <= p < j ==> s[p] <= s[j]
  }

  /** The neighbours in `s[..j + 1]` are in order. */
  ghost predicate NeighboursUpTo(s: seq<int>, j: nat)
    requires j < |s|
  {
    forall p :: 0 <= p < j ==> s[p] <= s[p + 1]
  }

  /** One comparison of a pass: swapping `s[j]` and `s[j + 1]` when they
      are out of order carries the largest element so far to `j + 1`. */
  lemma BubbleCompare(s: seq<int>, j: nat, n: nat)
    requires j + 1 < n <= |s| && MaxAt(s, j)
    ensures s[j] > s[j + 1] ==> MaxAt(Swapped(s, j, j + 1), j + 1)
    ensures s[j] > s[j + 1] ==> multiset(Swapped(s, j, j + 1)[..n]) == multiset(s[..n])
    ensures s[j] > s[j + 1] ==> Swapped(s, j, j + 1)[n..] == s[n..]
    ensures s[j] <= s[j + 1] ==> MaxAt(s, j + 1)
    ensures s[j] <= s[j + 1] && NeighboursUpTo(s, j) ==> NeighboursUpTo(s, j + 1)
  {
    if s[j] > s[j + 1] {
      SwappedAt(s, j, j + 1);
      SwappedRange(s, j, j + 1, 0, n);
    }
  }

  /** One pass of BubbleSort over `a[..n]`: swaps each out-of-order pair of
      neighbours, carrying the largest element to `n - 1`. `swapped` is the
      source's flag, which is set by a swap and never cleared. */
  method BubblePass(a: array<int>, n: nat, swapped: bool) returns (swapped': bool)
    requires 0 < n <= a.Length
    modifies a
    ensures multiset(a[..n]) == multiset(old(a[..n])) && a[n..] == old(a[n..])
    ensures MaxAt(a[..], n - 1)
    ensures swapped ==> swapped'
    ensures !swapped' ==> a[..] == old(a[..]) && NeighboursUpTo(a[..], n - 1)
  {
    swapped' := swapped;
    for j := 0 to n - 1
      invariant multiset(a[..n]) == multiset(old(a[..n])) && a[n..] == old(a[n..])
      invariant MaxAt(a[..], j)
      invariant swapped ==> swapped'
      invariant !swapped' ==> a[..] == old(a[..]) && NeighboursUpTo(a[..], j)
    {
      ghost var s := a[..];
      BubbleCompare(s, j, n);
      if a[j] > a[j + 1] {
        Swap(a, j, j + 1);
        swapped' := true;
      }
    }
  }

  /** One iteration of the outer loop of BubbleSort: the pass over
      `a[..count - i]` moves the boundary of the sorted part down by one. */
  method BubbleRound(a: array<int>, count: nat, i: nat, swapped: bool) returns (swapped': bool)
    requires i + 1 < count <= a.Length && Bubbled(a[..], count - i, count)
    modifies a
    ensures Bubbled(a[..], count - i - 1, count)
    ensures multiset(a[..count]) == multiset(old(a[..count])) && a[count..] == old(a[count..])
    ensures swapped ==> swapped'
    ensures !swapped' ==> NeighboursUpTo(a[..], count - i - 1)
  {
    ghost var s := a[..];
    swapped' := BubblePass(a, count - i, swapped);
    PrefixRearranged(a[..], s, count - i, count);
    BubbledStep(s, a[..], count - i, count);
  }

  /** BubbleSort as written: the flag is cleared once, before the first
      pass, so the early return happens only when the first pass swaps
      nothing, which means the range was already ascending. */
  method BubbleSort(a: array<int>, count: nat)
    requires count <= a.Length
    modifies a
    ensures SortsRange(a[..], old(a[..]), 0, count)
    ensures count <= 1 ==> a[..] == old(a[..])
  {
    if count <= 1 {
      return;
    }
    var swapped := false;
    for i := 0 to count - 1
      invariant Bubbled(a[..], count - i, count)
      invariant multiset(a[..count]) == multiset(old(a[..count])) && a[count..] == old(a[count..])
      invariant i > 0 ==> swapped
    {
      swapped := BubbleRound(a, count, i, swapped);
      if !swapped {
        NeighboursSorted(a[..], count);
        SortsWhole(a[..], old(a[..]), count);
        return;
      }
    }
    BubbledSorted(a[..], count);
    SortsWhole(a[..], old(a[..]), count);
  }

  // ---------------------------------------------------------------------
  // Selection sort

  /** The inner loop of SelectionSort: the index of the first least
      element of `a[i..count)`. */
  method IndexOfMin(a: array<int>, i: nat, count: nat) returns (m: nat)
    requires i < count <= a.Length
    ensures i <= m < count
    ensures forall q :: i <= q < count ==> a[m] <= a[q]
    ensures forall q :: i <= q < m ==> a[m] < a[q]
  {
    m := i;
    for j := i to count
      invariant i <= m < count && m <= j
      invariant forall q :: i <= q < j ==> a[m] <= a[q]
      invariant forall q :: i <= q < m ==> a[m] < a[q]
    {
      if a[j] < a[m] {
        m := j;
      }
    }
  }

  /** The state after `i` passes of selection sort over `s[..count]`: the
      prefix `s[..i]` is ascending and no element of it exceeds an element
      of the rest. */
  ghost predicate Selected(s: seq<int>, i: nat, count: nat)
    requires i <= count <= |s|
  {
    Sorted(s[..i]) && forall p, q :: 0 <= p < i <= q < count ==> s[p] <= s[q]
  }

  /** One pass of SelectionSort: with the least element of `s[i..count)`
      at `m`, swapping it into slot `i` extends the ascending prefix, and
      that prefix stays below the rest. */
  lemma SelectionStep(s: seq<int>, i: nat, m: nat, count: nat)
    requires i <= m < count <= |s| && Selected(s, i, count)
    requires forall q :: i <= q < count ==> s[m] <= s[q]
    ensures Selected(Swapped(s, i, m), i + 1, count)
  {
    var t := Swapped(s, i, m);
    SwappedAt(s, i, m);
    var u := t[..i + 1];
    forall p, q | 0 <= p < q < i + 1
      ensures u[p] <= u[q]
    {
      if q < i {
        assert s[..i][p] <= s[..i][q];
      }
    }
    forall p, q | 0 <= p < i + 1 <= q < count
      ensures t[p] <= t[q]
    {
      if q == m {
        assert t[q] == s[i];
      }
    }
  }

  /** After the last pass only the greatest element is left above the
      prefix, so the whole range is ascending. */
  lemma SelectedSorted(s: seq<int>, count: nat)
    requires 0 < count <= |s| && Selected(s, count - 1, count)
    ensures Sorted(s[..count])
  {
    var u := s[..count];
    forall p, q | 0 <= p < q < count
      ensures u[p] <= u[q]
    {
      if q < count - 1 {
        assert s[..count - 1][p] <= s[..count - 1][q];
      }
    }
  }

  /** SelectionSort: pass `i` swaps the least element of `a[i..count)`
      into slot `i`. */
  method SelectionSort(a: array<int>, count: nat)
    requires count <= a.Length
    modifies a
    ensures SortsRange(a[..], old(a[..]), 0, count)
    ensures count <= 1 ==> a[..] == old(a[..])
  {
    if count <= 1 {
      return;
    }
    for i := 0 to count - 1
      invariant Selected(a[..], i, count)
      invariant multiset(a[..count]) == multiset(old(a[..count]))
      invariant a[count..] == old(a[count..])
    {
      var m := IndexOfMin(a, i, count);
      ghost var s := a[..];
      SelectionStep(s, i, m, count);
      SwappedRange(s, i, m, 0, count);
      Swap(a, i, m);
    }
    SelectedSorted(a[..], count);
  }


  // ---------------------------------------------------------------------
  // Quick sort

  /** The state of the Partition loop over `[left, right)` before index
      `j`: `s` rearranges `s0` inside the range only, the elements before
      `i` are below the pivot, those from `i` to `j` are not, and the pivot
      is still in the last slot. */
  ghost predicate Partitioning(s: seq<int>, s0: seq<int>, left: nat, i: nat, j: nat, right: nat, pivot: int)
  {
    left <= i <= j <= right <= |s| == |s0| && i < right && s[right - 1] == pivot &&
    (forall k :: left <= k < i ==> s[k] < pivot) &&
    (forall k :: i <= k < j ==> pivot <= s[k]) &&
    multiset(s[left..right]) == multiset(s0[left..right]) &&
    s[..left] == s0[..left] && s[right..] == s0[right..]
  }

  /** One step of the Partition loop at `j`: an element below the pivot is
      swapped to the end of the low part, which grows by one; any other
      element joins the high part. */
  lemma PartitionStep(s: seq<int>, s0: seq<int>, left: nat, i: nat, j: nat, right: nat, pivot: int)
    requires j < right && Partitioning(s, s0, left, i, j, right, pivot)
    ensures s[j] < pivot ==> i < |s| && Partitioning(Swapped(s, i, j), s0, left, i + 1, j + 1, right, pivot)
    ensures pivot <= s[j] ==> Partitioning(s, s0, left, i, j + 1, right, pivot)
  {
    if s[j] < pivot {
      SwappedAt(s, i, j);
      SwappedRange(s, i, j, left, right);
    }
  }

  /** The final swap of Partition, which turns `s` into `t`, puts the
      pivot between the low and the high part. */
  lemma PartitionFinishOrder(s: seq<int>, t: seq<int>, left: nat, i: nat, right: nat, pivot: int)
    requires left <= i < right <= |s| && s[right - 1] == pivot
    requires forall k :: left <= k < i ==> s[k] < pivot
    requires forall k :: i <= k < right ==> pivot <= s[k]
    requires t == Swapped(s, i, right - 1)
    ensures t[i] == pivot && AllBelow(t[left..i], pivot) && AllAtLeast(t[i + 1..right], pivot)
  {
    SwappedAt(s, i, right - 1);
    var low := t[left..i];
    forall k | 0 <= k < |low|
      ensures low[k] < pivot
    {
      assert low[k] == t[left + k] == s[left + k];
    }
    var high := t[i + 1..right];
    forall k | 0 <= k < |high|
      ensures pivot <= high[k]
    {
      assert high[k] == t[i + 1 + k];
    }
  }

  /** A swap inside `[lo, hi)`, which turns `s` into `t`, keeps what a
      rearrangement of that range already kept: its elements and
      everything outside it. */
  lemma SwappedKeeps(s: seq<int>, s0: seq<int>, t: seq<int>, i: nat, j: nat, lo: nat, hi: nat)
    requires lo <= i < hi && lo <= j < hi && hi <= |s| == |s0|
    requires multiset(s[lo..hi]) == multiset(s0[lo..hi]) && s[..lo] == s0[..lo] && s[hi..] == s0[hi..]
    requires t == Swapped(s, i, j)
    ensures multiset(t[lo..hi]) == multiset(s0[lo..hi])
    ensures t[..lo] == s0[..lo] && t[hi..] == s0[hi..]
  {
    SwappedRange(s, i, j, lo, hi);
  }

  /** The final swap of Partition, which turns `s` into `t`: the pivot
      moves from `right - 1` to the boundary `i`, between the low and the
      high part, and the range keeps its elements. */
  lemma PartitionFinish(s: seq<int>, s0: seq<int>, t: seq<int>, left: nat, i: nat, right: nat, pivot: int)
    requires Partitioning(s, s0, left, i, right, right, pivot) && t == Swapped(s, i, right - 1)
    ensures t[i] == pivot && AllBelow(t[left..i], pivot) && AllAtLeast(t[i + 1..right], pivot)
    ensures multiset(t[left..right]) == multiset(s0[left..right])
    ensures t[..left] == s0[..left] && t[right..] == s0[right..]
  {
    PartitionFinishOrder(s, t, left, i, right, pivot);
    SwappedKeeps(s, s0, t, i, right - 1, left, right);
  }

  /** The loop of Partition: moves every element of `a[left..right)` below
      `pivot`, the last of them, to the front, and returns where the front
      ends. */
  method PartitionLoop(a: array<int>, left: nat, right: nat, pivot: int) returns (i: nat)
    requires left < right <= a.Length && a[right - 1] == pivot
    modifies a
    ensures Partitioning(a[..], old(a[..]), left, i, right, right, pivot)
  {
    ghost var s0 := a[..];
    i := left;
    for j := left to right
      invariant Partitioning(a[..], s0, left, i, j, right, pivot)
    {
      PartitionStep(a[..], s0, left, i, j, right, pivot);
      if a[j] < pivot {
        Swap(a, i, j);
        i := i + 1;
      }
    }
  }

  /** Partition (Lomuto): the last element of `a[left..right)` is the
      pivot; the elements below it are gathered at the front, then the
      pivot is swapped to the boundary, whose index is returned. */
  method Partition(a: array<int>, left: nat, right: nat) returns (p: nat)
    requires left < right <= a.Length
    modifies a
    ensures left <= p < right && a[p] == old(a[right - 1])
    ensures AllBelow(a[left..p], a[p]) && AllAtLeast(a[p + 1..right], a[p])
    ensures multiset(a[left..right]) == multiset(old(a[left..right]))
    ensures a[..left] == old(a[..left]) && a[right..] == old(a[right..])
  {
    var pivot := a[right - 1];
    var i := PartitionLoop(a, left, right, pivot);
    ghost var s := a[..];
    Swap(a, i, right - 1);
    p := i;
    PartitionFinish(s, old(a[..]), a[..], left, i, right, pivot);
  }

  /** The quicksort step on `[left, right)`: a partition around the pivot
      at `p` followed by sorting both sides sorts the range. */
  lemma QuickSortStep(s0: seq<int>, s1: seq<int>, s2: seq<int>, s3: seq<int>, left: nat, p: nat, right: nat)
    requires left <= p < right <= |s0| == |s1| == |s2| == |s3|
    requires multiset(s1[left..right]) == multiset(s0[left..right])
    requires s1[..left] == s0[..left] && s1[right..] == s0[right..]
    requires AllBelow(s1[left..p], s1[p]) && AllAtLeast(s1[p + 1..right], s1[p])
    requires SortsRange(s2, s1, left, p) && SortsRange(s3, s2, p + 1, right)
    ensures SortsRange(s3, s0, left, right)
  {
    var pivot := s1[p];
    assert s2[p..] == s1[p..];
    assert s2[p] == pivot && s2[p + 1..right] == s1[p + 1..right];
    BelowByMultiset(s1[left..p], s2[left..p], pivot);
    assert s3[..p + 1] == s2[..p + 1];
    assert s3[left..p] == s2[left..p] && s3[p] == pivot;
    AtLeastByMultiset(s2[p + 1..right], s3[p + 1..right], pivot);
    SortedAroundPivot(s3[left..p], pivot, s3[p + 1..right]);
    assert s3[left..right] == s3[left..p] + [pivot] + s3[p + 1..right];
    assert s2[left..right] == s2[left..p] + [pivot] + s2[p + 1..right];
    assert s1[left..right] == s1[left..p] + [pivot] + s1[p + 1..right];
    assert s3[..left] == s2[..p + 1][..left];
    assert s2[..left] == s1[..left];
    assert s3[right..] == s2[right..] && s2[right..] == s1[p..][right - p..];
  }

  /** QuickSortHelper on `[left, right)`, with the guard `left + 1 < right`
      intended by the source's `left < right - 1` (see GuardAsWritten). */
  method QuickSortHelper(a: array<int>, left: nat, right: nat)
    requires left <= right <= a.Length
    modifies a
    ensures SortsRange(a[..], old(a[..]), left, right)
    decreases right - left
  {
    if left + 1 < right {
      ghost var s0 := a[..];
      var p := Partition(a, left, right);
      ghost var s1 := a[..];
      QuickSortHelper(a, left, p);
      ghost var s2 := a[..];
      QuickSortHelper(a, p + 1, right);
      QuickSortStep(s0, s1, s2, a[..], left, p, right);
    }
  }

  /** QuickSort: sorts `a[0 .. count)`. */
  method QuickSort(a: array<int>, count: nat)
    requires count <= a.Length
    modifies a
    ensures SortsRange(a[..], old(a[..]), 0, count)
  {
    QuickSortHelper(a, 0, count);
  }


  // ---------------------------------------------------------------------
  // Merge sort

  /** The state of the first loop of Merge over the array `s` (`s0`
      before it): `li` elements of the left copy `xs` and `ri` of the right
      copy `ys` are merged into `s[left..left + li + ri)`, and what is left
      to merge is the rest of the merge. */
  ghost predicate Merging(s: seq<int>, s0: seq<int>, xs: seq<int>, ys: seq<int>, left: nat, right: nat, li: nat, ri: nat)
  {
    |s| == |s0| && right <= |s| && left + |xs| + |ys| == right && li <= |xs| && ri <= |ys| &&
    MergeFrom(xs, ys, li, ri) == MergeSeq(xs, ys)[li + ri..] &&
    (forall k :: left <= k < left + li + ri ==> s[k] == MergeSeq(xs, ys)[k - left]) &&
    (forall k :: 0 <= k < |s| && !(left <= k < right) ==> s[k] == s0[k])
  }

  /** Taking the left head keeps the loop state. */
  lemma MergingLeft(s: seq<int>, s0: seq<int>, xs: seq<int>, ys: seq<int>, left: nat, right: nat, li: nat, ri: nat)
    requires Merging(s, s0, xs, ys, left, right, li, ri) && li < |xs| && ri < |ys| && xs[li] <= ys[ri]
    ensures left + li + ri < |s|
    ensures Merging(s[left + li + ri := xs[li]], s0, xs, ys, left, right, li + 1, ri)
  {
    MergeTakeLeft(xs, ys, li, ri, MergeSeq(xs, ys));
  }

  /** Taking the right head keeps the loop state. */
  lemma MergingRight(s: seq<int>, s0: seq<int>, xs: seq<int>, ys: seq<int>, left: nat, right: nat, li: nat, ri: nat)
    requires Merging(s, s0, xs, ys, left, right, li, ri) && li < |xs| && ri < |ys| && xs[li] > ys[ri]
    ensures left + li + ri < |s|
    ensures Merging(s[left + li + ri := ys[ri]], s0, xs, ys, left, right, li, ri + 1)
  {
    MergeTakeRight(xs, ys, li, ri, MergeSeq(xs, ys));
  }

  /** One iteration of the first loop of Merge: moves the smaller head
      of the two copies, the left one on a tie, to `a[left + li + ri]`. */
  method MergeStep(a: array<int>, left: nat, middle: nat, right: nat, storage: array<int>,
                   ghost xs: seq<int>, ghost ys: seq<int>, ghost s0: seq<int>, li: nat, ri: nat)
    returns (li': nat, ri': nat)
    requires a != storage && left <= middle <= right <= a.Length && right <= storage.Length
    requires xs == storage[..middle - left] && ys == storage[middle..right]
    requires Merging(a[..], s0, xs, ys, left, right, li, ri) && li < |xs| && ri < |ys|
    modifies a
    ensures Merging(a[..], s0, xs, ys, left, right, li', ri')
    ensures li' + ri' == li + ri + 1
  {
    ghost var s := a[..];
    var i := left + li + ri;
    assert storage[li] == xs[li] && storage[middle + ri] == ys[ri];
    if storage[li] <= storage[middle + ri] {
      MergingLeft(s, s0, xs, ys, left, right, li, ri);
      a[i] := storage[li];
      li', ri' := li + 1, ri;
    } else {
      MergingRight(s, s0, xs, ys, left, right, li, ri);
      a[i] := storage[middle + ri];
      li', ri' := li, ri + 1;
    }
    assert a[..] == s[i := a[i]];
  }

  /** The first loop of Merge: while both copies have elements left, moves
      the smaller head (the left one on a tie) to `a[i]`. Afterwards
      `a[left ..][..li + ri]` is the front of the merge and the merge of
      what is left of the copies is the rest of it. */
  method MergeHeads(a: array<int>, left: nat, middle: nat, right: nat, storage: array<int>,
                    ghost xs: seq<int>, ghost ys: seq<int>)
    returns (li: nat, ri: nat)
    requires a != storage && left <= middle <= right <= a.Length && right <= storage.Length
    requires xs == storage[..middle - left] && ys == storage[middle..right]
    modifies a
    ensures li <= middle - left && ri <= right - middle
    ensures li == middle - left || ri == right - middle
    ensures MergeFrom(xs, ys, li, ri) == MergeSeq(xs, ys)[li + ri..]
    ensures forall k :: left <= k < left + li + ri ==> a[k] == MergeSeq(xs, ys)[k - left]
    ensures forall k :: 0 <= k < a.Length && !(left <= k < right) ==> a[k] == old(a[k])
  {
    var leftCount := middle - left;
    var rightCount := right - middle;
    li, ri := 0, 0;
    assert MergeSeq(xs, ys)[0..] == MergeSeq(xs, ys);
    while li < leftCount && ri < rightCount
      invariant Merging(a[..], old(a[..]), xs, ys, left, right, li, ri)
      decreases leftCount + rightCount - li - ri
    {
      li, ri := MergeStep(a, left, middle, right, storage, xs, ys, old(a[..]), li, ri);
    }
  }

  /** The second loop of Merge: moves the rest `storage[li..middle - left)`
      of the left copy to `a` from `left + li + ri` on. */
  method MergeLeftRest(a: array<int>, left: nat, middle: nat, right: nat, storage: array<int>, li: nat, ri: nat)
    requires a != storage && left <= middle <= right <= a.Length && right <= storage.Length
    requires li <= middle - left && ri <= right - middle
    modifies a
    ensures forall k :: left + li + ri <= k < middle + ri ==> a[k] == storage[k - left - ri]
    ensures forall k :: 0 <= k < a.Length && !(left + li + ri <= k < middle + ri) ==> a[k] == old(a[k])
  {
    var i, l := left + li + ri, li;
    while l < middle - left
      invariant li <= l <= middle - left && i == left + l + ri
      invariant forall k :: left + li + ri <= k < i ==> a[k] == storage[k - left - ri]
      invariant forall k :: 0 <= k < a.Length && !(left + li + ri <= k < i) ==> a[k] == old(a[k])
    {
      a[i] := storage[l];
      l := l + 1;
      i := i + 1;
    }
  }

  /** The third loop of Merge: moves the rest `storage[middle + ri..right)`
      of the right copy to the same positions of `a`. */
  method MergeRightRest(a: array<int>, middle: nat, right: nat, storage: array<int>, ri: nat)
    requires a != storage && middle + ri <= right <= a.Length && right <= storage.Length
    modifies a
    ensures forall k :: middle + ri <= k < right ==> a[k] == storage[k]
    ensures forall k :: 0 <= k < a.Length && !(middle + ri <= k < right) ==> a[k] == old(a[k])
  {
    var i := middle + ri;
    while i < right
      invariant middle + ri <= i <= right
      invariant forall k :: middle + ri <= k < i ==> a[k] == storage[k]
      invariant forall k :: 0 <= k < a.Length && !(middle + ri <= k < i) ==> a[k] == old(a[k])
    {
      a[i] := storage[i];
      i := i + 1;
    }
  }

  /** The three loops of Merge together produce the merge: the first
      writes its front, the second the rest of the left copy and the third
      the rest of the right copy. `s1`, `s2` and `s3` are the array after
      each loop, `st` the scratch storage. */
  lemma MergeAssembled(s0: seq<int>, s1: seq<int>, s2: seq<int>, s3: seq<int>, st: seq<int>,
                       left: nat, middle: nat, right: nat, li: nat, ri: nat)
    requires left <= middle <= right <= |s0| == |s1| == |s2| == |s3| && right <= |st|
    requires forall k :: 0 <= k < |s1| && !(left <= k < right) ==> s1[k] == s0[k]
    requires li <= middle - left && ri <= right - middle
    requires li == middle - left || ri == right - middle
    requires MergeFrom(st[..middle - left], st[middle..right], li, ri) ==
      MergeSeq(st[..middle - left], st[middle..right])[li + ri..]
    requires forall k :: left <= k < left + li + ri ==>
      s1[k] == MergeSeq(st[..middle - left], st[middle..right])[k - left]
    requires forall k :: left + li + ri <= k < middle + ri ==> s2[k] == st[k - left - ri]
    requires forall k :: 0 <= k < |s2| && !(left + li + ri <= k < middle + ri) ==> s2[k] == s1[k]
    requires forall k :: middle + ri <= k < right ==> s3[k] == st[k]
    requires forall k :: 0 <= k < |s3| && !(middle + ri <= k < right) ==> s3[k] == s2[k]
    ensures s3[left..right] == MergeSeq(st[..middle - left], st[middle..right])
    ensures s3[..left] == s0[..left] && s3[right..] == s0[right..]
  {
    var xs, ys := st[..middle - left], st[middle..right];
    var m := MergeSeq(xs, ys);
    MergeLayout(xs, ys, li, ri, m);
    forall k | left <= k < right
      ensures s3[k] == m[k - left]
    {
      if k < left + li + ri {
      } else if k < middle + ri {
        assert xs[k - left - ri] == st[k - left - ri];
      } else {
        assert ys[k - left - |xs|] == st[k];
      }
    }
  }

  /** The two Copy calls of Merge: `a[left..middle)` to the front of
      `storage` and `a[middle..right)` to `storage[middle..right)`. Both
      pass the size check, as each count is at most `right`, and the
      second cannot overwrite the first, as `middle - left <= middle`. */
  method CopyHalves(a: array<int>, left: nat, middle: nat, right: nat, storage: array<int>)
    requires a != storage && left <= middle <= right <= a.Length && right <= storage.Length
    modifies storage
    ensures storage[..middle - left] == a[left..middle] && storage[middle..right] == a[middle..right]
  {
    var copied := Copy(storage, 0, middle - left, a, left, right);
    assert copied == Pass;
    copied := Copy(storage, middle, right - middle, a, middle, right);
    assert copied == Pass;
    assert storage[..middle - left] == a[left..middle];
  }

  /** The three loops of Merge: the merge of the two copies in `storage`
      goes to `a[left..right)`. */
  method MergeBack(a: array<int>, left: nat, middle: nat, right: nat, storage: array<int>)
    requires a != storage && left <= middle <= right <= a.Length && right <= storage.Length
    modifies a
    ensures a[left..right] == MergeSeq(storage[..middle - left], storage[middle..right])
    ensures a[..left] == old(a[..left]) && a[right..] == old(a[right..])
  {
    var li, ri := MergeHeads(a, left, middle, right, storage, storage[..middle - left], storage[middle..right]);
    ghost var s1 := a[..];
    MergeLeftRest(a, left, middle, right, storage, li, ri);
    ghost var s2 := a[..];
    MergeRightRest(a, middle, right, storage, ri);
    MergeAssembled(old(a[..]), s1, s2, a[..], storage[..], left, middle, right, li, ri);
  }

  /** Merge: copies both halves of `a[left..right)` to `storage`, then
      merges the copies back, taking the left element on ties. */
  method Merge(a: array<int>, left: nat, middle: nat, right: nat, storage: array<int>)
    requires a != storage && left <= middle <= right <= a.Length && right <= storage.Length
    modifies a, storage
    ensures a[left..right] == MergeSeq(old(a[left..middle]), old(a[middle..right]))
    ensures a[..left] == old(a[..left]) && a[right..] == old(a[right..])
  {
    CopyHalves(a, left, middle, right, storage);
    MergeBack(a, left, middle, right, storage);
  }

  /** Sequences that agree below `n` agree on every range below `n`. */
  lemma PrefixAgrees(s: seq<int>, t: seq<int>, lo: nat, hi: nat, n: nat)
    requires lo <= hi <= n <= |s| && n <= |t| && s[..n] == t[..n]
    ensures s[lo..hi] == t[lo..hi] && s[..hi] == t[..hi]
  {
    assert s[lo..hi] == s[..n][lo..hi] && t[lo..hi] == t[..n][lo..hi];
    assert s[..hi] == s[..n][..hi] && t[..hi] == t[..n][..hi];
  }

  /** Sequences that agree from `n` up agree on every range from `n` up. */
  lemma SuffixAgrees(s: seq<int>, t: seq<int>, lo: nat, hi: nat, n: nat)
    requires n <= lo <= hi <= |s| == |t| && s[n..] == t[n..]
    ensures s[lo..hi] == t[lo..hi] && s[lo..] == t[lo..]
  {
    assert forall k :: lo <= k < |s| ==> s[k] == s[n..][k - n] && t[k] == t[n..][k - n];
  }

  /** The merge sort step on `[left, right)`: sorting both halves and
      merging them sorts the range. */
  lemma MergeSortStep(s0: seq<int>, s1: seq<int>, s2: seq<int>, s3: seq<int>, left: nat, middle: nat, right: nat)
    requires left <= middle <= right <= |s0| == |s1| == |s2| == |s3|
    requires SortsRange(s1, s0, left, middle) && SortsRange(s2, s1, middle, right)
    requires s3[left..right] == MergeSeq(s2[left..middle], s2[middle..right])
    requires s3[..left] == s2[..left] && s3[right..] == s2[right..]
    ensures SortsRange(s3, s0, left, right)
  {
    PrefixAgrees(s2, s1, left, middle, middle);
    PrefixAgrees(s2, s1, 0, left, middle);
    SuffixAgrees(s1, s0, middle, right, middle);
    SuffixAgrees(s1, s0, right, right, middle);
    MergeSeqSorted(s2[left..middle], s2[middle..right]);
    MergeSeqPermutes(s2[left..middle], s2[middle..right]);
    assert s0[left..right] == s0[left..middle] + s0[middle..right];
  }

  /** MergeSortHelper on `[left, right)`, with the guard `left + 1 < right`
      intended by the source's `left < right - 1` (see GuardAsWritten). */
  method MergeSortHelper(a: array<int>, left: nat, right: nat, storage: array<int>)
    requires a != storage && left <= right <= a.Length && right <= storage.Length
    modifies a, storage
    ensures SortsRange(a[..], old(a[..]), left, right)
    decreases right - left
  {
    if left + 1 < right {
      var middle := (left + right) / 2;
      ghost var s0 := a[..];
      MergeSortHelper(a, left, middle, storage);
      ghost var s1 := a[..];
      MergeSortHelper(a, middle, right, storage);
      ghost var s2 := a[..];
      Merge(a, left, middle, right, storage);
      MergeSortStep(s0, s1, s2, a[..], left, middle, right);
    }
  }

  /** MergeSort: sorts `a[0 .. count)` with a scratch array of `count`
      elements. */
  method MergeSort(a: array<int>, count: nat)
    requires count <= a.Length
    modifies a
    ensures SortsRange(a[..], old(a[..]), 0, count)
  {
    var result := new int[count];
    MergeSortHelper(a, 0, count, result);
  }

}
