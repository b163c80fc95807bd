/** The index arithmetic of sorting.cpp as written, on `size_t`: unsigned
    64-bit values whose subtraction wraps around. Each defect is shown on a
    concrete input here; the Sorting module holds the corrected sorts. */
module SortingAsWritten {
  import opened Wrappers
  import opened SortSpec
  import opened Sorting
  import opened Utilities

  // ---------------------------------------------------------------------
  // InsertionSort: `j >= 0` holds for every unsigned `j`

  /** The inner loop of InsertionSort as written, from index `j` down,
      over the array `s` that has `element` (once `s[i]`) taken out: while
      `element < s[j]`, shift `s[j]` up and step `j` down with wrap-around.
      The test `j >= 0` never fails, so once the scan passes index 0 it
      reads past the end; that read is the error. */
  function ShiftAsWritten(s: seq<int>, i: nat, element: int, j: nat): (r: Result<seq<int>>)
    requires i < |s| < SizeTModulus && j < SizeTModulus && (j < |s| ==> j < i)
    ensures r.Ok? ==> |r.value| == |s|
    decreases if j < |s| then j + 1 else 0
  {
    if |s| <= j then Err(IndexOutOfBounds)
    else if element < s[j] then ShiftAsWritten(s[j + 1 := s[j]], i, element, SizeTSub(j, 1))
    else Ok(s[j + 1 := element])
  }

  /** One pass of the outer loop of InsertionSort as written, inserting
      `s[i]` into `s[..i]`. */
  function InsertStepAsWritten(s: seq<int>, i: nat): (r: Result<seq<int>>)
    requires 0 < i < |s| < SizeTModulus
    ensures r.Ok? ==> |r.value| == |s|
  {
    ShiftAsWritten(s, i, s[i], i - 1)
  }

  /** The scan from `j` down reads past the end exactly when `element` is
      below every one of `s[0..j]`. */
  lemma {:induction false} ShiftFailsIff(s: seq<int>, i: nat, element: int, j: nat)
    requires i < |s| < SizeTModulus && j < i
    ensures ShiftAsWritten(s, i, element, j).Err? <==> forall k :: 0 <= k <= j ==> element < s[k]
    decreases j
  {
    if element < s[j] && j > 0 {
      var t := s[j + 1 := s[j]];
      ShiftFailsIff(t, i, element, j - 1);
      assert forall k :: 0 <= k <= j - 1 ==> t[k] == s[k];
    }
  }

  /** A pass of InsertionSort as written reads past the end exactly when
      the element it inserts is below everything before it, so any input
      whose minimum is not at the front fails. */
  lemma InsertStepFailsIff(s: seq<int>, i: nat)
    requires 0 < i < |s| < SizeTModulus
    ensures InsertStepAsWritten(s, i).Err? <==> AllAtLeast(s[..i], s[i] + 1)
  {
    ShiftFailsIff(s, i, s[i], i - 1);
    assert forall k :: 0 <= k < i ==> s[..i][k] == s[k];
  }

  /** InsertionSort as written on [1, 0]: the first pass already reads past
      the end. The corrected pass, InsertAt, stops at index 0. */
  lemma InsertionSortPairAsWritten()
    ensures InsertStepAsWritten([1, 0], 1) == Err(IndexOutOfBounds)
  {
  }

  // ---------------------------------------------------------------------
  // QuickSortHelper and MergeSortHelper: `left < right - 1` wraps at 0

  /** The guard of QuickSortHelper and MergeSortHelper as written. */
  function GuardAsWritten(left: nat, right: nat): (go: bool)
    requires left < SizeTModulus && right < SizeTModulus
    ensures right == 0 ==> (go <==> left < SizeTModulus - 1)
  {
    left < SizeTSub(right, 1)
  }

  /** The guard is the intended `left + 1 < right` whenever `right > 0`,
      and holds (wrongly) for the empty range at 0. */
  lemma GuardsAgree(left: nat, right: nat)
    requires left < SizeTModulus && right < SizeTModulus
    ensures 0 < right ==> (GuardAsWritten(left, right) <==> left + 1 < right)
    ensures GuardAsWritten(0, 0)
  {
  }

  /** The number of Merge calls MergeSortHelper(left, right) makes as
      written, or None when its recursion is deeper than `fuel`. */
  function MergeCallsAsWritten(left: nat, right: nat, fuel: nat): (r: Option<nat>)
    requires left <= right < SizeTModulus / 2
    ensures r.Some? && right <= left + 1 && 0 < right ==> r.value == 0
    decreases fuel
  {
    if !GuardAsWritten(left, right) then Some(0)
    else if fuel == 0 then None
    else
      var middle := (left + right) / 2;
      match (MergeCallsAsWritten(left, middle, fuel - 1), MergeCallsAsWritten(middle, right, fuel - 1))
      case (Some(x), Some(y)) => Some(x + y + 1)
      case _ => None
  }

  /** MergeSort as written on an empty array: MergeSortHelper(0, 0) passes
      the guard and calls itself with the same bounds, at every depth. */
  lemma {:induction false} MergeSortEmptyDiverges(fuel: nat)
    ensures MergeCallsAsWritten(0, 0, fuel) == None
  {
    if fuel > 0 {
      MergeSortEmptyDiverges(fuel - 1);
    }
  }

  /** The part of QuickSort as written on [1, 0] up to its fault: the
      partition of [0, 2) puts the pivot at index 0, the guard lets the
      empty range [0, 0) through, and its Partition reads the pivot at
      `right - 1`, which wraps past the end. */
  method QuickSortPairAsWritten() returns (p: nat, go: bool, read: nat)
    ensures p == 0 && go && 2 <= read
  {
    var a := new int[2] [1, 0];
    p := Partition(a, 0, 2);
    go := GuardAsWritten(0, p);
    read := SizeTSub(p, 1);
  }
}
