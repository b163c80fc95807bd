/** The demonstration in the main function of sorting.cpp: each of the five
    sorts turns the same ten integers into 0, 1, ..., 9. */
module SortingExamples {
  import opened SortSpec
  import opened Sorting
  import opened SortingAsWritten
  import opened Utilities

  /** The input of every demonstration. */
  const Input: seq<int> := [6, 3, 2, 0, 1, 5, 8, 7, 9, 4]

  /** The only ascending arrangement of the input. */
  const Output: seq<int> := [0, 1, 2, 3, 4, 5, 6, 7, 8, 9]

  /** Halfway between the input and the output. */
  const Halfway: seq<int> := [0, 1, 2, 3, 6, 5, 8, 7, 9, 4]

  /** The first three swaps selection sort makes on the input. */
  lemma InputPermutesHalfway()
    ensures multiset(Input) == multiset(Halfway)
  {
    var s1 := Swapped(Input, 0, 3);
    assert s1 == [0, 3, 2, 6, 1, 5, 8, 7, 9, 4];
    var s2 := Swapped(s1, 1, 4);
    assert s2 == [0, 1, 2, 6, 3, 5, 8, 7, 9, 4];
    assert Swapped(s2, 3, 4) == Halfway;
    SwappedPermutes(Input, 0, 3);
    SwappedPermutes(s1, 1, 4);
    SwappedPermutes(s2, 3, 4);
  }

  /** The last three swaps selection sort makes. */
  lemma HalfwayPermutesOutput()
    ensures multiset(Halfway) == multiset(Output)
  {
    var s4 := Swapped(Halfway, 4, 9);
    assert s4 == [0, 1, 2, 3, 4, 5, 8, 7, 9, 6];
    var s5 := Swapped(s4, 6, 9);
    assert s5 == [0, 1, 2, 3, 4, 5, 6, 7, 9, 8];
    assert Swapped(s5, 8, 9) == Output;
    SwappedPermutes(Halfway, 4, 9);
    SwappedPermutes(s4, 6, 9);
    SwappedPermutes(s5, 8, 9);
  }

  /** The input is a permutation of the output: the six swaps selection
      sort makes turn one into the other. */
  lemma InputPermutesOutput()
    ensures multiset(Input) == multiset(Output)
  {
    InputPermutesHalfway();
    HalfwayPermutesOutput();
  }

  /** The output is ascending. */
  lemma OutputSorted()
    ensures Sorted(Output)
  {
    forall i, j | 0 <= i < j < |Output|
      ensures Output[i] <= Output[j]
    {
      assert Output[i] == i && Output[j] == j;
    }
  }

  /** Any ascending permutation of the input is the expected output. */
  lemma SortedInput(s: seq<int>)
    requires Sorted(s) && multiset(s) == multiset(Input)
    ensures s == Output
  {
    InputPermutesOutput();
    OutputSorted();
    SortedUnique(s, Output);
  }

  /** A sort of a whole sequence leaves its one ascending arrangement. */
  lemma SortedResult(t: seq<int>, before: seq<int>, expected: seq<int>)
    requires Sorted(expected) && multiset(before) == multiset(expected)
    requires |t| == |before| && SortsRange(t, before, 0, |before|)
    ensures t == expected
  {
    assert t[0..|t|] == t;
    assert before[0..|before|] == before;
    SortedUnique(t, expected);
  }

  /** A fresh array holding the input. */
  method InputArray() returns (a: array<int>)
    ensures fresh(a) && a[..] == Input
  {
    a := new int[10] [6, 3, 2, 0, 1, 5, 8, 7, 9, 4];
  }

  /** InsertionSort as written fails on the demonstration input in its
      first pass: 3 is below 6, so the scan steps past index 0. */
  lemma InsertionSortDemoAsWritten()
    ensures InsertStepAsWritten(Input, 1).Err?
  {
    InsertStepFailsIff(Input, 1);
  }

  /** The corrected InsertionSort on the demonstration input. */
  method InsertionSortExample() returns (out: seq<int>)
    ensures out == Output
  {
    var a := InputArray();
    ghost var before := a[..];
    InsertionSort(a, a.Length);
    out := a[..];
    InputPermutesOutput();
    OutputSorted();
    SortedResult(out, before, Output);
  }

  /** BubbleSort on the demonstration input. */
  method BubbleSortExample() returns (out: seq<int>)
    ensures out == Output
  {
    var a := InputArray();
    ghost var before := a[..];
    BubbleSort(a, a.Length);
    out := a[..];
    InputPermutesOutput();
    OutputSorted();
    SortedResult(out, before, Output);
  }

  /** SelectionSort on the demonstration input. */
  method SelectionSortExample() returns (out: seq<int>)
    ensures out == Output
  {
    var a := InputArray();
    ghost var before := a[..];
    SelectionSort(a, a.Length);
    out := a[..];
    InputPermutesOutput();
    OutputSorted();
    SortedResult(out, before, Output);
  }

  /** MergeSort on the demonstration input. */
  method MergeSortExample() returns (out: seq<int>)
    ensures out == Output
  {
    var a := InputArray();
    ghost var before := a[..];
    MergeSort(a, a.Length);
    out := a[..];
    InputPermutesOutput();
    OutputSorted();
    SortedResult(out, before, Output);
  }

  /** QuickSort on the demonstration input. */
  method QuickSortExample() returns (out: seq<int>)
    ensures out == Output
  {
    var a := InputArray();
    ghost var before := a[..];
    QuickSort(a, a.Length);
    out := a[..];
    InputPermutesOutput();
    OutputSorted();
    SortedResult(out, before, Output);
  }
}
