/** What the sorts of sorting.cpp promise, as values: ascending order, the
    merge that Merge computes, and the facts about them the proofs use. */
module SortSpec {
  /** Ascending order. */
  ghost predicate Sorted(s: seq<int>)
  {
    forall i, j :: 0 <= i < j < |s| ==> s[i] <= s[j]
  }

  /** Every element of `s` is below `bound`. */
  ghost predicate AllBelow(s: seq<int>, bound: int)
  {
    forall k :: 0 <= k < |s| ==> s[k] < bound
  }

  /** Every element of `s` is at least `bound`. */
  ghost predicate AllAtLeast(s: seq<int>, bound: int)
  {
    forall k :: 0 <= k < |s| ==> bound <= s[k]
  }

  /** The merge Merge computes, from `xs[i..]` and `ys[j..]` on: repeatedly
      take the smaller head, the left one on a tie; when one side runs out,
      the rest of the other follows. */
  function MergeFrom(xs: seq<int>, ys: seq<int>, i: nat, j: nat): (r: seq<int>)
    requires i <= |xs| && j <= |ys|
    ensures |r| == |xs| - i + |ys| - j
    decreases |xs| - i + |ys| - j
  {
    if i == |xs| then ys[j..]
    else if j == |ys| then xs[i..]
    else if xs[i] <= ys[j] then [xs[i]] + MergeFrom(xs, ys, i + 1, j)
    else [ys[j]] + MergeFrom(xs, ys, i, j + 1)
  }

  /** The whole merge of `xs` and `ys`. */
  function MergeSeq(xs: seq<int>, ys: seq<int>): seq<int>
  {
    MergeFrom(xs, ys, 0, 0)
  }

  /** A head followed by the rest of a sequence. */
  lemma HeadMultiset(s: seq<int>, i: nat)
    requires i < |s|
    ensures multiset(s[i..]) == multiset{s[i]} + multiset(s[i + 1..])
  {
    assert s[i..] == [s[i]] + s[i + 1..];
  }

  /** The merge holds exactly the elements of both inputs. */
  lemma {:induction false} MergeFromPermutes(xs: seq<int>, ys: seq<int>, i: nat, j: nat)
    requires i <= |xs| && j <= |ys|
    ensures multiset(MergeFrom(xs, ys, i, j)) == multiset(xs[i..]) + multiset(ys[j..])
    decreases |xs| - i + |ys| - j
  {
    if i == |xs| {
      assert xs[i..] == [];
    } else if j == |ys| {
      assert ys[j..] == [];
    } else if xs[i] <= ys[j] {
      MergeFromPermutes(xs, ys, i + 1, j);
      HeadMultiset(xs, i);
    } else {
      MergeFromPermutes(xs, ys, i, j + 1);
      HeadMultiset(ys, j);
    }
  }

  /** The merge holds exactly the elements of both inputs. */
  lemma MergeSeqPermutes(xs: seq<int>, ys: seq<int>)
    ensures multiset(MergeSeq(xs, ys)) == multiset(xs) + multiset(ys)
  {
    MergeFromPermutes(xs, ys, 0, 0);
    assert xs[0..] == xs && ys[0..] == ys;
  }

  /** Elements of the same multiset obey the same lower bound. */
  lemma AtLeastByMultiset(s: seq<int>, t: seq<int>, bound: int)
    requires multiset(s) == multiset(t) && AllAtLeast(s, bound)
    ensures AllAtLeast(t, bound)
  {
    forall k | 0 <= k < |t|
      ensures bound <= t[k]
    {
      assert t[k] in multiset(s);
    }
  }

  /** Elements of the same multiset obey the same upper bound. */
  lemma BelowByMultiset(s: seq<int>, t: seq<int>, bound: int)
    requires multiset(s) == multiset(t) && AllBelow(s, bound)
    ensures AllBelow(t, bound)
  {
    forall k | 0 <= k < |t|
      ensures t[k] < bound
    {
      assert t[k] in multiset(s);
    }
  }

  /** Taking a head that is no greater than both remaining sides and then an
      ascending merge of the rest gives an ascending sequence. */
  lemma HeadThenSorted(head: int, xs: seq<int>, ys: seq<int>, rest: seq<int>)
    requires Sorted(rest) && multiset(rest) == multiset(xs) + multiset(ys)
    requires AllAtLeast(xs, head) && AllAtLeast(ys, head)
    ensures Sorted([head] + rest)
  {
    assert multiset(xs + ys) == multiset(rest);
    AtLeastByMultiset(xs + ys, rest, head);
  }

  /** Merging two ascending sequences gives an ascending sequence. */
  lemma {:induction false} MergeFromSorted(xs: seq<int>, ys: seq<int>, i: nat, j: nat)
    requires i <= |xs| && j <= |ys| && Sorted(xs) && Sorted(ys)
    ensures Sorted(MergeFrom(xs, ys, i, j))
    decreases |xs| - i + |ys| - j
  {
    if i == |xs| || j == |ys| {
    } else if xs[i] <= ys[j] {
      MergeFromSorted(xs, ys, i + 1, j);
      MergeFromPermutes(xs, ys, i + 1, j);
      HeadThenSorted(xs[i], xs[i + 1..], ys[j..], MergeFrom(xs, ys, i + 1, j));
    } else {
      MergeFromSorted(xs, ys, i, j + 1);
      MergeFromPermutes(xs, ys, i, j + 1);
      HeadThenSorted(ys[j], xs[i..], ys[j + 1..], MergeFrom(xs, ys, i, j + 1));
    }
  }

  /** Merging two ascending sequences gives an ascending sequence. */
  lemma MergeSeqSorted(xs: seq<int>, ys: seq<int>)
    requires Sorted(xs) && Sorted(ys)
    ensures Sorted(MergeSeq(xs, ys))
  {
    MergeFromSorted(xs, ys, 0, 0);
  }

  /** A suffix is its first element followed by the next suffix. */
  lemma HeadTail(s: seq<int>, k: nat)
    requires k < |s|
    ensures s[k..] == [s[k]] + s[k + 1..]
  {
  }

  /** One step of the merge loop: when what is left to merge, from
      `xs[i..]` and `ys[j..]`, is the part of the merge `m` from `i + j` on,
      and the left head is taken, that head is `m[i + j]` and the rest is
      the part from `i + 1 + j` on. */
  lemma MergeTakeLeft(xs: seq<int>, ys: seq<int>, i: nat, j: nat, m: seq<int>)
    requires i < |xs| && j <= |ys| && (j < |ys| ==> xs[i] <= ys[j])
    requires i + j <= |m| && MergeFrom(xs, ys, i, j) == m[i + j..]
    ensures i + j < |m| && m[i + j] == xs[i] && MergeFrom(xs, ys, i + 1, j) == m[i + 1 + j..]
  {
    if j == |ys| {
      HeadTail(xs, i);
    }
    assert MergeFrom(xs, ys, i, j) == [xs[i]] + MergeFrom(xs, ys, i + 1, j);
    HeadTail(m, i + j);
    assert i + j + 1 == i + 1 + j;
  }

  /** One step of the merge loop: taking the right head. */
  lemma MergeTakeRight(xs: seq<int>, ys: seq<int>, i: nat, j: nat, m: seq<int>)
    requires i <= |xs| && j < |ys| && (i < |xs| ==> xs[i] > ys[j])
    requires i + j <= |m| && MergeFrom(xs, ys, i, j) == m[i + j..]
    ensures i + j < |m| && m[i + j] == ys[j] && MergeFrom(xs, ys, i, j + 1) == m[i + (j + 1)..]
  {
    if i == |xs| {
      HeadTail(ys, j);
    }
    assert MergeFrom(xs, ys, i, j) == [ys[j]] + MergeFrom(xs, ys, i, j + 1);
    HeadTail(m, i + j);
    assert i + j + 1 == i + (j + 1);
  }

  /** When one side is used up, the rest of the merge is the rest of the
      other side. */
  lemma MergeRest(xs: seq<int>, ys: seq<int>, i: nat, j: nat)
    requires i <= |xs| && j <= |ys| && (i == |xs| || j == |ys|)
    ensures MergeFrom(xs, ys, i, j) == xs[i..] + ys[j..]
  {
    if i == |xs| {
      assert xs[i..] == [];
    } else {
      assert ys[j..] == [];
    }
  }

  /** Where the elements of the merge `m` come from once the first `i + j`
      of them are produced and one side is used up: the rest of the left
      side follows, then the rest of the right side. */
  lemma MergeLayout(xs: seq<int>, ys: seq<int>, i: nat, j: nat, m: seq<int>)
    requires i <= |xs| && j <= |ys| && (i == |xs| || j == |ys|)
    requires m == MergeSeq(xs, ys) && MergeFrom(xs, ys, i, j) == m[i + j..]
    ensures forall k :: i + j <= k < |xs| + j ==> m[k] == xs[k - j]
    ensures forall k :: |xs| + j <= k < |m| ==> m[k] == ys[k - |xs|]
  {
    MergeRest(xs, ys, i, j);
    forall k | i + j <= k < |xs| + j
      ensures m[k] == xs[k - j]
    {
      assert m[k] == m[i + j..][k - i - j];
    }
    forall k | |xs| + j <= k < |m|
      ensures m[k] == ys[k - |xs|]
    {
      assert m[k] == m[i + j..][k - i - j];
    }
  }

  /** The first element of an ascending sequence is its least. */
  lemma FirstIsLeast(s: seq<int>, x: int)
    requires Sorted(s) && x in multiset(s)
    ensures 0 < |s| && s[0] <= x
  {
    assert x in s;
  }

  /** Two sequences with the same elements and the same first element
      have the same elements after it. */
  lemma CancelHead(s: seq<int>, t: seq<int>)
    requires 0 < |s| && 0 < |t| && s[0] == t[0] && multiset(s) == multiset(t)
    ensures multiset(s[1..]) == multiset(t[1..])
  {
    assert s == [s[0]] + s[1..];
    assert t == [t[0]] + t[1..];
    assert multiset(s[1..]) == multiset(s) - multiset{s[0]};
    assert multiset(t[1..]) == multiset(t) - multiset{t[0]};
  }

  /** Two ascending sequences with the same elements are equal. */
  lemma {:induction false} SortedUnique(s: seq<int>, t: seq<int>)
    requires Sorted(s) && Sorted(t) && multiset(s) == multiset(t)
    ensures s == t
    decreases |s|
  {
    assert |s| == |multiset(s)| == |t|;
    if |s| > 0 {
      FirstIsLeast(s, t[0]);
      FirstIsLeast(t, s[0]);
      CancelHead(s, t);
      SortedUnique(s[1..], t[1..]);
      HeadTail(s, 0);
      HeadTail(t, 0);
    }
  }

  /** The quicksort step: an ascending part below the pivot, the pivot, and
      an ascending part at least the pivot form an ascending sequence. */
  lemma SortedAroundPivot(xs: seq<int>, pivot: int, ys: seq<int>)
    requires Sorted(xs) && Sorted(ys) && AllBelow(xs, pivot) && AllAtLeast(ys, pivot)
    ensures Sorted(xs + [pivot] + ys)
  {
  }
}
