/** The binary max-heap of heap.h: the in-place algorithms Heapify and
    BuildMaxHeap over an array prefix, and the class MaxHeap with Add
    (sift-up) and Pop(index) (swap with the last element, then sift down),
    both as written and, for Pop, as evidently intended. */
module Heap {
  import opened HeapIndex
  import opened Utilities
  import opened Wrappers

  // ---------------------------------------------------------------------
  // The heap property and subtrees

  /** Every parent/child pair inside `s[..n]` is ordered: parent >= child. */
  ghost predicate IsMaxHeap(s: seq<int>, n: nat)
    requires n <= |s|
  {
    forall c :: 0 < c < n ==> s[Parent(c)] >= s[c]
  }

  /** `k` lies in the subtree rooted at `root` (in the infinite binary tree of indices). */
  ghost predicate InSubtree(root: nat, k: nat)
    decreases k
  {
    k == root || (k > root && InSubtree(root, Parent(k)))
  }

  /** The subtree rooted at `root`, cut off at `n`, is a max-heap: every
      parent/child pair below `n` whose parent is in the subtree is ordered. */
  ghost predicate HeapAt(s: seq<int>, n: nat, root: nat)
    requires n <= |s|
  {
    forall c :: 0 < c < n && InSubtree(root, Parent(c)) ==> s[Parent(c)] >= s[c]
  }

  /** Every parent/child pair below `n` whose parent index is at least `lo` is ordered. */
  ghost predicate OrderedFrom(s: seq<int>, n: nat, lo: nat)
    requires n <= |s|
  {
    forall c :: 0 < c < n && Parent(c) >= lo ==> s[Parent(c)] >= s[c]
  }

  /** The largest of the value at `i` and the values of its children below `n`. */
  ghost function FamilyMax(s: seq<int>, n: nat, i: nat): int
    requires i < n <= |s|
  {
    var l := if LeftChild(i) < n then s[LeftChild(i)] else s[i];
    var r := if RightChild(i) < n then s[RightChild(i)] else s[i];
    var m := if l > s[i] then l else s[i];
    if r > m then r else m
  }

  lemma {:induction false} SubtreeAtLeast(root: nat, k: nat)
    requires InSubtree(root, k)
    ensures k >= root
    decreases k
  {
  }

  lemma ChildrenInSubtree(i: nat)
    ensures InSubtree(i, LeftChild(i)) && InSubtree(i, RightChild(i))
  {
    ParentOfChildren(i);
  }

  lemma {:induction false} SubtreeTransitive(a: nat, b: nat, k: nat)
    requires InSubtree(a, b) && InSubtree(b, k)
    ensures InSubtree(a, k)
    decreases k
  {
    if k != b {
      SubtreeTransitive(a, b, Parent(k));
      SubtreeAtLeast(a, b);
    }
  }

  /** A node of the subtree other than its root lies under one of the root's children. */
  lemma {:induction false} SubtreeSplit(root: nat, k: nat)
    requires InSubtree(root, k) && k != root
    ensures InSubtree(LeftChild(root), k) || InSubtree(RightChild(root), k)
    decreases k
  {
    var p := Parent(k);
    if p == root {
      ChildOfParent(k);
    } else {
      SubtreeSplit(root, p);
      ParentBelow(k);
      if InSubtree(LeftChild(root), p) {
        SubtreeAtLeast(LeftChild(root), p);
      } else {
        SubtreeAtLeast(RightChild(root), p);
      }
    }
  }

  /** The subtrees of the two children of a node share no index. */
  lemma {:induction false} SubtreesDisjoint(i: nat, k: nat)
    ensures !(InSubtree(LeftChild(i), k) && InSubtree(RightChild(i), k))
    decreases k
  {
    if InSubtree(LeftChild(i), k) && InSubtree(RightChild(i), k) {
      if k == LeftChild(i) {
        SubtreeAtLeast(RightChild(i), k);
      } else if k == RightChild(i) {
        ParentOfChildren(i);
        SubtreeAtLeast(LeftChild(i), Parent(k));
      } else {
        SubtreesDisjoint(i, Parent(k));
      }
    }
  }

  /** A child in the subtree means its parent is too, unless the child is the root. */
  lemma ParentInSubtree(root: nat, c: nat)
    requires InSubtree(root, c) && c != root
    ensures InSubtree(root, Parent(c))
  {
  }

  /** HeapAt only looks at the slots of the subtree below `n`. */
  lemma HeapAtFrame(s: seq<int>, t: seq<int>, n: nat, root: nat)
    requires n <= |s| && n <= |t|
    requires forall k :: 0 <= k < n && InSubtree(root, k) ==> s[k] == t[k]
    requires HeapAt(s, n, root)
    ensures HeapAt(t, n, root)
  {
    forall c | 0 < c < n && InSubtree(root, Parent(c))
      ensures t[Parent(c)] >= t[c]
    {
      ParentBelow(c);
      SubtreeAtLeast(root, Parent(c));
      assert InSubtree(root, c);
    }
  }

  /** A heap subtree contains heap subtrees. */
  lemma HeapAtSub(s: seq<int>, n: nat, root: nat, sub: nat)
    requires n <= |s| && HeapAt(s, n, root) && InSubtree(root, sub)
    ensures HeapAt(s, n, sub)
  {
    forall c | 0 < c < n && InSubtree(sub, Parent(c))
      ensures s[Parent(c)] >= s[c]
    {
      SubtreeTransitive(root, sub, Parent(c));
    }
  }

  /** Two heap subtrees under a node that dominates its children make a heap subtree. */
  lemma HeapAtJoin(s: seq<int>, n: nat, i: nat)
    requires n <= |s|
    requires HeapAt(s, n, LeftChild(i)) && HeapAt(s, n, RightChild(i))
    requires LeftChild(i) < n ==> s[i] >= s[LeftChild(i)]
    requires RightChild(i) < n ==> s[i] >= s[RightChild(i)]
    ensures HeapAt(s, n, i)
  {
    forall c | 0 < c < n && InSubtree(i, Parent(c))
      ensures s[Parent(c)] >= s[c]
    {
      if Parent(c) == i {
        ChildOfParent(c);
      } else {
        SubtreeSplit(i, Parent(c));
      }
    }
  }

  /** The whole prefix is a heap exactly when the subtree at the root is. */
  lemma {:induction false} RootSubtreeIsAll(k: nat)
    ensures InSubtree(0, k)
    decreases k
  {
    if k > 0 {
      ParentBelow(k);
      RootSubtreeIsAll(Parent(k));
    }
  }

  lemma HeapAtRoot(s: seq<int>, n: nat)
    requires n <= |s|
    ensures HeapAt(s, n, 0) <==> IsMaxHeap(s, n)
  {
    forall c | 0 < c < n
      ensures InSubtree(0, Parent(c))
    {
      RootSubtreeIsAll(Parent(c));
    }
  }

  /** The root of a max-heap holds its largest element. */
  lemma {:induction false} HeapRootIsMax(s: seq<int>, n: nat, k: nat)
    requires n <= |s| && IsMaxHeap(s, n) && k < n
    ensures s[0] >= s[k]
    decreases k
  {
    if k > 0 {
      ParentBelow(k);
      HeapRootIsMax(s, n, Parent(k));
    }
  }

  /** Equal multisets and an equal tail give equal multisets of the prefixes. */
  lemma MultisetPrefix(s: seq<int>, t: seq<int>, n: nat)
    requires n <= |s| == |t|
    requires multiset(s) == multiset(t) && s[n..] == t[n..]
    ensures multiset(s[..n]) == multiset(t[..n])
  {
    assert s == s[..n] + s[n..];
    assert t == t[..n] + t[n..];
    calc {
      multiset(s[..n]);
      multiset(s[..n]) + multiset(s[n..]) - multiset(s[n..]);
      multiset(s) - multiset(s[n..]);
      multiset(t) - multiset(t[n..]);
      multiset(t[..n]) + multiset(t[n..]) - multiset(t[n..]);
      multiset(t[..n]);
    }
  }

  /** Swapping a node with its larger child leaves the grandchildren's heap
      subtrees as they were. */
  lemma SwapKeepsGrandchildHeaps(s0: seq<int>, n: nat, index: nat, largest: nat)
    requires n <= |s0| && index < largest < n
    requires largest == LeftChild(index) || largest == RightChild(index)
    requires HeapAt(s0, n, LeftChild(index)) && HeapAt(s0, n, RightChild(index))
    ensures HeapAt(Swapped(s0, index, largest), n, LeftChild(largest))
    ensures HeapAt(Swapped(s0, index, largest), n, RightChild(largest))
  {
    var s1 := Swapped(s0, index, largest);
    SwappedAt(s0, index, largest);
    ChildrenInSubtree(largest);
    HeapAtSub(s0, n, largest, LeftChild(largest));
    HeapAtSub(s0, n, largest, RightChild(largest));
    forall k | 0 <= k < n && InSubtree(LeftChild(largest), k)
      ensures s0[k] == s1[k]
    {
      SubtreeAtLeast(LeftChild(largest), k);
    }
    forall k | 0 <= k < n && InSubtree(RightChild(largest), k)
      ensures s0[k] == s1[k]
    {
      SubtreeAtLeast(RightChild(largest), k);
    }
    HeapAtFrame(s0, s1, n, LeftChild(largest));
    HeapAtFrame(s0, s1, n, RightChild(largest));
  }

  /** The swap of Heapify keeps the elements below `n` and the heap
      subtrees under `largest`. */
  lemma SwapDown(s0: seq<int>, n: nat, index: nat, largest: nat)
    requires n <= |s0| && index < largest < n
    requires largest == LeftChild(index) || largest == RightChild(index)
    requires HeapAt(s0, n, LeftChild(index)) && HeapAt(s0, n, RightChild(index))
    ensures multiset(Swapped(s0, index, largest)[..n]) == multiset(s0[..n])
    ensures HeapAt(Swapped(s0, index, largest), n, LeftChild(largest))
    ensures HeapAt(Swapped(s0, index, largest), n, RightChild(largest))
  {
    var s1 := Swapped(s0, index, largest);
    SwappedRange(s0, index, largest, 0, n);
    assert s1[..n] == s1[0..n] && s0[..n] == s0[0..n];
    SwapKeepsGrandchildHeaps(s0, n, index, largest);
  }

  /** After the swap and the recursive Heapify at `largest`, the subtree at
      `index` is a heap, `index` holds its old family maximum, and only the
      subtree of `index` was written. */
  lemma HeapifyReassemble(s0: seq<int>, s2: seq<int>, n: nat, index: nat, largest: nat, other: nat)
    requires n <= |s0| == |s2| && index < largest < n
    requires largest == LeftChild(index) || largest == RightChild(index)
    requires other == (if largest == LeftChild(index) then RightChild(index) else LeftChild(index))
    requires HeapAt(s0, n, LeftChild(index)) && HeapAt(s0, n, RightChild(index))
    requires s0[largest] == FamilyMax(s0, n, index)
    requires HeapAt(s2, n, largest)
    requires s2[largest] == FamilyMax(Swapped(s0, index, largest), n, largest)
    requires forall k :: 0 <= k < |s2| && !(k < n && InSubtree(largest, k)) ==> s2[k] == Swapped(s0, index, largest)[k]
    ensures HeapAt(s2, n, index)
    ensures s2[index] == FamilyMax(s0, n, index)
    ensures forall k :: 0 <= k < |s2| && !(k < n && InSubtree(index, k)) ==> s2[k] == s0[k]
    ensures s2[n..] == s0[n..]
  {
    var s1 := Swapped(s0, index, largest);
    SwappedAt(s0, index, largest);
    ChildrenInSubtree(index);
    ChildrenInSubtree(largest);
    ParentOfChildren(largest);
    // The value that rose to `largest` came from its family, all <= s0[largest].
    assert HeapAt(s0, n, largest);
    if LeftChild(largest) < n {
      assert InSubtree(largest, Parent(LeftChild(largest)));
    }
    if RightChild(largest) < n {
      assert InSubtree(largest, Parent(RightChild(largest)));
    }
    assert s2[largest] <= s1[index];
    if InSubtree(largest, index) {
      SubtreeAtLeast(largest, index);
    }
    assert s2[index] == s1[index];
    // The other child's subtree is untouched by both the swap and the call.
    forall k | 0 <= k < n && InSubtree(other, k)
      ensures s0[k] == s2[k]
    {
      SubtreesDisjoint(index, k);
      SubtreeAtLeast(other, k);
    }
    HeapAtFrame(s0, s2, n, other);
    if other < n {
      assert s2[other] == s0[other];
    }
    HeapAtJoin(s2, n, index);
    forall k | 0 <= k < |s2| && !(k < n && InSubtree(index, k))
      ensures s2[k] == s0[k]
    {
      if k < n && InSubtree(largest, k) {
        SubtreeTransitive(index, largest, k);
      }
    }
  }

  // ---------------------------------------------------------------------
  // Heapify and BuildMaxHeap

  /** The first part of Heapify: the index of the largest of `a[index]`
      and its children below `count`, preferring the parent, then the left
      child, on ties. */
  method LargestOfFamily(a: array<int>, count: nat, index: nat) returns (largest: nat)
    requires count <= a.Length
    ensures largest == index || (largest == LeftChild(index) && largest < count) || (largest == RightChild(index) && largest < count)
    ensures index < count ==> a[largest] == FamilyMax(a[..], count, index)
    ensures largest != index ==> index < largest && a[index] < a[largest]
  {
    largest := index;
    var left, right := LeftChild(index), RightChild(index);
    if left < count && a[left] > a[largest] {
      largest := left;
    }
    if right < count && a[right] > a[largest] {
      largest := right;
    }
  }

  /** Heapify (heap.h): sift the value at `index` down into the subtree
      below it. Given that the subtrees of both children are max-heaps
      within `count`, afterwards the subtree of `index` is one; only slots
      of that subtree below `count` are written, by swaps. */
  method Heapify(a: array<int>, count: nat, index: nat)
    requires count <= a.Length
    requires HeapAt(a[..], count, LeftChild(index)) && HeapAt(a[..], count, RightChild(index))
    modifies a
    ensures HeapAt(a[..], count, index)
    ensures multiset(a[..count]) == multiset(old(a[..count]))
    ensures forall k :: 0 <= k < a.Length && !(k < count && InSubtree(index, k)) ==> a[k] == old(a[k])
    ensures index < count ==> a[index] == FamilyMax(old(a[..]), count, index)
    ensures index < count && FamilyMax(old(a[..]), count, index) == old(a[index]) ==> a[..] == old(a[..])
    decreases count - index
  {
    var largest := LargestOfFamily(a, count, index);
    if largest != index {
      ghost var s0 := a[..];
      var other := if largest == LeftChild(index) then RightChild(index) else LeftChild(index);
      Swap(a, index, largest);
      ghost var s1 := a[..];
      SwapDown(s0, count, index, largest);
      Heapify(a, count, largest);
      ghost var s2 := a[..];
      assert forall k :: 0 <= k < |s2| && !(k < count && InSubtree(largest, k)) ==> s2[k] == s1[k];
      HeapifyReassemble(s0, s2, count, index, largest, other);
    } else {
      HeapAtJoin(a[..], count, index);
    }
  }

  /** One step of BuildMaxHeap: once every pair whose parent is above `i`
      is ordered, Heapify at `i` orders the pairs whose parent is `i` too. */
  method HeapifyParent(a: array<int>, count: nat, i: nat)
    requires count <= a.Length && OrderedFrom(a[..], count, i + 1)
    modifies a
    ensures OrderedFrom(a[..], count, i)
    ensures multiset(a[..count]) == multiset(old(a[..count]))
    ensures a[count..] == old(a[count..])
  {
    ghost var before := a[..];
    forall c | 0 < c < count && InSubtree(LeftChild(i), Parent(c))
      ensures before[Parent(c)] >= before[c]
    {
      SubtreeAtLeast(LeftChild(i), Parent(c));
    }
    forall c | 0 < c < count && InSubtree(RightChild(i), Parent(c))
      ensures before[Parent(c)] >= before[c]
    {
      SubtreeAtLeast(RightChild(i), Parent(c));
    }
    Heapify(a, count, i);
    forall c | 0 < c < count && Parent(c) >= i
      ensures a[Parent(c)] >= a[c]
    {
      if !InSubtree(i, Parent(c)) {
        ParentBelow(c);
        assert !InSubtree(i, c);
        assert Parent(c) != i;
      }
    }
    assert a[count..] == before[count..];
  }

  /** BuildMaxHeap (heap.h): Heapify every parent, from the last one down to
      the root. With `count == 0` the source computes `GetParent(count-1)`
      on a wrapped-around `size_t` and runs a loop that writes nothing; the
      model returns at once. */
  method BuildMaxHeap(a: array<int>, count: nat)
    requires count <= a.Length
    modifies a
    ensures IsMaxHeap(a[..], count)
    ensures multiset(a[..count]) == multiset(old(a[..count]))
    ensures a[count..] == old(a[count..])
  {
    if count == 0 {
      return;
    }
    var lastParent := Parent(count - 1);
    var i := lastParent + 1;
    forall c | 0 < c < count
      ensures Parent(c) <= lastParent
    {
      ParentMonotone(c, count - 1);
    }
    while i > 0
      invariant i <= lastParent + 1
      invariant OrderedFrom(a[..], count, i)
      invariant multiset(a[..count]) == multiset(old(a[..count]))
      invariant a[count..] == old(a[count..])
    {
      i := i - 1;
      HeapifyParent(a, count, i);
    }
    HeapAtRoot(a[..], count);
    assert IsMaxHeap(a[..], count);
  }

  // ---------------------------------------------------------------------
  // The sift loops of MaxHeap as functions on the array's contents

  /** The array after `Add`'s sift-up from slot `c`: swap with the parent
      while the parent is smaller. At the root the parent is the root
      itself, so the loop stops there. */
  function SiftUp(s: seq<int>, c: nat): (t: seq<int>)
    requires c < |s|
    ensures |t| == |s|
    decreases c
  {
    var p := Parent(c);
    if s[p] < s[c] then SiftUp(Swapped(s, c, p), p) else s
  }

  /** The array after `Pop`'s sift-down from slot `p` within `n`, as the
      source writes it: the left child is taken whenever it beats its
      parent, even when the right child is larger. */
  function SiftDownAsWritten(s: seq<int>, n: nat, p: nat): (t: seq<int>)
    requires n <= |s|
    ensures |t| == |s|
    decreases n - p
  {
    var l, r := LeftChild(p), RightChild(p);
    if l < n && s[l] > s[p] then SiftDownAsWritten(Swapped(s, l, p), n, l)
    else if r < n && s[r] > s[p] then SiftDownAsWritten(Swapped(s, r, p), n, r)
    else s
  }

  /** The sift-up permutes the elements and writes no slot above `c`. */
  lemma {:induction false} SiftUpFrame(s: seq<int>, c: nat)
    requires c < |s|
    ensures multiset(SiftUp(s, c)) == multiset(s)
    ensures forall k :: c < k < |s| ==> SiftUp(s, c)[k] == s[k]
    decreases c
  {
    var p := Parent(c);
    if s[p] < s[c] {
      ParentBelow(c);
      SwappedPermutes(s, c, p);
      SwappedAt(s, c, p);
      SiftUpFrame(Swapped(s, c, p), p);
    }
  }

  /** Hence it only swaps inside `s[..c+1]`. */
  lemma SiftUpPermutes(s: seq<int>, c: nat)
    requires c < |s|
    ensures multiset(SiftUp(s, c)[..c + 1]) == multiset(s[..c + 1])
    ensures SiftUp(s, c)[c + 1..] == s[c + 1..]
  {
    SiftUpFrame(s, c);
    var t := SiftUp(s, c);
    assert t[c + 1..] == s[c + 1..];
    MultisetPrefix(t, s, c + 1);
  }

  /** The heap property with one defect, as during a sift-up at `c`: every
      pair is ordered except (parent of `c`, `c`), and `c`'s parent already
      dominates `c`'s children. */
  ghost predicate HeapExceptUp(s: seq<int>, n: nat, c: nat)
    requires n <= |s|
  {
    && (forall k :: 0 < k < n && k != c ==> s[Parent(k)] >= s[k])
    && (c > 0 ==> forall k :: 0 < k < n && Parent(k) == c ==> s[Parent(c)] >= s[k])
  }

  /** One swap of the sift-up moves the defect from `c` to its parent. */
  lemma SiftUpStep(s: seq<int>, n: nat, c: nat)
    requires c < n <= |s| && c > 0
    requires HeapExceptUp(s, n, c) && s[Parent(c)] < s[c]
    ensures HeapExceptUp(Swapped(s, c, Parent(c)), n, Parent(c))
  {
    var p := Parent(c);
    var s' := Swapped(s, c, p);
    ParentBelow(c);
    SwappedAt(s, c, p);
    forall k | 0 < k < n && k != p
      ensures s'[Parent(k)] >= s'[k]
    {
      if k != c && Parent(k) != c && Parent(k) != p {
        ParentBelow(k);
        assert s'[k] == s[k] && s'[Parent(k)] == s[Parent(k)];
      } else if Parent(k) == c {
        ParentBelow(k);
      } else if k != c {
        ParentBelow(k);
      }
    }
    if p > 0 {
      ParentBelow(p);
      forall k | 0 < k < n && Parent(k) == p
        ensures s'[Parent(p)] >= s'[k]
      {
        ParentBelow(k);
      }
    }
  }

  /** Sift-up repairs a heap with one defect at `c`. */
  lemma {:induction false} SiftUpRestores(s: seq<int>, n: nat, c: nat)
    requires c < n <= |s| && HeapExceptUp(s, n, c)
    ensures IsMaxHeap(SiftUp(s, c), n)
    decreases c
  {
    var p := Parent(c);
    if s[p] < s[c] {
      ParentBelow(c);
      SiftUpStep(s, n, c);
      SiftUpRestores(Swapped(s, c, p), n, p);
    }
  }

  /** Writing a value just past a heap of `c` elements leaves one defect at `c`. */
  lemma AppendHasOneDefect(s: seq<int>, c: nat, value: int)
    requires c < |s| && IsMaxHeap(s, c)
    ensures HeapExceptUp(s[c := value], c + 1, c)
  {
    forall k | 0 < k < c + 1 && k != c
      ensures s[c := value][Parent(k)] >= s[c := value][k]
    {
      ParentBelow(k);
    }
  }

  /** Adding to a heap keeps it a heap and adds exactly `value`. */
  lemma SiftUpAdds(s: seq<int>, c: nat, value: int)
    requires c < |s|
    ensures multiset(SiftUp(s[c := value], c)[..c + 1]) == multiset(s[..c]) + multiset{value}
    ensures SiftUp(s[c := value], c)[c + 1..] == s[c + 1..]
    ensures IsMaxHeap(s, c) ==> IsMaxHeap(SiftUp(s[c := value], c), c + 1)
  {
    SiftUpPermutes(s[c := value], c);
    assert s[c := value][..c + 1] == s[..c] + [value];
    if IsMaxHeap(s, c) {
      AppendHasOneDefect(s, c, value);
      SiftUpRestores(s[c := value], c + 1, c);
    }
  }

  /** The sift-down only swaps inside `s[..n]`. */
  lemma {:induction false} SiftDownPermutes(s: seq<int>, n: nat, p: nat)
    requires n <= |s|
    ensures multiset(SiftDownAsWritten(s, n, p)[..n]) == multiset(s[..n])
    ensures SiftDownAsWritten(s, n, p)[n..] == s[n..]
    decreases n - p
  {
    var l, r := LeftChild(p), RightChild(p);
    if l < n && s[l] > s[p] {
      SwappedRange(s, l, p, 0, n);
      assert Swapped(s, l, p)[..n] == Swapped(s, l, p)[0..n] && s[..n] == s[0..n];
      SiftDownPermutes(Swapped(s, l, p), n, l);
    } else if r < n && s[r] > s[p] {
      SwappedRange(s, r, p, 0, n);
      assert Swapped(s, r, p)[..n] == Swapped(s, r, p)[0..n] && s[..n] == s[0..n];
      SiftDownPermutes(Swapped(s, r, p), n, r);
    }
  }

  /** The sift-up from a slot below `n` depends only on, and changes only,
      the prefix `[0, n)`. */
  lemma {:induction false} SiftUpPrefix(s: seq<int>, c: nat, n: nat)
    requires c < n <= |s|
    ensures SiftUp(s, c)[..n] == SiftUp(s[..n], c)
    decreases c
  {
    var p := Parent(c);
    if s[p] < s[c] {
      ParentBelow(c);
      SwappedPrefix(s, c, p, n);
      SiftUpPrefix(Swapped(s, c, p), p, n);
    }
  }

  /** The sift-down within `n` depends only on, and changes only, the
      prefix `[0, n)`. */
  lemma {:induction false} SiftDownPrefix(s: seq<int>, n: nat, p: nat)
    requires n <= |s|
    ensures SiftDownAsWritten(s, n, p)[..n] == SiftDownAsWritten(s[..n], n, p)
    decreases n - p
  {
    var l, r := LeftChild(p), RightChild(p);
    if l < n && s[l] > s[p] {
      SwappedPrefix(s, l, p, n);
      SiftDownPrefix(Swapped(s, l, p), n, l);
    } else if r < n && s[r] > s[p] {
      SwappedPrefix(s, r, p, n);
      SiftDownPrefix(Swapped(s, r, p), n, r);
    }
  }

  /** The root of a max-heap is at least every element of it. */
  lemma RootDominates(s: seq<int>, n: nat)
    requires 0 < n <= |s| && IsMaxHeap(s, n)
    ensures forall k :: 0 <= k < n ==> s[k] <= s[0]
  {
    forall k | 0 <= k < n
      ensures s[k] <= s[0]
    {
      HeapRootIsMax(s, n, k);
    }
  }

  /** Moving the last of `n + 1` elements over slot `i` removes `s[i]` from the multiset. */
  lemma SwapWithLastRemoves(s: seq<int>, i: nat, n: nat)
    requires i <= n < |s|
    ensures multiset(Swapped(s, i, n)[..n]) == multiset(s[..n + 1]) - multiset{s[i]}
    ensures Swapped(s, i, n)[n + 1..] == s[n + 1..]
  {
    var t := Swapped(s, i, n);
    SwappedRange(s, i, n, 0, n + 1);
    assert t[..n + 1] == t[0..n + 1] && s[..n + 1] == s[0..n + 1];
    assert t[..n + 1] == t[..n] + [s[i]];
  }

  /** What Pop achieves: with `n + 1` elements before the call and `index`
      among them, the remaining `n` elements are the old ones minus the
      popped value and the slots past them are untouched. */
  lemma PopRemoves(s: seq<int>, n: nat, index: nat)
    requires n < |s| && index < |s|
    ensures index <= n ==>
              var t := SiftDownAsWritten(Swapped(s, index, n), n, index);
              multiset(t[..n]) == multiset(s[..n + 1]) - multiset{s[index]} && t[n + 1..] == s[n + 1..]
  {
    if index <= n {
      var start := Swapped(s, index, n);
      SiftDownPermutes(start, n, index);
      SwapWithLastRemoves(s, index, n);
      var t := SiftDownAsWritten(start, n, index);
      assert t[n + 1..] == t[n..][1..] && start[n + 1..] == start[n..][1..];
    }
  }

  /** The defect of Pop: on the heap [10, 5, 8, 1, 2, 3], Pop(0) moves 3 to
      the root and swaps it with the left child 5 although the right child
      8 is larger, leaving [5, 3, 8, 1, 2], which breaks the heap property. */
  lemma PopBreaksHeap()
    ensures IsMaxHeap([10, 5, 8, 1, 2, 3], 6)
    ensures SiftDownAsWritten(Swapped([10, 5, 8, 1, 2, 3], 0, 5), 5, 0)[..5] == [5, 3, 8, 1, 2]
    ensures !IsMaxHeap(SiftDownAsWritten(Swapped([10, 5, 8, 1, 2, 3], 0, 5), 5, 0), 5)
  {
    var s := [10, 5, 8, 1, 2, 3];
    forall c | 0 < c < 6
      ensures s[Parent(c)] >= s[c]
    {
    }
    var s1 := Swapped(s, 0, 5);
    assert s1 == [3, 5, 8, 1, 2, 10];
    var s2 := Swapped(s1, 1, 0);
    assert s2 == [5, 3, 8, 1, 2, 10];
    assert SiftDownAsWritten(s1, 5, 0) == SiftDownAsWritten(s2, 5, 1);
    assert SiftDownAsWritten(s2, 5, 1) == s2;
    assert Parent(2) == 0 && s2[2] > s2[0];
  }

  /** After removing `s0[index]` from the `n + 1` elements of `s0`, the
      first `n` slots of `t` hold the others and the slots past the old
      elements are as they were. */
  ghost predicate RemovedAt(t: seq<int>, s0: seq<int>, n: nat, index: nat)
    requires index <= n < |s0| && n < |t|
  {
    multiset(t[..n]) + multiset{s0[index]} == multiset(s0[..n + 1]) && t[n + 1..] == s0[n + 1..]
  }

  /** Pop with the intended sift-down, first step: with a heap of `n + 1`
      elements in `s0` and the last element moved over slot `index` (which
      gives `s1`), both subtrees below `index` are heaps within `n`. */
  lemma LastOverSlot(s0: seq<int>, s1: seq<int>, n: nat, index: nat)
    requires index < n < |s0| && IsMaxHeap(s0, n + 1) && s1 == Swapped(s0, index, n)
    ensures HeapAt(s1, n, LeftChild(index)) && HeapAt(s1, n, RightChild(index))
  {
    SwappedAt(s0, index, n);
    forall k | 0 <= k < n && InSubtree(LeftChild(index), k)
      ensures s0[k] == s1[k]
    {
      SubtreeAtLeast(LeftChild(index), k);
    }
    forall k | 0 <= k < n && InSubtree(RightChild(index), k)
      ensures s0[k] == s1[k]
    {
      SubtreeAtLeast(RightChild(index), k);
    }
    HeapAtFrame(s0, s1, n, LeftChild(index));
    HeapAtFrame(s0, s1, n, RightChild(index));
  }

  /** Pop with the intended sift-down, second step: once Heapify at `index`
      has turned `s1` into `s2`, the only pair that may be out of order is
      (parent of `index`, `index`), as the moved element may be larger than
      its new parent; that is what a sift-up repairs. */
  lemma HeapifyLeavesOneDefect(s0: seq<int>, s1: seq<int>, s2: seq<int>, n: nat, index: nat)
    requires index < n < |s0| && IsMaxHeap(s0, n + 1) && s1 == Swapped(s0, index, n) && |s2| == |s1|
    requires HeapAt(s2, n, index)
    requires forall k :: 0 <= k < |s2| && !(k < n && InSubtree(index, k)) ==> s2[k] == s1[k]
    requires s2[index] == FamilyMax(s1, n, index)
    requires FamilyMax(s1, n, index) == s1[index] ==> s2 == s1
    ensures HeapExceptUp(s2, n, index)
  {
    SwappedAt(s0, index, n);
    forall k | 0 < k < n && k != index
      ensures s2[Parent(k)] >= s2[k]
    {
      ParentBelow(k);
      if !InSubtree(index, Parent(k)) {
        if InSubtree(index, k) {
          ParentInSubtree(index, k);
        }
      }
    }
    if index > 0 {
      var p := Parent(index);
      ParentBelow(index);
      if InSubtree(index, p) {
        SubtreeAtLeast(index, p);
      }
      forall k | 0 < k < n && Parent(k) == index
        ensures s2[p] >= s2[k]
      {
        ChildOfParent(k);
        ParentBelow(k);
        if FamilyMax(s1, n, index) == s1[index] {
          assert s2[k] == s0[k];
        } else {
          ParentOfChildren(index);
          ChildIndices(index);
          assert s2[index] <= s0[index];
        }
      }
    }
  }

  /** Pop with the intended sift-down, the elements: the moved element
      takes the place of `s0[index]`, and Heapify only permutes the first
      `n` slots. */
  lemma PopKeepsOthers(s0: seq<int>, s1: seq<int>, s2: seq<int>, n: nat, index: nat)
    requires index < n < |s0| && s1 == Swapped(s0, index, n) && |s2| == |s1|
    requires multiset(s2[..n]) == multiset(s1[..n]) && s2[n..] == s1[n..]
    ensures RemovedAt(s2, s0, n, index)
  {
    SwapWithLastRemoves(s0, index, n);
    assert s2[n + 1..] == s2[n..][1..] && s1[n + 1..] == s1[n..][1..];
  }

  /** Pop with the intended sift-down, after Heapify at `index` has
      turned `s1` into `s2`: one defect at most, and the elements are the
      old ones without `s0[index]`. */
  lemma HeapifiedMoved(s0: seq<int>, s1: seq<int>, s2: seq<int>, n: nat, index: nat)
    requires index < n < |s0| && IsMaxHeap(s0, n + 1) && s1 == Swapped(s0, index, n) && |s2| == |s1|
    requires HeapAt(s2, n, index) && multiset(s2[..n]) == multiset(s1[..n])
    requires forall k :: 0 <= k < |s2| && !(k < n && InSubtree(index, k)) ==> s2[k] == s1[k]
    requires s2[index] == FamilyMax(s1, n, index)
    requires FamilyMax(s1, n, index) == s1[index] ==> s2 == s1
    ensures HeapExceptUp(s2, n, index) && RemovedAt(s2, s0, n, index)
  {
    assert s2[n..] == s1[n..];
    HeapifyLeavesOneDefect(s0, s1, s2, n, index);
    PopKeepsOthers(s0, s1, s2, n, index);
  }

  /** The sift-up repairs the one defect Heapify may leave, and only
      permutes the first `n` slots. */
  lemma SiftUpRepairs(s0: seq<int>, s2: seq<int>, s3: seq<int>, n: nat, index: nat)
    requires index < n < |s0| && n < |s2| && HeapExceptUp(s2, n, index) && RemovedAt(s2, s0, n, index)
    requires s3 == SiftUp(s2, index)
    ensures IsMaxHeap(s3, n) && RemovedAt(s3, s0, n, index)
  {
    SiftUpRestores(s2, n, index);
    SiftUpFrame(s2, index);
    assert s3[n..] == s2[n..];
    MultisetPrefix(s3, s2, n);
    assert s3[n + 1..] == s3[n..][1..] && s2[n + 1..] == s2[n..][1..];
  }

  /** Pop with the intended sift-down at the last slot: swapping the last
      element with itself leaves the other `n` elements as a heap. */
  lemma PopLast(s0: seq<int>, s1: seq<int>, n: nat)
    requires n < |s0| && IsMaxHeap(s0, n + 1) && s1 == Swapped(s0, n, n)
    ensures IsMaxHeap(s1, n)
    ensures RemovedAt(s1, s0, n, n)
  {
    SwappedAt(s0, n, n);
    assert s0[..n + 1] == s0[..n] + [s0[n]];
  }

  // ---------------------------------------------------------------------
  // The class

  /** MaxHeap<T> (heap.h) over ints: a fixed block of `maxCount` slots of
      which the first `count` hold the heap. */
  class MaxHeap {
    var data: array<int>
    var count: nat
    const maxCount: nat

    /** The storage invariant. It does not include the heap property: a
        failed Add leaves a stale slot inside the heap, and PopAsWritten
        does not restore the property either. */
    ghost predicate Valid()
      reads this
    {
      data.Length == maxCount && count <= maxCount
    }

    /** The contents form a max-heap. */
    ghost predicate IsHeap()
      reads this, data
    {
      Valid() && IsMaxHeap(data[..], count)
    }

    /** MaxHeap(max_count): an empty heap with `maxCount` slots. */
    constructor (maxCount: nat)
      ensures Valid() && IsHeap() && fresh(data)
      ensures count == 0 && this.maxCount == maxCount
    {
      data := new int[maxCount];
      count := 0;
      this.maxCount := maxCount;
    }

    /** MaxHeap(array, count) as heap.h writes it, before its Adds: a
        block of `n` slots whose first `n` (zero) slots count as elements,
        with `maxCount` also `n`. */
    constructor Filled(n: nat)
      ensures Valid() && fresh(data)
      ensures count == n && maxCount == n && data[..] == seq(n, _ => 0)
    {
      data := new int[n](_ => 0);
      count := n;
      maxCount := n;
    }

    /** Count(): the number of elements. */
    function Count(): (n: nat)
      reads this
      ensures n == count
    {
      count
    }

    /** RawArray(): the storage itself, of `maxCount` slots when Valid. */
    function RawArray(): (a: array<int>)
      reads this
      ensures a == data
    {
      data
    }

    /** Add (heap.h): `count` is incremented BEFORE the overflow check, so
        the call fails as soon as the new count reaches `maxCount` (the heap
        holds at most `maxCount - 1` elements), and a failed call has
        already changed `count`. A successful call writes `value` just past
        the old elements and sifts it up. */
    method Add(value: int) returns (r: Outcome)
      requires data.Length == maxCount
      modifies this`count, data
      ensures count == old(count) + 1
      ensures r == (if old(count) + 1 >= maxCount then Fail(BufferOverflown) else Pass)
      ensures r.Fail? ==> data[..] == old(data[..])
      ensures r.Pass? ==> data[..] == SiftUp(old(data[..])[old(count) := value], old(count))
      ensures r.Pass? ==> data[..count] == SiftUp(old(data[..count]) + [value], old(count))
      ensures r.Pass? ==> multiset(data[..count]) == multiset(old(data[..count])) + multiset{value}
      ensures r.Pass? ==> data[count..] == old(data[count + 1..])
      ensures r.Pass? && old(IsHeap()) ==> IsHeap()
      ensures old(count) < maxCount ==> Valid()
    {
      ghost var c := count;
      ghost var s0 := data[..];
      count := count + 1;
      if count >= maxCount {
        return Fail(BufferOverflown);
      }
      var childIndex: nat := count - 1;
      data[childIndex] := value;
      assert data[..] == s0[c := value];
      SiftUpFrom(childIndex);
      SiftUpPrefix(s0[c := value], c, c + 1);
      assert s0[c := value][..c + 1] == s0[..c] + [value];
      SiftUpAdds(s0, c, value);
      assert old(IsHeap()) ==> IsMaxHeap(s0, c);
      return Pass;
    }

    /** The sift-up loop of Add, from slot `c`: swaps with the parent while
        the parent is smaller. */
    method SiftUpFrom(c: nat)
      requires Valid() && c < count
      modifies data
      ensures data[..] == SiftUp(old(data[..]), c)
    {
      var childIndex: nat := c;
      var parentIndex := Parent(childIndex);
      while data[parentIndex] < data[childIndex]
        invariant childIndex <= c && parentIndex == Parent(childIndex)
        invariant SiftUp(data[..], childIndex) == SiftUp(old(data[..]), c)
        decreases childIndex
      {
        ParentBelow(childIndex);
        Swap(data, childIndex, parentIndex);
        childIndex := parentIndex;
        parentIndex := Parent(childIndex);
      }
    }

    /** Pop(index) as heap.h writes it: fails when the heap is empty.
        Otherwise it takes `data[index]`, moves the last element into its
        place and sifts that down with the source's left-first rule. It does
        not check `index < count`, and it never sifts up, so the heap
        property is not guaranteed afterwards (see PopBreaksHeap); the
        result is the maximum when `index` is 0 and the heap was valid. */
    method PopAsWritten(index: nat) returns (r: Result<int>)
      requires Valid() && index < maxCount
      modifies this`count, data
      ensures Valid()
      ensures old(count) == 0 ==> r == Err(IndexOutOfBounds) && count == 0 && data[..] == old(data[..])
      ensures old(count) > 0 ==> r == Ok(old(data[index])) && count == old(count) - 1
      ensures old(count) > 0 ==> data[..] == SiftDownAsWritten(Swapped(old(data[..]), index, count), count, index)
    {
      if count == 0 {
        return Err(IndexOutOfBounds);
      }
      count := count - 1;
      var result := data[index];
      Swap(data, index, count);
      ghost var start := data[..];
      var parentIndex: nat := index;
      while true
        invariant count == old(count) - 1
        invariant SiftDownAsWritten(data[..], count, parentIndex) == SiftDownAsWritten(start, count, index)
        decreases count - parentIndex
      {
        var leftChildIndex := LeftChild(parentIndex);
        var rightChildIndex := RightChild(parentIndex);
        ghost var before := data[..];
        if leftChildIndex < count && data[leftChildIndex] > data[parentIndex] {
          assert SiftDownAsWritten(before, count, parentIndex)
              == SiftDownAsWritten(Swapped(before, leftChildIndex, parentIndex), count, leftChildIndex);
          Swap(data, leftChildIndex, parentIndex);
          parentIndex := leftChildIndex;
        } else if rightChildIndex < count && data[rightChildIndex] > data[parentIndex] {
          assert SiftDownAsWritten(before, count, parentIndex)
              == SiftDownAsWritten(Swapped(before, rightChildIndex, parentIndex), count, rightChildIndex);
          Swap(data, rightChildIndex, parentIndex);
          parentIndex := rightChildIndex;
        } else {
          assert SiftDownAsWritten(before, count, parentIndex) == before;
          break;
        }
      }
      return Ok(result);
    }

    /** The first half of the repair of Pop as evidently intended, once
        the last of the `count + 1` elements of the heap `s0` has been moved
        over slot `index`: Heapify at `index` leaves at most the one defect
        a sift-up repairs. */
    method HeapifyMoved(index: nat, ghost s0: seq<int>)
      requires Valid() && index < count < |s0| && IsMaxHeap(s0, count + 1)
      requires data[..] == Swapped(s0, index, count)
      modifies data
      ensures HeapExceptUp(data[..], count, index) && RemovedAt(data[..], s0, count, index)
    {
      ghost var s1 := data[..];
      LastOverSlot(s0, s1, count, index);
      Heapify(data, count, index);
      HeapifiedMoved(s0, s1, data[..], count, index);
    }

    /** The repair of Pop as evidently intended: Heapify at `index`, then
        the sift-up from `index`. */
    method SiftDownThenUp(index: nat, ghost s0: seq<int>)
      requires Valid() && index < count < |s0| && IsMaxHeap(s0, count + 1)
      requires data[..] == Swapped(s0, index, count)
      modifies data
      ensures IsMaxHeap(data[..], count) && RemovedAt(data[..], s0, count, index)
    {
      HeapifyMoved(index, s0);
      ghost var s2 := data[..];
      SiftUpFrom(index);
      SiftUpRepairs(s0, s2, data[..], count, index);
    }

    /** Pop(index) as evidently intended: fails unless `index` is inside
        the heap; otherwise it returns `data[index]`, moves the last element
        into its place and sifts that element down towards the larger child,
        as Heapify does, and then up. The heap keeps every other element, the
        slots past it are untouched, and popping the root yields the largest
        element. */
    method Pop(index: nat) returns (r: Result<int>)
      requires IsHeap()
      modifies this`count, data
      ensures IsHeap()
      ensures old(count) <= index ==> r == Err(IndexOutOfBounds) && count == old(count) && data[..] == old(data[..])
      ensures index < old(count) ==> r == Ok(old(data[index])) && count == old(count) - 1
      ensures index < old(count) ==> RemovedAt(data[..], old(data[..]), count, index)
      ensures index == 0 < old(count) ==> forall k :: 0 <= k < old(count) ==> old(data[k]) <= r.value
    {
      if count <= index {
        return Err(IndexOutOfBounds);
      }
      var value := RemoveAt(index);
      return Ok(value);
    }

    /** The work of Pop as evidently intended, for an `index` inside the heap. */
    method RemoveAt(index: nat) returns (value: int)
      requires IsHeap() && index < count
      modifies this`count, data
      ensures IsHeap() && count == old(count) - 1 && value == old(data[index])
      ensures RemovedAt(data[..], old(data[..]), count, index)
      ensures index == 0 ==> forall k :: 0 <= k < old(count) ==> old(data[k]) <= value
    {
      ghost var s0 := data[..];
      count := count - 1;
      value := data[index];
      Swap(data, index, count);
      Resettle(index, s0);
      RootDominates(s0, count + 1);
    }

    /** The repair after the last element has been moved over slot
        `index`: none is needed when `index` was the last slot. */
    method Resettle(index: nat, ghost s0: seq<int>)
      requires Valid() && index <= count < |s0| && IsMaxHeap(s0, count + 1)
      requires data[..] == Swapped(s0, index, count)
      modifies data
      ensures IsMaxHeap(data[..], count) && RemovedAt(data[..], s0, count, index)
    {
      if index < count {
        SiftDownThenUp(index, s0);
      } else {
        PopLast(s0, data[..], count);
      }
    }
  }

  // ---------------------------------------------------------------------
  // Building a heap from an array

  /** MaxHeap(array, count) as heap.h writes it: `count` and `maxCount` both
      start at `n` and each element is then Added. The first Add raises the
      count to `n + 1 >= maxCount` and throws, so every non-empty array
      fails; an empty one gives an empty heap. */
  method FromArrayAsWritten(values: array<int>, n: nat) returns (heap: MaxHeap, r: Outcome)
    requires n <= values.Length
    ensures fresh(heap) && heap.maxCount == n
    ensures r == (if n == 0 then Pass else Fail(BufferOverflown))
    ensures n == 0 ==> heap.Valid() && heap.IsHeap() && heap.count == 0
    ensures 0 < n ==> heap.count == n + 1
  {
    heap := new MaxHeap.Filled(n);
    // The loop over the elements never gets past its first Add, which
    // throws whenever there is an element to add.
    if 0 < n {
      r := heap.Add(values[0]);
    } else {
      r := Pass;
    }
  }

  /** MaxHeap(array, count) as intended: starts empty with room for the `n`
      elements (one slot more, since Add refuses to fill the last slot) and
      Adds each, leaving a max-heap of exactly the array's first `n`
      elements. */
  method FromArray(values: array<int>, n: nat) returns (heap: MaxHeap)
    requires n <= values.Length
    ensures fresh(heap) && fresh(heap.data) && heap.maxCount == n + 1
    ensures heap.count == n && heap.IsHeap()
    ensures multiset(heap.data[..heap.count]) == multiset(values[..n])
  {
    heap := new MaxHeap(n + 1);
    var i := 0;
    while i < n
      invariant 0 <= i <= n
      invariant fresh(heap.data)
      invariant heap.maxCount == n + 1 && heap.count == i && heap.IsHeap()
      invariant multiset(heap.data[..heap.count]) == multiset(values[..i])
    {
      var r := heap.Add(values[i]);
      assert values[..i + 1] == values[..i] + [values[i]];
      i := i + 1;
    }
  }

  /** MaxHeap(array, count) as written on the one-element array [1]: it
      fails, where the intended constructor gives the heap [1]. */
  method FromArrayExample() returns (r: Outcome, count: nat, top: int)
    ensures r == Fail(BufferOverflown) && count == 1 && top == 1
  {
    var values := new int[1](_ => 1);
    var written;
    written, r := FromArrayAsWritten(values, 1);
    var heap := FromArray(values, 1);
    assert values[..1] == [1];
    assert multiset(heap.data[..1]) == multiset{1};
    assert heap.data[..1] == [heap.data[0]];
    count := heap.Count();
    top := heap.RawArray()[0];
  }

  // ---------------------------------------------------------------------
  // The example in heap.cpp

  /** The root of a non-empty max-heap holding the values `v` is the largest of them. */
  lemma RootIsSeqMax(s: seq<int>, n: nat, v: seq<int>)
    requires 0 < n <= |s| && IsMaxHeap(s, n)
    requires multiset(s[..n]) == multiset(v)
    ensures |v| > 0 && s[0] == SeqMax(v)
  {
    assert |v| == |s[..n]|;
    assert s[0] == s[..n][0];
    assert s[0] in multiset(v);
    var m := SeqMax(v);
    assert m in multiset(s[..n]);
    var k :| 0 <= k < n && s[..n][k] == m;
    HeapRootIsMax(s, n, k);
  }

  /** The nine Adds of the example in heap.cpp, into MaxHeap(20). */
  method BuildExample(values: seq<int>) returns (heap: MaxHeap)
    requires |values| < 20
    ensures fresh(heap) && fresh(heap.data)
    ensures heap.maxCount == 20 && heap.count == |values| && heap.IsHeap()
    ensures multiset(heap.data[..heap.count]) == multiset(values)
  {
    heap := new MaxHeap(20);
    var i := 0;
    while i < |values|
      invariant 0 <= i <= |values|
      invariant fresh(heap.data)
      invariant heap.maxCount == 20 && heap.count == i && heap.IsHeap()
      invariant multiset(heap.data[..heap.count]) == multiset(values[..i])
    {
      var r := heap.Add(values[i]);
      assert values[..i + 1] == values[..i] + [values[i]];
      i := i + 1;
    }
    assert values[..i] == values;
  }

  /** The values the example in heap.cpp adds, in order. */
  const ExampleValues: seq<int> := [1, 2, 3, 7, 17, 19, 25, 36, 100]

  /** The largest of them is 100. */
  lemma ExampleMax()
    ensures SeqMax(ExampleValues) == 100
  {
    assert ExampleValues[8] == 100;
  }

  /** The corrected Pop(0) after the nine Adds of the example in heap.cpp
      also takes out 100, and a max-heap of eight elements remains. */
  method IntendedPopExample() returns (popped: int, left: nat)
    ensures popped == 100 && left == 8
  {
    var heap := BuildExample(ExampleValues);
    ghost var s := heap.data[..];
    var r := heap.Pop(0);
    RootIsSeqMax(s, 9, ExampleValues);
    ExampleMax();
    popped := r.value;
    left := heap.Count();
  }

  /** The sift-ups of the first five Adds of the example in heap.cpp. */
  lemma ExampleSiftUpsFirst()
    ensures SiftUp([] + [1], 0) == [1]
    ensures SiftUp([1] + [2], 1) == [2, 1]
    ensures SiftUp([2, 1] + [3], 2) == [3, 1, 2]
    ensures SiftUp([3, 1, 2] + [7], 3) == [7, 3, 2, 1]
    ensures SiftUp([7, 3, 2, 1] + [17], 4) == [17, 7, 2, 1, 3]
  {
    assert SiftUp([3, 7, 2, 1], 1) == [7, 3, 2, 1];
    assert SiftUp([7, 17, 2, 1, 3], 1) == [17, 7, 2, 1, 3];
  }

  /** The sift-ups of the sixth and seventh Adds of the example. */
  lemma ExampleSiftUpsSecond()
    ensures SiftUp([17, 7, 2, 1, 3] + [19], 5) == [19, 7, 17, 1, 3, 2]
    ensures SiftUp([19, 7, 17, 1, 3, 2] + [25], 6) == [25, 7, 19, 1, 3, 2, 17]
  {
    assert SiftUp([17, 7, 19, 1, 3, 2], 2) == [19, 7, 17, 1, 3, 2];
    assert SiftUp([19, 7, 25, 1, 3, 2, 17], 2) == [25, 7, 19, 1, 3, 2, 17];
  }

  /** The sift-up of the eighth Add of the example. */
  lemma ExampleSiftUpEighth()
    ensures SiftUp([25, 7, 19, 1, 3, 2, 17] + [36], 7) == [36, 25, 19, 7, 3, 2, 17, 1]
  {
    assert SiftUp([25, 36, 19, 7, 3, 2, 17, 1], 1) == [36, 25, 19, 7, 3, 2, 17, 1];
    assert SiftUp([25, 7, 19, 36, 3, 2, 17, 1], 3) == [36, 25, 19, 7, 3, 2, 17, 1];
  }

  /** The sift-up of the ninth Add of the example: 100 rises to the root. */
  lemma ExampleSiftUpNinth()
    ensures SiftUp([36, 25, 19, 7, 3, 2, 17, 1] + [100], 8) == [100, 36, 19, 25, 3, 2, 17, 1, 7]
  {
    assert SiftUp([36, 100, 19, 25, 3, 2, 17, 1, 7], 1) == [100, 36, 19, 25, 3, 2, 17, 1, 7];
    assert SiftUp([36, 25, 19, 100, 3, 2, 17, 1, 7], 3) == [100, 36, 19, 25, 3, 2, 17, 1, 7];
  }

  /** One Add of the example that fits: the held values go from `before`
      to SiftUp of `before` plus the value. */
  method ExampleAdd(heap: MaxHeap, value: int, ghost before: seq<int>, ghost after: seq<int>)
    requires heap.Valid() && heap.data[..heap.count] == before && heap.count + 1 < heap.maxCount
    requires SiftUp(before + [value], |before|) == after
    modifies heap`count, heap.data
    ensures heap.Valid() && heap.count == old(heap.count) + 1 && heap.data[..heap.count] == after
  {
    var r := heap.Add(value);
  }

  /** Pop(0) as written after those Adds: 7 moves to the root and sinks
      past 36 and 25. */
  lemma ExampleSiftDown()
    ensures SiftDownAsWritten([7, 36, 19, 25, 3, 2, 17, 1], 8, 0) == [36, 25, 19, 7, 3, 2, 17, 1]
  {
    assert SiftDownAsWritten([36, 25, 19, 7, 3, 2, 17, 1], 8, 3) == [36, 25, 19, 7, 3, 2, 17, 1];
    assert SiftDownAsWritten([36, 7, 19, 25, 3, 2, 17, 1], 8, 1) == [36, 25, 19, 7, 3, 2, 17, 1];
  }

  /** The nine Adds of the example in heap.cpp into MaxHeap(20), and the
      array the example then prints. */
  method ExampleAdds() returns (heap: MaxHeap)
    ensures fresh(heap) && fresh(heap.data) && heap.Valid()
    ensures heap.maxCount == 20 && heap.count == 9
    ensures heap.data[..heap.count] == [100, 36, 19, 25, 3, 2, 17, 1, 7]
  {
    heap := new MaxHeap(20);
    ExampleSiftUpsFirst();
    ExampleAdd(heap, 1, [], [1]);
    ExampleAdd(heap, 2, [1], [2, 1]);
    ExampleAdd(heap, 3, [2, 1], [3, 1, 2]);
    ExampleAdd(heap, 7, [3, 1, 2], [7, 3, 2, 1]);
    ExampleAdd(heap, 17, [7, 3, 2, 1], [17, 7, 2, 1, 3]);
    ExampleSiftUpsSecond();
    ExampleAdd(heap, 19, [17, 7, 2, 1, 3], [19, 7, 17, 1, 3, 2]);
    ExampleAdd(heap, 25, [19, 7, 17, 1, 3, 2], [25, 7, 19, 1, 3, 2, 17]);
    ExampleSiftUpEighth();
    ExampleAdd(heap, 36, [25, 7, 19, 1, 3, 2, 17], [36, 25, 19, 7, 3, 2, 17, 1]);
    ExampleSiftUpNinth();
    ExampleAdd(heap, 100, [36, 25, 19, 7, 3, 2, 17, 1], [100, 36, 19, 25, 3, 2, 17, 1, 7]);
  }

  /** The example in heap.cpp as it stands: the array printed after the
      nine Adds, the value Pop(0) as written takes out, and the array
      printed then. */
  method HeapExample() returns (added: seq<int>, popped: int, left: seq<int>)
    ensures added == [100, 36, 19, 25, 3, 2, 17, 1, 7]
    ensures popped == 100 && left == [36, 25, 19, 7, 3, 2, 17, 1]
  {
    var heap := ExampleAdds();
    added := heap.data[..heap.count];
    ghost var s := heap.data[..];
    assert s[..9] == added;
    var r := heap.PopAsWritten(0);
    popped := r.value;
    SwappedPrefix(s, 0, 8, 9);
    assert Swapped(s, 0, 8)[..8] == [7, 36, 19, 25, 3, 2, 17, 1];
    SiftDownPrefix(Swapped(s, 0, 8), 8, 0);
    ExampleSiftDown();
    left := heap.data[..heap.count];
  }
}
