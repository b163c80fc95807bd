/** Parent/child index arithmetic of an array-backed binary heap (heap.cpp).
    Indices are `size_t` in the source; here they are unbounded naturals, so
    `2 * i + 2` never wraps. */
module HeapIndex {

  /** GetLeftChild: a slot after its parent, whose parent it is. */
  function LeftChild(parent: nat): (c: nat)
    ensures parent < c && Parent(c) == parent
  {
    2 * parent + 1
  }

  /** GetRightChild: the slot just after the left child, with the same parent. */
  function RightChild(parent: nat): (c: nat)
    ensures c == LeftChild(parent) + 1 && Parent(c) == parent
  {
    2 * parent + 2
  }

  /** GetParent: the root is its own parent, which `Add` relies on to stop
      sifting up; every other slot is a child of a slot before it. */
  function Parent(child: nat): (p: nat)
    ensures child == 0 ==> p == 0
    ensures child > 0 ==> p < child && (child == 2 * p + 1 || child == 2 * p + 2)
  {
    if child == 0 then 0 else (child - 1) / 2
  }

  lemma ChildIndices(i: nat)
    ensures LeftChild(i) == 2 * i + 1 && RightChild(i) == 2 * i + 2
    ensures LeftChild(i) > i && RightChild(i) == LeftChild(i) + 1
  {
  }

  lemma ParentOfRoot()
    ensures Parent(0) == 0
  {
  }

  /** For every node but the root the parent has a strictly smaller index:
      the measure that makes the sift-up of `Add` terminate. */
  lemma ParentBelow(c: nat)
    requires c > 0
    ensures Parent(c) == (c - 1) / 2 && Parent(c) < c
  {
  }

  /** Parent undoes both child computations. */
  lemma ParentOfChildren(i: nat)
    ensures Parent(LeftChild(i)) == i && Parent(RightChild(i)) == i
  {
  }

  /** Every node but the root is the left or the right child of its parent. */
  lemma ChildOfParent(c: nat)
    requires c > 0
    ensures c == LeftChild(Parent(c)) || c == RightChild(Parent(c))
  {
  }

  lemma ParentMonotone(c: nat, d: nat)
    requires c <= d
    ensures Parent(c) <= Parent(d)
  {
  }
}
