/** The array helpers of utilities.h: Swap, Copy, Min, Max and MinMax.
    A `T*` with a count becomes an array with an index range. The `size_t`
    subtraction the containers and sorts rely on is here too. */
module Utilities {
  import opened Wrappers

  /** The number of `size_t` values: counts and indices are unsigned
      64-bit integers throughout the repository. */
  const SizeTModulus: nat := 0x1_0000_0000_0000_0000

  /** `x - y` on `size_t`: the difference when `y <= x`, else it wraps to a
      value no smaller than `SizeTModulus - y`. */
  function SizeTSub(x: nat, y: nat): (d: nat)
    requires x < SizeTModulus && y < SizeTModulus
    ensures d < SizeTModulus
    ensures y <= x ==> d == x - y
    ensures x < y ==> d == SizeTModulus + x - y
  {
    (x - y) % SizeTModulus
  }

  /** `s` with the elements at `i` and `j` exchanged. */
  function Swapped<T>(s: seq<T>, i: nat, j: nat): (t: seq<T>)
    requires i < |s| && j < |s|
  {
    s[i := s[j]][j := s[i]]
  }

  /** Swapping exchanges exactly the two slots; when they alias nothing changes. */
  lemma SwappedAt<T>(s: seq<T>, i: nat, j: nat)
    requires i < |s| && j < |s|
    ensures |Swapped(s, i, j)| == |s|
    ensures Swapped(s, i, j)[i] == s[j] && Swapped(s, i, j)[j] == s[i]
    ensures forall k :: 0 <= k < |s| && k != i && k != j ==> Swapped(s, i, j)[k] == s[k]
    ensures i == j ==> Swapped(s, i, j) == s
  {
  }

  /** A swap is a permutation. */
  lemma SwappedPermutes<T>(s: seq<T>, i: nat, j: nat)
    requires i < |s| && j < |s|
    ensures multiset(Swapped(s, i, j)) == multiset(s)
  {
  }

  /** A swap inside a prefix is a swap of the prefix, and the rest is untouched. */
  lemma SwappedPrefix<T>(s: seq<T>, i: nat, j: nat, n: nat)
    requires i < n && j < n && n <= |s|
    ensures Swapped(s, i, j)[..n] == Swapped(s[..n], i, j)
    ensures Swapped(s, i, j)[n..] == s[n..]
  {
  }

  /** A swap inside `[lo, hi)` keeps the multiset of that range and everything outside it. */
  lemma SwappedRange<T>(s: seq<T>, i: nat, j: nat, lo: nat, hi: nat)
    requires lo <= i < hi && lo <= j < hi && hi <= |s|
    ensures multiset(Swapped(s, i, j)[lo..hi]) == multiset(s[lo..hi])
    ensures Swapped(s, i, j)[..lo] == s[..lo] && Swapped(s, i, j)[hi..] == s[hi..]
  {
    assert Swapped(s, i, j)[lo..hi] == Swapped(s[lo..hi], i - lo, j - lo);
    SwappedPermutes(s[lo..hi], i - lo, j - lo);
  }

  /** Swap (utilities.h): both pointers point into the same array here. */
  method Swap<T>(a: array<T>, i: nat, j: nat)
    requires i < a.Length && j < a.Length
    modifies a
    ensures a[..] == Swapped(old(a[..]), i, j)
  {
    var temp := a[i];
    a[i] := a[j];
    a[j] := temp;
  }

  /** Copy (utilities.h): copies `countA` elements of `src` starting at
      `srcStart` over `dst` starting at `dstStart`, after checking that
      `countA` does not exceed `countB`, the size the caller claims for the
      source. Nothing is written when the check fails. */
  method Copy<T>(dst: array<T>, dstStart: nat, countA: nat, src: array<T>, srcStart: nat, countB: nat)
    returns (r: Outcome)
    requires dst != src
    requires countA <= countB ==> dstStart + countA <= dst.Length && srcStart + countA <= src.Length
    modifies dst
    ensures r == (if countA > countB then Fail(DestinationSmallerThanSource) else Pass)
    ensures r.Fail? ==> dst[..] == old(dst[..])
    ensures r.Pass? ==> dst[..] == old(dst[..dstStart]) + src[srcStart..srcStart + countA] + old(dst[dstStart + countA..])
  {
    if countA > countB {
      return Fail(DestinationSmallerThanSource);
    }
    for i := 0 to countA
      invariant dst[..dstStart] == old(dst[..dstStart])
      invariant dst[dstStart..dstStart + i] == src[srcStart..srcStart + i]
      invariant dst[dstStart + i..] == old(dst[dstStart + i..])
    {
      dst[dstStart + i] := src[srcStart + i];
      assert dst[dstStart..dstStart + i + 1] == dst[dstStart..dstStart + i] + [dst[dstStart + i]];
      assert src[srcStart..srcStart + i + 1] == src[srcStart..srcStart + i] + [src[srcStart + i]];
    }
    assert dst[..] == dst[..dstStart] + dst[dstStart..dstStart + countA] + dst[dstStart + countA..];
    return Pass;
  }

  /** The least element of a non-empty sequence. */
  function SeqMin(s: seq<int>): (m: int)
    requires |s| > 0
    ensures m in s
    ensures forall x :: x in s ==> m <= x
    ensures forall i :: 0 <= i < |s| ==> m <= s[i]
  {
    if |s| == 1 then s[0]
    else
      var init := s[..|s| - 1];
      assert s == init + [s[|s| - 1]];
      var m := SeqMin(init);
      if s[|s| - 1] < m then s[|s| - 1] else m
  }

  /** The greatest element of a non-empty sequence. */
  function SeqMax(s: seq<int>): (m: int)
    requires |s| > 0
    ensures m in s
    ensures forall x :: x in s ==> x <= m
    ensures forall i :: 0 <= i < |s| ==> s[i] <= m
  {
    if |s| == 1 then s[0]
    else
      var init := s[..|s| - 1];
      assert s == init + [s[|s| - 1]];
      var m := SeqMax(init);
      if s[|s| - 1] > m then s[|s| - 1] else m
  }

  /** Min (utilities.h). The source reads `array[0]` before looking at
      `count`, so the array must have a first element even when `count` is 0. */
  method Min(a: array<int>, count: nat) returns (minimum: int)
    requires 0 < a.Length && count <= a.Length
    ensures count == 0 ==> minimum == a[0]
    ensures count > 0 ==> minimum == SeqMin(a[..count])
    ensures count > 0 ==> minimum in a[..count] && forall k :: 0 <= k < count ==> minimum <= a[k]
  {
    minimum := a[0];
    for i := 0 to count
      invariant i == 0 ==> minimum == a[0]
      invariant i > 0 ==> minimum == SeqMin(a[..i])
    {
      assert a[..i + 1][..i] == a[..i];
      if a[i] < minimum {
        minimum := a[i];
      }
    }
  }

  /** Max (utilities.h), the mirror image of Min. */
  method Max(a: array<int>, count: nat) returns (maximum: int)
    requires 0 < a.Length && count <= a.Length
    ensures count == 0 ==> maximum == a[0]
    ensures count > 0 ==> maximum == SeqMax(a[..count])
    ensures count > 0 ==> maximum in a[..count] && forall k :: 0 <= k < count ==> a[k] <= maximum
  {
    maximum := a[0];
    for i := 0 to count
      invariant i == 0 ==> maximum == a[0]
      invariant i > 0 ==> maximum == SeqMax(a[..i])
    {
      assert a[..i + 1][..i] == a[..i];
      if a[i] > maximum {
        maximum := a[i];
      }
    }
  }

  /** MinMax (utilities.h): one pass with `if ... else if`. An element below
      the running minimum is never compared with the running maximum; that
      loses nothing because the minimum never exceeds the maximum. The pair
      is the one Min and Max return. */
  method MinMax(a: array<int>, count: nat) returns (minimum: int, maximum: int)
    requires 0 < a.Length && count <= a.Length
    ensures count == 0 ==> minimum == a[0] && maximum == a[0]
    ensures count > 0 ==> minimum == SeqMin(a[..count]) && maximum == SeqMax(a[..count])
  {
    minimum := a[0];
    maximum := a[0];
    for i := 0 to count
      invariant minimum <= maximum
      invariant i == 0 ==> minimum == a[0] && maximum == a[0]
      invariant i > 0 ==> minimum == SeqMin(a[..i]) && maximum == SeqMax(a[..i])
    {
      assert a[..i + 1][..i] == a[..i];
      if a[i] < minimum {
        minimum := a[i];
      } else if a[i] > maximum {
        maximum := a[i];
      }
    }
  }
}
