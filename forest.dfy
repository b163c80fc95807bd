/** The parent forests behind the union-find structures of
    data_structures/union_find.cpp, as values. A parent sequence `p` is a
    forest when a ranking `rank` (a ghost measure, bounded by `bound`)
    strictly increases from every non-root node to its parent; following
    parents then always ends at a root, and that root does not depend on
    which ranking is used. */
module Forests {
  function Max(x: nat, y: nat): nat
  {
    if x >= y then x else y
  }

  /** `p` is an acyclic parent forest with every parent inside it, ranked by `rank`. */
  ghost predicate Forest(p: seq<nat>, rank: seq<nat>, bound: nat)
  {
    |rank| == |p| &&
    forall i :: 0 <= i < |p| ==>
      p[i] < |p| && rank[i] <= bound && (p[i] != i ==> rank[i] < rank[p[i]])
  }

  /** The root reached from `i` by following parents. */
  ghost function RootOf(p: seq<nat>, rank: seq<nat>, bound: nat, i: nat): (r: nat)
    requires Forest(p, rank, bound) && i < |p|
    ensures r < |p| && p[r] == r
    decreases bound - rank[i]
  {
    if p[i] == i then i else RootOf(p, rank, bound, p[i])
  }

  /** `b` lies on the path from `x` to its root (`x` itself included). */
  ghost predicate OnPath(p: seq<nat>, rank: seq<nat>, bound: nat, b: nat, x: nat)
    requires Forest(p, rank, bound) && x < |p|
    decreases bound - rank[x]
  {
    x == b || (p[x] != x && OnPath(p, rank, bound, b, p[x]))
  }

  /** Two nodes are connected when they have the same root. */
  ghost predicate Connected(p: seq<nat>, rank: seq<nat>, bound: nat, a: nat, b: nat)
    requires Forest(p, rank, bound) && a < |p| && b < |p|
  {
    RootOf(p, rank, bound, a) == RootOf(p, rank, bound, b)
  }

  /** The forest in which every node is its own root. */
  function Identity(n: nat): (p: seq<nat>)
    ensures |p| == n && forall i :: 0 <= i < n ==> p[i] == i
  {
    seq(n, i => i)
  }

  function Zeros(n: nat): (r: seq<nat>)
    ensures |r| == n && forall i :: 0 <= i < n ==> r[i] == 0
  {
    seq(n, i => 0)
  }

  /** A fresh structure: each node is its own root, so two nodes are
      connected exactly when they are equal. */
  lemma IdentityForest(n: nat)
    ensures Forest(Identity(n), Zeros(n), 0)
    ensures forall i :: 0 <= i < n ==> RootOf(Identity(n), Zeros(n), 0, i) == i
    ensures forall a, b :: 0 <= a < n && 0 <= b < n ==>
              (Connected(Identity(n), Zeros(n), 0, a, b) <==> a == b)
  {
  }

  /** The root of a node does not depend on the ranking that proves termination. */
  lemma {:induction false} RootsAgree(p: seq<nat>, r1: seq<nat>, b1: nat, r2: seq<nat>, b2: nat, i: nat)
    requires Forest(p, r1, b1) && Forest(p, r2, b2) && i < |p|
    ensures RootOf(p, r1, b1, i) == RootOf(p, r2, b2, i)
    decreases b1 - r1[i]
  {
    if p[i] != i {
      RootsAgree(p, r1, b1, r2, b2, p[i]);
    }
  }

  /** Every node on the path from `x` has the same root as `x`. */
  lemma {:induction false} OnPathSameRoot(p: seq<nat>, rank: seq<nat>, bound: nat, b: nat, x: nat)
    requires Forest(p, rank, bound) && x < |p| && OnPath(p, rank, bound, b, x)
    ensures b < |p| && RootOf(p, rank, bound, b) == RootOf(p, rank, bound, x)
    decreases bound - rank[x]
  {
    if x != b {
      OnPathSameRoot(p, rank, bound, b, p[x]);
    }
  }

  /** A node whose parent is a root has that parent as its root. */
  lemma ShallowRoot(p: seq<nat>, rank: seq<nat>, bound: nat, x: nat)
    requires Forest(p, rank, bound) && x < |p| && p[p[x]] == p[x]
    ensures RootOf(p, rank, bound, x) == p[x]
  {
  }

  // ---------------------------------------------------------------------
  // Linking a node to a root

  /** The ranking after `b` is pointed at the root `t`. */
  function LinkRank(rank: seq<nat>, b: nat, t: nat): (r: seq<nat>)
    requires b < |rank| && t < |rank|
    ensures |r| == |rank|
  {
    if b == t then rank else rank[t := Max(rank[t], rank[b] + 1)]
  }

  lemma {:induction false} LinkRootAt(p: seq<nat>, rank: seq<nat>, bound: nat, b: nat, t: nat, x: nat)
    requires Forest(p, rank, bound) && b < |p| && t < |p| && p[t] == t && x < |p|
    requires Forest(p[b := t], LinkRank(rank, b, t), Max(bound, rank[b] + 1))
    ensures RootOf(p[b := t], LinkRank(rank, b, t), Max(bound, rank[b] + 1), x)
         == if OnPath(p, rank, bound, b, x) then t else RootOf(p, rank, bound, x)
    decreases bound - rank[x]
  {
    var q := p[b := t];
    if x != b && p[x] != x {
      LinkRootAt(p, rank, bound, b, t, p[x]);
    }
  }

  /** Pointing any node `b` at a root `t` keeps the forest acyclic; the
      nodes whose path passed through `b` now have root `t`, and every
      other node keeps its root. */
  lemma LinkRoot(p: seq<nat>, rank: seq<nat>, bound: nat, b: nat, t: nat)
    requires Forest(p, rank, bound) && b < |p| && t < |p| && p[t] == t
    ensures Forest(p[b := t], LinkRank(rank, b, t), Max(bound, rank[b] + 1))
    ensures forall x :: 0 <= x < |p| ==>
              RootOf(p[b := t], LinkRank(rank, b, t), Max(bound, rank[b] + 1), x)
              == if OnPath(p, rank, bound, b, x) then t else RootOf(p, rank, bound, x)
  {
    var q := p[b := t];
    var rank' := LinkRank(rank, b, t);
    var bound' := Max(bound, rank[b] + 1);
    forall i | 0 <= i < |q|
      ensures q[i] < |q| && rank'[i] <= bound' && (q[i] != i ==> rank'[i] < rank'[q[i]])
    {
    }
    forall x | 0 <= x < |p|
      ensures RootOf(q, rank', bound', x) == if OnPath(p, rank, bound, b, x) then t else RootOf(p, rank, bound, x)
    {
      LinkRootAt(p, rank, bound, b, t, x);
    }
  }

  /** After `b` is pointed at the root `t` of `a`, the two are connected, and
      a node whose root was neither `t` nor the root of `b` keeps its root. */
  lemma LinkConnects(p: seq<nat>, rank: seq<nat>, bound: nat, a: nat, b: nat)
    requires Forest(p, rank, bound) && a < |p| && b < |p|
    ensures var t := RootOf(p, rank, bound, a);
            var q := p[b := t];
            var rank' := LinkRank(rank, b, t);
            var bound' := Max(bound, rank[b] + 1);
            Forest(q, rank', bound') &&
            Connected(q, rank', bound', a, b) &&
            (forall x :: 0 <= x < |p| ==>
               RootOf(q, rank', bound', x) == RootOf(p, rank, bound, x) ||
               RootOf(q, rank', bound', x) == t) &&
            (forall x :: 0 <= x < |p| && RootOf(p, rank, bound, x) != RootOf(p, rank, bound, b) ==>
               RootOf(q, rank', bound', x) == RootOf(p, rank, bound, x))
  {
    var t := RootOf(p, rank, bound, a);
    LinkRoot(p, rank, bound, b, t);
    var q := p[b := t];
    var rank' := LinkRank(rank, b, t);
    var bound' := Max(bound, rank[b] + 1);
    if OnPath(p, rank, bound, b, a) {
      OnPathSameRoot(p, rank, bound, b, a);
    }
    forall x | 0 <= x < |p| && RootOf(p, rank, bound, x) != RootOf(p, rank, bound, b)
      ensures RootOf(q, rank', bound', x) == RootOf(p, rank, bound, x)
    {
      if OnPath(p, rank, bound, b, x) {
        OnPathSameRoot(p, rank, bound, b, x);
      }
    }
  }

  // ---------------------------------------------------------------------
  // Path compression

  lemma {:induction false} CompressAt(p: seq<nat>, rank: seq<nat>, bound: nat, x: nat, y: nat)
    requires Forest(p, rank, bound) && x < |p| && y < |p|
    requires Forest(p[x := p[p[x]]], rank, bound)
    ensures RootOf(p[x := p[p[x]]], rank, bound, y) == RootOf(p, rank, bound, y)
    decreases bound - rank[y]
  {
    var q := p[x := p[p[x]]];
    if y == x {
      if p[x] != x && p[p[x]] != p[x] {
        CompressAt(p, rank, bound, x, p[p[x]]);
      }
    } else if p[y] != y {
      CompressAt(p, rank, bound, x, p[y]);
    }
  }

  /** The compression step `p[x] := p[p[x]]` keeps the forest and its
      ranking and changes no node's root. */
  lemma Compress(p: seq<nat>, rank: seq<nat>, bound: nat, x: nat)
    requires Forest(p, rank, bound) && x < |p|
    ensures Forest(p[x := p[p[x]]], rank, bound)
    ensures forall y :: 0 <= y < |p| ==> RootOf(p[x := p[p[x]]], rank, bound, y) == RootOf(p, rank, bound, y)
  {
    var q := p[x := p[p[x]]];
    forall i | 0 <= i < |q|
      ensures q[i] < |q| && rank[i] <= bound && (q[i] != i ==> rank[i] < rank[q[i]])
    {
    }
    forall y | 0 <= y < |p|
      ensures RootOf(q, rank, bound, y) == RootOf(p, rank, bound, y)
    {
      CompressAt(p, rank, bound, x, y);
    }
  }

  /** The forest after WQUPC's FindRoot(x): one compression step at each node
      it visits, moving on to the node's new parent. */
  ghost function CompressPath(p: seq<nat>, rank: seq<nat>, bound: nat, x: nat): (q: seq<nat>)
    requires Forest(p, rank, bound) && x < |p|
    ensures |q| == |p| && Forest(q, rank, bound)
    ensures forall y :: 0 <= y < |p| ==> RootOf(q, rank, bound, y) == RootOf(p, rank, bound, y)
    decreases bound - rank[x]
  {
    if p[x] == x then p
    else
      Compress(p, rank, bound, x);
      var q := p[x := p[p[x]]];
      CompressPath(q, rank, bound, q[x])
  }

  /** Compression changes nothing when the parent of `x` is a root. */
  lemma ShallowCompress(p: seq<nat>, rank: seq<nat>, bound: nat, x: nat)
    requires Forest(p, rank, bound) && x < |p| && p[p[x]] == p[x]
    ensures CompressPath(p, rank, bound, x) == p
  {
    if p[x] != x {
      assert p[x := p[p[x]]] == p;
    }
  }

  // ---------------------------------------------------------------------
  // The relinking of QuickUnion and the weighted variants

  /** Pointing a non-root at the other tree's root can disconnect it from
      its own tree. Here 0 and 1 share root 0 until Union(2, 1) of
      QuickUnion points 1 at the root of 2. */
  lemma RelinkDisconnects()
    ensures Forest([0, 0, 2], [1, 0, 0], 1)
    ensures Connected([0, 0, 2], [1, 0, 0], 1, 0, 1)
    ensures RootOf([0, 0, 2], [1, 0, 0], 1, 2) == 2
    ensures Forest([0, 0, 2][1 := 2], LinkRank([1, 0, 0], 1, 2), 1)
    ensures !Connected([0, 0, 2][1 := 2], LinkRank([1, 0, 0], 1, 2), 1, 0, 1)
  {
    var q := [0, 0, 2][1 := 2];
    assert q == [0, 2, 2];
    assert LinkRank([1, 0, 0], 1, 2) == [1, 0, 1];
    assert RootOf(q, [1, 0, 1], 1, 1) == RootOf(q, [1, 0, 1], 1, 2);
  }

  // ---------------------------------------------------------------------
  // QuickFind's relabelling

  /** QuickFind's Union as a value: every label equal to `from` becomes `to`. */
  function Relabel(s: seq<nat>, from: nat, to: nat): (t: seq<nat>)
    ensures |t| == |s|
  {
    seq(|s|, i requires 0 <= i < |s| => if s[i] == from then to else s[i])
  }

  /** Relabelling the label of `b` to that of `a` connects exactly the two
      classes of `a` and `b`: a pair is connected afterwards iff it was
      before, or each of its nodes was in one of the two classes. */
  lemma RelabelMerges(s: seq<nat>, a: nat, b: nat)
    requires a < |s| && b < |s|
    ensures var t := Relabel(s, s[b], s[a]);
            t[a] == t[b] &&
            forall x, y :: 0 <= x < |s| && 0 <= y < |s| ==>
              (t[x] == t[y] <==>
                 s[x] == s[y] ||
                 ((s[x] == s[a] || s[x] == s[b]) && (s[y] == s[a] || s[y] == s[b])))
  {
  }

  /** The class of `x` under the labels `s`: every node with the label of `x`. */
  ghost function Class(s: seq<nat>, x: nat): set<nat>
    requires x < |s|
  {
    set y | 0 <= y < |s| && s[y] == s[x]
  }

  /** Relabelling the label of `b` to that of `a` makes the classes of `a`
      and `b` one class, their union, and leaves every other class as it
      was. */
  lemma RelabelClasses(s: seq<nat>, a: nat, b: nat, x: nat)
    requires a < |s| && b < |s| && x < |s|
    ensures var t := Relabel(s, s[b], s[a]);
            (x in Class(s, a) + Class(s, b) ==> Class(t, x) == Class(s, a) + Class(s, b)) &&
            (x !in Class(s, a) + Class(s, b) ==> Class(t, x) == Class(s, x))
  {
    var t := Relabel(s, s[b], s[a]);
    if x in Class(s, a) + Class(s, b) {
      assert t[x] == s[a];
      forall y | y in Class(t, x)
        ensures y in Class(s, a) + Class(s, b)
      {
      }
      forall y | y in Class(s, a) + Class(s, b)
        ensures y in Class(t, x)
      {
      }
    } else {
      assert t[x] == s[x];
    }
  }

  /** QuickFind's Union never disconnects a connected pair. */
  lemma RelabelKeepsConnected(s: seq<nat>, a: nat, b: nat, x: nat, y: nat)
    requires a < |s| && b < |s| && x < |s| && y < |s| && s[x] == s[y]
    ensures Relabel(s, s[b], s[a])[x] == Relabel(s, s[b], s[a])[y]
  {
  }
}
