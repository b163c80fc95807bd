/** The four union-find structures of data_structures/union_find.cpp over
    nodes `0 .. capacity - 1`. QuickFind keeps a component label per node;
    the other three keep a parent forest in `id`, whose termination
    measure is the ghost ranking `rank` (see Forests). QuickUnion and the
    weighted variants point the node `b` (or `a`) itself at the other root,
    as the source does, not the node's root. */
module UnionFind {
  import opened Forests

  // ---------------------------------------------------------------------
  // QuickFind

  class QuickFind {
    const capacity: nat
    var id: array<nat>

    ghost predicate Valid()
      reads this
    {
      id.Length == capacity
    }

    /** QuickFind(capacity): every node is labelled with itself. */
    constructor (capacity: nat)
      ensures Valid() && fresh(id) && this.capacity == capacity
      ensures id[..] == Identity(capacity)
    {
      this.capacity := capacity;
      var labels := new nat[capacity];
      for i := 0 to capacity
        invariant labels[..i] == Identity(capacity)[..i]
      {
        labels[i] := i;
      }
      id := labels;
    }

    /** Connected(a, b): `a` is in the class of `b`, the nodes sharing its
        label. */
    function Connected(a: nat, b: nat): (c: bool)
      reads this, id
      requires Valid() && a < capacity && b < capacity
      ensures c <==> a in Class(id[..], b)
    {
      id[a] == id[b]
    }

    /** Union(a, b): every node labelled as `b` was is relabelled as `a`
        was; see RelabelMerges for what that does to connectivity. */
    method Union(a: nat, b: nat)
      requires Valid() && a < capacity && b < capacity
      modifies id
      ensures Valid()
      ensures id[..] == Relabel(old(id[..]), old(id[b]), old(id[a]))
      ensures Connected(a, b)
      ensures Class(id[..], a) == old(Class(id[..], a)) + old(Class(id[..], b))
    {
      var idA := id[a];
      var idB := id[b];
      ghost var s := id[..];
      for i := 0 to capacity
        invariant id[..i] == Relabel(s, idB, idA)[..i]
        invariant id[i..] == s[i..]
      {
        if id[i] == idB {
          id[i] := idA;
        }
        assert id[..i + 1] == Relabel(s, idB, idA)[..i + 1];
      }
      assert id[..] == id[..capacity];
      RelabelMerges(s, a, b);
      RelabelClasses(s, a, b, a);
    }
  }

  // ---------------------------------------------------------------------
  // QuickUnion

  class QuickUnion {
    const capacity: nat
    var id: array<nat>
    ghost var rank: seq<nat>
    ghost var bound: nat

    /** `id` is an acyclic parent forest over the nodes. */
    ghost predicate Valid()
      reads this, id
    {
      id.Length == capacity && Forest(id[..], rank, bound)
    }

    /** The root of `x`. */
    ghost function Root(x: nat): nat
      reads this, id
      requires Valid() && x < capacity
    {
      RootOf(id[..], rank, bound, x)
    }

    /** QuickUnion(capacity): every node is its own root. */
    constructor (capacity: nat)
      ensures Valid() && fresh(id) && this.capacity == capacity
      ensures id[..] == Identity(capacity)
    {
      this.capacity := capacity;
      var parents := new nat[capacity];
      for i := 0 to capacity
        invariant parents[..i] == Identity(capacity)[..i]
      {
        parents[i] := i;
      }
      id := parents;
      rank := Zeros(capacity);
      bound := 0;
      IdentityForest(capacity);
    }

    /** FindRoot(node): follows parents until a node is its own parent. */
    method FindRoot(node: nat) returns (r: nat)
      requires Valid() && node < capacity
      ensures r < capacity && id[r] == r && r == Root(node)
    {
      var n: nat := node;
      var parent: nat := id[n];
      while parent != n
        invariant n < capacity && parent == id[n]
        invariant RootOf(id[..], rank, bound, n) == Root(node)
        decreases bound - rank[n]
      {
        n := parent;
        parent := id[parent];
      }
      r := n;
    }

    /** Connected(a, b): the two nodes have the same root. */
    method Connected(a: nat, b: nat) returns (c: bool)
      requires Valid() && a < capacity && b < capacity
      ensures c <==> Root(a) == Root(b)
    {
      var rootA := FindRoot(a);
      var rootB := FindRoot(b);
      c := rootA == rootB;
    }

    /** Union(a, b): points `b` itself (not its root) at the root of `a`.
        The forest stays acyclic and `a` and `b` end up connected; only the
        nodes of `b`'s old tree can change root, and only to `a`'s root.
        Nodes whose path ran through `b`'s ancestors lose `b` (see
        RelinkDisconnects). */
    method Union(a: nat, b: nat)
      requires Valid() && a < capacity && b < capacity
      modifies this, id
      ensures Valid() && id == old(id)
      ensures id[..] == old(id[..])[b := old(Root(a))]
      ensures Root(a) == Root(b)
      ensures forall x :: 0 <= x < capacity ==> Root(x) == old(Root(x)) || Root(x) == old(Root(a))
      ensures forall x :: 0 <= x < capacity && old(Root(x)) != old(Root(b)) ==> Root(x) == old(Root(x))
    {
      var rootA := FindRoot(a);
      LinkConnects(id[..], rank, bound, a, b);
      id[b] := rootA;
      bound := Max(bound, rank[b] + 1);
      rank := LinkRank(rank, b, rootA);
    }
  }

  // ---------------------------------------------------------------------
  // WeightedUnion

  class WeightedUnion {
    const capacity: nat
    var id: array<nat>
    var treeSize: array<nat>
    ghost var rank: seq<nat>
    ghost var bound: nat

    /** `id` is an acyclic parent forest over the nodes; `treeSize` is a
        separate array of one counter per node. */
    ghost predicate Valid()
      reads this, id
    {
      id.Length == capacity && treeSize.Length == capacity && id != treeSize &&
      Forest(id[..], rank, bound)
    }

    ghost function Root(x: nat): nat
      reads this, id
      requires Valid() && x < capacity
    {
      RootOf(id[..], rank, bound, x)
    }

    /** WeightedUnion(capacity): every node is its own root, every size is 1. */
    constructor (capacity: nat)
      ensures Valid() && fresh(id) && fresh(treeSize) && this.capacity == capacity
      ensures id[..] == Identity(capacity)
      ensures forall i :: 0 <= i < capacity ==> treeSize[i] == 1
    {
      this.capacity := capacity;
      var parents := new nat[capacity];
      var sizes := new nat[capacity];
      for i := 0 to capacity
        invariant parents[..i] == Identity(capacity)[..i]
        invariant forall k :: 0 <= k < i ==> sizes[k] == 1
      {
        parents[i] := i;
        sizes[i] := 1;
      }
      id := parents;
      treeSize := sizes;
      rank := Zeros(capacity);
      bound := 0;
      IdentityForest(capacity);
    }

    method FindRoot(node: nat) returns (r: nat)
      requires Valid() && node < capacity
      ensures r < capacity && id[r] == r && r == Root(node)
    {
      var n: nat := node;
      var parent: nat := id[n];
      while parent != n
        invariant n < capacity && parent == id[n]
        invariant RootOf(id[..], rank, bound, n) == Root(node)
        decreases bound - rank[n]
      {
        n := parent;
        parent := id[parent];
      }
      r := n;
    }

    method Connected(a: nat, b: nat) returns (c: bool)
      requires Valid() && a < capacity && b < capacity
      ensures c <==> Root(a) == Root(b)
    {
      var rootA := FindRoot(a);
      var rootB := FindRoot(b);
      c := rootA == rootB;
    }

    /** Points `b` itself at `rootA`, the root of `a`, and updates the
        ghost ranking (see LinkConnects). */
    method Link(a: nat, b: nat, rootA: nat)
      requires Valid() && a < capacity && b < capacity && rootA == Root(a)
      modifies this, id
      ensures Valid() && id == old(id) && treeSize == old(treeSize)
      ensures id[..] == old(id[..])[b := rootA]
      ensures Root(a) == Root(b)
      ensures forall x :: 0 <= x < capacity && old(Root(x)) != old(Root(b)) ==> Root(x) == old(Root(x))
    {
      LinkConnects(id[..], rank, bound, a, b);
      id[b] := rootA;
      bound := Max(bound, rank[b] + 1);
      rank := LinkRank(rank, b, rootA);
    }

    /** The second half of Union, once the roots `rootA` of `a` and `rootB`
        of `b` are known to differ: when `a`'s tree is counted as strictly
        larger, `b` itself is pointed at `rootA`, and else `a` itself at
        `rootB`; the size of the receiving root grows by the other's. */
    method Join(a: nat, b: nat, rootA: nat, rootB: nat)
      requires Valid() && a < capacity && b < capacity && rootA == Root(a) && rootB == Root(b) && rootA != rootB
      modifies this, id, treeSize
      ensures Valid() && id == old(id) && treeSize == old(treeSize)
      ensures old(treeSize[rootA]) > old(treeSize[rootB]) ==>
                id[..] == old(id[..])[b := rootA] &&
                treeSize[..] == old(treeSize[..])[rootA := old(treeSize[rootA] + treeSize[rootB])]
      ensures old(treeSize[rootA]) <= old(treeSize[rootB]) ==>
                id[..] == old(id[..])[a := rootB] &&
                treeSize[..] == old(treeSize[..])[rootB := old(treeSize[rootB] + treeSize[rootA])]
      ensures Root(a) == Root(b)
      ensures forall x :: 0 <= x < capacity && old(Root(x)) != rootA && old(Root(x)) != rootB ==>
                Root(x) == old(Root(x))
    {
      if treeSize[rootA] > treeSize[rootB] {
        Link(a, b, rootA);
        treeSize[rootA] := treeSize[rootA] + treeSize[rootB];
      } else {
        Link(b, a, rootB);
        treeSize[rootB] := treeSize[rootB] + treeSize[rootA];
      }
    }

    /** Union(a, b): nothing happens when the roots agree. Otherwise, when
        `a`'s tree is counted as strictly larger, `b` itself is pointed at
        `a`'s root, and else `a` itself at `b`'s root; the size of the
        receiving root grows by the other root's size. */
    method Union(a: nat, b: nat)
      requires Valid() && a < capacity && b < capacity
      modifies this, id, treeSize
      ensures Valid() && id == old(id) && treeSize == old(treeSize)
      ensures old(Root(a)) == old(Root(b)) ==>
                id[..] == old(id[..]) && treeSize[..] == old(treeSize[..])
      ensures old(Root(a)) != old(Root(b)) && old(treeSize[Root(a)]) > old(treeSize[Root(b)]) ==>
                id[..] == old(id[..])[b := old(Root(a))] &&
                treeSize[..] == old(treeSize[..])[old(Root(a)) := old(treeSize[Root(a)] + treeSize[Root(b)])]
      ensures old(Root(a)) != old(Root(b)) && old(treeSize[Root(a)]) <= old(treeSize[Root(b)]) ==>
                id[..] == old(id[..])[a := old(Root(b))] &&
                treeSize[..] == old(treeSize[..])[old(Root(b)) := old(treeSize[Root(b)] + treeSize[Root(a)])]
      ensures Root(a) == Root(b)
      ensures forall x :: 0 <= x < capacity && old(Root(x)) != old(Root(a)) && old(Root(x)) != old(Root(b)) ==>
                Root(x) == old(Root(x))
    {
      var rootA := FindRoot(a);
      var rootB := FindRoot(b);
      if rootA == rootB {
        return;
      }
      Join(a, b, rootA, rootB);
    }
  }

  // ---------------------------------------------------------------------
  // WQUPC: weighted quick union with path compression

  class WQUPC {
    const capacity: nat
    var id: array<nat>
    var treeSize: array<nat>
    ghost var rank: seq<nat>
    ghost var bound: nat

    ghost predicate Valid()
      reads this, id
    {
      id.Length == capacity && treeSize.Length == capacity && id != treeSize &&
      Forest(id[..], rank, bound)
    }

    ghost function Root(x: nat): nat
      reads this, id
      requires Valid() && x < capacity
    {
      RootOf(id[..], rank, bound, x)
    }

    /** WQUPC(capacity): every node is its own root, every size is 1. */
    constructor (capacity: nat)
      ensures Valid() && fresh(id) && fresh(treeSize) && this.capacity == capacity
      ensures id[..] == Identity(capacity)
      ensures forall i :: 0 <= i < capacity ==> treeSize[i] == 1
    {
      this.capacity := capacity;
      var parents := new nat[capacity];
      var sizes := new nat[capacity];
      for i := 0 to capacity
        invariant parents[..i] == Identity(capacity)[..i]
        invariant forall k :: 0 <= k < i ==> sizes[k] == 1
      {
        parents[i] := i;
        sizes[i] := 1;
      }
      id := parents;
      treeSize := sizes;
      rank := Zeros(capacity);
      bound := 0;
      IdentityForest(capacity);
    }

    /** FindRoot(node) with path compression: each visited node is pointed
        at its grandparent before moving on. The root found is the old
        root of `node`, and no node's root changes. */
    method FindRoot(node: nat) returns (r: nat)
      requires Valid() && node < capacity
      modifies id
      ensures Valid()
      ensures id[..] == CompressPath(old(id[..]), rank, bound, node)
      ensures r < capacity && id[r] == r && r == old(Root(node))
      ensures forall x :: 0 <= x < capacity ==> Root(x) == old(Root(x))
    {
      ghost var p0 := id[..];
      var n: nat := node;
      while n != id[n]
        invariant Valid() && n < capacity
        invariant CompressPath(id[..], rank, bound, n) == CompressPath(p0, rank, bound, node)
        invariant RootOf(id[..], rank, bound, n) == RootOf(p0, rank, bound, node)
        invariant forall x :: 0 <= x < capacity ==> RootOf(id[..], rank, bound, x) == RootOf(p0, rank, bound, x)
        decreases bound - rank[n]
      {
        Compress(id[..], rank, bound, n);
        id[n] := id[id[n]];
        n := id[n];
      }
      r := n;
    }

    /** Connected(a, b): compares the two roots, compressing both paths. */
    method Connected(a: nat, b: nat) returns (c: bool)
      requires Valid() && a < capacity && b < capacity
      modifies id
      ensures Valid()
      ensures c <==> old(Root(a)) == old(Root(b))
      ensures forall x :: 0 <= x < capacity ==> Root(x) == old(Root(x))
    {
      var rootA := FindRoot(a);
      var rootB := FindRoot(b);
      c := rootA == rootB;
    }

    /** Points `b` itself at `rootA`, the root of `a`, and updates the
        ghost ranking (see LinkConnects). */
    method Link(a: nat, b: nat, rootA: nat)
      requires Valid() && a < capacity && b < capacity && rootA == Root(a)
      modifies this, id
      ensures Valid() && id == old(id) && treeSize == old(treeSize)
      ensures id[..] == old(id[..])[b := rootA]
      ensures Root(a) == Root(b)
      ensures forall x :: 0 <= x < capacity && old(Root(x)) != old(Root(b)) ==> Root(x) == old(Root(x))
    {
      LinkConnects(id[..], rank, bound, a, b);
      id[b] := rootA;
      bound := Max(bound, rank[b] + 1);
      rank := LinkRank(rank, b, rootA);
    }

    /** The second half of Union, once the roots `rootA` of `a` and `rootB`
        of `b` are known to differ: when `a`'s tree is counted as strictly
        larger, `b` itself is pointed at `rootA`, and else `a` itself at
        `rootB`; the size of the receiving root grows by the other's. */
    method Join(a: nat, b: nat, rootA: nat, rootB: nat)
      requires Valid() && a < capacity && b < capacity && rootA == Root(a) && rootB == Root(b) && rootA != rootB
      modifies this, id, treeSize
      ensures Valid() && id == old(id) && treeSize == old(treeSize)
      ensures old(treeSize[rootA]) > old(treeSize[rootB]) ==>
                id[..] == old(id[..])[b := rootA] &&
                treeSize[..] == old(treeSize[..])[rootA := old(treeSize[rootA] + treeSize[rootB])]
      ensures old(treeSize[rootA]) <= old(treeSize[rootB]) ==>
                id[..] == old(id[..])[a := rootB] &&
                treeSize[..] == old(treeSize[..])[rootB := old(treeSize[rootB] + treeSize[rootA])]
      ensures Root(a) == Root(b)
      ensures forall x :: 0 <= x < capacity && old(Root(x)) != rootA && old(Root(x)) != rootB ==>
                Root(x) == old(Root(x))
    {
      if treeSize[rootA] > treeSize[rootB] {
        Link(a, b, rootA);
        treeSize[rootA] := treeSize[rootA] + treeSize[rootB];
      } else {
        Link(b, a, rootB);
        treeSize[rootB] := treeSize[rootB] + treeSize[rootA];
      }
    }

    /** Union(a, b): as WeightedUnion's, on the forest left by the two
        compressing FindRoot calls. */
    method Union(a: nat, b: nat)
      requires Valid() && a < capacity && b < capacity
      modifies this, id, treeSize
      ensures Valid() && id == old(id) && treeSize == old(treeSize)
      ensures var compressed := CompressPath(CompressPath(old(id[..]), old(rank), old(bound), a), old(rank), old(bound), b);
              if old(Root(a)) == old(Root(b)) then
                id[..] == compressed && treeSize[..] == old(treeSize[..])
              else if old(treeSize[Root(a)]) > old(treeSize[Root(b)]) then
                id[..] == compressed[b := old(Root(a))] &&
                treeSize[..] == old(treeSize[..])[old(Root(a)) := old(treeSize[Root(a)] + treeSize[Root(b)])]
              else
                id[..] == compressed[a := old(Root(b))] &&
                treeSize[..] == old(treeSize[..])[old(Root(b)) := old(treeSize[Root(b)] + treeSize[Root(a)])]
      ensures Root(a) == Root(b)
      ensures forall x :: 0 <= x < capacity && old(Root(x)) != old(Root(a)) && old(Root(x)) != old(Root(b)) ==>
                Root(x) == old(Root(x))
    {
      var rootA := FindRoot(a);
      var rootB := FindRoot(b);
      if rootA == rootB {
        return;
      }
      Join(a, b, rootA, rootB);
    }
  }
}
