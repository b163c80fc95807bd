/** TestUnion in data_structures/union_find.cpp, for each of the four
    structures: eight Unions over ten nodes, then eight Connected queries
    whose expected answers are true, true, true, true, true, false, false,
    false. */
module UnionFindExamples {
  import opened Forests
  import opened UnionFind

  /** The answers TestUnion expects. */
  const Expected: seq<bool> := [true, true, true, true, true, false, false, false]

  /** The labels after each of the first four QuickFind Unions of TestUnion. */
  lemma RelabelTraceFirst()
    ensures Relabel([0, 1, 2, 3, 4, 5, 6, 7, 8, 9], 1, 0) == [0, 0, 2, 3, 4, 5, 6, 7, 8, 9]
    ensures Relabel([0, 0, 2, 3, 4, 5, 6, 7, 8, 9], 2, 0) == [0, 0, 0, 3, 4, 5, 6, 7, 8, 9]
    ensures Relabel([0, 0, 0, 3, 4, 5, 6, 7, 8, 9], 3, 0) == [0, 0, 0, 0, 4, 5, 6, 7, 8, 9]
    ensures Relabel([0, 0, 0, 0, 4, 5, 6, 7, 8, 9], 4, 0) == [0, 0, 0, 0, 0, 5, 6, 7, 8, 9]
  {
  }

  /** The labels after each of the last four QuickFind Unions of TestUnion. */
  lemma RelabelTraceSecond()
    ensures Relabel([0, 0, 0, 0, 0, 5, 6, 7, 8, 9], 5, 0) == [0, 0, 0, 0, 0, 0, 6, 7, 8, 9]
    ensures Relabel([0, 0, 0, 0, 0, 0, 6, 7, 8, 9], 7, 6) == [0, 0, 0, 0, 0, 0, 6, 6, 8, 9]
    ensures Relabel([0, 0, 0, 0, 0, 0, 6, 6, 8, 9], 8, 6) == [0, 0, 0, 0, 0, 0, 6, 6, 6, 9]
    ensures Relabel([0, 0, 0, 0, 0, 0, 6, 6, 6, 9], 9, 6) == [0, 0, 0, 0, 0, 0, 6, 6, 6, 6]
  {
  }

  /** The final forest of TestUnion: nodes 0 to 5 point at the root `r0`
      and nodes 6 to 9 at the root `r1`. */
  lemma TwoTrees(p: seq<nat>, rank: seq<nat>, bound: nat, r0: nat, r1: nat)
    requires Forest(p, rank, bound) && |p| == 10 && r0 < 10 && r1 < 10 && p[r0] == r0 && p[r1] == r1
    requires forall x :: 0 <= x < 10 ==> p[x] == if x < 6 then r0 else r1
    ensures forall x :: 0 <= x < 10 ==> RootOf(p, rank, bound, x) == if x < 6 then r0 else r1
  {
    forall x | 0 <= x < 10
      ensures RootOf(p, rank, bound, x) == if x < 6 then r0 else r1
    {
      ShallowRoot(p, rank, bound, x);
    }
  }

  method QuickFindUnions() returns (uf: QuickFind)
    ensures fresh(uf.id) && uf.Valid() && uf.capacity == 10
    ensures uf.id[..] == [0, 0, 0, 0, 0, 0, 6, 6, 6, 6]
  {
    uf := new QuickFind(10);
    RelabelTraceFirst();
    RelabelTraceSecond();
    assert uf.id[..] == [0, 1, 2, 3, 4, 5, 6, 7, 8, 9];
    uf.Union(0, 1);
    uf.Union(1, 2);
    uf.Union(2, 3);
    uf.Union(3, 4);
    uf.Union(4, 5);
    uf.Union(6, 7);
    uf.Union(7, 8);
    uf.Union(8, 9);
  }

  method QuickFindExample() returns (answers: seq<bool>)
    ensures answers == Expected
  {
    var uf := QuickFindUnions();
    answers := [uf.Connected(0, 3), uf.Connected(0, 5), uf.Connected(2, 3), uf.Connected(6, 7),
                uf.Connected(6, 9), uf.Connected(0, 9), uf.Connected(3, 7), uf.Connected(5, 6)];
  }

  /** One Union of TestUnion on a QuickUnion in the state `before`,
      where `a` is a root or a child of one: `b` is pointed at that root. */
  method QuickUnionStep(uf: QuickUnion, a: nat, b: nat, ghost before: seq<nat>, ghost after: seq<nat>)
    requires uf.Valid() && a < uf.capacity && b < uf.capacity && uf.id[..] == before
    requires before[before[a]] == before[a] && after == before[b := before[a]]
    modifies uf, uf.id
    ensures uf.Valid() && uf.id == old(uf.id) && uf.id[..] == after
  {
    ShallowRoot(before, uf.rank, uf.bound, a);
    uf.Union(a, b);
  }

  /** TestUnion on QuickUnion: the Unions (0, 1), (1, 2), (2, 3). */
  method QuickUnionUnions1(uf: QuickUnion)
    requires uf.Valid() && uf.capacity == 10 && uf.id[..] == [0, 1, 2, 3, 4, 5, 6, 7, 8, 9]
    modifies uf, uf.id
    ensures uf.Valid() && uf.id == old(uf.id)
    ensures uf.id[..] == [0, 0, 0, 0, 4, 5, 6, 7, 8, 9]
  {
    QuickUnionStep(uf, 0, 1, [0, 1, 2, 3, 4, 5, 6, 7, 8, 9], [0, 0, 2, 3, 4, 5, 6, 7, 8, 9]);
    QuickUnionStep(uf, 1, 2, [0, 0, 2, 3, 4, 5, 6, 7, 8, 9], [0, 0, 0, 3, 4, 5, 6, 7, 8, 9]);
    QuickUnionStep(uf, 2, 3, [0, 0, 0, 3, 4, 5, 6, 7, 8, 9], [0, 0, 0, 0, 4, 5, 6, 7, 8, 9]);
  }

  /** TestUnion on QuickUnion: the Unions (3, 4), (4, 5), (6, 7). */
  method QuickUnionUnions2(uf: QuickUnion)
    requires uf.Valid() && uf.capacity == 10 && uf.id[..] == [0, 0, 0, 0, 4, 5, 6, 7, 8, 9]
    modifies uf, uf.id
    ensures uf.Valid() && uf.id == old(uf.id)
    ensures uf.id[..] == [0, 0, 0, 0, 0, 0, 6, 6, 8, 9]
  {
    QuickUnionStep(uf, 3, 4, [0, 0, 0, 0, 4, 5, 6, 7, 8, 9], [0, 0, 0, 0, 0, 5, 6, 7, 8, 9]);
    QuickUnionStep(uf, 4, 5, [0, 0, 0, 0, 0, 5, 6, 7, 8, 9], [0, 0, 0, 0, 0, 0, 6, 7, 8, 9]);
    QuickUnionStep(uf, 6, 7, [0, 0, 0, 0, 0, 0, 6, 7, 8, 9], [0, 0, 0, 0, 0, 0, 6, 6, 8, 9]);
  }

  /** TestUnion on QuickUnion: the Unions (7, 8), (8, 9). */
  method QuickUnionUnions3(uf: QuickUnion)
    requires uf.Valid() && uf.capacity == 10 && uf.id[..] == [0, 0, 0, 0, 0, 0, 6, 6, 8, 9]
    modifies uf, uf.id
    ensures uf.Valid() && uf.id == old(uf.id)
    ensures uf.id[..] == [0, 0, 0, 0, 0, 0, 6, 6, 6, 6]
  {
    QuickUnionStep(uf, 7, 8, [0, 0, 0, 0, 0, 0, 6, 6, 8, 9], [0, 0, 0, 0, 0, 0, 6, 6, 6, 9]);
    QuickUnionStep(uf, 8, 9, [0, 0, 0, 0, 0, 0, 6, 6, 6, 9], [0, 0, 0, 0, 0, 0, 6, 6, 6, 6]);
  }

  /** TestUnion on QuickUnion: Connected queries 1 to 4. */
  method QuickUnionQueries1(uf: QuickUnion) returns (answers: seq<bool>)
    requires uf.Valid() && uf.capacity == 10
    requires forall x :: 0 <= x < 10 ==> uf.Root(x) == if x < 6 then 0 else 6
    ensures answers == Expected[0..4]
  {
    var c0 := uf.Connected(0, 3);
    var c1 := uf.Connected(0, 5);
    var c2 := uf.Connected(2, 3);
    var c3 := uf.Connected(6, 7);
    answers := [c0, c1, c2, c3];
  }

  /** TestUnion on QuickUnion: Connected queries 5 to 8. */
  method QuickUnionQueries2(uf: QuickUnion) returns (answers: seq<bool>)
    requires uf.Valid() && uf.capacity == 10
    requires forall x :: 0 <= x < 10 ==> uf.Root(x) == if x < 6 then 0 else 6
    ensures answers == Expected[4..8]
  {
    var c4 := uf.Connected(6, 9);
    var c5 := uf.Connected(0, 9);
    var c6 := uf.Connected(3, 7);
    var c7 := uf.Connected(5, 6);
    answers := [c4, c5, c6, c7];
  }

  /** TestUnion on QuickUnion: the roots end as 0 for nodes 0 to 5 and 6 for nodes 6 to 9. */
  method QuickUnionExample() returns (answers: seq<bool>)
    ensures answers == Expected
  {
    var uf := new QuickUnion(10);
    assert uf.id[..] == [0, 1, 2, 3, 4, 5, 6, 7, 8, 9];
    QuickUnionUnions1(uf);
    QuickUnionUnions2(uf);
    QuickUnionUnions3(uf);
    TwoTrees(uf.id[..], uf.rank, uf.bound, 0, 6);
    var first := QuickUnionQueries1(uf);
    var second := QuickUnionQueries2(uf);
    answers := first + second;
  }

  /** One Union of TestUnion on a WeightedUnion in the state `before`,
      `sizes`, where `a` and `b` are roots or children of distinct roots:
      the root with the strictly larger tree receives the other node, and
      on a tie `a` is pointed at `b`'s root. */
  method WeightedUnionStep(uf: WeightedUnion, a: nat, b: nat, ghost before: seq<nat>, ghost sizes: seq<nat>,
                           ghost after: seq<nat>, ghost sizes': seq<nat>)
    requires uf.Valid() && a < uf.capacity && b < uf.capacity && uf.id[..] == before && uf.treeSize[..] == sizes
    requires before[before[a]] == before[a] && before[before[b]] == before[b] && before[a] != before[b]
    requires sizes[before[a]] > sizes[before[b]] ==>
               after == before[b := before[a]] && sizes' == sizes[before[a] := sizes[before[a]] + sizes[before[b]]]
    requires sizes[before[a]] <= sizes[before[b]] ==>
               after == before[a := before[b]] && sizes' == sizes[before[b] := sizes[before[b]] + sizes[before[a]]]
    modifies uf, uf.id, uf.treeSize
    ensures uf.Valid() && uf.id == old(uf.id) && uf.treeSize == old(uf.treeSize)
    ensures uf.id[..] == after && uf.treeSize[..] == sizes'
  {
    ShallowRoot(before, uf.rank, uf.bound, a);
    ShallowRoot(before, uf.rank, uf.bound, b);
    uf.Union(a, b);
  }

  /** One Union of TestUnion on a WQUPC, as WeightedUnionStep: both paths
      are already compressed, so only the linking changes the forest. */
  method WQUPCStep(uf: WQUPC, a: nat, b: nat, ghost before: seq<nat>, ghost sizes: seq<nat>,
                   ghost after: seq<nat>, ghost sizes': seq<nat>)
    requires uf.Valid() && a < uf.capacity && b < uf.capacity && uf.id[..] == before && uf.treeSize[..] == sizes
    requires before[before[a]] == before[a] && before[before[b]] == before[b] && before[a] != before[b]
    requires sizes[before[a]] > sizes[before[b]] ==>
               after == before[b := before[a]] && sizes' == sizes[before[a] := sizes[before[a]] + sizes[before[b]]]
    requires sizes[before[a]] <= sizes[before[b]] ==>
               after == before[a := before[b]] && sizes' == sizes[before[b] := sizes[before[b]] + sizes[before[a]]]
    modifies uf, uf.id, uf.treeSize
    ensures uf.Valid() && uf.id == old(uf.id) && uf.treeSize == old(uf.treeSize)
    ensures uf.id[..] == after && uf.treeSize[..] == sizes'
  {
    ShallowRoot(before, uf.rank, uf.bound, a);
    ShallowRoot(before, uf.rank, uf.bound, b);
    ShallowCompress(before, uf.rank, uf.bound, a);
    ShallowCompress(before, uf.rank, uf.bound, b);
    uf.Union(a, b);
  }

  /** TestUnion on WeightedUnion: the Unions (0, 1), (1, 2). */
  method WeightedUnionUnions1(uf: WeightedUnion)
    requires uf.Valid() && uf.capacity == 10
    requires uf.id[..] == [0, 1, 2, 3, 4, 5, 6, 7, 8, 9] && uf.treeSize[..] == [1, 1, 1, 1, 1, 1, 1, 1, 1, 1]
    modifies uf, uf.id, uf.treeSize
    ensures uf.Valid() && uf.id == old(uf.id) && uf.treeSize == old(uf.treeSize)
    ensures uf.id[..] == [1, 1, 1, 3, 4, 5, 6, 7, 8, 9] && uf.treeSize[..] == [1, 3, 1, 1, 1, 1, 1, 1, 1, 1]
  {
    WeightedUnionStep(uf, 0, 1, [0, 1, 2, 3, 4, 5, 6, 7, 8, 9], [1, 1, 1, 1, 1, 1, 1, 1, 1, 1],
                                [1, 1, 2, 3, 4, 5, 6, 7, 8, 9], [1, 2, 1, 1, 1, 1, 1, 1, 1, 1]);
    WeightedUnionStep(uf, 1, 2, [1, 1, 2, 3, 4, 5, 6, 7, 8, 9], [1, 2, 1, 1, 1, 1, 1, 1, 1, 1],
                                [1, 1, 1, 3, 4, 5, 6, 7, 8, 9], [1, 3, 1, 1, 1, 1, 1, 1, 1, 1]);
  }

  /** TestUnion on WeightedUnion: the Unions (2, 3), (3, 4). */
  method WeightedUnionUnions2(uf: WeightedUnion)
    requires uf.Valid() && uf.capacity == 10
    requires uf.id[..] == [1, 1, 1, 3, 4, 5, 6, 7, 8, 9] && uf.treeSize[..] == [1, 3, 1, 1, 1, 1, 1, 1, 1, 1]
    modifies uf, uf.id, uf.treeSize
    ensures uf.Valid() && uf.id == old(uf.id) && uf.treeSize == old(uf.treeSize)
    ensures uf.id[..] == [1, 1, 1, 1, 1, 5, 6, 7, 8, 9] && uf.treeSize[..] == [1, 5, 1, 1, 1, 1, 1, 1, 1, 1]
  {
    WeightedUnionStep(uf, 2, 3, [1, 1, 1, 3, 4, 5, 6, 7, 8, 9], [1, 3, 1, 1, 1, 1, 1, 1, 1, 1],
                                [1, 1, 1, 1, 4, 5, 6, 7, 8, 9], [1, 4, 1, 1, 1, 1, 1, 1, 1, 1]);
    WeightedUnionStep(uf, 3, 4, [1, 1, 1, 1, 4, 5, 6, 7, 8, 9], [1, 4, 1, 1, 1, 1, 1, 1, 1, 1],
                                [1, 1, 1, 1, 1, 5, 6, 7, 8, 9], [1, 5, 1, 1, 1, 1, 1, 1, 1, 1]);
  }

  /** TestUnion on WeightedUnion: the Unions (4, 5), (6, 7). */
  method WeightedUnionUnions3(uf: WeightedUnion)
    requires uf.Valid() && uf.capacity == 10
    requires uf.id[..] == [1, 1, 1, 1, 1, 5, 6, 7, 8, 9] && uf.treeSize[..] == [1, 5, 1, 1, 1, 1, 1, 1, 1, 1]
    modifies uf, uf.id, uf.treeSize
    ensures uf.Valid() && uf.id == old(uf.id) && uf.treeSize == old(uf.treeSize)
    ensures uf.id[..] == [1, 1, 1, 1, 1, 1, 7, 7, 8, 9] && uf.treeSize[..] == [1, 6, 1, 1, 1, 1, 1, 2, 1, 1]
  {
    WeightedUnionStep(uf, 4, 5, [1, 1, 1, 1, 1, 5, 6, 7, 8, 9], [1, 5, 1, 1, 1, 1, 1, 1, 1, 1],
                                [1, 1, 1, 1, 1, 1, 6, 7, 8, 9], [1, 6, 1, 1, 1, 1, 1, 1, 1, 1]);
    WeightedUnionStep(uf, 6, 7, [1, 1, 1, 1, 1, 1, 6, 7, 8, 9], [1, 6, 1, 1, 1, 1, 1, 1, 1, 1],
                                [1, 1, 1, 1, 1, 1, 7, 7, 8, 9], [1, 6, 1, 1, 1, 1, 1, 2, 1, 1]);
  }

  /** TestUnion on WeightedUnion: the Unions (7, 8), (8, 9). */
  method WeightedUnionUnions4(uf: WeightedUnion)
    requires uf.Valid() && uf.capacity == 10
    requires uf.id[..] == [1, 1, 1, 1, 1, 1, 7, 7, 8, 9] && uf.treeSize[..] == [1, 6, 1, 1, 1, 1, 1, 2, 1, 1]
    modifies uf, uf.id, uf.treeSize
    ensures uf.Valid() && uf.id == old(uf.id) && uf.treeSize == old(uf.treeSize)
    ensures uf.id[..] == [1, 1, 1, 1, 1, 1, 7, 7, 7, 7] && uf.treeSize[..] == [1, 6, 1, 1, 1, 1, 1, 4, 1, 1]
  {
    WeightedUnionStep(uf, 7, 8, [1, 1, 1, 1, 1, 1, 7, 7, 8, 9], [1, 6, 1, 1, 1, 1, 1, 2, 1, 1],
                                [1, 1, 1, 1, 1, 1, 7, 7, 7, 9], [1, 6, 1, 1, 1, 1, 1, 3, 1, 1]);
    WeightedUnionStep(uf, 8, 9, [1, 1, 1, 1, 1, 1, 7, 7, 7, 9], [1, 6, 1, 1, 1, 1, 1, 3, 1, 1],
                                [1, 1, 1, 1, 1, 1, 7, 7, 7, 7], [1, 6, 1, 1, 1, 1, 1, 4, 1, 1]);
  }

  /** TestUnion on WeightedUnion: Connected queries 1 to 4. */
  method WeightedUnionQueries1(uf: WeightedUnion) returns (answers: seq<bool>)
    requires uf.Valid() && uf.capacity == 10
    requires forall x :: 0 <= x < 10 ==> uf.Root(x) == if x < 6 then 1 else 7
    ensures answers == Expected[0..4]
  {
    var c0 := uf.Connected(0, 3);
    var c1 := uf.Connected(0, 5);
    var c2 := uf.Connected(2, 3);
    var c3 := uf.Connected(6, 7);
    answers := [c0, c1, c2, c3];
  }

  /** TestUnion on WeightedUnion: Connected queries 5 to 8. */
  method WeightedUnionQueries2(uf: WeightedUnion) returns (answers: seq<bool>)
    requires uf.Valid() && uf.capacity == 10
    requires forall x :: 0 <= x < 10 ==> uf.Root(x) == if x < 6 then 1 else 7
    ensures answers == Expected[4..8]
  {
    var c4 := uf.Connected(6, 9);
    var c5 := uf.Connected(0, 9);
    var c6 := uf.Connected(3, 7);
    var c7 := uf.Connected(5, 6);
    answers := [c4, c5, c6, c7];
  }

  /** TestUnion on WeightedUnion: the roots end as 1 for nodes 0 to 5 and 7 for nodes 6 to 9. */
  method WeightedUnionExample() returns (answers: seq<bool>)
    ensures answers == Expected
  {
    var uf := new WeightedUnion(10);
    assert uf.treeSize[..] == [1, 1, 1, 1, 1, 1, 1, 1, 1, 1];
    WeightedUnionUnions1(uf);
    WeightedUnionUnions2(uf);
    WeightedUnionUnions3(uf);
    WeightedUnionUnions4(uf);
    TwoTrees(uf.id[..], uf.rank, uf.bound, 1, 7);
    var first := WeightedUnionQueries1(uf);
    var second := WeightedUnionQueries2(uf);
    answers := first + second;
  }

  /** TestUnion on WQUPC: the Unions (0, 1), (1, 2). */
  method WQUPCUnions1(uf: WQUPC)
    requires uf.Valid() && uf.capacity == 10
    requires uf.id[..] == [0, 1, 2, 3, 4, 5, 6, 7, 8, 9] && uf.treeSize[..] == [1, 1, 1, 1, 1, 1, 1, 1, 1, 1]
    modifies uf, uf.id, uf.treeSize
    ensures uf.Valid() && uf.id == old(uf.id) && uf.treeSize == old(uf.treeSize)
    ensures uf.id[..] == [1, 1, 1, 3, 4, 5, 6, 7, 8, 9] && uf.treeSize[..] == [1, 3, 1, 1, 1, 1, 1, 1, 1, 1]
  {
    WQUPCStep(uf, 0, 1, [0, 1, 2, 3, 4, 5, 6, 7, 8, 9], [1, 1, 1, 1, 1, 1, 1, 1, 1, 1],
                        [1, 1, 2, 3, 4, 5, 6, 7, 8, 9], [1, 2, 1, 1, 1, 1, 1, 1, 1, 1]);
    WQUPCStep(uf, 1, 2, [1, 1, 2, 3, 4, 5, 6, 7, 8, 9], [1, 2, 1, 1, 1, 1, 1, 1, 1, 1],
                        [1, 1, 1, 3, 4, 5, 6, 7, 8, 9], [1, 3, 1, 1, 1, 1, 1, 1, 1, 1]);
  }

  /** TestUnion on WQUPC: the Unions (2, 3), (3, 4). */
  method WQUPCUnions2(uf: WQUPC)
    requires uf.Valid() && uf.capacity == 10
    requires uf.id[..] == [1, 1, 1, 3, 4, 5, 6, 7, 8, 9] && uf.treeSize[..] == [1, 3, 1, 1, 1, 1, 1, 1, 1, 1]
    modifies uf, uf.id, uf.treeSize
    ensures uf.Valid() && uf.id == old(uf.id) && uf.treeSize == old(uf.treeSize)
    ensures uf.id[..] == [1, 1, 1, 1, 1, 5, 6, 7, 8, 9] && uf.treeSize[..] == [1, 5, 1, 1, 1, 1, 1, 1, 1, 1]
  {
    WQUPCStep(uf, 2, 3, [1, 1, 1, 3, 4, 5, 6, 7, 8, 9], [1, 3, 1, 1, 1, 1, 1, 1, 1, 1],
                        [1, 1, 1, 1, 4, 5, 6, 7, 8, 9], [1, 4, 1, 1, 1, 1, 1, 1, 1, 1]);
    WQUPCStep(uf, 3, 4, [1, 1, 1, 1, 4, 5, 6, 7, 8, 9], [1, 4, 1, 1, 1, 1, 1, 1, 1, 1],
                        [1, 1, 1, 1, 1, 5, 6, 7, 8, 9], [1, 5, 1, 1, 1, 1, 1, 1, 1, 1]);
  }

  /** TestUnion on WQUPC: the Unions (4, 5), (6, 7). */
  method WQUPCUnions3(uf: WQUPC)
    requires uf.Valid() && uf.capacity == 10
    requires uf.id[..] == [1, 1, 1, 1, 1, 5, 6, 7, 8, 9] && uf.treeSize[..] == [1, 5, 1, 1, 1, 1, 1, 1, 1, 1]
    modifies uf, uf.id, uf.treeSize
    ensures uf.Valid() && uf.id == old(uf.id) && uf.treeSize == old(uf.treeSize)
    ensures uf.id[..] == [1, 1, 1, 1, 1, 1, 7, 7, 8, 9] && uf.treeSize[..] == [1, 6, 1, 1, 1, 1, 1, 2, 1, 1]
  {
    WQUPCStep(uf, 4, 5, [1, 1, 1, 1, 1, 5, 6, 7, 8, 9], [1, 5, 1, 1, 1, 1, 1, 1, 1, 1],
                        [1, 1, 1, 1, 1, 1, 6, 7, 8, 9], [1, 6, 1, 1, 1, 1, 1, 1, 1, 1]);
    WQUPCStep(uf, 6, 7, [1, 1, 1, 1, 1, 1, 6, 7, 8, 9], [1, 6, 1, 1, 1, 1, 1, 1, 1, 1],
                        [1, 1, 1, 1, 1, 1, 7, 7, 8, 9], [1, 6, 1, 1, 1, 1, 1, 2, 1, 1]);
  }

  /** TestUnion on WQUPC: the Unions (7, 8), (8, 9). */
  method WQUPCUnions4(uf: WQUPC)
    requires uf.Valid() && uf.capacity == 10
    requires uf.id[..] == [1, 1, 1, 1, 1, 1, 7, 7, 8, 9] && uf.treeSize[..] == [1, 6, 1, 1, 1, 1, 1, 2, 1, 1]
    modifies uf, uf.id, uf.treeSize
    ensures uf.Valid() && uf.id == old(uf.id) && uf.treeSize == old(uf.treeSize)
    ensures uf.id[..] == [1, 1, 1, 1, 1, 1, 7, 7, 7, 7] && uf.treeSize[..] == [1, 6, 1, 1, 1, 1, 1, 4, 1, 1]
  {
    WQUPCStep(uf, 7, 8, [1, 1, 1, 1, 1, 1, 7, 7, 8, 9], [1, 6, 1, 1, 1, 1, 1, 2, 1, 1],
                        [1, 1, 1, 1, 1, 1, 7, 7, 7, 9], [1, 6, 1, 1, 1, 1, 1, 3, 1, 1]);
    WQUPCStep(uf, 8, 9, [1, 1, 1, 1, 1, 1, 7, 7, 7, 9], [1, 6, 1, 1, 1, 1, 1, 3, 1, 1],
                        [1, 1, 1, 1, 1, 1, 7, 7, 7, 7], [1, 6, 1, 1, 1, 1, 1, 4, 1, 1]);
  }

  /** TestUnion on WQUPC: Connected queries 1 to 4, which compress paths but change no root. */
  method WQUPCQueries1(uf: WQUPC) returns (answers: seq<bool>)
    requires uf.Valid() && uf.capacity == 10
    requires forall x :: 0 <= x < 10 ==> uf.Root(x) == if x < 6 then 1 else 7
    modifies uf.id
    ensures uf.Valid() && forall x :: 0 <= x < 10 ==> uf.Root(x) == if x < 6 then 1 else 7
    ensures answers == Expected[0..4]
  {
    var c0 := uf.Connected(0, 3);
    var c1 := uf.Connected(0, 5);
    var c2 := uf.Connected(2, 3);
    var c3 := uf.Connected(6, 7);
    answers := [c0, c1, c2, c3];
  }

  /** TestUnion on WQUPC: Connected queries 5 to 8, which compress paths but change no root. */
  method WQUPCQueries2(uf: WQUPC) returns (answers: seq<bool>)
    requires uf.Valid() && uf.capacity == 10
    requires forall x :: 0 <= x < 10 ==> uf.Root(x) == if x < 6 then 1 else 7
    modifies uf.id
    ensures uf.Valid() && forall x :: 0 <= x < 10 ==> uf.Root(x) == if x < 6 then 1 else 7
    ensures answers == Expected[4..8]
  {
    var c4 := uf.Connected(6, 9);
    var c5 := uf.Connected(0, 9);
    var c6 := uf.Connected(3, 7);
    var c7 := uf.Connected(5, 6);
    answers := [c4, c5, c6, c7];
  }

  /** TestUnion on WQUPC: the roots end as 1 for nodes 0 to 5 and 7 for nodes 6 to 9. */
  method WQUPCExample() returns (answers: seq<bool>)
    ensures answers == Expected
  {
    var uf := new WQUPC(10);
    assert uf.treeSize[..] == [1, 1, 1, 1, 1, 1, 1, 1, 1, 1];
    WQUPCUnions1(uf);
    WQUPCUnions2(uf);
    WQUPCUnions3(uf);
    WQUPCUnions4(uf);
    TwoTrees(uf.id[..], uf.rank, uf.bound, 1, 7);
    var first := WQUPCQueries1(uf);
    var second := WQUPCQueries2(uf);
    answers := first + second;
  }
}
