/** The Ramsey solver: RamseySolver.cpp. */
module Ramsey {
  import opened Graphs

  /** The binomial coefficient: the number of k-element subsets of an n-element set. */
  ghost function Choose(n: nat, k: nat): nat {
    if k == 0 then 1
    else if n == 0 then 0
    else Choose(n - 1, k - 1) + Choose(n - 1, k)
  }

  /** Growing either part of the sum makes the coefficient no smaller. */
  lemma {:induction false} ChooseMonotone(a: nat, b: nat, a': nat, b': nat)
    requires a <= a' && b <= b'
    ensures Choose(a + b, a) <= Choose(a' + b', a')
    decreases a' + b'
  {
    if a < a' {
      ChooseMonotone(a, b, a' - 1, b');
    } else if b < b' {
      ChooseMonotone(a, b, a', b' - 1);
      assert a' > 0 ==> Choose(a' + b', a') == Choose(a' + b' - 1, a' - 1) + Choose(a' + (b' - 1), a');
    }
  }

  /** get_neighbors: the established nodes adjacent to node, whatever parallel edges and self-loops there are. */
  method GetNeighbors(g: Graph, established: set<nat>, node: nat) returns (result2: set<nat>)
    ensures forall u: nat :: u in result2 <==> u in established && Adjacent(g, node, u)
  {
    var neighbors := AdjEdges(g, node);
    var result1: set<nat> := {};
    for i := 0 to |neighbors|
      invariant forall u :: u in result1 <==>
                exists k :: 0 <= k < i && (neighbors[k].source == u || neighbors[k].target == u)
    {
      result1 := result1 + {neighbors[i].source};
      result1 := result1 + {neighbors[i].target};
    }
    ghost var endpoints := result1;
    result1 := result1 - {node};
    AdjEdgesAre(g, node);
    NeighboursAre(g, node);
    forall u ensures u in result1 <==> u in Neighbours(g, node) {
      if u in result1 {
        var k :| 0 <= k < |neighbors| && (neighbors[k].source == u || neighbors[k].target == u);
        assert neighbors[k] in AdjEdges(g, node) && Other(neighbors[k], node) == u;
      }
      if u in Neighbours(g, node) {
        var e :| e in AdjEdges(g, node) && Other(e, node) == u && u != node;
        var k :| 0 <= k < |neighbors| && neighbors[k] == e;
        assert u in endpoints;
      }
    }

    result2 := {};
    var rest := result1;
    while rest != {}
      invariant rest <= result1
      invariant result2 == set u | u in result1 - rest && u in established
      decreases rest
    {
      var u :| u in rest;
      rest := rest - {u};
      if u in established {
        result2 := result2 + {u};
      }
    }
  }

  /** get_neighbors_complement: the established nodes that are neither node itself nor adjacent to it. */
  method GetNeighborsComplement(g: Graph, established: set<nat>, node: nat) returns (result: set<nat>)
    ensures forall u: nat :: u in result <==> u in established && u != node && !Adjacent(g, node, u)
  {
    result := established - {node};
    var neighbors := GetNeighbors(g, established, node);
    var rest := neighbors;
    while rest != {}
      invariant rest <= neighbors
      invariant result == (established - {node}) - (neighbors - rest)
      decreases rest
    {
      var u :| u in rest;
      rest := rest - {u};
      result := result - {u};
    }
  }

  /** No graph with |nodes| nodes avoids both a clique of the one size and an independent set of the other. */
  ghost predicate RamseyBound(n: nat, c: nat, i: nat) {
    n + 1 <= Choose(c + i, c)
  }

  lemma PivotSplits(g: Graph, nodes: set<nat>, node: nat, near: set<nat>, far: set<nat>)
    requires node in nodes
    requires forall u: nat :: u in near <==> u in nodes && Adjacent(g, node, u)
    requires forall u: nat :: u in far <==> u in nodes && u != node && !Adjacent(g, node, u)
    ensures |near| + |far| + 1 == |nodes|
    ensures near <= nodes && far <= nodes && node !in near && node !in far
  {
    assert !Adjacent(g, node, node);
    assert nodes == near + far + {node};
  }

  lemma ExtendClique(g: Graph, near: set<nat>, node: nat, c: set<nat>)
    requires c <= near && node !in near && IsClique(g, c)
    requires forall u :: u in near ==> Adjacent(g, node, u)
    ensures IsClique(g, c + {node}) && |c + {node}| == |c| + 1
  {
    forall u | u in c ensures Adjacent(g, u, node) {
      AdjacentSymmetric(g, u, node);
    }
  }

  /** Pascal's rule carries the bound from the two parts to the whole. */
  lemma RamseyStep(near: nat, far: nat, c1: nat, i1: nat, c2: nat, i2: nat, c: nat, i: nat)
    requires RamseyBound(near, c1, i1) && RamseyBound(far, c2, i2)
    requires c >= c1 + 1 && c >= c2 && i >= i1 && i >= i2 + 1
    ensures RamseyBound(near + far + 1, c, i)
  {
    ChooseMonotone(c1, i1, c - 1, i);
    ChooseMonotone(c2, i2, c, i - 1);
    assert Choose(c + i, c) == Choose(c - 1 + i, c - 1) + Choose(c + (i - 1), c);
  }

  /** The larger of two sets, the second one in a draw. */
  function Larger(s: set<nat>, t: set<nat>): set<nat> {
    if |s| > |t| then s else t
  }

  /** ramsey: a clique and an independent set inside the given nodes, not both small. The random pivot is any node. */
  method RamseySets(g: Graph, nodes: set<nat>) returns (c: set<nat>, i: set<nat>)
    ensures c <= nodes && IsClique(g, c)
    ensures i <= nodes && Independent(g, i)
    ensures RamseyBound(|nodes|, |c|, |i|)
    ensures nodes != {} ==> c != {} && i != {}
    decreases |nodes|
  {
    if nodes == {} {
      return {}, {};
    }
    var node :| node in nodes;
    var near := GetNeighbors(g, nodes, node);
    var far := GetNeighborsComplement(g, nodes, node);
    PivotSplits(g, nodes, node, near, far);

    var c1, i1 := RamseySets(g, near);
    var c2, i2 := RamseySets(g, far);
    ExtendClique(g, near, node, c1);
    ExtendIndependent(g, i2, node);
    assert node !in i2;
    c := Larger(c1 + {node}, c2);
    i := Larger(i1, i2 + {node});
    RamseyStep(|near|, |far|, |c1|, |i1|, |c2|, |i2|, |c|, |i|);
  }

  lemma RamseyBoundGrows(n: nat, c: nat, i: nat, i': nat)
    requires RamseyBound(n, c, i) && i <= i'
    ensures RamseyBound(n, c, i')
  {
    ChooseMonotone(c, i, c, i');
  }

  // ----- clique removal -----

  ghost function Union(parts: seq<set<nat>>): set<nat> {
    if parts == [] then {} else Union(parts[..|parts| - 1]) + parts[|parts| - 1]
  }

  /** The parts are non-empty cliques that share no node and together make up the nodes. */
  ghost predicate CliqueCover(g: Graph, nodes: set<nat>, parts: seq<set<nat>>) {
    && Union(parts) == nodes
    && (forall k :: 0 <= k < |parts| ==> parts[k] != {} && IsClique(g, parts[k]))
    && (forall j, k :: 0 <= j < k < |parts| ==> parts[j] !! parts[k])
  }

  /** An independent set takes at most one node from each clique. */
  lemma {:induction false} CoverBoundsIndependent(g: Graph, parts: seq<set<nat>>, s: set<nat>)
    requires forall k :: 0 <= k < |parts| ==> IsClique(g, parts[k])
    requires s <= Union(parts) && Independent(g, s)
    ensures |s| <= |parts|
  {
    if parts != [] {
      var last := parts[|parts| - 1];
      CoverBoundsIndependent(g, parts[..|parts| - 1], s - last);
      if x :| x in s && x in last {
        assert s == (s - last) + {x};
      } else {
        assert s == s - last;
      }
    }
  }

  /** The nodes that were left when clique k was found are within the bound that it gives together with an independent
      set of the given size. */
  ghost predicate StageBound(nodes: set<nat>, removed: seq<set<nat>>, k: nat, size: nat)
    requires k < |removed|
  {
    RamseyBound(|nodes - Union(removed[..k])|, |removed[k]|, size)
  }

  ghost predicate StageBounds(nodes: set<nat>, removed: seq<set<nat>>, size: nat) {
    forall k :: 0 <= k < |removed| ==> StageBound(nodes, removed, k, size)
  }

  lemma StageBoundsGrow(nodes: set<nat>, removed: seq<set<nat>>, size: nat, size': nat)
    requires StageBounds(nodes, removed, size) && size <= size'
    ensures StageBounds(nodes, removed, size')
  {
    forall k | 0 <= k < |removed| ensures StageBound(nodes, removed, k, size') {
      assert StageBound(nodes, removed, k, size);
      RamseyBoundGrows(|nodes - Union(removed[..k])|, |removed[k]|, size, size');
    }
  }

  lemma StageBoundKept(nodes: set<nat>, removed: seq<set<nat>>, removed': seq<set<nat>>, k: nat, size: nat)
    requires k < |removed| && k < |removed'| && removed'[..k] == removed[..k] && removed'[k] == removed[k]
    requires StageBound(nodes, removed, k, size)
    ensures StageBound(nodes, removed', k, size)
  {
  }

  lemma StageBoundsNext(nodes: set<nat>, removed: seq<set<nat>>, c: set<nat>, size: nat)
    requires StageBounds(nodes, removed, size) && RamseyBound(|nodes - Union(removed)|, |c|, size)
    ensures StageBounds(nodes, removed + [c], size)
  {
    var next := removed + [c];
    assert next[..|removed|] == removed;
    forall k | 0 <= k < |removed| ensures StageBound(nodes, next, k, size) {
      assert next[..k] == removed[..k];
      StageBoundKept(nodes, removed, next, k, size);
    }
    assert StageBound(nodes, next, |removed|, size);
  }

  lemma ListGrows(first: set<nat>, cliques: seq<set<nat>>, removed: seq<set<nat>>, c: set<nat>, next: set<nat>)
    requires [first] + cliques == removed + [c]
    ensures [first] + (cliques + [next]) == removed + [c] + [next]
  {
    assert [first] + (cliques + [next]) == [first] + cliques + [next];
  }

  lemma {:induction false} PartsWithinUnion(parts: seq<set<nat>>)
    ensures forall k :: 0 <= k < |parts| ==> parts[k] <= Union(parts)
  {
    if parts != [] {
      PartsWithinUnion(parts[..|parts| - 1]);
    }
  }

  lemma CoverGrows(g: Graph, nodes0: set<nat>, nodes: set<nat>, parts: seq<set<nat>>, c: set<nat>)
    requires CliqueCover(g, nodes0 - nodes, parts) && c <= nodes <= nodes0 && c != {} && IsClique(g, c)
    ensures CliqueCover(g, nodes0 - (nodes - c), parts + [c])
  {
    PartsWithinUnion(parts);
    assert (parts + [c])[..|parts|] == parts;
    assert nodes0 - (nodes - c) == (nodes0 - nodes) + c;
  }

  /** The loop of clique_removal, from the clique and the independent set found first. The set difference is taken as it
      comes out when the nodes' addresses ascend with their indices: the code orders its sets by index but computes the
      difference without their comparator. */
  method RemoveCliques(g: Graph, nodes0: set<nat>, c0: set<nat>, i0: set<nat>)
    returns (cliques: seq<set<nat>>, i: set<nat>, ghost removed: seq<set<nat>>)
    requires c0 <= nodes0 && IsClique(g, c0) && (c0 == {} <==> nodes0 == {})
    requires i0 <= nodes0 && Independent(g, i0) && RamseyBound(|nodes0|, |c0|, |i0|)
    ensures CliqueCover(g, nodes0, removed)
    ensures [c0] + cliques == removed + [{}]
    ensures i <= nodes0 && Independent(g, i) && |i0| <= |i| && StageBounds(nodes0, removed, |i|)
  {
    var nodes, c := nodes0, c0;
    cliques, i, removed := [], i0, [];
    while nodes != {}
      invariant c <= nodes && IsClique(g, c) && (c == {} <==> nodes == {})
      invariant nodes <= nodes0 && CliqueCover(g, nodes0 - nodes, removed)
      invariant i <= nodes0 && Independent(g, i) && |i0| <= |i|
      invariant StageBounds(nodes0, removed, |i|) && RamseyBound(|nodes|, |c|, |i|)
      invariant [c0] + cliques == removed + [c]
      decreases nodes
    {
      CoverGrows(g, nodes0, nodes, removed, c);
      ghost var last, before := c, |i|;
      assert nodes0 - Union(removed) == nodes;
      StageBoundsNext(nodes0, removed, last, before);
      nodes := nodes - c;
      var next;
      c, next := RamseySets(g, nodes);
      if |next| > |i| {
        i := next;
      }
      StageBoundsGrow(nodes0, removed + [last], before, |i|);
      RamseyBoundGrows(|nodes|, |c|, |next|, |i|);
      ListGrows(c0, cliques, removed, last, c);
      removed := removed + [last];
      cliques := cliques + [c];
    }
    assert nodes0 - nodes == nodes0;
  }

  lemma CoverCertifies(g: Graph, nodes: set<nat>, parts: seq<set<nat>>)
    requires CliqueCover(g, nodes, parts)
    ensures forall s: set<nat> :: s <= nodes && Independent(g, s) ==> |s| <= |parts|
  {
    forall s: set<nat> | s <= nodes && Independent(g, s) ensures |s| <= |parts| {
      CoverBoundsIndependent(g, parts, s);
    }
  }

  /** clique_removal. The cliques that are removed one after the other cover the nodes; the list that is returned has
      one entry for each, but lacks the first clique and ends with an empty one. */
  method CliqueRemoval(g: Graph, nodes: set<nat>)
    returns (cliques: seq<set<nat>>, i: set<nat>, ghost removed: seq<set<nat>>)
    ensures CliqueCover(g, nodes, removed) && |cliques| == |removed|
    ensures removed != [] ==> [removed[0]] + cliques == removed + [{}]
    ensures i <= nodes && Independent(g, i) && (i == {} <==> nodes == {})
    ensures forall s: set<nat> :: s <= nodes && Independent(g, s) ==> |s| <= |cliques|
    ensures StageBounds(nodes, removed, |i|)
    ensures nodes != {} ==> removed != [] && RamseyBound(|nodes|, |removed[0]|, |i|)
  {
    var c0, i0 := RamseySets(g, nodes);
    cliques, i, removed := RemoveCliques(g, nodes, c0, i0);
    assert |[c0] + cliques| == |removed + [{}]|;
    assert removed != [] ==> ([c0] + cliques)[0] == (removed + [{}])[0];
    CoverCertifies(g, nodes, removed);
    RamseyBoundGrows(|nodes|, |c0|, |i0|, |i|);
  }

  /** The solver as a whole: an independent set of g, with a partition into cliques. None is larger than the number of
      cliques, and the set is as large as every stage of the removal promises. */
  method Solve(g: Graph) returns (result: set<nat>, ghost removed: seq<set<nat>>)
    ensures result <= NodeSet(g) && Independent(g, result) && (result == {} <==> NodeSet(g) == {})
    ensures CliqueCover(g, NodeSet(g), removed) && StageBounds(NodeSet(g), removed, |result|)
    ensures |result| <= |removed|
    ensures forall s: set<nat> :: s <= NodeSet(g) && Independent(g, s) ==> |s| <= |removed|
  {
    var cliques, i, parts := CliqueRemoval(g, NodeSet(g));
    result, removed := i, parts;
  }
}
