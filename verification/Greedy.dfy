/** The greedy solver: GreedySolver.cpp. */
module Greedy {
  import opened Graphs

  /** What node v contributes to the Caro-Wei bound; its degree is the number of edge ends at v. */
  ghost function Share(g: Graph, v: nat): real {
    1.0 / ((EdgeEnds(g, v) + 1) as real)
  }

  /** The Caro-Wei bound for a set of nodes: the sum of 1 / (degree + 1). */
  ghost function CaroWei(g: Graph, s: set<nat>): real {
    if s == {} then 0.0
    else
      var v :| v in s;
      Share(g, v) + CaroWei(g, s - {v})
  }

  /** The sum does not depend on the order in which the nodes are taken. */
  lemma {:induction false} CaroWeiTake(g: Graph, s: set<nat>, v: nat)
    requires v in s
    ensures CaroWei(g, s) == Share(g, v) + CaroWei(g, s - {v})
    decreases s
  {
    var u: nat :| u in s && CaroWei(g, s) == Share(g, u) + CaroWei(g, s - {u});
    if u != v {
      CaroWeiTake(g, s - {u}, v);
      CaroWeiTake(g, s - {v}, u);
      assert s - {u} - {v} == s - {v} - {u};
    }
  }

  lemma {:induction false} CaroWeiAdd(g: Graph, s: set<nat>, t: set<nat>)
    requires s !! t
    ensures CaroWei(g, s + t) == CaroWei(g, s) + CaroWei(g, t)
    decreases t
  {
    if v :| v in t {
      CaroWeiTake(g, t, v);
      CaroWeiTake(g, s + t, v);
      assert s + t - {v} == s + (t - {v});
      CaroWeiAdd(g, s, t - {v});
    } else {
      assert s + t == s;
    }
  }

  /** k times w. */
  ghost function Times(k: nat, w: real): real {
    if k == 0 then 0.0 else Times(k - 1, w) + w
  }

  /** If no node contributes more than w, the sum is at most w for each node. */
  lemma {:induction false} CaroWeiBound(g: Graph, s: set<nat>, w: real)
    requires forall v :: v in s ==> Share(g, v) <= w
    ensures CaroWei(g, s) <= Times(|s|, w)
  {
    if v :| v in s {
      CaroWeiTake(g, s, v);
      CaroWeiBound(g, s - {v}, w);
      assert |s - {v}| == |s| - 1;
    }
  }

  lemma AddFraction(k: nat, n: nat)
    requires n > 0
    ensures k as real / n as real + 1.0 / n as real == (k + 1) as real / n as real
  {
  }

  lemma FractionAtMostOne(k: nat, n: nat)
    requires k <= n && n > 0
    ensures k as real / n as real <= 1.0
  {
  }

  lemma {:induction false} TimesAtMostOne(k: nat, n: nat)
    requires k <= n && n > 0
    ensures Times(k, 1.0 / n as real) == k as real / n as real <= 1.0
  {
    if k > 0 {
      TimesAtMostOne(k - 1, n);
      AddFraction(k - 1, n);
    }
    FractionAtMostOne(k, n);
  }

  lemma ReciprocalMonotone(d: nat, e: nat)
    requires d <= e
    ensures 1.0 / ((e + 1) as real) <= 1.0 / ((d + 1) as real)
  {
  }

  lemma ClosedNeighbourhoodSize(g: Graph, v: nat, s: set<nat>)
    requires forall u :: u in s ==> u == v || Adjacent(g, v, u)
    ensures |s| <= EdgeEnds(g, v) + 1
  {
    NeighboursAre(g, v);
    NeighboursAtMostDegree(g, v);
    DegreeCounts(g, v);
    SubsetSize(s, Neighbours(g, v) + {v});
  }

  /** A node and neighbours of no smaller degree together contribute at most one. */
  lemma ChoicePays(g: Graph, v: nat, s: set<nat>)
    requires forall u :: u in s ==> (u == v || Adjacent(g, v, u)) && EdgeEnds(g, u) >= EdgeEnds(g, v)
    ensures CaroWei(g, s) <= 1.0
  {
    var d, w := EdgeEnds(g, v), Share(g, v);
    forall u | u in s ensures Share(g, u) <= w {
      ReciprocalMonotone(d, EdgeEnds(g, u));
    }
    CaroWeiBound(g, s, w);
    ClosedNeighbourhoodSize(g, v, s);
    TimesAtMostOne(|s|, d + 1);
  }

  lemma {:induction false} MinimumDegree(g: Graph, q: set<nat>) returns (v: nat)
    requires q != {}
    ensures v in q && forall u :: u in q ==> EdgeEnds(g, v) <= EdgeEnds(g, u)
    decreases |q|
  {
    v :| v in q;
    var first, others := v, q - {v};
    if others != {} {
      var w := MinimumDegree(g, others);
      if EdgeEnds(g, w) < EdgeEnds(g, v) {
        v := w;
      }
    }
    assert forall u :: u in q ==> u == first || u in others;
  }

  /** What holds of the queue, the working set and the output between two rounds. */
  ghost predicate GreedyState(g: Graph, queue: set<nat>, working: set<nat>, output: set<nat>) {
    && output <= NodeSet(g) && working <= NodeSet(g) && queue <= NodeSet(g)
    && Independent(g, output)
    // what left the working set was chosen or has a chosen neighbour
    && (forall v :: v in g.nodes && v !in working ==> v in output || exists u :: u in output && Adjacent(g, u, v))
    // what left the queue was decided
    && (forall v :: v in working && v !in queue ==> v in output)
    // what is still open is neither chosen nor next to a chosen node
    && (forall u, v :: u in output && v in working && v in queue ==> u != v && !Adjacent(g, u, v))
  }

  /** What erasing the end points of the edges at node leaves; a node without edges is not erased. */
  ghost predicate Erased(g: Graph, before: set<nat>, after: set<nat>, node: nat) {
    forall u: nat :: u in after <==> u in before && !Adjacent(g, node, u) && (u != node || EdgeEnds(g, node) == 0)
  }

  lemma ChooseNode(g: Graph, queue: set<nat>, working: set<nat>, output: set<nat>, node: nat, after: set<nat>)
    requires GreedyState(g, queue, working, output) && node in queue && node in working
    requires Erased(g, working, after, node)
    ensures GreedyState(g, queue - {node}, after, output + {node})
  {
    var output' := output + {node};
    forall u, v | u in output' && v in output' ensures !Adjacent(g, u, v) {
      AdjacentSymmetric(g, u, v);
    }
    forall v | v in g.nodes && v !in after ensures v in output' || exists u :: u in output' && Adjacent(g, u, v) {
      if v in working {
        assert v == node || Adjacent(g, node, v);
      } else if v !in output {
        var u :| u in output && Adjacent(g, u, v);
        assert u in output';
      }
    }
  }

  lemma SkipNode(g: Graph, queue: set<nat>, working: set<nat>, output: set<nat>, node: nat)
    requires GreedyState(g, queue, working, output) && node !in working
    ensures GreedyState(g, queue - {node}, working, output)
  {
  }

  /** The chosen nodes are as many as the bound asks for the nodes that are no longer open. */
  ghost predicate Pays(g: Graph, open: set<nat>, output: set<nat>) {
    |output| as real >= CaroWei(g, NodeSet(g) - open)
  }

  /** Choosing a node of least degree pays for everything it decides. */
  lemma GreedyStep(g: Graph, before: set<nat>, after: set<nat>, node: nat, output: set<nat>)
    requires after <= before <= NodeSet(g) && Pays(g, before, output) && node !in output
    requires forall u :: u in before - after ==>
             (u == node || Adjacent(g, node, u)) && EdgeEnds(g, node) <= EdgeEnds(g, u)
    ensures Pays(g, after, output + {node})
  {
    ChoicePays(g, node, before - after);
    CaroWeiAdd(g, NodeSet(g) - before, before - after);
    assert NodeSet(g) - before + (before - after) == NodeSet(g) - after;
  }

  method EraseEndpoints(g: Graph, working0: set<nat>, node: nat) returns (working: set<nat>)
    ensures working <= working0 && Erased(g, working0, working, node)
  {
    var neighbors := AdjEdges(g, node);
    working := working0;
    for i := 0 to |neighbors|
      invariant forall u :: u in working <==>
                  u in working0 && forall k :: 0 <= k < i ==> u != neighbors[k].source && u != neighbors[k].target
    {
      working := working - {neighbors[i].source};
      working := working - {neighbors[i].target};
    }
    AdjEdgesAre(g, node);
    NeighboursAre(g, node);
    DegreeCounts(g, node);
    forall u: nat | u in working0
      ensures u in working <==> !Adjacent(g, node, u) && (u != node || EdgeEnds(g, node) == 0)
    {
      if u !in working {
        var k :| 0 <= k < |neighbors| && (u == neighbors[k].source || u == neighbors[k].target);
        assert neighbors[k] in AdjEdges(g, node);
        assert u != node ==> Other(neighbors[k], node) == u;
      }
      if u in Neighbours(g, node) {
        var e :| e in AdjEdges(g, node) && Other(e, node) == u && u != node;
        var k :| 0 <= k < |neighbors| && neighbors[k] == e;
      }
      if |neighbors| > 0 {
        assert neighbors[0] in AdjEdges(g, node);
      }
    }
  }

  /** One round of the loop, for a node just taken from the queue. */
  method Decide(g: Graph, ghost queue: set<nat>, working0: set<nat>, output0: set<nat>, node: nat)
    returns (working: set<nat>, output: set<nat>)
    requires GreedyState(g, queue, working0, output0) && Pays(g, working0 * queue, output0)
    requires node in queue && forall u :: u in queue ==> EdgeEnds(g, node) <= EdgeEnds(g, u)
    ensures GreedyState(g, queue - {node}, working, output) && Pays(g, working * (queue - {node}), output)
  {
    if node !in working0 {
      SkipNode(g, queue, working0, output0, node);
      assert working0 * (queue - {node}) == working0 * queue;
      return working0, output0;
    }
    output := output0 + {node};
    working := EraseEndpoints(g, working0, node);
    ChooseNode(g, queue, working0, output0, node, working);
    GreedyStep(g, working0 * queue, working * (queue - {node}), node, output0);
  }

  lemma DecidedIsMaximal(g: Graph, working: set<nat>, output: set<nat>)
    requires GreedyState(g, {}, working, output)
    ensures MaximalIndependent(g, output)
  {
    DominatingIsMaximal(g, output);
  }

  method PopLeastDegree(g: Graph, queue: set<nat>) returns (node: nat)
    requires queue != {}
    ensures node in queue && forall u :: u in queue ==> EdgeEnds(g, node) <= EdgeEnds(g, u)
  {
    ghost var least := MinimumDegree(g, queue);
    forall u | u in queue ensures Degree(g, u) == EdgeEnds(g, u) {
      DegreeCounts(g, u);
    }
    node :| node in queue && forall u :: u in queue ==> Degree(g, node) <= Degree(g, u);
  }

  /** greedy_independent_set. The priority queue yields a node of least degree; which one among equals is arbitrary. */
  method GreedyIndependentSet(g: Graph) returns (output: set<nat>)
    ensures MaximalIndependent(g, output)
    ensures |output| as real >= CaroWei(g, NodeSet(g))
  {
    var queue, working := NodeSet(g), NodeSet(g);
    output := {};
    assert NodeSet(g) - working * queue == {};
    while queue != {}
      invariant GreedyState(g, queue, working, output) && Pays(g, working * queue, output)
      decreases queue
    {
      var node := PopLeastDegree(g, queue);
      working, output := Decide(g, queue, working, output, node);
      queue := queue - {node};
    }
    assert NodeSet(g) - working * queue == NodeSet(g);
    DecidedIsMaximal(g, working, output);
  }
}
