/** The graphs that the independent set solvers work on: nodes named by their index, and a list of edges in which
    parallel edges and self-loops may occur. */
module Graphs {

  datatype Edge = Edge(source: nat, target: nat)

  datatype Graph = Graph(nodes: seq<nat>, edges: seq<Edge>)

  function Elements(nodes: seq<nat>): set<nat> {
    set v | v in nodes
  }

  function NodeSet(g: Graph): set<nat> {
    Elements(g.nodes)
  }

  ghost predicate Joins(e: Edge, u: nat, v: nat) {
    (e.source == u && e.target == v) || (e.source == v && e.target == u)
  }

  /** u and v are different nodes with an edge between them; self-loops do not matter to independence. */
  ghost predicate Adjacent(g: Graph, u: nat, v: nat) {
    u != v && exists k :: 0 <= k < |g.edges| && Joins(g.edges[k], u, v)
  }

  ghost predicate Independent(g: Graph, s: set<nat>) {
    forall u, v :: u in s && v in s ==> !Adjacent(g, u, v)
  }

  ghost predicate IsClique(g: Graph, s: set<nat>) {
    forall u, v :: u in s && v in s && u != v ==> Adjacent(g, u, v)
  }

  /** Every node of g is in s or has a neighbour in s. */
  ghost predicate Dominating(g: Graph, s: set<nat>) {
    forall v :: v in g.nodes ==> v in s || exists u :: u in s && Adjacent(g, u, v)
  }

  lemma AdjacentSymmetric(g: Graph, u: nat, v: nat)
    ensures Adjacent(g, u, v) <==> Adjacent(g, v, u)
  {
    if Adjacent(g, u, v) {
      var k :| 0 <= k < |g.edges| && Joins(g.edges[k], u, v);
      assert Joins(g.edges[k], v, u);
    }
    if Adjacent(g, v, u) {
      var k :| 0 <= k < |g.edges| && Joins(g.edges[k], v, u);
      assert Joins(g.edges[k], u, v);
    }
  }

  lemma ExtendIndependent(g: Graph, s: set<nat>, v: nat)
    requires Independent(g, s) && forall w :: w in s ==> !Adjacent(g, v, w)
    ensures Independent(g, s + {v})
  {
    forall w | w in s ensures !Adjacent(g, w, v) {
      AdjacentSymmetric(g, v, w);
    }
  }

  /** s is independent, and no node can be added to it. */
  ghost predicate MaximalIndependent(g: Graph, s: set<nat>) {
    && s <= NodeSet(g) && Independent(g, s)
    && forall t: set<nat> :: s <= t <= NodeSet(g) && Independent(g, t) ==> t == s
  }

  lemma DominatingIsMaximal(g: Graph, s: set<nat>)
    requires s <= NodeSet(g) && Independent(g, s) && Dominating(g, s)
    ensures MaximalIndependent(g, s)
  {
    forall t: set<nat> | s <= t <= NodeSet(g) && Independent(g, t) ensures t == s {
      forall v | v in t ensures v in s {
        assert v in g.nodes;
      }
    }
  }

  /** The edges at node v in the order of the edge list, a self-loop counting twice. */
  function AdjEdgesTo(g: Graph, v: nat, k: nat): (es: seq<Edge>)
    requires k <= |g.edges|
  {
    if k == 0 then []
    else
      var e := g.edges[k - 1];
      AdjEdgesTo(g, v, k - 1) + (if e.source == v then [e] else []) + (if e.target == v then [e] else [])
  }

  function AdjEdges(g: Graph, v: nat): seq<Edge> {
    AdjEdgesTo(g, v, |g.edges|)
  }

  function Degree(g: Graph, v: nat): nat {
    |AdjEdges(g, v)|
  }

  function Other(e: Edge, v: nat): nat {
    if e.source == v then e.target else e.source
  }

  lemma {:induction false} AdjEdgesToAre(g: Graph, v: nat, k: nat)
    requires k <= |g.edges|
    ensures forall e :: e in AdjEdgesTo(g, v, k) <==> e in g.edges[..k] && (e.source == v || e.target == v)
  {
    if k > 0 {
      AdjEdgesToAre(g, v, k - 1);
      assert g.edges[..k] == g.edges[..k - 1] + [g.edges[k - 1]];
    }
  }

  lemma AdjEdgesAre(g: Graph, v: nat)
    ensures forall e :: e in AdjEdges(g, v) <==> e in g.edges && (e.source == v || e.target == v)
  {
    AdjEdgesToAre(g, v, |g.edges|);
    assert g.edges[..|g.edges|] == g.edges;
  }

  // ----- how many edges there are at a node -----

  /** The entries that lead from v to nodes outside the set. */
  function CountOutside(es: seq<Edge>, v: nat, except: set<nat>): nat {
    if es == [] then 0
    else CountOutside(es[..|es| - 1], v, except) + if Other(es[|es| - 1], v) in except then 0 else 1
  }

  lemma CountOutsideNext(es: seq<Edge>, e: Edge, v: nat, except: set<nat>)
    ensures CountOutside(es + [e], v, except) == CountOutside(es, v, except) + if Other(e, v) in except then 0 else 1
  {
    assert (es + [e])[..|es|] == es;
  }

  lemma {:induction false} CountOutsideNothing(es: seq<Edge>, v: nat)
    ensures CountOutside(es, v, {}) == |es|
  {
    if es != [] {
      CountOutsideNothing(es[..|es| - 1], v);
    }
  }

  /** The places below k in the edge list at which an edge goes from v to a node outside the set. */
  ghost function Leaving(g: Graph, v: nat, except: set<nat>, k: nat): set<nat>
    requires k <= |g.edges|
  {
    set i: nat | i < k && g.edges[i].source == v && g.edges[i].target !in except
  }

  /** The places below k at which an edge comes to v from a node outside the set. */
  ghost function Entering(g: Graph, v: nat, except: set<nat>, k: nat): set<nat>
    requires k <= |g.edges|
  {
    set i: nat | i < k && g.edges[i].target == v && g.edges[i].source !in except
  }

  ghost function OutsideTo(g: Graph, v: nat, except: set<nat>, k: nat): nat
    requires k <= |g.edges|
  {
    |Leaving(g, v, except, k)| + |Entering(g, v, except, k)|
  }

  /** How many edges join v and nodes outside the set; a self-loop counts twice. */
  ghost function EdgesOutside(g: Graph, v: nat, except: set<nat>): nat {
    OutsideTo(g, v, except, |g.edges|)
  }

  /** One if the edge goes from v to a node outside the set. */
  function LeavesBy(e: Edge, v: nat, except: set<nat>): nat {
    if e.source == v && e.target !in except then 1 else 0
  }

  /** One if it comes to v from there. */
  function EntersBy(e: Edge, v: nat, except: set<nat>): nat {
    if e.target == v && e.source !in except then 1 else 0
  }

  lemma LeavingIs(g: Graph, v: nat, except: set<nat>, k: nat)
    requires k < |g.edges|
    ensures Leaving(g, v, except, k + 1) ==
            if LeavesBy(g.edges[k], v, except) == 1 then Leaving(g, v, except, k) + {k} else Leaving(g, v, except, k)
  {
  }

  lemma LeavingNext(g: Graph, v: nat, except: set<nat>, k: nat)
    requires k < |g.edges|
    ensures |Leaving(g, v, except, k + 1)| == |Leaving(g, v, except, k)| + LeavesBy(g.edges[k], v, except)
  {
    LeavingIs(g, v, except, k);
    assert k !in Leaving(g, v, except, k);
  }

  lemma EnteringIs(g: Graph, v: nat, except: set<nat>, k: nat)
    requires k < |g.edges|
    ensures Entering(g, v, except, k + 1) ==
            if EntersBy(g.edges[k], v, except) == 1 then Entering(g, v, except, k) + {k} else Entering(g, v, except, k)
  {
  }

  lemma EnteringNext(g: Graph, v: nat, except: set<nat>, k: nat)
    requires k < |g.edges|
    ensures |Entering(g, v, except, k + 1)| == |Entering(g, v, except, k)| + EntersBy(g.edges[k], v, except)
  {
    EnteringIs(g, v, except, k);
    assert k !in Entering(g, v, except, k);
  }

  lemma AdjEdgesNext(g: Graph, v: nat, except: set<nat>, k: nat)
    requires k < |g.edges|
    ensures CountOutside(AdjEdgesTo(g, v, k + 1), v, except) ==
            CountOutside(AdjEdgesTo(g, v, k), v, except) + LeavesBy(g.edges[k], v, except)
                                                         + EntersBy(g.edges[k], v, except)
  {
    var e, es := g.edges[k], AdjEdgesTo(g, v, k);
    var es' := es + (if e.source == v then [e] else []);
    if e.source == v {
      CountOutsideNext(es, e, v, except);
    } else {
      assert es' == es;
    }
    if e.target == v {
      CountOutsideNext(es', e, v, except);
    } else {
      assert AdjEdgesTo(g, v, k + 1) == es';
    }
  }

  lemma OutsideNone(g: Graph, v: nat, except: set<nat>)
    ensures OutsideTo(g, v, except, 0) == 0
  {
    assert Leaving(g, v, except, 0) == {} && Entering(g, v, except, 0) == {};
  }

  lemma OutsideNext(g: Graph, v: nat, except: set<nat>, k: nat)
    requires k < |g.edges|
    ensures OutsideTo(g, v, except, k + 1) ==
            OutsideTo(g, v, except, k) + LeavesBy(g.edges[k], v, except) + EntersBy(g.edges[k], v, except)
  {
    LeavingNext(g, v, except, k);
    EnteringNext(g, v, except, k);
  }

  lemma {:induction false} CountOutsideTo(g: Graph, v: nat, except: set<nat>, k: nat)
    requires k <= |g.edges|
    ensures CountOutside(AdjEdgesTo(g, v, k), v, except) == OutsideTo(g, v, except, k)
  {
    if k == 0 {
      OutsideNone(g, v, except);
    } else {
      var before := k - 1;
      CountOutsideTo(g, v, except, before);
      OutsideNext(g, v, except, before);
      AdjEdgesNext(g, v, except, before);
    }
  }

  /** The entries at v that lead outside the set are as many as the edge list has edges there. */
  lemma OutsideCounts(g: Graph, v: nat, except: set<nat>)
    ensures CountOutside(AdjEdges(g, v), v, except) == EdgesOutside(g, v, except)
  {
    CountOutsideTo(g, v, except, |g.edges|);
  }

  /** The number of edges that start at v and of those that end there. */
  ghost function EdgeEnds(g: Graph, v: nat): nat {
    |set k: nat | k < |g.edges| && g.edges[k].source == v| + |set k: nat | k < |g.edges| && g.edges[k].target == v|
  }

  /** The degree counts every edge once for each of its ends at v. */
  lemma DegreeCounts(g: Graph, v: nat)
    ensures Degree(g, v) == EdgeEnds(g, v) == EdgesOutside(g, v, {})
  {
    OutsideCounts(g, v, {});
    CountOutsideNothing(AdjEdges(g, v), v);
    assert Leaving(g, v, {}, |g.edges|) == set k: nat | k < |g.edges| && g.edges[k].source == v;
    assert Entering(g, v, {}, |g.edges|) == set k: nat | k < |g.edges| && g.edges[k].target == v;
  }

  /** The nodes adjacent to v. */
  ghost function Neighbours(g: Graph, v: nat): set<nat> {
    set e | e in AdjEdges(g, v) && Other(e, v) != v :: Other(e, v)
  }

  lemma NeighboursAre(g: Graph, v: nat)
    ensures forall u :: u in Neighbours(g, v) <==> Adjacent(g, v, u)
  {
    AdjEdgesAre(g, v);
    forall u | Adjacent(g, v, u) ensures u in Neighbours(g, v) {
      var k :| 0 <= k < |g.edges| && Joins(g.edges[k], v, u);
      assert g.edges[k] in AdjEdges(g, v);
    }
    forall u | u in Neighbours(g, v) ensures Adjacent(g, v, u) {
      var e :| e in AdjEdges(g, v) && Other(e, v) == u && u != v;
      var k :| 0 <= k < |g.edges| && g.edges[k] == e;
      assert Joins(g.edges[k], v, u);
    }
  }

  lemma {:induction false} SubsetSize(s: set<nat>, t: set<nat>)
    requires s <= t
    ensures |s| <= |t|
  {
    if x :| x in s {
      SubsetSize(s - {x}, t - {x});
    }
  }

  lemma {:induction false} OthersAtMostLength(es: seq<Edge>, v: nat)
    ensures |set e | e in es && Other(e, v) != v :: Other(e, v)| <= |es|
  {
    var s := set e | e in es && Other(e, v) != v :: Other(e, v);
    if es == [] {
      assert s == {};
    } else {
      var rest := es[..|es| - 1];
      var t := set e | e in rest && Other(e, v) != v :: Other(e, v);
      OthersAtMostLength(rest, v);
      assert s <= t + {Other(es[|es| - 1], v)};
      SubsetSize(s, t + {Other(es[|es| - 1], v)});
    }
  }

  lemma NeighboursAtMostDegree(g: Graph, v: nat)
    ensures |Neighbours(g, v)| <= Degree(g, v)
  {
    OthersAtMostLength(AdjEdges(g, v), v);
  }

  /** What f takes distinct places to is as many as the places are. */
  lemma {:induction false} ImageSize(s: set<nat>, f: seq<nat>, t: set<nat>)
    requires forall i :: i in s ==> i < |f| && f[i] in t
    requires forall i, j :: i in s && j in s && f[i] == f[j] ==> i == j
    requires forall x :: x in t ==> exists i :: i in s && f[i] == x
    ensures |t| == |s|
  {
    if i :| i in s {
      ImageSize(s - {i}, f, t - {f[i]});
    } else {
      assert t == {};
    }
  }

  ghost predicate NoLoops(g: Graph) {
    forall e :: e in g.edges ==> e.source != e.target
  }

  /** No edge is stored twice in the same direction. */
  ghost predicate NoRepeats(g: Graph) {
    forall i, j :: 0 <= i < |g.edges| && 0 <= j < |g.edges| && g.edges[i] == g.edges[j] ==> i == j
  }

  /** Every edge is stored in both directions. */
  ghost predicate SymmetricEdges(g: Graph) {
    forall e :: e in g.edges ==> Edge(e.target, e.source) in g.edges
  }

  /** No two nodes are joined by more than one edge, whatever its direction. */
  ghost predicate NoParallels(g: Graph) {
    forall i, j :: 0 <= i < j < |g.edges| ==> !Joins(g.edges[i], g.edges[j].source, g.edges[j].target)
  }

  lemma OutsideByPlace(g: Graph, v: nat, except: set<nat>, x: nat)
    requires NoLoops(g) && SymmetricEdges(g)
    ensures x in Neighbours(g, v) - except <==>
            exists i :: i in Leaving(g, v, except, |g.edges|) && g.edges[i].target == x
    ensures x in Neighbours(g, v) - except <==>
            exists i :: i in Entering(g, v, except, |g.edges|) && g.edges[i].source == x
  {
    NeighboursAre(g, v);
    if x in Neighbours(g, v) - except {
      var k :| 0 <= k < |g.edges| && Joins(g.edges[k], v, x);
      assert g.edges[k] in g.edges && Edge(v, x) in g.edges && Edge(x, v) in g.edges;
      var i: nat :| i < |g.edges| && g.edges[i] == Edge(v, x);
      var j: nat :| j < |g.edges| && g.edges[j] == Edge(x, v);
      assert i in Leaving(g, v, except, |g.edges|) && j in Entering(g, v, except, |g.edges|);
    }
    if i :| i in Leaving(g, v, except, |g.edges|) && g.edges[i].target == x {
      assert Joins(g.edges[i], v, x);
    }
    if i :| i in Entering(g, v, except, |g.edges|) && g.edges[i].source == x {
      assert Joins(g.edges[i], v, x);
    }
  }

  lemma LeavingSize(g: Graph, v: nat, except: set<nat>)
    requires NoLoops(g) && NoRepeats(g) && SymmetricEdges(g)
    ensures |Leaving(g, v, except, |g.edges|)| == |Neighbours(g, v) - except|
  {
    var s := Leaving(g, v, except, |g.edges|);
    var targets := seq(|g.edges|, i requires 0 <= i < |g.edges| => g.edges[i].target);
    forall i | i in s ensures targets[i] in Neighbours(g, v) - except {
      OutsideByPlace(g, v, except, targets[i]);
    }
    forall x | x in Neighbours(g, v) - except ensures exists i :: i in s && targets[i] == x {
      OutsideByPlace(g, v, except, x);
      var i :| i in s && g.edges[i].target == x;
      assert targets[i] == x;
    }
    ImageSize(s, targets, Neighbours(g, v) - except);
  }

  lemma EnteringSize(g: Graph, v: nat, except: set<nat>)
    requires NoLoops(g) && NoRepeats(g) && SymmetricEdges(g)
    ensures |Entering(g, v, except, |g.edges|)| == |Neighbours(g, v) - except|
  {
    var s := Entering(g, v, except, |g.edges|);
    var sources := seq(|g.edges|, i requires 0 <= i < |g.edges| => g.edges[i].source);
    forall i | i in s ensures sources[i] in Neighbours(g, v) - except {
      OutsideByPlace(g, v, except, sources[i]);
    }
    forall x | x in Neighbours(g, v) - except ensures exists i :: i in s && sources[i] == x {
      OutsideByPlace(g, v, except, x);
      var i :| i in s && g.edges[i].source == x;
      assert sources[i] == x;
    }
    ImageSize(s, sources, Neighbours(g, v) - except);
  }

  /** Without loops and repeats, and with edges in both directions, each neighbour outside the set accounts for one edge
      that leaves v and one that comes back. */
  lemma OutsideIsTwice(g: Graph, v: nat, except: set<nat>)
    requires NoLoops(g) && NoRepeats(g) && SymmetricEdges(g)
    ensures EdgesOutside(g, v, except) == 2 * |Neighbours(g, v) - except|
  {
    LeavingSize(g, v, except);
    EnteringSize(g, v, except);
  }

  lemma NeighbourByPlace(g: Graph, v: nat, x: nat)
    requires NoLoops(g)
    ensures x in Neighbours(g, v) <==>
            exists i :: i in Leaving(g, v, {}, |g.edges|) + Entering(g, v, {}, |g.edges|) && Other(g.edges[i], v) == x
  {
    NeighboursAre(g, v);
    var places := Leaving(g, v, {}, |g.edges|) + Entering(g, v, {}, |g.edges|);
    if x in Neighbours(g, v) {
      var k: nat :| k < |g.edges| && Joins(g.edges[k], v, x);
      assert k in places && Other(g.edges[k], v) == x;
    }
    if i :| i in places && Other(g.edges[i], v) == x {
      assert Joins(g.edges[i], v, x) && g.edges[i] in g.edges;
    }
  }

  lemma OneWayOnly(g: Graph, v: nat, i: nat, j: nat)
    requires NoLoops(g) && NoParallels(g) && i < |g.edges| && j < |g.edges|
    requires i in Leaving(g, v, {}, |g.edges|) + Entering(g, v, {}, |g.edges|)
    requires j in Leaving(g, v, {}, |g.edges|) + Entering(g, v, {}, |g.edges|)
    ensures Other(g.edges[i], v) == Other(g.edges[j], v) ==> i == j
  {
    if Other(g.edges[i], v) == Other(g.edges[j], v) {
      assert g.edges[i] in g.edges && g.edges[j] in g.edges;
      assert Joins(g.edges[i], g.edges[j].source, g.edges[j].target);
      assert Joins(g.edges[j], g.edges[i].source, g.edges[i].target);
    }
  }

  lemma LeavingOrEntering(g: Graph, v: nat)
    requires NoLoops(g)
    ensures |Leaving(g, v, {}, |g.edges|) + Entering(g, v, {}, |g.edges|)| == EdgesOutside(g, v, {})
  {
    var leaving, entering := Leaving(g, v, {}, |g.edges|), Entering(g, v, {}, |g.edges|);
    forall i | i in leaving ensures i !in entering {
      assert g.edges[i] in g.edges;
    }
  }

  /** Without loops and parallel edges the degree is the number of neighbours. */
  lemma DegreeIsNeighbours(g: Graph, v: nat)
    requires NoLoops(g) && NoParallels(g)
    ensures EdgeEnds(g, v) == |Neighbours(g, v)|
  {
    var s := Leaving(g, v, {}, |g.edges|) + Entering(g, v, {}, |g.edges|);
    var others := seq(|g.edges|, i requires 0 <= i < |g.edges| => Other(g.edges[i], v));
    forall i | i in s ensures others[i] in Neighbours(g, v) {
      NeighbourByPlace(g, v, others[i]);
    }
    forall i, j | i in s && j in s && others[i] == others[j] ensures i == j {
      OneWayOnly(g, v, i, j);
    }
    forall x | x in Neighbours(g, v) ensures exists i :: i in s && others[i] == x {
      NeighbourByPlace(g, v, x);
      var i :| i in s && Other(g.edges[i], v) == x;
      assert others[i] == x;
    }
    ImageSize(s, others, Neighbours(g, v));
    LeavingOrEntering(g, v);
    DegreeCounts(g, v);
  }

  lemma {:induction false} ElementsAtMostLength(nodes: seq<nat>)
    ensures |Elements(nodes)| <= |nodes|
  {
    if nodes != [] {
      var rest, last := nodes[..|nodes| - 1], nodes[|nodes| - 1];
      ElementsAtMostLength(rest);
      assert nodes == rest + [last];
      assert Elements(nodes) == Elements(rest) + {last};
    }
  }
}
