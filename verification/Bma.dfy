/** The independent set solver in the style of the Bellman-Ford algorithm: BMASolver.cpp. */
module Bma {
  import opened Graphs

  datatype Cost = Infinite | Finite(value: nat)

  /** One round of the relaxation: for each node the set it excludes, its predecessor in the round before, and its
      cost. */
  datatype Round = Round(exclude: map<nat, set<nat>>, previous: map<nat, nat>, cost: map<nat, Cost>)

  datatype Result = Found(s: set<nat>) | NoResultPath

  ghost function Closed(g: Graph, v: nat): set<nat> {
    Neighbours(g, v) + {v}
  }

  ghost predicate HasCost(r: Round, v: nat) {
    v in r.cost && r.cost[v].Finite?
  }

  ghost predicate NoCosts(r: Round) {
    forall v :: v in r.cost ==> r.cost[v].Infinite?
  }

  ghost predicate Complete(g: Graph, r: Round) {
    forall v :: v in g.nodes ==> v in r.cost && v in r.exclude
  }

  /** The cost of going on from u to v: one for v and one for each edge between v and nodes not excluded yet. */
  ghost function StepCost(g: Graph, cur: Round, u: nat, v: nat): nat
    requires HasCost(cur, u) && u in cur.exclude
  {
    cur.cost[u].value + 1 + EdgesOutside(g, v, cur.exclude[u])
  }

  /** What one relaxation of the pair (u, v) makes of the next round. */
  ghost function RelaxStep(g: Graph, cur: Round, next: Round, u: nat, v: nat): Round
    requires u in cur.cost && u in cur.exclude && v in next.cost
  {
    if HasCost(cur, u) && (next.cost[v].Infinite? || next.cost[v].value > StepCost(g, cur, u, v)) then
      Round(next.exclude[v := cur.exclude[u] + Closed(g, v)], next.previous[v := u],
            next.cost[v := Finite(StepCost(g, cur, u, v))])
    else next
  }

  /** The nodes outside the set, in their order. */
  function Included(nodes: seq<nat>, exclude: set<nat>): (r: seq<nat>)
    ensures forall v :: v in r <==> v in nodes && v !in exclude
  {
    if nodes == [] then []
    else
      var rest := Included(nodes[..|nodes| - 1], exclude);
      if nodes[|nodes| - 1] in exclude then rest else rest + [nodes[|nodes| - 1]]
  }

  /** The relaxation of the pairs of u with the nodes of vs, in that order. */
  ghost function RelaxMany(g: Graph, cur: Round, next: Round, u: nat, vs: seq<nat>): (r: Round)
    requires u in cur.cost && u in cur.exclude && forall v :: v in vs ==> v in next.cost
    ensures next.cost.Keys <= r.cost.Keys && next.exclude.Keys <= r.exclude.Keys
  {
    if vs == [] then next
    else RelaxStep(g, cur, RelaxMany(g, cur, next, u, vs[..|vs| - 1]), u, vs[|vs| - 1])
  }

  /** The relaxation of all pairs whose first node is in us, in the order of the loops. */
  ghost function RelaxNodes(g: Graph, cur: Round, next: Round, us: seq<nat>): (r: Round)
    requires Complete(g, cur) && Complete(g, next) && forall u :: u in us ==> u in g.nodes
    ensures next.cost.Keys <= r.cost.Keys && next.exclude.Keys <= r.exclude.Keys
  {
    if us == [] then next
    else
      var u := us[|us| - 1];
      RelaxMany(g, cur, RelaxNodes(g, cur, next, us[..|us| - 1]), u, Included(g.nodes, cur.exclude[u]))
  }

  // ----- invariants -----

  ghost predicate FirstRound(g: Graph, r: Round) {
    forall v :: v in g.nodes ==>
      (HasCost(r, v) && v in r.exclude && r.exclude[v] == Closed(g, v) && r.cost[v].value == |Closed(g, v)|)
  }

  /** The predecessor of v in the next round reached v with the cost and the excluded set recorded there. */
  ghost predicate Linked(g: Graph, cur: Round, next: Round, v: nat) {
    && v in g.nodes && v in next.previous && v in next.exclude && HasCost(next, v)
    && var u := next.previous[v];
       && u in g.nodes && HasCost(cur, u) && u in cur.exclude && v !in cur.exclude[u]
       && next.exclude[v] == cur.exclude[u] + Closed(g, v)
       && next.cost[v].value == StepCost(g, cur, u, v)
  }

  ghost predicate AllLinked(g: Graph, cur: Round, next: Round) {
    forall v :: HasCost(next, v) ==> Linked(g, cur, next, v)
  }

  /** Going on from u to v would not be cheaper than what the next round records for v. */
  ghost predicate Settled(g: Graph, cur: Round, next: Round, u: nat, v: nat) {
    HasCost(cur, u) && u in cur.exclude && v !in cur.exclude[u] ==>
      HasCost(next, v) && next.cost[v].value <= StepCost(g, cur, u, v)
  }

  ghost predicate AllSettled(g: Graph, cur: Round, next: Round) {
    forall u, v :: u in g.nodes && v in g.nodes ==> Settled(g, cur, next, u, v)
  }

  /** Going on from u to v would cost more than what the next round records for v. */
  ghost predicate Dearer(g: Graph, cur: Round, next: Round, u: nat, v: nat)
    requires HasCost(next, v)
  {
    HasCost(cur, u) && u in cur.exclude && v !in cur.exclude[u] ==> StepCost(g, cur, u, v) > next.cost[v].value
  }

  /** The predecessor of v is the first of the nodes us that offers the recorded cost. */
  ghost predicate FirstOffer(g: Graph, cur: Round, next: Round, us: seq<nat>, v: nat)
    requires HasCost(next, v)
  {
    && v in next.previous
    && exists i :: 0 <= i < |us| && us[i] == next.previous[v]
                   && forall j :: 0 <= j < i ==> Dearer(g, cur, next, us[j], v)
  }

  ghost predicate AllFirst(g: Graph, cur: Round, next: Round, us: seq<nat>) {
    forall v :: HasCost(next, v) ==> FirstOffer(g, cur, next, us, v)
  }

  ghost predicate RoundDone(g: Graph, rounds: seq<Round>, i: nat)
    requires i + 1 < |rounds|
  {
    && AllLinked(g, rounds[i], rounds[i + 1]) && AllSettled(g, rounds[i], rounds[i + 1])
    && AllFirst(g, rounds[i], rounds[i + 1], g.nodes)
  }

  /** Rounds 0 to k are as the relaxation leaves them. */
  ghost predicate Relaxed(g: Graph, rounds: seq<Round>, k: nat) {
    && k < |rounds| && FirstRound(g, rounds[0])
    && (forall v :: HasCost(rounds[0], v) ==> v in g.nodes)
    && forall i :: 0 <= i < k ==> RoundDone(g, rounds, i)
  }

  /** The nodes met when following the predecessors from v in round k down to round 0. */
  ghost function Chain(rounds: seq<Round>, k: nat, v: nat): set<nat>
    requires k < |rounds|
  {
    if k == 0 || v !in rounds[k].previous then {v} else Chain(rounds, k - 1, rounds[k].previous[v]) + {v}
  }

  /** x is in the closed neighbourhood of a member of s. */
  ghost predicate Covered(g: Graph, s: set<nat>, x: nat) {
    exists w :: w in s && (x == w || Adjacent(g, w, x))
  }

  /** s is an independent set of k + 1 nodes, and excluded the union of their closed neighbourhoods. */
  ghost predicate IsChain(g: Graph, s: set<nat>, excluded: set<nat>, k: nat) {
    && s <= NodeSet(g) && Independent(g, s) && |s| == k + 1
    && forall x: nat :: x in excluded <==> Covered(g, s, x)
  }

  ghost predicate EndsChain(g: Graph, rounds: seq<Round>, k: nat, v: nat)
    requires k < |rounds|
  {
    v in rounds[k].exclude && IsChain(g, Chain(rounds, k, v), rounds[k].exclude[v], k)
  }

  lemma LinkedInto(g: Graph, rounds: seq<Round>, k: nat, v: nat)
    requires Relaxed(g, rounds, k) && HasCost(rounds[k], v) && k > 0
    ensures Linked(g, rounds[k - 1], rounds[k], v)
  {
    assert RoundDone(g, rounds, k - 1);
  }

  lemma CoveredByMore(g: Graph, s: set<nat>, v: nat, x: nat)
    ensures Covered(g, s + {v}, x) <==> Covered(g, s, x) || x in Closed(g, v)
  {
    NeighboursAre(g, v);
    if Covered(g, s, x) {
      var w :| w in s && (x == w || Adjacent(g, w, x));
      assert w in s + {v};
    }
    if x in Closed(g, v) {
      assert v in s + {v};
    }
  }

  lemma ExtendChain(g: Graph, s: set<nat>, excluded: set<nat>, v: nat, k: nat)
    requires v in g.nodes && IsChain(g, s, excluded, k) && v !in excluded
    ensures IsChain(g, s + {v}, excluded + Closed(g, v), k + 1)
  {
    assert !Covered(g, s, v);
    forall w | w in s ensures w != v && !Adjacent(g, v, w) {
      AdjacentSymmetric(g, v, w);
    }
    ExtendIndependent(g, s, v);
    forall x: nat ensures x in excluded + Closed(g, v) <==> Covered(g, s + {v}, x) {
      CoveredByMore(g, s, v, x);
    }
  }

  lemma ChainGrows(g: Graph, rounds: seq<Round>, k: nat, v: nat)
    requires Relaxed(g, rounds, k) && HasCost(rounds[k], v) && k > 0 && v in rounds[k].previous
    requires EndsChain(g, rounds, k - 1, rounds[k].previous[v])
    ensures EndsChain(g, rounds, k, v)
  {
    LinkedInto(g, rounds, k, v);
    var u := rounds[k].previous[v];
    var s, excluded := Chain(rounds, k - 1, u), rounds[k - 1].exclude[u];
    ExtendChain(g, s, excluded, v, k - 1);
    assert Chain(rounds, k, v) == s + {v};
  }

  lemma StartChain(g: Graph, v: nat)
    ensures Independent(g, {v}) && forall x: nat :: x in Closed(g, v) <==> Covered(g, {v}, x)
  {
    NeighboursAre(g, v);
    forall x: nat ensures x in Closed(g, v) <==> Covered(g, {v}, x) {
      if x in Closed(g, v) {
        assert v in {v};
      }
    }
  }

  lemma FirstChain(g: Graph, rounds: seq<Round>, v: nat)
    requires Relaxed(g, rounds, 0) && HasCost(rounds[0], v)
    ensures EndsChain(g, rounds, 0, v)
  {
    StartChain(g, v);
  }

  /** A chain consists of one more node than the number of its round, no two of them equal or adjacent, and the excluded
      set recorded at its end is the union of their closed neighbourhoods. */
  lemma {:induction false} ChainInvariant(g: Graph, rounds: seq<Round>, k: nat, v: nat)
    requires Relaxed(g, rounds, k) && HasCost(rounds[k], v)
    ensures EndsChain(g, rounds, k, v)
  {
    if k == 0 {
      FirstChain(g, rounds, v);
    } else {
      LinkedInto(g, rounds, k, v);
      ChainInvariant(g, rounds, k - 1, rounds[k].previous[v]);
      ChainGrows(g, rounds, k, v);
    }
  }

  /** No chain is longer than the graph has nodes. */
  lemma RoundsAreFew(g: Graph, rounds: seq<Round>, k: nat, v: nat)
    requires Relaxed(g, rounds, k) && HasCost(rounds[k], v)
    ensures k < |g.nodes|
  {
    var s := Chain(rounds, k, v);
    ChainInvariant(g, rounds, k, v);
    SubsetSize(s, NodeSet(g));
    ElementsAtMostLength(g.nodes);
  }

  lemma CostedIsNode(g: Graph, rounds: seq<Round>, k: nat, v: nat)
    requires Relaxed(g, rounds, k) && HasCost(rounds[k], v)
    ensures v in g.nodes
  {
    if k > 0 {
      LinkedInto(g, rounds, k, v);
    }
  }

  /** A node that v cannot go on to is excluded by v. */
  lemma NowhereToGo(g: Graph, cur: Round, next: Round, v: nat, x: nat)
    requires AllSettled(g, cur, next) && NoCosts(next) && HasCost(cur, v) && v in cur.exclude
    requires v in g.nodes && x in g.nodes
    ensures x in cur.exclude[v]
  {
    assert Settled(g, cur, next, v, x);
  }

  /** When no node can be reached in the next round, every chain of the last one dominates the graph. */
  lemma LastChainIsMaximal(g: Graph, rounds: seq<Round>, k: nat, v: nat)
    requires Relaxed(g, rounds, k + 1) && HasCost(rounds[k], v)
    requires NoCosts(rounds[k + 1])
    ensures MaximalIndependent(g, Chain(rounds, k, v))
  {
    ChainInvariant(g, rounds, k, v);
    CostedIsNode(g, rounds, k, v);
    var s := Chain(rounds, k, v);
    forall x | x in g.nodes ensures x in s || exists u :: u in s && Adjacent(g, u, x) {
      assert RoundDone(g, rounds, k);
      NowhereToGo(g, rounds[k], rounds[k + 1], v, x);
      assert Covered(g, s, x);
    }
    DominatingIsMaximal(g, s);
  }

  // ----- what a recorded cost is -----

  /** The nodes of the chain, from round 0 on. */
  ghost function Path(rounds: seq<Round>, k: nat, v: nat): (path: seq<nat>)
    requires k < |rounds|
    ensures path != [] && path[|path| - 1] == v
  {
    if k == 0 || v !in rounds[k].previous then [v] else Path(rounds, k - 1, rounds[k].previous[v]) + [v]
  }

  /** The nodes of the path and all their neighbours. */
  ghost function ClosedAll(g: Graph, path: seq<nat>): set<nat> {
    if path == [] then {} else ClosedAll(g, path[..|path| - 1]) + Closed(g, path[|path| - 1])
  }

  /** The first node costs the size of its closed neighbourhood; every other one costs one, and one for each edge to a
      node that is neither on the path before it nor next to it. */
  ghost function PathCost(g: Graph, path: seq<nat>): nat
    requires path != []
  {
    var rest, v := path[..|path| - 1], path[|path| - 1];
    if rest == [] then |Closed(g, v)| else PathCost(g, rest) + 1 + EdgesOutside(g, v, ClosedAll(g, rest))
  }

  /** No node of the path is on the path before it or next to it. */
  ghost predicate Spread(g: Graph, path: seq<nat>) {
    forall i :: 0 <= i < |path| ==> path[i] !in ClosedAll(g, path[..i])
  }

  lemma SpreadNext(g: Graph, path: seq<nat>, v: nat)
    requires Spread(g, path) && v !in ClosedAll(g, path)
    ensures Spread(g, path + [v])
  {
    forall i | 0 <= i < |path + [v]| ensures (path + [v])[i] !in ClosedAll(g, (path + [v])[..i]) {
      assert (path + [v])[..i] == path[..i];
      assert path[..|path|] == path;
    }
  }

  /** What round k records for v: the cost of the path that leads there and everything that it excludes. */
  ghost predicate RecordsPath(g: Graph, rounds: seq<Round>, k: nat, v: nat)
    requires k < |rounds|
  {
    var path := Path(rounds, k, v);
    && |path| == k + 1 && Elements(path) == Chain(rounds, k, v) && Spread(g, path)
    && v in rounds[k].exclude && rounds[k].exclude[v] == ClosedAll(g, path)
    && HasCost(rounds[k], v) && rounds[k].cost[v].value == PathCost(g, path)
  }

  lemma PathStarts(g: Graph, rounds: seq<Round>, v: nat)
    requires Relaxed(g, rounds, 0) && HasCost(rounds[0], v)
    ensures RecordsPath(g, rounds, 0, v)
  {
    assert [v][..0] == [];
    assert ClosedAll(g, [v]) == {} + Closed(g, v);
  }

  lemma PathGrows(g: Graph, rounds: seq<Round>, k: nat, v: nat)
    requires Relaxed(g, rounds, k) && HasCost(rounds[k], v) && k > 0
    requires v in rounds[k].previous && RecordsPath(g, rounds, k - 1, rounds[k].previous[v])
    ensures RecordsPath(g, rounds, k, v)
  {
    LinkedInto(g, rounds, k, v);
    var rest := Path(rounds, k - 1, rounds[k].previous[v]);
    assert (rest + [v])[..|rest|] == rest;
    SpreadNext(g, rest, v);
    assert Elements(rest + [v]) == Elements(rest) + {v};
  }

  /** Every recorded cost is that of the path which the predecessors lead back along. */
  lemma {:induction false} CostOfPath(g: Graph, rounds: seq<Round>, k: nat, v: nat)
    requires Relaxed(g, rounds, k) && HasCost(rounds[k], v)
    ensures RecordsPath(g, rounds, k, v)
  {
    if k == 0 {
      PathStarts(g, rounds, v);
    } else {
      LinkedInto(g, rounds, k, v);
      CostOfPath(g, rounds, k - 1, rounds[k].previous[v]);
      PathGrows(g, rounds, k, v);
    }
  }

  lemma ClosedGrows(g: Graph, excluded: set<nat>, v: nat)
    requires v !in excluded
    ensures |excluded + Closed(g, v)| == |excluded| + 1 + |Neighbours(g, v) - excluded|
  {
    NeighboursAre(g, v);
    assert excluded + Closed(g, v) == excluded + (Neighbours(g, v) - excluded) + {v};
  }

  /** On graphs without loops and repeats, with edges in both directions, the cost of a path follows from how many
      nodes it excludes. */
  lemma {:induction false} PathCostIs(g: Graph, path: seq<nat>)
    requires NoLoops(g) && NoRepeats(g) && SymmetricEdges(g) && path != [] && Spread(g, path)
    ensures PathCost(g, path) + |path| - 1 + |Closed(g, path[0])| == 2 * |ClosedAll(g, path)|
  {
    var rest, v := path[..|path| - 1], path[|path| - 1];
    if rest == [] {
      assert ClosedAll(g, path) == {} + Closed(g, v);
    } else {
      forall i | 0 <= i < |rest| ensures rest[i] !in ClosedAll(g, rest[..i]) {
        assert rest[..i] == path[..i];
      }
      PathCostIs(g, rest);
      OutsideIsTwice(g, v, ClosedAll(g, rest));
      ClosedGrows(g, ClosedAll(g, rest), v);
      NeighboursAre(g, v);
    }
  }

  /** What a recorded cost is there: twice the number of excluded nodes, less the first closed neighbourhood and the
      number of the round. */
  lemma CostIsExcluded(g: Graph, rounds: seq<Round>, k: nat, v: nat)
    requires NoLoops(g) && NoRepeats(g) && SymmetricEdges(g)
    requires Relaxed(g, rounds, k) && HasCost(rounds[k], v)
    ensures v in rounds[k].exclude
    ensures rounds[k].cost[v].value + k + |Closed(g, Path(rounds, k, v)[0])| == 2 * |rounds[k].exclude[v]|
  {
    CostOfPath(g, rounds, k, v);
    PathCostIs(g, Path(rounds, k, v));
  }

  ghost predicate SameEntry(r: Round, r': Round, v: nat) {
    && (HasCost(r, v) <==> HasCost(r', v))
    && (HasCost(r, v) ==>
          r.cost[v] == r'.cost[v] && v in r.exclude && v in r'.exclude && r.exclude[v] == r'.exclude[v])
  }

  /** The two rounds record the same costs and excluded sets. */
  ghost predicate SameEntries(r: Round, r': Round) {
    forall v :: SameEntry(r, r', v)
  }

  lemma SameEitherWay(r: Round, r': Round)
    requires SameEntries(r, r')
    ensures SameEntries(r', r)
  {
    forall v ensures SameEntry(r', r, v) {
      assert SameEntry(r, r', v);
    }
  }

  lemma NoDearer(g: Graph, cur: Round, next: Round, cur': Round, next': Round, v: nat)
    requires AllLinked(g, cur, next) && AllSettled(g, cur', next') && SameEntries(cur, cur') && HasCost(next, v)
    ensures HasCost(next', v) && next'.cost[v].value <= next.cost[v].value
  {
    assert Linked(g, cur, next, v);
    var u := next.previous[v];
    assert SameEntry(cur, cur', u);
    assert Settled(g, cur', next', u, v);
  }

  lemma FirstIsFirst(g: Graph, cur: Round, next: Round, cur': Round, next': Round, v: nat, i: nat, i': nat)
    requires AllLinked(g, cur, next) && SameEntries(cur, cur') && HasCost(next, v) && HasCost(next', v)
    requires next.cost[v] == next'.cost[v] && i < |g.nodes| && i' < |g.nodes|
    requires g.nodes[i] == next.previous[v]
    requires forall j :: 0 <= j < i' ==> Dearer(g, cur', next', g.nodes[j], v)
    ensures i' <= i
  {
    assert Linked(g, cur, next, v) && SameEntry(cur, cur', g.nodes[i]);
    assert !Dearer(g, cur', next', g.nodes[i], v);
  }

  lemma SamePrevious(g: Graph, cur: Round, next: Round, cur': Round, next': Round, v: nat)
    requires AllLinked(g, cur, next) && AllLinked(g, cur', next') && SameEntries(cur, cur')
    requires AllFirst(g, cur, next, g.nodes) && AllFirst(g, cur', next', g.nodes)
    requires HasCost(next, v) && HasCost(next', v) && next.cost[v] == next'.cost[v]
    ensures v in next.previous && v in next'.previous && next.previous[v] == next'.previous[v]
  {
    assert FirstOffer(g, cur, next, g.nodes, v) && FirstOffer(g, cur', next', g.nodes, v);
    var i: nat :| i < |g.nodes| && g.nodes[i] == next.previous[v]
                  && forall j :: 0 <= j < i ==> Dearer(g, cur, next, g.nodes[j], v);
    var i': nat :| i' < |g.nodes| && g.nodes[i'] == next'.previous[v]
                   && forall j :: 0 <= j < i' ==> Dearer(g, cur', next', g.nodes[j], v);
    FirstIsFirst(g, cur, next, cur', next', v, i, i');
    SameEitherWay(cur, cur');
    FirstIsFirst(g, cur', next', cur, next, v, i', i);
  }

  lemma SameNext(g: Graph, cur: Round, next: Round, cur': Round, next': Round, v: nat)
    requires AllLinked(g, cur, next) && AllSettled(g, cur, next) && AllFirst(g, cur, next, g.nodes)
    requires AllLinked(g, cur', next') && AllSettled(g, cur', next') && AllFirst(g, cur', next', g.nodes)
    requires SameEntries(cur, cur')
    ensures SameEntry(next, next', v)
    ensures HasCost(next, v) ==> v in next.previous && v in next'.previous && next.previous[v] == next'.previous[v]
  {
    SameEitherWay(cur, cur');
    if HasCost(next, v) {
      NoDearer(g, cur, next, cur', next', v);
    }
    if HasCost(next', v) {
      NoDearer(g, cur', next', cur, next, v);
      SamePrevious(g, cur, next, cur', next', v);
      assert Linked(g, cur, next, v) && Linked(g, cur', next', v) && SameEntry(cur, cur', next.previous[v]);
    }
  }

  /** The graph alone, with the order of its nodes, determines all costs, excluded sets and chains. */
  lemma {:induction false} RoundsDetermined(g: Graph, rounds: seq<Round>, rounds': seq<Round>, k: nat)
    requires Relaxed(g, rounds, k) && Relaxed(g, rounds', k)
    ensures SameEntries(rounds[k], rounds'[k])
    ensures forall v :: HasCost(rounds[k], v) ==> Chain(rounds, k, v) == Chain(rounds', k, v)
  {
    if k == 0 {
      forall v ensures SameEntry(rounds[0], rounds'[0], v) {
      }
    } else {
      RoundsDetermined(g, rounds, rounds', k - 1);
      assert RoundDone(g, rounds, k - 1) && RoundDone(g, rounds', k - 1);
      forall v ensures SameEntry(rounds[k], rounds'[k], v) {
        SameNext(g, rounds[k - 1], rounds[k], rounds'[k - 1], rounds'[k], v);
      }
      forall v | HasCost(rounds[k], v) ensures Chain(rounds, k, v) == Chain(rounds', k, v) {
        SameNext(g, rounds[k - 1], rounds[k], rounds'[k - 1], rounds'[k], v);
        LinkedInto(g, rounds, k, v);
      }
    }
  }

  // ----- one relaxation -----

  lemma RelaxStepKeeps(g: Graph, cur: Round, next: Round, u: nat, v: nat)
    requires Complete(g, cur) && Complete(g, next) && AllLinked(g, cur, next)
    requires u in g.nodes && v in g.nodes && v !in cur.exclude[u]
    ensures var next' := RelaxStep(g, cur, next, u, v);
      && Complete(g, next') && AllLinked(g, cur, next') && Settled(g, cur, next', u, v)
      && (forall x, y :: Settled(g, cur, next, x, y) ==> Settled(g, cur, next', x, y))
      && (forall x :: HasCost(next, x) ==> HasCost(next', x))
  {
    var next' := RelaxStep(g, cur, next, u, v);
    forall x | HasCost(next', x) ensures Linked(g, cur, next', x) {
      if x != v {
        assert Linked(g, cur, next, x);
      } else if next' == next {
        assert Linked(g, cur, next, x);
      }
    }
  }

  /** The nodes that v adds to an excluded set, and what they cost. */
  method Extend(g: Graph, v: nat, origExclude: set<nat>, uCost: nat) returns (vExclude: set<nat>, vCost: nat)
    ensures vExclude + origExclude == Closed(g, v) + origExclude
    ensures vCost == uCost + 1 + EdgesOutside(g, v, origExclude)
  {
    vExclude := {v};
    vCost := uCost + 1;
    var neighbours := AdjEdges(g, v);
    for k := 0 to |neighbours|
      invariant vCost == uCost + 1 + CountOutside(neighbours[..k], v, origExclude)
      invariant forall x: nat :: x in vExclude + origExclude <==>
                  x == v || x in origExclude || exists i :: 0 <= i < k && Other(neighbours[i], v) == x
    {
      var j := Other(neighbours[k], v);
      CountOutsideNext(neighbours[..k], neighbours[k], v, origExclude);
      assert neighbours[..k + 1] == neighbours[..k] + [neighbours[k]];
      if j !in origExclude {
        vExclude := vExclude + {j};
        vCost := vCost + 1;
      }
    }
    assert neighbours[..|neighbours|] == neighbours;
    OutsideCounts(g, v, origExclude);
    forall x: nat ensures x in vExclude + origExclude <==> x in Closed(g, v) + origExclude {
      if i :| 0 <= i < |neighbours| && Other(neighbours[i], v) == x {
        assert neighbours[i] in AdjEdges(g, v);
      }
      if x in Neighbours(g, v) {
        var e :| e in AdjEdges(g, v) && Other(e, v) == x && x != v;
        var i :| 0 <= i < |neighbours| && neighbours[i] == e;
      }
    }
  }

  /** The body of the innermost loop over pairs: tries to reach v in round r + 1 from u in round r. */
  method RelaxPair(g: Graph, rounds: array<Round>, r: nat, u: nat, v: nat) returns (changed: bool)
    requires r + 1 < rounds.Length
    requires u in rounds[r].cost && u in rounds[r].exclude && v in rounds[r + 1].cost
    modifies rounds
    ensures rounds[r + 1] == old(RelaxStep(g, rounds[r], rounds[r + 1], u, v))
    ensures forall i :: 0 <= i < rounds.Length && i != r + 1 ==> rounds[i] == old(rounds[i])
    ensures changed <==> rounds[r + 1] != old(rounds[r + 1])
  {
    changed := false;
    var current, next := rounds[r], rounds[r + 1];
    if current.cost[u].Infinite? {
      return;
    }
    var origExclude := current.exclude[u];
    var vExclude, vCost := Extend(g, v, origExclude, current.cost[u].value);
    assert origExclude + vExclude == origExclude + Closed(g, v);
    if next.cost[v].Infinite? || next.cost[v].value > vCost {
      rounds[r + 1] := Round(next.exclude[v := origExclude + vExclude], next.previous[v := u],
                             next.cost[v := Finite(vCost)]);
      changed := true;
    }
  }

  /** Next has everything that next0 has, at no higher cost. */
  ghost predicate Improved(g: Graph, cur: Round, next0: Round, next: Round) {
    && (forall x, y :: Settled(g, cur, next0, x, y) ==> Settled(g, cur, next, x, y))
    && (forall x :: HasCost(next0, x) ==> HasCost(next, x))
  }

  lemma {:induction false} RelaxManyKeeps(g: Graph, cur: Round, next: Round, u: nat, vs: seq<nat>)
    requires Complete(g, cur) && Complete(g, next) && AllLinked(g, cur, next)
    requires u in g.nodes && forall v :: v in vs ==> v in g.nodes && v !in cur.exclude[u]
    ensures var r := RelaxMany(g, cur, next, u, vs);
      && Complete(g, r) && AllLinked(g, cur, r) && Improved(g, cur, next, r)
      && forall v :: v in vs ==> Settled(g, cur, r, u, v)
  {
    if vs != [] {
      var rest, v := vs[..|vs| - 1], vs[|vs| - 1];
      assert vs == rest + [v];
      RelaxManyKeeps(g, cur, next, u, rest);
      RelaxStepKeeps(g, cur, RelaxMany(g, cur, next, u, rest), u, v);
    }
  }

  lemma {:induction false} RelaxNodesKeeps(g: Graph, cur: Round, next: Round, us: seq<nat>)
    requires Complete(g, cur) && Complete(g, next) && AllLinked(g, cur, next)
    requires forall u :: u in us ==> u in g.nodes
    ensures var r := RelaxNodes(g, cur, next, us);
      && Complete(g, r) && AllLinked(g, cur, r)
      && forall u, v :: u in us && v in g.nodes ==> Settled(g, cur, r, u, v)
  {
    if us != [] {
      var rest, u := us[..|us| - 1], us[|us| - 1];
      assert us == rest + [u];
      var before, vs := RelaxNodes(g, cur, next, rest), Included(g.nodes, cur.exclude[u]);
      RelaxNodesKeeps(g, cur, next, rest);
      RelaxManyKeeps(g, cur, before, u, vs);
      forall v | v in g.nodes ensures Settled(g, cur, RelaxMany(g, cur, before, u, vs), u, v) {
        if v !in cur.exclude[u] {
          assert v in vs;
        }
      }
    }
  }

  /** v kept its entry, or u made it a lower offer. */
  ghost predicate KeptOrLowered(g: Graph, cur: Round, next: Round, next': Round, u: nat, v: nat) {
    || (HasCost(next, v) && HasCost(next', v) && next'.cost[v] == next.cost[v] && v in next.previous
        && v in next'.previous && next'.previous[v] == next.previous[v])
    || (HasCost(next', v) && v in next'.previous && next'.previous[v] == u && HasCost(cur, u) && u in cur.exclude
        && next'.cost[v].value == StepCost(g, cur, u, v)
        && (HasCost(next, v) ==> next.cost[v].value > next'.cost[v].value))
  }

  lemma {:induction false} RelaxManyEntry(g: Graph, cur: Round, next: Round, u: nat, vs: seq<nat>, v: nat)
    requires u in cur.cost && u in cur.exclude && forall x :: x in vs ==> x in next.cost
    requires HasCost(next, v) ==> v in next.previous
    ensures var r := RelaxMany(g, cur, next, u, vs);
      (HasCost(next, v) ==> HasCost(r, v)) && (HasCost(r, v) ==> KeptOrLowered(g, cur, next, r, u, v))
  {
    if vs != [] {
      RelaxManyEntry(g, cur, next, u, vs[..|vs| - 1], v);
    }
  }

  /** An offer of the next node us[a] keeps the predecessor of v the first one among those seen. */
  lemma FirstOfferNext(g: Graph, cur: Round, before: Round, after: Round, us: seq<nat>, u: nat, v: nat)
    requires HasCost(after, v) && KeptOrLowered(g, cur, before, after, u, v)
    requires HasCost(before, v) ==> FirstOffer(g, cur, before, us, v)
    requires forall w :: w in us ==> Settled(g, cur, before, w, v)
    ensures FirstOffer(g, cur, after, us + [u], v)
  {
    var us' := us + [u];
    if HasCost(before, v) && after.cost[v] == before.cost[v] && after.previous[v] == before.previous[v] {
      var i :| 0 <= i < |us| && us[i] == before.previous[v]
               && forall j :: 0 <= j < i ==> Dearer(g, cur, before, us[j], v);
      assert us'[i] == after.previous[v];
      forall j | 0 <= j < i ensures Dearer(g, cur, after, us'[j], v) {
        assert Dearer(g, cur, before, us[j], v);
      }
    } else {
      assert us'[|us|] == after.previous[v];
      forall j | 0 <= j < |us| ensures Dearer(g, cur, after, us'[j], v) {
        assert us'[j] in us;
      }
    }
  }

  lemma {:induction false} RelaxNodesFirst(g: Graph, cur: Round, next: Round, us: seq<nat>)
    requires Complete(g, cur) && Complete(g, next) && NoCosts(next) && forall u :: u in us ==> u in g.nodes
    ensures AllFirst(g, cur, RelaxNodes(g, cur, next, us), us)
  {
    if us != [] {
      var rest, u := us[..|us| - 1], us[|us| - 1];
      var before, after := RelaxNodes(g, cur, next, rest), RelaxNodes(g, cur, next, us);
      assert us == rest + [u];
      RelaxNodesFirst(g, cur, next, rest);
      RelaxNodesKeeps(g, cur, next, rest);
      RelaxNodesKeeps(g, cur, next, us);
      forall v | HasCost(after, v) ensures FirstOffer(g, cur, after, us, v) {
        assert Linked(g, cur, after, v);
        RelaxManyEntry(g, cur, before, u, Included(g.nodes, cur.exclude[u]), v);
        FirstOfferNext(g, cur, before, after, rest, u, v);
      }
    }
  }

  lemma RelaxManyNext(g: Graph, cur: Round, next: Round, u: nat, vs: seq<nat>, i: nat)
    requires u in cur.cost && u in cur.exclude && (forall v :: v in vs ==> v in next.cost) && i < |vs|
    ensures RelaxMany(g, cur, next, u, vs[..i + 1]) == RelaxStep(g, cur, RelaxMany(g, cur, next, u, vs[..i]), u, vs[i])
  {
    assert vs[..i + 1][..i] == vs[..i];
  }

  lemma RelaxNodesNext(g: Graph, cur: Round, next: Round, us: seq<nat>, a: nat)
    requires Complete(g, cur) && Complete(g, next) && (forall u :: u in us ==> u in g.nodes) && a < |us|
    ensures RelaxNodes(g, cur, next, us[..a + 1]) ==
            RelaxMany(g, cur, RelaxNodes(g, cur, next, us[..a]), us[a], Included(g.nodes, cur.exclude[us[a]]))
  {
    assert us[..a + 1][..a] == us[..a];
  }

  ghost predicate SomeCost(r: Round) {
    exists v :: HasCost(r, v)
  }

  /** Tells a round in which something was reached from one in which nothing was. */
  ghost predicate Reports(changed: bool, r: Round) {
    if changed then SomeCost(r) else NoCosts(r)
  }

  lemma RelaxStepReports(g: Graph, cur: Round, next: Round, u: nat, v: nat, changed: bool)
    requires u in cur.cost && u in cur.exclude && v in next.cost && Reports(changed, next)
    ensures Reports(changed || RelaxStep(g, cur, next, u, v) != next, RelaxStep(g, cur, next, u, v))
  {
    var r := RelaxStep(g, cur, next, u, v);
    if r != next {
      assert HasCost(r, v);
    }
  }

  /** The loop over the nodes v that u does not exclude. */
  method RelaxFrom(g: Graph, rounds: array<Round>, r: nat, u: nat, changed0: bool) returns (changed: bool)
    requires r + 1 < rounds.Length && u in g.nodes
    requires Complete(g, rounds[r]) && Complete(g, rounds[r + 1])
    requires Reports(changed0, rounds[r + 1])
    modifies rounds
    ensures rounds[r + 1] == old(RelaxMany(g, rounds[r], rounds[r + 1], u, Included(g.nodes, rounds[r].exclude[u])))
    ensures forall i :: 0 <= i < rounds.Length && i != r + 1 ==> rounds[i] == old(rounds[i])
    ensures Reports(changed, rounds[r + 1])
  {
    changed := changed0;
    var vs := Included(g.nodes, rounds[r].exclude[u]);
    ghost var cur, next0 := rounds[r], rounds[r + 1];
    ghost var next := next0;
    for i := 0 to |vs|
      invariant rounds[r + 1] == next == RelaxMany(g, cur, next0, u, vs[..i])
      invariant forall k :: 0 <= k < rounds.Length && k != r + 1 ==> rounds[k] == old(rounds[k])
      invariant Reports(changed, next)
    {
      RelaxManyNext(g, cur, next0, u, vs, i);
      RelaxStepReports(g, cur, next, u, vs[i], changed);
      var c := RelaxPair(g, rounds, r, u, vs[i]);
      changed := changed || c;
      next := RelaxStep(g, cur, next, u, vs[i]);
    }
    assert vs[..|vs|] == vs;
  }

  /** One round of the relaxation. */
  method RelaxRound(g: Graph, rounds: array<Round>, r: nat) returns (changed: bool)
    requires r + 1 < rounds.Length
    requires Complete(g, rounds[r]) && Complete(g, rounds[r + 1]) && NoCosts(rounds[r + 1])
    modifies rounds
    ensures rounds[r + 1] == old(RelaxNodes(g, rounds[r], rounds[r + 1], g.nodes))
    ensures forall i :: 0 <= i < rounds.Length && i != r + 1 ==> rounds[i] == old(rounds[i])
    ensures Reports(changed, rounds[r + 1])
  {
    changed := false;
    ghost var cur, next0 := rounds[r], rounds[r + 1];
    ghost var next := next0;
    for a := 0 to |g.nodes|
      invariant rounds[r + 1] == next == RelaxNodes(g, cur, next0, g.nodes[..a])
      invariant forall k :: 0 <= k < rounds.Length && k != r + 1 ==> rounds[k] == old(rounds[k])
      invariant Complete(g, next) && Reports(changed, next)
    {
      RelaxNodesNext(g, cur, next0, g.nodes, a);
      next := RelaxMany(g, cur, next, g.nodes[a], Included(g.nodes, cur.exclude[g.nodes[a]]));
      changed := RelaxFrom(g, rounds, r, g.nodes[a], changed);
    }
    assert g.nodes[..|g.nodes|] == g.nodes;
  }

  // ----- initialisation -----

  /** u and the nodes that an edge leads to from u. */
  ghost function OutClosed(g: Graph, u: nat): set<nat> {
    {u} + set e | e in g.edges && e.source == u :: e.target
  }

  /** When every edge is stored in both directions these are all neighbours. */
  lemma OutIsAll(g: Graph, u: nat)
    requires SymmetricEdges(g)
    ensures OutClosed(g, u) == Closed(g, u)
  {
    NeighboursAre(g, u);
    forall x: nat ensures x in OutClosed(g, u) <==> x in Closed(g, u) {
      if Adjacent(g, u, x) {
        var k :| 0 <= k < |g.edges| && Joins(g.edges[k], u, x);
        assert g.edges[k] in g.edges;
        assert Edge(u, x) in g.edges;
      }
      if Edge(u, x) in g.edges {
        var k :| 0 <= k < |g.edges| && g.edges[k] == Edge(u, x);
        assert Joins(g.edges[k], u, x);
      }
    }
  }

  /** Round 0 knows every neighbour of every node exactly when each edge between different nodes has its reverse. */
  lemma OutIsAllExactly(g: Graph)
    ensures (forall u: nat :: OutClosed(g, u) == Closed(g, u)) <==>
      forall e :: e in g.edges && e.source != e.target ==> Edge(e.target, e.source) in g.edges
  {
    if forall u: nat :: OutClosed(g, u) == Closed(g, u) {
      forall e | e in g.edges && e.source != e.target ensures Edge(e.target, e.source) in g.edges {
        var k :| 0 <= k < |g.edges| && g.edges[k] == e;
        assert Joins(g.edges[k], e.target, e.source);
        NeighboursAre(g, e.target);
        assert e.source in OutClosed(g, e.target);
      }
    }
    if forall e :: e in g.edges && e.source != e.target ==> Edge(e.target, e.source) in g.edges {
      assert SymmetricEdges(g);
      forall u: nat ensures OutClosed(g, u) == Closed(g, u) {
        OutIsAll(g, u);
      }
    }
  }

  lemma OutAre(g: Graph, u: nat, neighbours: seq<Edge>, exclude: set<nat>)
    requires neighbours == AdjEdges(g, u)
    requires forall x: nat :: x in exclude <==> x == u || Edge(u, x) in neighbours
    ensures exclude == OutClosed(g, u)
  {
    AdjEdgesAre(g, u);
    forall x: nat ensures x in exclude <==> x in OutClosed(g, u) {
      if Edge(u, x) in g.edges {
        assert Edge(u, x).target == x;
      }
    }
  }

  /** Exclude[u, 0] and Cost[u, 0]: only edges from u count. */
  method InitialExclude(g: Graph, u: nat) returns (exclude: set<nat>, cost: nat)
    ensures exclude == OutClosed(g, u) && cost == |exclude|
    ensures SymmetricEdges(g) ==> exclude == Closed(g, u)
  {
    exclude, cost := {u}, 1;
    var neighbours := AdjEdges(g, u);
    for k := 0 to |neighbours|
      invariant cost == |exclude|
      invariant forall x: nat :: x in exclude <==> x == u || Edge(u, x) in neighbours[..k]
    {
      if neighbours[k].source == u {
        var target := neighbours[k].target;
        if target !in exclude {
          exclude := exclude + {target};
          cost := cost + 1;
        }
      }
      assert neighbours[..k + 1] == neighbours[..k] + [neighbours[k]];
    }
    assert neighbours[..|neighbours|] == neighbours;
    OutAre(g, u, neighbours, exclude);
    if SymmetricEdges(g) {
      OutIsAll(g, u);
    }
  }

  /** r knows exactly the first a nodes. */
  ghost predicate Knows(nodes: seq<nat>, r: Round, a: nat)
    requires a <= |nodes|
  {
    && (forall v: nat :: v in r.cost <==> v in nodes[..a])
    && (forall v: nat :: v in r.exclude <==> v in nodes[..a])
  }

  ghost predicate Blank(g: Graph, r: Round, a: nat)
    requires a <= |g.nodes|
  {
    Knows(g.nodes, r, a) && NoCosts(r)
  }

  /** Every node that r knows excludes itself and its out-targets, at a cost of their number. */
  ghost predicate FirstEntries(g: Graph, r: Round) {
    forall v :: v in r.cost ==> v in r.exclude && r.exclude[v] == OutClosed(g, v) && r.cost[v] == Finite(|r.exclude[v]|)
  }

  ghost predicate FirstRoundTo(g: Graph, r: Round, a: nat)
    requires a <= |g.nodes|
  {
    Knows(g.nodes, r, a) && FirstEntries(g, r)
  }

  ghost function BlankStep(b: Round, u: nat): Round {
    Round(b.exclude[u := {}], b.previous, b.cost[u := Infinite])
  }

  method EnterBlank(rounds: array<Round>, u: nat, ghost b: Round)
    requires rounds.Length > 0 && forall r :: 1 <= r < rounds.Length ==> rounds[r] == b
    modifies rounds
    ensures rounds[0] == old(rounds[0])
    ensures forall r :: 1 <= r < rounds.Length ==> rounds[r] == BlankStep(b, u)
  {
    for r := 1 to rounds.Length
      invariant rounds[0] == old(rounds[0])
      invariant forall k :: 1 <= k < r ==> rounds[k] == BlankStep(b, u)
      invariant forall k :: r <= k < rounds.Length ==> rounds[k] == b
    {
      rounds[r] := Round(rounds[r].exclude[u := {}], rounds[r].previous, rounds[r].cost[u := Infinite]);
    }
  }

  lemma KnowsNext(nodes: seq<nat>, r: Round, a: nat, exclude: set<nat>, cost: Cost)
    requires a < |nodes| && Knows(nodes, r, a)
    ensures Knows(nodes, Round(r.exclude[nodes[a] := exclude], r.previous, r.cost[nodes[a] := cost]), a + 1)
  {
    assert nodes[..a + 1] == nodes[..a] + [nodes[a]];
  }

  lemma FirstEntriesNext(g: Graph, r: Round, u: nat, exclude: set<nat>)
    requires FirstEntries(g, r) && exclude == OutClosed(g, u)
    ensures FirstEntries(g, Round(r.exclude[u := exclude], r.previous, r.cost[u := Finite(|exclude|)]))
  {
  }

  lemma FirstNext(g: Graph, r: Round, a: nat, exclude: set<nat>, cost: nat)
    requires a < |g.nodes| && FirstRoundTo(g, r, a)
    requires exclude == OutClosed(g, g.nodes[a]) && cost == |exclude|
    ensures FirstRoundTo(g, Round(r.exclude[g.nodes[a] := exclude], r.previous, r.cost[g.nodes[a] := Finite(cost)]),
                         a + 1)
  {
    KnowsNext(g.nodes, r, a, exclude, Finite(cost));
    FirstEntriesNext(g, r, g.nodes[a], exclude);
  }

  /** Enters node number a into all rounds; b is what the later rounds hold. */
  method InitializeNode(g: Graph, rounds: array<Round>, a: nat, ghost b: Round)
    requires a < |g.nodes| && rounds.Length == |g.nodes| + 1
    requires FirstRoundTo(g, rounds[0], a) && forall r :: 1 <= r < rounds.Length ==> rounds[r] == b
    modifies rounds
    ensures FirstRoundTo(g, rounds[0], a + 1)
    ensures forall r :: 1 <= r < rounds.Length ==> rounds[r] == BlankStep(b, g.nodes[a])
  {
    var u := g.nodes[a];
    var exclude, cost := InitialExclude(g, u);
    FirstNext(g, rounds[0], a, exclude, cost);
    rounds[0] := Round(rounds[0].exclude[u := exclude], rounds[0].previous, rounds[0].cost[u := Finite(cost)]);
    EnterBlank(rounds, u, b);
  }

  lemma BlankNext(g: Graph, r: Round, a: nat)
    requires a < |g.nodes| && Blank(g, r, a)
    ensures Blank(g, BlankStep(r, g.nodes[a]), a + 1)
  {
    KnowsNext(g.nodes, r, a, {}, Infinite);
  }

  /** The first a nodes have been entered, into the first round and into the blank one that stands for all later
      rounds. */
  ghost predicate Entered(g: Graph, first: Round, blank: Round, a: nat)
    requires a <= |g.nodes|
  {
    FirstRoundTo(g, first, a) && Blank(g, blank, a)
  }

  /** Round 0 as the solver fills it, whatever edges the graph has. */
  ghost predicate OutRound(g: Graph, r: Round) {
    forall v :: v in g.nodes ==>
      (HasCost(r, v) && v in r.exclude && r.exclude[v] == OutClosed(g, v) && r.cost[v].value == |OutClosed(g, v)|)
  }

  lemma OutRoundIsFirst(g: Graph, r: Round)
    requires SymmetricEdges(g) && OutRound(g, r)
    ensures FirstRound(g, r)
  {
    forall v | v in g.nodes ensures OutClosed(g, v) == Closed(g, v) {
      OutIsAll(g, v);
    }
  }

  lemma OutRoundDone(g: Graph, r: Round)
    requires FirstRoundTo(g, r, |g.nodes|)
    ensures OutRound(g, r) && Complete(g, r) && forall v :: HasCost(r, v) ==> v in g.nodes
  {
    assert g.nodes[..|g.nodes|] == g.nodes;
  }

  lemma BlankDone(g: Graph, r: Round)
    requires Blank(g, r, |g.nodes|)
    ensures Complete(g, r)
  {
    assert g.nodes[..|g.nodes|] == g.nodes;
  }

  ghost predicate Initialized(g: Graph, rounds: seq<Round>)
    requires |rounds| == |g.nodes| + 1
  {
    && OutRound(g, rounds[0]) && Complete(g, rounds[0]) && (forall v :: HasCost(rounds[0], v) ==> v in g.nodes)
    && forall r :: 1 <= r < |rounds| ==> Complete(g, rounds[r]) && NoCosts(rounds[r])
  }

  lemma InitializedAll(g: Graph, rounds: seq<Round>, blank: Round)
    requires |rounds| == |g.nodes| + 1 && Entered(g, rounds[0], blank, |g.nodes|)
    requires forall r :: 1 <= r < |rounds| ==> rounds[r] == blank
    ensures Initialized(g, rounds)
  {
    OutRoundDone(g, rounds[0]);
    BlankDone(g, blank);
  }

  method InitializeRounds(g: Graph) returns (rounds: array<Round>)
    ensures fresh(rounds) && rounds.Length == |g.nodes| + 1
    ensures Initialized(g, rounds[..])
  {
    rounds := new Round[|g.nodes| + 1](_ => Round(map[], map[], map[]));
    ghost var blank := Round(map[], map[], map[]);
    for a := 0 to |g.nodes|
      invariant Entered(g, rounds[0], blank, a)
      invariant forall r :: 1 <= r < rounds.Length ==> rounds[r] == blank
    {
      InitializeNode(g, rounds, a, blank);
      BlankNext(g, blank, a);
      blank := BlankStep(blank, g.nodes[a]);
    }
    InitializedAll(g, rounds[..], blank);
  }

  // ----- the solver -----

  /** getResult: follows the predecessors from any node of finite cost in the last round. */
  method GetResult(rounds: array<Round>, last: nat) returns (result: Result)
    requires last < rounds.Length
    requires forall i, v :: 0 < i <= last && HasCost(rounds[i], v) ==>
               v in rounds[i].previous && HasCost(rounds[i - 1], rounds[i].previous[v])
    ensures result == NoResultPath <==> NoCosts(rounds[last])
    ensures result.Found? ==> exists v :: HasCost(rounds[last], v) && result.s == Chain(rounds[..], last, v)
  {
    if forall v :: v in rounds[last].cost ==> rounds[last].cost[v].Infinite? {
      return NoResultPath;
    }
    var start :| start in rounds[last].cost && rounds[last].cost[start].Finite?;
    var vertexId, lastRoundIndex, ret := start, last, {};
    while lastRoundIndex >= 0
      invariant -1 <= lastRoundIndex <= last
      invariant lastRoundIndex >= 0 ==> HasCost(rounds[lastRoundIndex], vertexId)
      invariant Chain(rounds[..], last, start) ==
                ret + if lastRoundIndex >= 0 then Chain(rounds[..], lastRoundIndex, vertexId) else {}
    {
      ret := ret + {vertexId};
      vertexId := if vertexId in rounds[lastRoundIndex].previous then rounds[lastRoundIndex].previous[vertexId] else 0;
      lastRoundIndex := lastRoundIndex - 1;
    }
    assert HasCost(rounds[last], start);
    return Found(ret);
  }

  /** Rounds that have not been relaxed yet. */
  ghost predicate Untouched(g: Graph, rounds: seq<Round>, k: nat) {
    forall i :: k < i < |rounds| ==> Complete(g, rounds[i]) && NoCosts(rounds[i])
  }

  /** Round k is done, and the next one still to be relaxed. */
  ghost predicate DoneTo(g: Graph, rounds: seq<Round>, k: nat) {
    Relaxed(g, rounds, k) && Untouched(g, rounds, k) && Complete(g, rounds[k])
  }

  lemma RoundKept(g: Graph, rounds: seq<Round>, rounds': seq<Round>, i: nat)
    requires i + 1 < |rounds| == |rounds'| && RoundDone(g, rounds, i)
    requires rounds'[i] == rounds[i] && rounds'[i + 1] == rounds[i + 1]
    ensures RoundDone(g, rounds', i)
  {
  }

  lemma RoundAdded(g: Graph, cur: Round, next: Round)
    requires Complete(g, cur) && Complete(g, next) && NoCosts(next)
    ensures var next' := RelaxNodes(g, cur, next, g.nodes);
      && Complete(g, next') && AllLinked(g, cur, next') && AllSettled(g, cur, next')
      && AllFirst(g, cur, next', g.nodes)
  {
    RelaxNodesKeeps(g, cur, next, g.nodes);
    RelaxNodesFirst(g, cur, next, g.nodes);
  }

  lemma RoundsNext(g: Graph, rounds: seq<Round>, rounds': seq<Round>, next: Round, k: nat)
    requires k + 1 < |rounds| && rounds' == rounds[k + 1 := next] && forall i :: 0 <= i < k ==> RoundDone(g, rounds, i)
    requires AllLinked(g, rounds[k], next) && AllSettled(g, rounds[k], next) && AllFirst(g, rounds[k], next, g.nodes)
    ensures forall i :: 0 <= i < k + 1 ==> RoundDone(g, rounds', i)
  {
    forall i | 0 <= i < k + 1 ensures RoundDone(g, rounds', i) {
      if i < k {
        RoundKept(g, rounds, rounds', i);
      }
    }
  }

  lemma UntouchedNext(g: Graph, rounds: seq<Round>, next: Round, k: nat)
    requires k + 1 < |rounds| && Untouched(g, rounds, k)
    ensures Untouched(g, rounds[k + 1 := next], k + 1)
  {
  }

  lemma RelaxedNext(g: Graph, rounds: seq<Round>, rounds': seq<Round>, k: nat)
    requires k + 1 < |rounds| && DoneTo(g, rounds, k)
    requires rounds' == rounds[k + 1 := RelaxNodes(g, rounds[k], rounds[k + 1], g.nodes)]
    ensures DoneTo(g, rounds', k + 1)
  {
    var next := RelaxNodes(g, rounds[k], rounds[k + 1], g.nodes);
    RoundAdded(g, rounds[k], rounds[k + 1]);
    RoundsNext(g, rounds, rounds', next, k);
    UntouchedNext(g, rounds, next, k);
    assert rounds'[0] == rounds[0];
  }

  lemma CostMeansFew(g: Graph, rounds: seq<Round>, k: nat)
    requires DoneTo(g, rounds, k) && SomeCost(rounds[k])
    ensures k < |g.nodes|
  {
    var v: nat :| HasCost(rounds[k], v);
    RoundsAreFew(g, rounds, k, v);
  }

  /** One iteration of the relaxation loop. */
  method NextRound(g: Graph, rounds: array<Round>, k: nat) returns (hasCostChange: bool)
    requires rounds.Length == |g.nodes| + 1 && k < |g.nodes| && DoneTo(g, rounds[..], k) && SomeCost(rounds[k])
    modifies rounds
    ensures DoneTo(g, rounds[..], k + 1) && SomeCost(rounds[k])
    ensures if hasCostChange then SomeCost(rounds[k + 1]) else NoCosts(rounds[k + 1])
  {
    ghost var before := rounds[..];
    hasCostChange := RelaxRound(g, rounds, k);
    RelaxedNext(g, before, rounds[..], k);
    assert rounds[k] == rounds[..][k] == before[k];
    assert rounds[k + 1] == rounds[..][k + 1];
  }

  /** The relaxation loop. It ends by its break, because no chain is longer than the graph has nodes. */
  method Relaxation(g: Graph, rounds: array<Round>) returns (lastRoundI: nat)
    requires |g.nodes| > 0 && rounds.Length == |g.nodes| + 1
    requires DoneTo(g, rounds[..], 0)
    modifies rounds
    ensures lastRoundI < |g.nodes|
    ensures Relaxed(g, rounds[..], lastRoundI + 1) && SomeCost(rounds[lastRoundI]) && NoCosts(rounds[lastRoundI + 1])
  {
    assert HasCost(rounds[..][0], g.nodes[0]);
    lastRoundI := 0;
    var roundI := 0;
    while roundI < |g.nodes|
      invariant roundI <= |g.nodes| && lastRoundI == 0
      invariant DoneTo(g, rounds[..], roundI) && SomeCost(rounds[roundI])
    {
      var hasCostChange := NextRound(g, rounds, roundI);
      if !hasCostChange {
        lastRoundI := roundI;
        return;
      }
      roundI := roundI + 1;
    }
    CostMeansFew(g, rounds[..], roundI);
    assert false;
  }

  /** s is the chain of node v in round k of a finished table, the last round in which anything was reached. */
  ghost predicate Answers(g: Graph, table: seq<Round>, k: nat, v: nat, s: set<nat>) {
    && Relaxed(g, table, k + 1) && NoCosts(table[k + 1])
    && HasCost(table[k], v) && s == Chain(table, k, v)
  }

  /** solve, with the finished table of rounds and the node whose chain is returned. */
  method Solve(g: Graph) returns (result: Result, ghost lastRoundI: nat, ghost table: seq<Round>, ghost last: nat)
    requires SymmetricEdges(g)
    ensures result == NoResultPath <==> g.nodes == []
    ensures result.Found? ==>
              lastRoundI <= |g.nodes| - 1 && MaximalIndependent(g, result.s) && |result.s| == lastRoundI + 1
    ensures result.Found? ==> Answers(g, table, lastRoundI, last, result.s)
  {
    var rounds := InitializeRounds(g);
    lastRoundI, table, last := 0, rounds[..], 0;
    if g.nodes == [] {
      result := GetResult(rounds, 0);
      return;
    }
    OutRoundIsFirst(g, rounds[0]);
    var lastRound := Relaxation(g, rounds);
    lastRoundI, table := lastRound, rounds[..];
    forall i, v | 0 < i <= lastRound && HasCost(rounds[i], v)
      ensures v in rounds[i].previous && HasCost(rounds[i - 1], rounds[i].previous[v])
    {
      LinkedInto(g, rounds[..], i, v);
    }
    result := GetResult(rounds, lastRound);
    last :| HasCost(rounds[lastRound], last) && result.s == Chain(rounds[..], lastRound, last);
    ChainInvariant(g, rounds[..], lastRound, last);
    LastChainIsMaximal(g, rounds[..], lastRound, last);
  }

  // ----- an edge that is stored in one direction only -----

  /** Two nodes and an edge from the first one to the second. */
  function Arrow(): Graph {
    Graph([0, 1], [Edge(0, 1)])
  }

  lemma ArrowEdges()
    ensures AdjEdges(Arrow(), 0) == [Edge(0, 1)] && Adjacent(Arrow(), 0, 1)
  {
    var g := Arrow();
    assert g.edges[0] == Edge(0, 1) && Joins(g.edges[0], 0, 1);
    assert AdjEdgesTo(g, 0, 0) == [];
    assert AdjEdgesTo(g, 0, 1) == [Edge(0, 1)];
  }

  lemma ArrowClosed()
    ensures OutClosed(Arrow(), 0) == {0, 1} == Closed(Arrow(), 0) && OutClosed(Arrow(), 1) == {1}
  {
    var g := Arrow();
    ArrowEdges();
    AdjEdgesAre(g, 0);
    assert Edge(0, 1) in AdjEdges(g, 0);
    assert Edge(0, 1) in g.edges && Other(Edge(0, 1), 0) == 1;
  }

  lemma OneIncluded()
    ensures Included([0, 1], {1}) == [0]
  {
    assert [0, 1][..1] == [0] && [0][..0] == [];
    assert Included([0], {1}) == [0];
  }

  /** A node of infinite cost, or one that excludes all others, changes nothing. */
  lemma {:induction false} RelaxManyIdle(g: Graph, cur: Round, next: Round, u: nat, vs: seq<nat>)
    requires u in cur.cost && u in cur.exclude && forall v :: v in vs ==> v in next.cost
    requires HasCost(cur, u) ==> vs == []
    ensures RelaxMany(g, cur, next, u, vs) == next
  {
    if vs != [] {
      RelaxManyIdle(g, cur, next, u, vs[..|vs| - 1]);
    }
  }

  lemma RelaxZero(g: Graph, cur: Round, next: Round)
    requires g.nodes == [0, 1] && Complete(g, cur) && Complete(g, next) && 0 in cur.cost && 0 in cur.exclude
    requires HasCost(cur, 0) ==> cur.exclude[0] == {0, 1}
    ensures RelaxNodes(g, cur, next, [0]) == next
  {
    var vs := Included(g.nodes, cur.exclude[0]);
    assert vs != [] ==> vs[0] in vs;
    RelaxManyIdle(g, cur, next, 0, vs);
    assert [0][..0] == [];
  }

  lemma RelaxBoth(g: Graph, cur: Round, next: Round)
    requires g.nodes == [0, 1] && Complete(g, cur) && Complete(g, next)
    requires 0 in cur.cost && 0 in cur.exclude && 1 in cur.cost && 1 in cur.exclude
    requires HasCost(cur, 0) ==> cur.exclude[0] == {0, 1}
    ensures RelaxNodes(g, cur, next, g.nodes) == RelaxMany(g, cur, next, 1, Included([0, 1], cur.exclude[1]))
  {
    RelaxZero(g, cur, next);
    assert g.nodes[..1] == [0];
  }

  /** Round 1 after its relaxation: node 0 has been reached from node 1, which does not know of the edge. */
  ghost function ArrowNext(next: Round): Round {
    Round(next.exclude[0 := {0, 1}], next.previous[0 := 1], next.cost[0 := Finite(2)])
  }

  lemma ArrowStep(r: Round, next: Round)
    requires HasCost(r, 1) && 1 in r.exclude && r.exclude[1] == {1} && r.cost[1] == Finite(1)
    requires 0 in next.cost && next.cost[0].Infinite?
    ensures RelaxStep(Arrow(), r, next, 1, 0) == ArrowNext(next)
  {
    ArrowEdges();
    ArrowClosed();
    assert Leaving(Arrow(), 0, {1}, 1) == {} && Entering(Arrow(), 0, {1}, 1) == {};
    assert {1} + {0, 1} == {0, 1};
  }

  lemma ArrowFirst(r: Round, next: Round)
    requires OutRound(Arrow(), r) && Complete(Arrow(), r) && Complete(Arrow(), next) && NoCosts(next)
    ensures RelaxNodes(Arrow(), r, next, Arrow().nodes) == ArrowNext(next)
  {
    ArrowClosed();
    OneIncluded();
    assert 0 in Arrow().nodes && 1 in Arrow().nodes;
    RelaxBoth(Arrow(), r, next);
    ArrowStep(r, next);
    assert [0][..0] == [];
    assert RelaxMany(Arrow(), r, next, 1, []) == next;
  }

  lemma ArrowSecond(r: Round, next: Round)
    requires Complete(Arrow(), r) && NoCosts(r) && Complete(Arrow(), next) && NoCosts(next)
    ensures Complete(Arrow(), ArrowNext(r)) && RelaxNodes(Arrow(), ArrowNext(r), next, Arrow().nodes) == next
  {
    assert 0 in Arrow().nodes && 1 in Arrow().nodes;
    RelaxBoth(Arrow(), ArrowNext(r), next);
    RelaxManyIdle(Arrow(), ArrowNext(r), next, 1, Included([0, 1], r.exclude[1]));
  }

  /** Without the reverse of an edge the solver goes wrong: from the rounds that it starts with, node 0 is reached from
      node 1 and nothing after that, so round 1 is the last one, and its only chain consists of two adjacent nodes. */
  lemma OneWayEdgeMisleads(rounds: seq<Round>)
    requires |rounds| == 3 && Initialized(Arrow(), rounds)
    ensures var g, r1 := Arrow(), RelaxNodes(Arrow(), rounds[0], rounds[1], Arrow().nodes);
      && SomeCost(r1) && Complete(g, r1) && RelaxNodes(g, r1, rounds[2], g.nodes) == rounds[2] && NoCosts(rounds[2])
      && forall v :: HasCost(r1, v) ==> !Independent(g, Chain([rounds[0], r1], 1, v))
  {
    var r1 := ArrowNext(rounds[1]);
    ArrowFirst(rounds[0], rounds[1]);
    ArrowSecond(rounds[1], rounds[2]);
    ArrowEdges();
    assert HasCost(r1, 0) && r1.previous[0] == 1;
    forall v | HasCost(r1, v) ensures !Independent(Arrow(), Chain([rounds[0], r1], 1, v)) {
      assert Chain([rounds[0], r1], 0, 1) == {1};
      assert Chain([rounds[0], r1], 1, 0) == {1} + {0};
    }
  }
}
