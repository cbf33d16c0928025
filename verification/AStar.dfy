/** A* search: AStarSearch::solve of sui-solution.cc. Costs are numbers of steps, frontier keys are real numbers. */
module AStar {
  import opened SearchProblems

  datatype Info<S, A> = Info(link: Link<S, A>, cost: nat, lastFrontierCost: real)

  datatype Entry<S> = Entry(cost: real, state: S)

  /** top is what the priority queue may give out. */
  ghost predicate IsTop<S(!new)>(frontier: multiset<Entry<S>>, top: Entry<S>) {
    top in frontier && forall e :: e in frontier ==> top.cost <= e.cost
  }

  /** The heuristic never exceeds the number of steps that are still needed. */
  ghost predicate LowerBound<S(!new), A(!new)>(p: Problem<S, A>, h: S -> real) {
    forall s, q: seq<A> :: Solution(p, s, q) ==> h(s) <= |q| as real
  }

  /** Moreover it is above -1 at the goal; NearestExactlyAboveMinusOne shows that this is where optimality ends. */
  ghost predicate Admissible<S(!new), A(!new)>(p: Problem<S, A>, h: S -> real) {
    LowerBound(p, h) && forall s :: p.isFinal(s) ==> h(s) > -1.0
  }

  /** Some sequence of exactly n actions leads from init to s. */
  ghost predicate ReachedIn<S(!new), A(!new)>(p: Problem<S, A>, init: S, s: S, n: nat) {
    exists q: seq<A> :: Executable(p, init, q) && Run(p, init, q) == s && |q| == n
  }

  ghost predicate InfoOk<S(!new), A(!new)>(p: Problem<S, A>, h: S -> real, init: S, states: map<S, Info<S, A>>, s: S)
    requires s in states
  {
    && ReachedIn(p, init, s, states[s].cost)
    && if states[s].link.Root? then s == init && states[s].cost == 0 && states[s].lastFrontierCost == 0.0
       else
         var u, a := states[s].link.parent, states[s].link.action;
         && s != init && u in states && a in p.actions(u) && p.execute(a, u) == s
         && states[s].cost >= states[u].cost + 1
         && states[s].lastFrontierCost == states[s].cost as real + h(s)
  }

  /** What holds of the two containers at all times: entries are never cheaper than what is recorded for their
      states. */
  ghost predicate Valid<S(!new), A(!new)>(p: Problem<S, A>, h: S -> real, init: S, all: set<S>,
                                          states: map<S, Info<S, A>>, frontier: multiset<Entry<S>>) {
    && states.Keys <= all && init in states
    && (forall s :: s in states ==> InfoOk(p, h, init, states, s))
    && (forall e :: e in frontier ==> e.state in states && e.cost >= states[e.state].lastFrontierCost)
  }

  /** s waits in the frontier with the key recorded for it. */
  ghost predicate Live<S(!new), A(!new)>(states: map<S, Info<S, A>>, frontier: multiset<Entry<S>>, s: S)
    requires s in states
  {
    Entry(states[s].lastFrontierCost, s) in frontier
  }

  /** The first k successors of s have been discovered, at a cost at most one above that of s. */
  ghost predicate ExpandedTo<S(!new), A(!new)>(p: Problem<S, A>, states: map<S, Info<S, A>>, s: S, k: nat)
    requires s in states && k <= |p.actions(s)|
  {
    forall i :: 0 <= i < k ==>
      p.execute(p.actions(s)[i], s) in states && states[p.execute(p.actions(s)[i], s)].cost <= states[s].cost + 1
  }

  /** Every discovered state is live or has been expanded at its present cost; final states are never expanded. */
  ghost predicate LiveOrExpanded<S(!new), A(!new)>(p: Problem<S, A>, states: map<S, Info<S, A>>,
                                                   frontier: multiset<Entry<S>>, s: S)
    requires s in states
  {
    Live(states, frontier, s) || (!p.isFinal(s) && ExpandedTo(p, states, s, |p.actions(s)|))
  }

  ghost predicate AllLiveOrExpanded<S(!new), A(!new)>(p: Problem<S, A>, states: map<S, Info<S, A>>,
                                                      frontier: multiset<Entry<S>>) {
    forall s :: s in states ==> LiveOrExpanded(p, states, frontier, s)
  }

  // ----- why the first final state is optimal -----

  /** The key recorded for a state is at most its cost and the length of any solution from there. */
  lemma KeyAtMost<S(!new), A(!new)>(p: Problem<S, A>, h: S -> real, init: S, states: map<S, Info<S, A>>, s: S,
                                    rest: seq<A>, i: nat)
    requires s in states && InfoOk(p, h, init, states, s) && LowerBound(p, h)
    requires Solution(p, s, rest) && states[s].cost <= i
    ensures states[s].lastFrontierCost <= (i + |rest|) as real
  {
    assert h(s) <= |rest| as real;
  }

  /** On the way of any solution there is a live state whose frontier key does not exceed the length of the solution. */
  lemma {:induction false} LiveOnSolution<S(!new), A(!new)>(p: Problem<S, A>, h: S -> real, init: S, all: set<S>,
                                                            states: map<S, Info<S, A>>, frontier: multiset<Entry<S>>,
                                                            q: seq<A>, i: nat) returns (e: Entry<S>)
    requires Valid(p, h, init, all, states, frontier) && AllLiveOrExpanded(p, states, frontier) && LowerBound(p, h)
    requires Solution(p, init, q) && i <= |q|
    requires Run(p, init, q[..i]) in states && states[Run(p, init, q[..i])].cost <= i
    ensures e in frontier && e.cost <= |q| as real
    decreases |q| - i
  {
    var s := Run(p, init, q[..i]);
    SolutionTail(p, init, q, i);
    assert LiveOrExpanded(p, states, frontier, s);
    if i < |q| && !Live(states, frontier, s) {
      RunStep(p, init, q, i);
      var k :| 0 <= k < |p.actions(s)| && p.actions(s)[k] == q[i];
      assert p.execute(p.actions(s)[k], s) in states;
      e := LiveOnSolution(p, h, init, all, states, frontier, q, i + 1);
    } else {
      assert Live(states, frontier, s);
      e := Entry(states[s].lastFrontierCost, s);
      KeyAtMost(p, h, init, states, s, q[i..], i);
    }
  }

  /** A live final state with the least key in the frontier is as near as any final state. */
  lemma TopIsNearest<S(!new), A(!new)>(p: Problem<S, A>, h: S -> real, init: S, all: set<S>,
                                       states: map<S, Info<S, A>>, frontier: multiset<Entry<S>>, top: Entry<S>)
    requires Valid(p, h, init, all, states, frontier) && AllLiveOrExpanded(p, states, frontier) && LowerBound(p, h)
    requires IsTop(frontier, top) && top.cost == states[top.state].lastFrontierCost
    requires p.isFinal(top.state) && top.state != init && h(top.state) > -1.0
    ensures forall q: seq<A> :: Solution(p, init, q) ==> states[top.state].cost <= |q|
  {
    forall q: seq<A> | Solution(p, init, q) ensures states[top.state].cost <= |q| {
      assert q[..0] == [];
      assert InfoOk(p, h, init, states, init);
      assert InfoOk(p, h, init, states, top.state);
      var e := LiveOnSolution(p, h, init, all, states, frontier, q, 0);
    }
  }

  lemma {:induction false} AllStatesKnown<S(!new), A(!new)>(p: Problem<S, A>, h: S -> real, init: S, all: set<S>,
                                                            states: map<S, Info<S, A>>, q: seq<A>, i: nat)
    requires Valid(p, h, init, all, states, multiset{}) && AllLiveOrExpanded(p, states, multiset{})
    requires Executable(p, init, q) && i <= |q|
    ensures Run(p, init, q[..i]) in states
  {
    if i > 0 {
      AllStatesKnown(p, h, init, all, states, q, i - 1);
      RunStep(p, init, q, i - 1);
      var s := Run(p, init, q[..i - 1]);
      assert LiveOrExpanded(p, states, multiset{}, s);
      var k :| 0 <= k < |p.actions(s)| && p.actions(s)[k] == q[i - 1];
      assert p.execute(p.actions(s)[k], s) in states;
    }
  }

  /** An empty frontier means that no final state can be reached. */
  lemma EmptyFrontier<S(!new), A(!new)>(p: Problem<S, A>, h: S -> real, init: S, all: set<S>,
                                        states: map<S, Info<S, A>>)
    requires Valid(p, h, init, all, states, multiset{}) && AllLiveOrExpanded(p, states, multiset{})
    ensures Unsolvable(p, init)
  {
    forall q: seq<A> ensures !Solution(p, init, q) {
      if Solution(p, init, q) {
        assert q[..|q|] == q;
        AllStatesKnown(p, h, init, all, states, q, |q|);
        assert false;
      }
    }
  }

  // ----- path reconstruction -----

  /** Along the links from a nearest final state each predecessor is exactly one step nearer, although costs may have
      been lowered after the links were made; so the walk of as many steps as the cost ends at the initial state. */
  lemma PredecessorIsExact<S(!new), A(!new)>(p: Problem<S, A>, h: S -> real, init: S, all: set<S>,
                                             states: map<S, Info<S, A>>, frontier: multiset<Entry<S>>,
                                             s: S, tail: seq<A>, d: nat)
    requires Valid(p, h, init, all, states, frontier)
    requires s in states && states[s].cost > 0 && Solution(p, s, tail) && states[s].cost + |tail| == d
    requires forall q: seq<A> :: Solution(p, init, q) ==> d <= |q|
    ensures states[s].link.From? && states[s].link.parent in states
    ensures states[states[s].link.parent].cost == states[s].cost - 1
    ensures Solution(p, states[s].link.parent, [states[s].link.action] + tail)
  {
    assert InfoOk(p, h, init, states, s);
    var u, a := states[s].link.parent, states[s].link.action;
    assert InfoOk(p, h, init, states, u);
    assert ([a] + tail)[1..] == tail;
    var q: seq<A> :| Executable(p, init, q) && Run(p, init, q) == u && |q| == states[u].cost;
    RunAppend(p, init, q, [a] + tail);
    assert Solution(p, init, q + ([a] + tail));
  }

  method Reconstruct<S(==,!new), A(!new)>(p: Problem<S, A>, ghost h: S -> real, init: S, ghost all: set<S>,
                                          states: map<S, Info<S, A>>, ghost frontier: multiset<Entry<S>>, current: S)
    returns (ret: seq<A>)
    requires Valid(p, h, init, all, states, frontier) && current in states && p.isFinal(current)
    requires forall q: seq<A> :: Solution(p, init, q) ==> states[current].cost <= |q|
    ensures Shortest(p, init, ret) && |ret| == states[current].cost
  {
    var endNode := current;
    var depth := states[current].cost;
    ret := [];
    while depth != 0
      invariant endNode in states && states[endNode].cost == depth
      invariant Solution(p, endNode, ret) && depth + |ret| == states[current].cost
    {
      PredecessorIsExact(p, h, init, all, states, frontier, endNode, ret, states[current].cost);
      var node := states[endNode];
      ret := [node.link.action] + ret;
      endNode := node.link.parent;
      depth := depth - 1;
    }
    assert InfoOk(p, h, init, states, endNode);
  }

  // ----- termination -----

  ghost function SumCosts<S(!new), A(!new)>(states: map<S, Info<S, A>>, keys: set<S>): nat
    requires keys <= states.Keys
  {
    if keys == {} then 0
    else
      var s :| s in keys;
      states[s].cost + SumCosts(states, keys - {s})
  }

  lemma {:induction false} SumCostsTake<S(!new), A(!new)>(states: map<S, Info<S, A>>, keys: set<S>, s: S)
    requires keys <= states.Keys && s in keys
    ensures SumCosts(states, keys) == states[s].cost + SumCosts(states, keys - {s})
    decreases keys
  {
    var t: S :| t in keys && SumCosts(states, keys) == states[t].cost + SumCosts(states, keys - {t});
    if s != t {
      SumCostsTake(states, keys - {t}, s);
      SumCostsTake(states, keys - {s}, t);
      assert keys - {t} - {s} == keys - {s} - {t};
    }
  }

  lemma {:induction false} SumCostsSame<S(!new), A(!new)>(states: map<S, Info<S, A>>, states': map<S, Info<S, A>>,
                                                          keys: set<S>)
    requires keys <= states.Keys && keys <= states'.Keys && forall s :: s in keys ==> states[s].cost == states'[s].cost
    ensures SumCosts(states, keys) == SumCosts(states', keys)
    decreases keys
  {
    if s :| s in keys {
      SumCostsTake(states, keys, s);
      SumCostsTake(states', keys, s);
      SumCostsSame(states, states', keys - {s});
    }
  }

  lemma SumCostsDrops<S(!new), A(!new)>(states: map<S, Info<S, A>>, s: S, info: Info<S, A>)
    requires s in states && info.cost < states[s].cost
    ensures SumCosts(states[s := info], states.Keys) < SumCosts(states, states.Keys)
  {
    SumCostsTake(states, states.Keys, s);
    SumCostsTake(states[s := info], states.Keys, s);
    SumCostsSame(states, states[s := info], states.Keys - {s});
  }

  /** Either a new state was discovered, or a cost was lowered, or nothing happened at all. */
  ghost predicate Progress<S(!new), A(!new)>(states0: map<S, Info<S, A>>, frontier0: multiset<Entry<S>>,
                                             states: map<S, Info<S, A>>, frontier: multiset<Entry<S>>) {
    && states0.Keys <= states.Keys
    && (states0.Keys == states.Keys ==>
         || SumCosts(states, states.Keys) < SumCosts(states0, states0.Keys)
         || (states == states0 && frontier == frontier0))
  }

  // ----- the search -----

  lemma ReachedNext<S(!new), A(!new)>(p: Problem<S, A>, init: S, s: S, n: nat, a: A)
    requires ReachedIn(p, init, s, n) && a in p.actions(s)
    ensures ReachedIn(p, init, p.execute(a, s), n + 1)
  {
    var q: seq<A> :| Executable(p, init, q) && Run(p, init, q) == s && |q| == n;
    RunAppend(p, init, q, [a]);
    assert Run(p, s, [a]) == p.execute(a, s);
    assert |q + [a]| == n + 1;
  }

  /** Lowering the cost of t leaves the record of every other state right. */
  lemma InfoKept<S(!new), A(!new)>(p: Problem<S, A>, h: S -> real, init: S, states: map<S, Info<S, A>>, t: S,
                                   info: Info<S, A>, x: S)
    requires x in states && x != t && InfoOk(p, h, init, states, x)
    requires t in states ==> info.cost <= states[t].cost
    ensures InfoOk(p, h, init, states[t := info], x)
  {
  }

  lemma InfoOfNew<S(!new), A(!new)>(p: Problem<S, A>, h: S -> real, init: S, all: set<S>, states: map<S, Info<S, A>>,
                                    frontier: multiset<Entry<S>>, s: S, a: A, t: S, info: Info<S, A>)
    requires Valid(p, h, init, all, states, frontier) && s in states
    requires a in p.actions(s) && p.execute(a, s) == t
    requires t in states ==> states[s].cost + 1 < states[t].cost
    requires info == Info(From(s, a), states[s].cost + 1, (states[s].cost + 1) as real + h(t))
    ensures t != init && InfoOk(p, h, init, states[t := info], t)
  {
    assert InfoOk(p, h, init, states, s) && InfoOk(p, h, init, states, init);
    ReachedNext(p, init, s, states[s].cost, a);
  }

  lemma Assemble<S(!new), A(!new)>(p: Problem<S, A>, h: S -> real, init: S, all: set<S>, states: map<S, Info<S, A>>,
                                   frontier: multiset<Entry<S>>, t: S)
    requires states.Keys <= all && init in states && t in states && InfoOk(p, h, init, states, t)
    requires forall x :: x in states && x != t ==> InfoOk(p, h, init, states, x)
    requires forall e :: e in frontier ==> e.state in states && e.cost >= states[e.state].lastFrontierCost
    ensures Valid(p, h, init, all, states, frontier)
  {
  }

  lemma OthersKept<S(!new), A(!new)>(p: Problem<S, A>, h: S -> real, init: S, states: map<S, Info<S, A>>, t: S,
                                     info: Info<S, A>)
    requires forall x :: x in states ==> InfoOk(p, h, init, states, x)
    requires t in states ==> info.cost <= states[t].cost
    ensures forall x :: x in states && x != t ==> InfoOk(p, h, init, states[t := info], x)
  {
    forall x | x in states && x != t ensures InfoOk(p, h, init, states[t := info], x) {
      InfoKept(p, h, init, states, t, info, x);
    }
  }

  lemma FrontierKept<S(!new), A(!new)>(p: Problem<S, A>, h: S -> real, init: S, all: set<S>, states: map<S, Info<S, A>>,
                                       frontier: multiset<Entry<S>>, t: S, info: Info<S, A>)
    requires Valid(p, h, init, all, states, frontier) && info.lastFrontierCost == info.cost as real + h(t) && t != init
    requires t in states ==> info.cost <= states[t].cost
    ensures forall e :: e in frontier + multiset{Entry(info.lastFrontierCost, t)} ==>
              e.state in states[t := info] && e.cost >= states[t := info][e.state].lastFrontierCost
  {
    if t in states {
      assert InfoOk(p, h, init, states, t);
    }
    forall e | e in frontier + multiset{Entry(info.lastFrontierCost, t)}
      ensures e.state in states[t := info] && e.cost >= states[t := info][e.state].lastFrontierCost
    {
      assert e in frontier || e == Entry(info.lastFrontierCost, t);
    }
  }

  /** Recording a shorter way to t, or the first one, keeps everything in order. */
  lemma UpdateKeeps<S(!new), A(!new)>(p: Problem<S, A>, h: S -> real, init: S, all: set<S>, states: map<S, Info<S, A>>,
                                      frontier: multiset<Entry<S>>, s: S, a: A, t: S, info: Info<S, A>)
    requires Valid(p, h, init, all, states, frontier) && s in states && StateSpace(p, init, all)
    requires a in p.actions(s) && p.execute(a, s) == t
    requires t in states ==> states[s].cost + 1 < states[t].cost
    requires info == Info(From(s, a), states[s].cost + 1, (states[s].cost + 1) as real + h(t))
    ensures Valid(p, h, init, all, states[t := info], frontier + multiset{Entry(info.lastFrontierCost, t)})
  {
    InfoOfNew(p, h, init, all, states, frontier, s, a, t, info);
    OthersKept(p, h, init, states, t, info);
    FrontierKept(p, h, init, all, states, frontier, t, info);
    Assemble(p, h, init, all, states[t := info], frontier + multiset{Entry(info.lastFrontierCost, t)}, t);
  }

  /** While s is being expanded, k of its actions being done, every other state is live or expanded. */
  ghost predicate Expanding<S(!new), A(!new)>(p: Problem<S, A>, states: map<S, Info<S, A>>,
                                              frontier: multiset<Entry<S>>, s: S, k: nat) {
    && s in states && k <= |p.actions(s)| && ExpandedTo(p, states, s, k)
    && forall x :: x in states && x != s ==> LiveOrExpanded(p, states, frontier, x)
  }

  lemma UpdateExpands<S(!new), A(!new)>(p: Problem<S, A>, states: map<S, Info<S, A>>, frontier: multiset<Entry<S>>,
                                        s: S, k: nat, info: Info<S, A>)
    requires Expanding(p, states, frontier, s, k) && k < |p.actions(s)|
    requires info.cost == states[s].cost + 1
    requires var t := p.execute(p.actions(s)[k], s); t in states ==> info.cost < states[t].cost
    ensures var t := p.execute(p.actions(s)[k], s);
      Expanding(p, states[t := info], frontier + multiset{Entry(info.lastFrontierCost, t)}, s, k + 1)
  {
    var t := p.execute(p.actions(s)[k], s);
    var states', frontier' := states[t := info], frontier + multiset{Entry(info.lastFrontierCost, t)};
    forall x | x in states' && x != s ensures LiveOrExpanded(p, states', frontier', x) {
      if x == t {
        assert Live(states', frontier', x);
      } else {
        assert LiveOrExpanded(p, states, frontier, x);
      }
    }
  }

  lemma UpdateProgresses<S(!new), A(!new)>(states0: map<S, Info<S, A>>, frontier0: multiset<Entry<S>>,
                                           states: map<S, Info<S, A>>, frontier: multiset<Entry<S>>, t: S,
                                           info: Info<S, A>, frontier': multiset<Entry<S>>)
    requires Progress(states0, frontier0, states, frontier)
    requires t in states ==> info.cost < states[t].cost
    ensures Progress(states0, frontier0, states[t := info], frontier')
  {
    if t in states {
      SumCostsDrops(states, t, info);
      assert states[t := info].Keys == states.Keys;
    } else {
      assert t in states[t := info].Keys && t !in states0.Keys;
    }
  }

  /** What action number k of s, at the given cost of s, makes of the two containers. */
  function DiscoverStep<S(==), A>(p: Problem<S, A>, h: S -> real, states: map<S, Info<S, A>>,
                                  frontier: multiset<Entry<S>>, s: S, cost: nat, k: nat)
    : (map<S, Info<S, A>>, multiset<Entry<S>>)
    requires k < |p.actions(s)|
  {
    var action := p.actions(s)[k];
    var t := p.execute(action, s);
    if t !in states || cost + 1 < states[t].cost then
      var key := (cost + 1) as real + h(t);
      (states[t := Info(From(s, action), cost + 1, key)], frontier + multiset{Entry(key, t)})
    else (states, frontier)
  }

  lemma DiscoverImproves<S, A>(p: Problem<S, A>, h: S -> real, states: map<S, Info<S, A>>, frontier: multiset<Entry<S>>,
                               s: S, cost: nat, k: nat, t: S, info: Info<S, A>)
    requires k < |p.actions(s)| && t == p.execute(p.actions(s)[k], s)
    requires t in states ==> cost + 1 < states[t].cost
    requires info == Info(From(s, p.actions(s)[k]), cost + 1, (cost + 1) as real + h(t))
    ensures DiscoverStep(p, h, states, frontier, s, cost, k) ==
      (states[t := info], frontier + multiset{Entry(info.lastFrontierCost, t)})
  {
  }

  /** What the first k actions of s make of them. */
  function ExpandSteps<S(==), A>(p: Problem<S, A>, h: S -> real, states: map<S, Info<S, A>>,
                                 frontier: multiset<Entry<S>>, s: S, cost: nat, k: nat)
    : (map<S, Info<S, A>>, multiset<Entry<S>>)
    requires k <= |p.actions(s)|
  {
    if k == 0 then (states, frontier)
    else
      var before := ExpandSteps(p, h, states, frontier, s, cost, k - 1);
      DiscoverStep(p, h, before.0, before.1, s, cost, k - 1)
  }

  /** Recording an improvement keeps the invariant and progresses. */
  lemma Improves<S(!new), A(!new)>(p: Problem<S, A>, h: S -> real, init: S, all: set<S>, states: map<S, Info<S, A>>,
                                   frontier: multiset<Entry<S>>, s: S, k: nat, t: S, info: Info<S, A>,
                                   states': map<S, Info<S, A>>, frontier': multiset<Entry<S>>)
    requires StateSpace(p, init, all) && Valid(p, h, init, all, states, frontier)
    requires Expanding(p, states, frontier, s, k) && k < |p.actions(s)|
    requires t == p.execute(p.actions(s)[k], s) && (t in states ==> states[s].cost + 1 < states[t].cost)
    requires info == Info(From(s, p.actions(s)[k]), states[s].cost + 1, (states[s].cost + 1) as real + h(t))
    requires states' == states[t := info] && frontier' == frontier + multiset{Entry(info.lastFrontierCost, t)}
    ensures Valid(p, h, init, all, states', frontier') && Expanding(p, states', frontier', s, k + 1)
    ensures Progress(states, frontier, states', frontier')
    ensures t != s
  {
    UpdateKeeps(p, h, init, all, states, frontier, s, p.actions(s)[k], t, info);
    UpdateExpands(p, states, frontier, s, k, info);
    UpdateProgresses(states, frontier, states, frontier, t, info, frontier');
  }

  /** The body of the inner loop: records the state that an action of s leads to, if that is an improvement. */
  method Discover<S(==,!new), A(!new)>(p: Problem<S, A>, h: S -> real, ghost init: S, ghost all: set<S>,
                                       states0: map<S, Info<S, A>>, frontier0: multiset<Entry<S>>, s: S, k: nat)
    returns (states: map<S, Info<S, A>>, frontier: multiset<Entry<S>>)
    requires StateSpace(p, init, all) && Valid(p, h, init, all, states0, frontier0)
    requires Expanding(p, states0, frontier0, s, k) && k < |p.actions(s)|
    ensures Valid(p, h, init, all, states, frontier)
    ensures Expanding(p, states, frontier, s, k + 1) && states[s].cost == states0[s].cost
    ensures (states, frontier) == DiscoverStep(p, h, states0, frontier0, s, states0[s].cost, k)
    ensures Progress(states0, frontier0, states, frontier)
  {
    states, frontier := states0, frontier0;
    var action := p.actions(s)[k];
    var newState := p.execute(action, s);
    var newActualCost := states[s].cost + 1;
    var costWithHeuristic := newActualCost as real + h(newState);
    if newState !in states || newActualCost < states[newState].cost {
      var info := Info(From(s, action), newActualCost, costWithHeuristic);
      states := states[newState := info];
      frontier := frontier + multiset{Entry(costWithHeuristic, newState)};
      DiscoverImproves(p, h, states0, frontier0, s, states0[s].cost, k, newState, info);
      Improves(p, h, init, all, states0, frontier0, s, k, newState, info, states, frontier);
    }
  }

  lemma ProgressTrans<S(!new), A(!new)>(a: map<S, Info<S, A>>, fa: multiset<Entry<S>>, b: map<S, Info<S, A>>,
                                        fb: multiset<Entry<S>>, c: map<S, Info<S, A>>, fc: multiset<Entry<S>>)
    requires Progress(a, fa, b, fb) && Progress(b, fb, c, fc)
    ensures Progress(a, fa, c, fc)
  {
  }

  /** The inner loop: records what the actions of s lead to. */
  method Expand<S(==,!new), A(!new)>(p: Problem<S, A>, h: S -> real, ghost init: S, ghost all: set<S>,
                                     states0: map<S, Info<S, A>>, frontier0: multiset<Entry<S>>, s: S)
    returns (states: map<S, Info<S, A>>, frontier: multiset<Entry<S>>)
    requires StateSpace(p, init, all) && Valid(p, h, init, all, states0, frontier0)
    requires Expanding(p, states0, frontier0, s, 0) && !p.isFinal(s)
    ensures Valid(p, h, init, all, states, frontier) && AllLiveOrExpanded(p, states, frontier)
    ensures (states, frontier) == ExpandSteps(p, h, states0, frontier0, s, states0[s].cost, |p.actions(s)|)
    ensures Progress(states0, frontier0, states, frontier)
  {
    states, frontier := states0, frontier0;
    for k := 0 to |p.actions(s)|
      invariant Valid(p, h, init, all, states, frontier) && Expanding(p, states, frontier, s, k)
      invariant states[s].cost == states0[s].cost
      invariant (states, frontier) == ExpandSteps(p, h, states0, frontier0, s, states0[s].cost, k)
      invariant Progress(states0, frontier0, states, frontier)
    {
      ghost var states1, frontier1 := states, frontier;
      states, frontier := Discover(p, h, init, all, states, frontier, s, k);
      ProgressTrans(states0, frontier0, states1, frontier1, states, frontier);
    }
    assert LiveOrExpanded(p, states, frontier, s);
  }

  lemma {:induction false} LeastEntry<S(!new)>(frontier: multiset<Entry<S>>) returns (top: Entry<S>)
    requires frontier != multiset{}
    ensures IsTop(frontier, top)
    decreases |frontier|
  {
    top :| top in frontier;
    var rest := frontier - multiset{top};
    assert forall e :: e in frontier ==> e == top || e in rest;
    if rest != multiset{} {
      var other := LeastEntry(rest);
      if other.cost < top.cost {
        top := other;
      }
    }
  }

  /** The top of the priority queue: an entry of least cost, whichever. */
  method Top<S(==,!new)>(frontier: multiset<Entry<S>>) returns (top: Entry<S>)
    requires frontier != multiset{}
    ensures IsTop(frontier, top)
  {
    ghost var least := LeastEntry(frontier);
    top :| top in frontier && forall e :: e in frontier ==> top.cost <= e.cost;
  }

  /** One round of the main loop, from one pair of containers to the next. */
  ghost predicate IsRound<S(!new), A(!new)>(p: Problem<S, A>, h: S -> real, states: map<S, Info<S, A>>,
                                            frontier: multiset<Entry<S>>, top: Entry<S>,
                                            states': map<S, Info<S, A>>, frontier': multiset<Entry<S>>)
  {
    && IsTop(frontier, top) && !p.isFinal(top.state)
    && top.state in states && states[top.state].lastFrontierCost >= top.cost
    && (states', frontier') == ExpandSteps(p, h, states, frontier - multiset{top}, top.state, states[top.state].cost,
                                           |p.actions(top.state)|)
  }

  /** Once the top is taken out, its state alone is neither live nor expanded. */
  lemma TopTaken<S(!new), A(!new)>(p: Problem<S, A>, h: S -> real, init: S, all: set<S>, states: map<S, Info<S, A>>,
                                   frontier: multiset<Entry<S>>, top: Entry<S>)
    requires Valid(p, h, init, all, states, frontier) && AllLiveOrExpanded(p, states, frontier) && top in frontier
    ensures Valid(p, h, init, all, states, frontier - multiset{top})
    ensures Expanding(p, states, frontier - multiset{top}, top.state, 0)
  {
    forall x | x in states && x != top.state ensures LiveOrExpanded(p, states, frontier - multiset{top}, x) {
      assert LiveOrExpanded(p, states, frontier, x);
    }
  }

  /** One round of the main loop that neither meets an outdated entry nor a final state. */
  method ExpandTop<S(==,!new), A(!new)>(p: Problem<S, A>, h: S -> real, ghost init: S, ghost all: set<S>,
                                        states0: map<S, Info<S, A>>, frontier0: multiset<Entry<S>>, top: Entry<S>)
    returns (states: map<S, Info<S, A>>, frontier: multiset<Entry<S>>)
    requires StateSpace(p, init, all) && Valid(p, h, init, all, states0, frontier0)
    requires AllLiveOrExpanded(p, states0, frontier0) && IsTop(frontier0, top)
    requires states0[top.state].lastFrontierCost >= top.cost && !p.isFinal(top.state)
    ensures Valid(p, h, init, all, states, frontier) && AllLiveOrExpanded(p, states, frontier)
    ensures IsRound(p, h, states0, frontier0, top, states, frontier)
    ensures |all| - |states.Keys| >= 0
    ensures || |states.Keys| > |states0.Keys|
            || (|states.Keys| == |states0.Keys| && SumCosts(states, states.Keys) < SumCosts(states0, states0.Keys))
            || (states == states0 && |frontier| < |frontier0|)
  {
    TopTaken(p, h, init, all, states0, frontier0, top);
    states, frontier := Expand(p, h, init, all, states0, frontier0 - multiset{top}, top.state);
    SubsetSizes(states0.Keys, states.Keys, all);
  }

  /** Taking out an outdated entry changes nothing. */
  lemma DropOutdated<S(!new), A(!new)>(p: Problem<S, A>, h: S -> real, init: S, all: set<S>, states: map<S, Info<S, A>>,
                                       frontier: multiset<Entry<S>>, top: Entry<S>)
    requires Valid(p, h, init, all, states, frontier) && AllLiveOrExpanded(p, states, frontier)
    requires top in frontier && states[top.state].lastFrontierCost < top.cost
    ensures Valid(p, h, init, all, states, frontier - multiset{top})
    ensures AllLiveOrExpanded(p, states, frontier - multiset{top})
  {
    forall x | x in states ensures LiveOrExpanded(p, states, frontier - multiset{top}, x) {
      assert LiveOrExpanded(p, states, frontier, x);
    }
  }

  // ----- whole runs of the main loop -----

  /** The two containers of the search. */
  datatype Config<S, A> = Config(states: map<S, Info<S, A>>, frontier: multiset<Entry<S>>)

  /** The top is outdated and is taken out. */
  ghost predicate IsDrop<S(!new), A(!new)>(c: Config<S, A>, top: Entry<S>, c': Config<S, A>) {
    && IsTop(c.frontier, top) && top.state in c.states && c.states[top.state].lastFrontierCost < top.cost
    && c' == Config(c.states, c.frontier - multiset{top})
  }

  ghost predicate Step<S(!new), A(!new)>(p: Problem<S, A>, h: S -> real, c: Config<S, A>, c': Config<S, A>) {
    || (exists top :: IsDrop(c, top, c'))
    || (exists top :: IsRound(p, h, c.states, c.frontier, top, c'.states, c'.frontier))
  }

  /** What the containers are at the head of the main loop, turn by turn. */
  ghost predicate IsRun<S(!new), A(!new)>(p: Problem<S, A>, h: S -> real, init: S, run: seq<Config<S, A>>) {
    && !p.isFinal(init) && run != []
    && run[0] == Config(map[init := Info(Root, 0, 0.0)], multiset{Entry(0.0, init)})
    && forall i :: 0 < i < |run| ==> Step(p, h, run[i - 1], run[i])
  }

  ghost predicate RunsTo<S(!new), A(!new)>(p: Problem<S, A>, h: S -> real, init: S, run: seq<Config<S, A>>,
                                           c: Config<S, A>)
  {
    IsRun(p, h, init, run) && run[|run| - 1] == c
  }

  /** With these containers the main loop may end with the state of top. */
  ghost predicate Finds<S(!new), A(!new)>(p: Problem<S, A>, c: Config<S, A>, top: Entry<S>) {
    && IsTop(c.frontier, top) && top.state in c.states && c.states[top.state].lastFrontierCost >= top.cost
    && p.isFinal(top.state)
  }

  /** The run ends with a final state of cost n on top. */
  ghost predicate FindsAt<S(!new), A(!new)>(p: Problem<S, A>, run: seq<Config<S, A>>, n: nat) {
    run != [] && exists top :: Finds(p, run[|run| - 1], top) && run[|run| - 1].states[top.state].cost == n
  }

  lemma RunExtends<S(!new), A(!new)>(p: Problem<S, A>, h: S -> real, init: S, run: seq<Config<S, A>>, c: Config<S, A>,
                                     c': Config<S, A>) returns (longer: seq<Config<S, A>>)
    requires RunsTo(p, h, init, run, c) && Step(p, h, c, c')
    ensures RunsTo(p, h, init, longer, c')
  {
    longer := run + [c'];
    forall i | 0 < i < |longer| ensures Step(p, h, longer[i - 1], longer[i]) {
      assert i < |run| ==> longer[i - 1] == run[i - 1] && longer[i] == run[i];
    }
  }

  lemma DropExtends<S(!new), A(!new)>(p: Problem<S, A>, h: S -> real, init: S, run: seq<Config<S, A>>, c: Config<S, A>,
                                      top: Entry<S>) returns (longer: seq<Config<S, A>>)
    requires RunsTo(p, h, init, run, c) && IsTop(c.frontier, top)
    requires top.state in c.states && c.states[top.state].lastFrontierCost < top.cost
    ensures RunsTo(p, h, init, longer, Config(c.states, c.frontier - multiset{top}))
  {
    assert IsDrop(c, top, Config(c.states, c.frontier - multiset{top}));
    longer := RunExtends(p, h, init, run, c, Config(c.states, c.frontier - multiset{top}));
  }

  lemma RoundExtends<S(!new), A(!new)>(p: Problem<S, A>, h: S -> real, init: S, run: seq<Config<S, A>>,
                                       c: Config<S, A>, top: Entry<S>, c': Config<S, A>)
    returns (longer: seq<Config<S, A>>)
    requires RunsTo(p, h, init, run, c)
    requires IsRound(p, h, c.states, c.frontier, top, c'.states, c'.frontier)
    ensures RunsTo(p, h, init, longer, c')
  {
    longer := RunExtends(p, h, init, run, c, c');
  }

  /** AStarSearch::solve, apart from its memory limit. */
  method Solve<S(==,!new), A(!new)>(p: Problem<S, A>, h: S -> real, init: S, ghost all: set<S>)
    returns (ret: seq<A>, ghost run: seq<Config<S, A>>)
    requires StateSpace(p, init, all) && Admissible(p, h)
    ensures !p.isFinal(init) ==> IsRun(p, h, init, run)
    ensures ret != [] ==> FindsAt(p, run, |ret|)
    ensures ret != [] ==> Shortest(p, init, ret)
    ensures ret == [] <==> p.isFinal(init) || Unsolvable(p, init)
  {
    run := [];
    if p.isFinal(init) {
      return [], run;
    }
    var states: map<S, Info<S, A>> := map[init := Info(Root, 0, 0.0)];
    var frontier: multiset<Entry<S>> := multiset{Entry(0.0, init)};
    run := [Config(states, frontier)];
    assert Run(p, init, []) == init && Executable(p, init, []);
    while frontier != multiset{}
      invariant Valid(p, h, init, all, states, frontier) && AllLiveOrExpanded(p, states, frontier)
      invariant RunsTo(p, h, init, run, Config(states, frontier))
      decreases |all| - |states.Keys|, SumCosts(states, states.Keys), |frontier|
    {
      var top := Top(frontier);
      if states[top.state].lastFrontierCost < top.cost {
        DropOutdated(p, h, init, all, states, frontier, top);
        run := DropExtends(p, h, init, run, Config(states, frontier), top);
        frontier := frontier - multiset{top};
        continue;
      }
      if p.isFinal(top.state) {
        TopIsNearest(p, h, init, all, states, frontier, top);
        ret := Reconstruct(p, h, init, all, states, frontier, top.state);
        return ret, run;
      }
      ghost var before := Config(states, frontier);
      states, frontier := ExpandTop(p, h, init, all, states, frontier, top);
      run := RoundExtends(p, h, init, run, before, top, Config(states, frontier));
    }
    EmptyFrontier(p, h, init, all, states);
    return [], run;
  }

  // ----- what a run finds -----

  /** Whatever a run finds is as near as any final state. */
  ghost predicate FindsNearest<S(!new), A(!new)>(p: Problem<S, A>, h: S -> real, init: S) {
    forall run: seq<Config<S, A>>, top: Entry<S>, q: seq<A> ::
      IsRun(p, h, init, run) && Finds(p, run[|run| - 1], top) && Solution(p, init, q) ==>
        run[|run| - 1].states[top.state].cost <= |q|
  }

  /** One action keeps what holds while s is being expanded. */
  lemma DiscoverKeeps<S(!new), A(!new)>(p: Problem<S, A>, h: S -> real, init: S, all: set<S>,
                                        states0: map<S, Info<S, A>>, frontier0: multiset<Entry<S>>, s: S, k: nat)
    returns (states: map<S, Info<S, A>>, frontier: multiset<Entry<S>>)
    requires StateSpace(p, init, all) && Valid(p, h, init, all, states0, frontier0)
    requires Expanding(p, states0, frontier0, s, k) && k < |p.actions(s)|
    ensures Valid(p, h, init, all, states, frontier)
    ensures Expanding(p, states, frontier, s, k + 1) && states[s].cost == states0[s].cost
    ensures (states, frontier) == DiscoverStep(p, h, states0, frontier0, s, states0[s].cost, k)
  {
    states, frontier := states0, frontier0;
    var t := p.execute(p.actions(s)[k], s);
    if t !in states || states[s].cost + 1 < states[t].cost {
      var cost := states[s].cost;
      var info := Info(From(s, p.actions(s)[k]), cost + 1, (cost + 1) as real + h(t));
      states, frontier := states[t := info], frontier + multiset{Entry(info.lastFrontierCost, t)};
      DiscoverImproves(p, h, states0, frontier0, s, cost, k, t, info);
      Improves(p, h, init, all, states0, frontier0, s, k, t, info, states, frontier);
    }
  }

  /** A whole expansion leaves every discovered state live or expanded. */
  lemma ExpandKeeps<S(!new), A(!new)>(p: Problem<S, A>, h: S -> real, init: S, all: set<S>,
                                      states0: map<S, Info<S, A>>, frontier0: multiset<Entry<S>>, s: S)
    returns (states: map<S, Info<S, A>>, frontier: multiset<Entry<S>>)
    requires StateSpace(p, init, all) && Valid(p, h, init, all, states0, frontier0)
    requires Expanding(p, states0, frontier0, s, 0) && !p.isFinal(s)
    ensures Valid(p, h, init, all, states, frontier) && AllLiveOrExpanded(p, states, frontier)
    ensures (states, frontier) == ExpandSteps(p, h, states0, frontier0, s, states0[s].cost, |p.actions(s)|)
  {
    states, frontier := states0, frontier0;
    for k := 0 to |p.actions(s)|
      invariant Valid(p, h, init, all, states, frontier) && Expanding(p, states, frontier, s, k)
      invariant states[s].cost == states0[s].cost
      invariant (states, frontier) == ExpandSteps(p, h, states0, frontier0, s, states0[s].cost, k)
    {
      states, frontier := DiscoverKeeps(p, h, init, all, states, frontier, s, k);
    }
    assert LiveOrExpanded(p, states, frontier, s);
  }

  lemma RoundKeeps<S(!new), A(!new)>(p: Problem<S, A>, h: S -> real, init: S, all: set<S>,
                                     c: Config<S, A>, top: Entry<S>, c': Config<S, A>)
    requires StateSpace(p, init, all) && Valid(p, h, init, all, c.states, c.frontier)
    requires AllLiveOrExpanded(p, c.states, c.frontier)
    requires IsRound(p, h, c.states, c.frontier, top, c'.states, c'.frontier)
    ensures Valid(p, h, init, all, c'.states, c'.frontier) && AllLiveOrExpanded(p, c'.states, c'.frontier)
  {
    TopTaken(p, h, init, all, c.states, c.frontier, top);
    var states, frontier := ExpandKeeps(p, h, init, all, c.states, c.frontier - multiset{top}, top.state);
  }

  /** Every turn of a run keeps what holds of the containers, whatever the heuristic is. */
  lemma {:induction false} RunKeeps<S(!new), A(!new)>(p: Problem<S, A>, h: S -> real, init: S, all: set<S>,
                                                      run: seq<Config<S, A>>, i: nat)
    requires StateSpace(p, init, all) && IsRun(p, h, init, run) && i < |run|
    ensures Valid(p, h, init, all, run[i].states, run[i].frontier)
    ensures AllLiveOrExpanded(p, run[i].states, run[i].frontier)
  {
    if i == 0 {
      assert Run(p, init, []) == init && Executable(p, init, []);
    } else {
      RunKeeps(p, h, init, all, run, i - 1);
      var c, c' := run[i - 1], run[i];
      assert Step(p, h, c, c');
      if top :| IsDrop(c, top, c') {
        DropOutdated(p, h, init, all, c.states, c.frontier, top);
      } else {
        var top :| IsRound(p, h, c.states, c.frontier, top, c'.states, c'.frontier);
        RoundKeeps(p, h, init, all, c, top, c');
      }
    }
  }

  /** A lower bound above -1 at the goal makes everything found a nearest final state. */
  lemma AdmissibleFindsNearest<S(!new), A(!new)>(p: Problem<S, A>, h: S -> real, init: S, all: set<S>)
    requires StateSpace(p, init, all) && Admissible(p, h)
    ensures FindsNearest(p, h, init)
  {
    forall run: seq<Config<S, A>>, top: Entry<S>, q: seq<A>
      | IsRun(p, h, init, run) && Finds(p, run[|run| - 1], top) && Solution(p, init, q)
      ensures run[|run| - 1].states[top.state].cost <= |q|
    {
      var last := run[|run| - 1];
      RunKeeps(p, h, init, all, run, |run| - 1);
      TopIsNearest(p, h, init, all, last.states, last.frontier, top);
    }
  }

  // ----- a bound of -1 at the goal is not enough -----

  datatype Place = Start | Detour | FarGoal | NearGoal

  datatype Move = Direct | Aside | On

  /** One step leads to the near goal, a detour of two steps to the far one. */
  function Fork(): Problem<Place, Move> {
    Problem(
      (s: Place) => if s.Start? then [Direct, Aside] else if s.Detour? then [On] else [],
      (a: Move, s: Place) => if a.Direct? then NearGoal else if a.Aside? then Detour else FarGoal,
      (s: Place) => s.FarGoal? || s.NearGoal?)
  }

  /** For v up to 0 a lower bound that is v at the far goal. */
  function Misleading(v: real): Place -> real {
    (s: Place) => if s.Detour? then -1.0 else if s.FarGoal? then v else 0.0
  }

  function AtStart(): Config<Place, Move> {
    Config(map[Start := Info(Root, 0, 0.0)], multiset{Entry(0.0, Start)})
  }

  function AfterStart(): Config<Place, Move> {
    Config(
      AtStart().states[NearGoal := Info(From(Start, Direct), 1, 1.0)][Detour := Info(From(Start, Aside), 1, 0.0)],
      multiset{Entry(1.0, NearGoal), Entry(0.0, Detour)})
  }

  function AfterDetour(v: real): Config<Place, Move> {
    Config(AfterStart().states[FarGoal := Info(From(Detour, On), 2, 2.0 + v)],
           multiset{Entry(1.0, NearGoal), Entry(2.0 + v, FarGoal)})
  }

  lemma FirstRound(v: real)
    ensures IsRound(Fork(), Misleading(v), AtStart().states, AtStart().frontier, Entry(0.0, Start),
                    AfterStart().states, AfterStart().frontier)
  {
    var p, h, states, none := Fork(), Misleading(v), AtStart().states, multiset{};
    var near, aside := Info(From(Start, Direct), 1, 1.0), Info(From(Start, Aside), 1, 0.0);
    assert p.actions(Start) == [Direct, Aside];
    assert AtStart().frontier - multiset{Entry(0.0, Start)} == none;
    assert ExpandSteps(p, h, states, none, Start, 0, 0) == (states, none);
    assert ExpandSteps(p, h, states, none, Start, 0, 1) ==
      (states[NearGoal := near], none + multiset{Entry(1.0, NearGoal)});
    assert ExpandSteps(p, h, states, none, Start, 0, 2) ==
      (states[NearGoal := near][Detour := aside],
       none + multiset{Entry(1.0, NearGoal)} + multiset{Entry(0.0, Detour)});
    assert none + multiset{Entry(1.0, NearGoal)} + multiset{Entry(0.0, Detour)} == AfterStart().frontier;
  }

  lemma DetourExpanded(v: real)
    ensures Fork().actions(Detour) == [On]
    ensures ExpandSteps(Fork(), Misleading(v), AfterStart().states, multiset{Entry(1.0, NearGoal)}, Detour, 1, 1) ==
            (AfterDetour(v).states, AfterDetour(v).frontier)
  {
    var p, h, states, rest := Fork(), Misleading(v), AfterStart().states, multiset{Entry(1.0, NearGoal)};
    DiscoverImproves(p, h, states, rest, Detour, 1, 0, FarGoal, Info(From(Detour, On), 2, 2.0 + v));
    assert ExpandSteps(p, h, states, rest, Detour, 1, 0) == (states, rest);
    assert rest + multiset{Entry(2.0 + v, FarGoal)} == AfterDetour(v).frontier;
  }

  lemma SecondRound(v: real)
    ensures IsRound(Fork(), Misleading(v), AfterStart().states, AfterStart().frontier, Entry(0.0, Detour),
                    AfterDetour(v).states, AfterDetour(v).frontier)
  {
    DetourExpanded(v);
    assert AfterStart().frontier - multiset{Entry(0.0, Detour)} == multiset{Entry(1.0, NearGoal)};
  }

  ghost predicate AtGoals<S(!new), A(!new)>(p: Problem<S, A>, h: S -> real, b: real) {
    forall s :: p.isFinal(s) ==> h(s) >= b
  }

  /** A lower bound of at least b at final states. */
  ghost predicate BoundFrom<S(!new), A(!new)>(p: Problem<S, A>, h: S -> real, b: real) {
    LowerBound(p, h) && AtGoals(p, h, b)
  }

  lemma MisleadingBound(v: real)
    requires v <= 0.0
    ensures BoundFrom(Fork(), Misleading(v), v)
  {
    forall s, q: seq<Move> | Solution(Fork(), s, q) ensures Misleading(v)(s) <= |q| as real {
    }
  }

  lemma MisleadingRun(v: real)
    ensures IsRun(Fork(), Misleading(v), Start, [AtStart(), AfterStart(), AfterDetour(v)])
  {
    FirstRound(v);
    SecondRound(v);
    var run := [AtStart(), AfterStart(), AfterDetour(v)];
    assert Step(Fork(), Misleading(v), run[0], run[1]);
    assert Step(Fork(), Misleading(v), run[1], run[2]);
  }

  lemma FarGoalOnTop(v: real)
    requires v <= -1.0
    ensures Finds(Fork(), AfterDetour(v), Entry(2.0 + v, FarGoal)) && AfterDetour(v).states[FarGoal].cost == 2
  {
    assert Entry(2.0 + v, FarGoal) in AfterDetour(v).frontier;
  }

  lemma NearGoalInOne()
    ensures Solution(Fork(), Start, [Direct])
  {
    var p := Fork();
    assert Run(p, p.execute(Direct, Start), []) == NearGoal && Executable(p, NearGoal, []);
    assert [Direct][1..] == [];
  }

  lemma NotNearest<S(!new), A(!new)>(p: Problem<S, A>, h: S -> real, init: S, run: seq<Config<S, A>>, top: Entry<S>,
                                     q: seq<A>)
    requires IsRun(p, h, init, run) && Finds(p, run[|run| - 1], top) && Solution(p, init, q)
    requires run[|run| - 1].states[top.state].cost > |q|
    ensures !FindsNearest(p, h, init)
  {
  }

  /** With a lower bound of -1 or less at a goal, two rounds bring that goal to the top of the frontier at cost 2,
      though one step leads to another goal. */
  lemma MisledFromMinusOne(v: real)
    requires v <= -1.0
    ensures BoundFrom(Fork(), Misleading(v), v) && Solution(Fork(), Start, [Direct])
    ensures IsRun(Fork(), Misleading(v), Start, [AtStart(), AfterStart(), AfterDetour(v)])
    ensures Finds(Fork(), AfterDetour(v), Entry(2.0 + v, FarGoal)) && AfterDetour(v).states[FarGoal].cost == 2
    ensures !FindsNearest(Fork(), Misleading(v), Start)
  {
    MisleadingBound(v);
    MisleadingRun(v);
    FarGoalOnTop(v);
    NearGoalInOne();
    NotNearest(Fork(), Misleading(v), Start, [AtStart(), AfterStart(), AfterDetour(v)], Entry(2.0 + v, FarGoal),
               [Direct]);
  }

  lemma PlacesAreStateSpace(p: Problem<Place, Move>, init: Place)
    ensures StateSpace(p, init, {Start, Detour, FarGoal, NearGoal})
  {
    var all := {Start, Detour, FarGoal, NearGoal};
    forall s, a | s in all && a in p.actions(s) ensures p.execute(a, s) in all {
      match p.execute(a, s) case Start => case Detour => case FarGoal => case NearGoal =>
    }
  }

  /** All lower bounds of at least b at final states make the search optimal. */
  ghost predicate NearestFrom(b: real) {
    forall p: Problem<Place, Move>, h: Place -> real, init: Place ::
      BoundFrom(p, h, b) ==> FindsNearest(p, h, init)
  }

  lemma AboveMinusOne(b: real, p: Problem<Place, Move>, h: Place -> real, init: Place)
    requires b > -1.0 && BoundFrom(p, h, b)
    ensures FindsNearest(p, h, init)
  {
    PlacesAreStateSpace(p, init);
    AdmissibleFindsNearest(p, h, init, {Start, Detour, FarGoal, NearGoal});
  }

  lemma NearestByBound(b: real, p: Problem<Place, Move>, h: Place -> real, init: Place)
    requires NearestFrom(b) && BoundFrom(p, h, b)
    ensures FindsNearest(p, h, init)
  {
  }

  /** What is found is nearest, for all problems and all lower bounds of at least b at final states, exactly when b is
      above -1. */
  lemma NearestExactlyAboveMinusOne(b: real)
    ensures b > -1.0 <==> NearestFrom(b)
  {
    if b > -1.0 {
      forall p: Problem<Place, Move>, h: Place -> real, init: Place | BoundFrom(p, h, b)
        ensures FindsNearest(p, h, init)
      {
        AboveMinusOne(b, p, h, init);
      }
    } else if NearestFrom(b) {
      MisledFromMinusOne(b);
      NearestByBound(b, Fork(), Misleading(b), Start);
    }
  }
}
