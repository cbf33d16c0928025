/** Breadth-first search: BreadthFirstSearch::solve of sui-solution.cc. */
module BreadthFirst {
  import opened SearchProblems

  ghost predicate LinkOk<S(!new), A(!new)>(p: Problem<S, A>, init: S, closed: map<S, Link<S, A>>, depth: map<S, nat>,
                                           s: S)
    requires s in closed && closed.Keys == depth.Keys
  {
    if closed[s].Root? then s == init
    else
      var u, a := closed[s].parent, closed[s].action;
      u in closed && a in p.actions(u) && p.execute(a, u) == s && depth[s] == depth[u] + 1
  }

  /** What holds of the two lists between two expansions; depth is the level on which a state was discovered. */
  ghost predicate Valid<S(!new), A(!new)>(p: Problem<S, A>, init: S, all: set<S>, open: seq<S>,
                                          closed: map<S, Link<S, A>>, depth: map<S, nat>) {
    && closed.Keys == depth.Keys && closed.Keys <= all
    && init in closed && closed[init].Root? && depth[init] == 0
    && (forall s :: s in closed ==> !p.isFinal(s) && LinkOk(p, init, closed, depth, s))
    && (forall i :: 0 <= i < |open| ==> open[i] in closed)
    && (forall i, j :: 0 <= i < j < |open| ==> depth[open[i]] <= depth[open[j]])
    && (forall s :: s in closed && |open| > 0 ==> depth[s] <= depth[open[0]] + 1)
  }

  /** The first k successors of s have been discovered, at most one level below it. */
  ghost predicate ExpandedTo<S(!new), A(!new)>(p: Problem<S, A>, closed: map<S, Link<S, A>>, depth: map<S, nat>, s: S,
                                               k: nat)
    requires s in depth && closed.Keys == depth.Keys && k <= |p.actions(s)|
  {
    forall i :: 0 <= i < k ==>
      p.execute(p.actions(s)[i], s) in closed && depth[p.execute(p.actions(s)[i], s)] <= depth[s] + 1
  }

  /** Everything that is closed but not open has been expanded. */
  ghost predicate AllExpanded<S(!new), A(!new)>(p: Problem<S, A>, open: seq<S>, closed: map<S, Link<S, A>>,
                                                depth: map<S, nat>)
    requires closed.Keys == depth.Keys
  {
    forall s :: s in closed && s !in open ==> ExpandedTo(p, closed, depth, s, |p.actions(s)|)
  }

  /** No open state lies above level d. */
  ghost predicate OpenFrom<S>(open: seq<S>, depth: map<S, nat>, d: nat) {
    forall s :: s in open && s in depth ==> depth[s] >= d
  }

  /** Along any action sequence of length at most d all states are closed, if none above level d is open. */
  lemma {:induction false} ClosedAlong<S(!new), A(!new)>(p: Problem<S, A>, init: S, all: set<S>, open: seq<S>,
                                                         closed: map<S, Link<S, A>>, depth: map<S, nat>, d: nat,
                                                         q: seq<A>, i: nat)
    requires Valid(p, init, all, [], closed, depth) && AllExpanded(p, open, closed, depth)
    requires OpenFrom(open, depth, d) || open == []
    requires Executable(p, init, q) && i <= |q| && (i <= d || open == [])
    ensures Run(p, init, q[..i]) in closed && depth[Run(p, init, q[..i])] <= i
  {
    if i > 0 {
      ClosedAlong(p, init, all, open, closed, depth, d, q, i - 1);
      RunStep(p, init, q, i - 1);
      var s, a := Run(p, init, q[..i - 1]), q[i - 1];
      assert s !in open;
      var k :| 0 <= k < |p.actions(s)| && p.actions(s)[k] == a;
      assert p.execute(p.actions(s)[k], s) in closed;
    }
  }

  /** Nothing in d steps or fewer leads to a final state. */
  lemma NoSolutionWithin<S(!new), A(!new)>(p: Problem<S, A>, init: S, all: set<S>, open: seq<S>,
                                           closed: map<S, Link<S, A>>, depth: map<S, nat>, d: nat)
    requires Valid(p, init, all, [], closed, depth) && AllExpanded(p, open, closed, depth)
    requires OpenFrom(open, depth, d) || open == []
    ensures forall q: seq<A> :: Solution(p, init, q) ==> open != [] && |q| > d
  {
    forall q: seq<A> | Solution(p, init, q) ensures open != [] && |q| > d {
      assert q[..|q|] == q;
      if open == [] || |q| <= d {
        ClosedAlong(p, init, all, open, closed, depth, d, q, |q|);
      }
    }
  }

  /** Follows the links from state back to the initial state; action led from state to a final state. */
  method Reconstruct<S(==,!new), A(!new)>(p: Problem<S, A>, ghost init: S, ghost all: set<S>,
                                          closed: map<S, Link<S, A>>, ghost depth: map<S, nat>, state0: S, action: A)
    returns (path: seq<A>)
    requires Valid(p, init, all, [], closed, depth) && state0 in closed
    requires action in p.actions(state0) && p.isFinal(p.execute(action, state0))
    ensures Solution(p, init, path) && |path| == depth[state0] + 1
  {
    path := [action];
    var state := state0;
    while true
      invariant state in closed && Solution(p, state, path) && |path| + depth[state] == depth[state0] + 1
      decreases depth[state]
    {
      var item := closed[state];
      assert LinkOk(p, init, closed, depth, state);
      if item.Root? {
        break;
      }
      state := item.parent;
      path := [item.action] + path;
      assert path[1..] + [] == path[1..];
    }
  }

  /** What holds while the state at the head of the list is being expanded and k of its actions are done. */
  ghost predicate Expanding<S(!new), A(!new)>(p: Problem<S, A>, init: S, all: set<S>, state: S, open: seq<S>,
                                              closed: map<S, Link<S, A>>, depth: map<S, nat>, k: nat)
  {
    && Valid(p, init, all, [state] + open, closed, depth)
    && AllExpanded(p, [state] + open, closed, depth)
    && state in closed && k <= |p.actions(state)| && ExpandedTo(p, closed, depth, state, k)
  }

  lemma HeadIsOpen<S(!new), A(!new)>(p: Problem<S, A>, init: S, all: set<S>, state: S, open: seq<S>,
                                     closed: map<S, Link<S, A>>, depth: map<S, nat>)
    requires Valid(p, init, all, [state] + open, closed, depth)
    ensures state in closed && OpenFrom([state] + open, depth, depth[state])
    ensures forall s :: s in closed ==> depth[s] <= depth[state] + 1
  {
    assert ([state] + open)[0] == state;
  }

  lemma AlreadyKnown<S(!new), A(!new)>(p: Problem<S, A>, init: S, all: set<S>, state: S, open: seq<S>,
                                       closed: map<S, Link<S, A>>, depth: map<S, nat>, k: nat)
    requires Expanding(p, init, all, state, open, closed, depth, k) && k < |p.actions(state)|
    requires p.execute(p.actions(state)[k], state) in closed
    ensures Expanding(p, init, all, state, open, closed, depth, k + 1)
  {
    HeadIsOpen(p, init, all, state, open, closed, depth);
  }

  lemma DiscoverValid<S(!new), A(!new)>(p: Problem<S, A>, init: S, all: set<S>, state: S, open: seq<S>,
                                        closed: map<S, Link<S, A>>, depth: map<S, nat>, k: nat, t: S,
                                        closed': map<S, Link<S, A>>, depth': map<S, nat>)
    requires Expanding(p, init, all, state, open, closed, depth, k) && k < |p.actions(state)|
    requires StateSpace(p, init, all) && t == p.execute(p.actions(state)[k], state)
    requires t !in closed && !p.isFinal(t)
    requires closed' == closed[t := From(state, p.actions(state)[k])] && depth' == depth[t := depth[state] + 1]
    ensures Valid(p, init, all, [state] + (open + [t]), closed', depth')
  {
    var list, list' := [state] + open, [state] + (open + [t]);
    HeadIsOpen(p, init, all, state, open, closed, depth);
    assert list' == list + [t];
    assert list[0] == state;
    forall s | s in closed' ensures !p.isFinal(s) && LinkOk(p, init, closed', depth', s) {
      if s != t {
        assert LinkOk(p, init, closed, depth, s);
      }
    }
  }

  lemma DiscoverExpanded<S(!new), A(!new)>(p: Problem<S, A>, init: S, all: set<S>, state: S, open: seq<S>,
                                           closed: map<S, Link<S, A>>, depth: map<S, nat>, k: nat, t: S,
                                           closed': map<S, Link<S, A>>, depth': map<S, nat>)
    requires Expanding(p, init, all, state, open, closed, depth, k) && k < |p.actions(state)|
    requires StateSpace(p, init, all) && t == p.execute(p.actions(state)[k], state)
    requires t !in closed && !p.isFinal(t)
    requires closed' == closed[t := From(state, p.actions(state)[k])] && depth' == depth[t := depth[state] + 1]
    ensures AllExpanded(p, [state] + (open + [t]), closed', depth') && ExpandedTo(p, closed', depth', state, k + 1)
  {
    var list, list' := [state] + open, [state] + (open + [t]);
    assert list' == list + [t];
    forall s | s in closed' && s !in list' ensures ExpandedTo(p, closed', depth', s, |p.actions(s)|) {
      assert s in closed && s !in list;
      assert ExpandedTo(p, closed, depth, s, |p.actions(s)|);
    }
  }

  /** A state that has just been discovered from the state at the head of the list goes to its end. */
  lemma Discover<S(!new), A(!new)>(p: Problem<S, A>, init: S, all: set<S>, state: S, open: seq<S>,
                                   closed: map<S, Link<S, A>>, depth: map<S, nat>, k: nat, t: S,
                                   closed': map<S, Link<S, A>>, depth': map<S, nat>)
    requires Expanding(p, init, all, state, open, closed, depth, k) && k < |p.actions(state)|
    requires StateSpace(p, init, all) && t == p.execute(p.actions(state)[k], state)
    requires t !in closed && !p.isFinal(t)
    requires closed' == closed[t := From(state, p.actions(state)[k])] && depth' == depth[t := depth[state] + 1]
    ensures Expanding(p, init, all, state, open + [t], closed', depth', k + 1)
  {
    DiscoverValid(p, init, all, state, open, closed, depth, k, t, closed', depth');
    DiscoverExpanded(p, init, all, state, open, closed, depth, k, t, closed', depth');
  }

  /** The state at the head of the list has been expanded and leaves the list. */
  lemma Leave<S(!new), A(!new)>(p: Problem<S, A>, init: S, all: set<S>, state: S, open: seq<S>,
                                closed: map<S, Link<S, A>>, depth: map<S, nat>)
    requires Expanding(p, init, all, state, open, closed, depth, |p.actions(state)|)
    ensures Valid(p, init, all, open, closed, depth) && AllExpanded(p, open, closed, depth)
  {
    var list := [state] + open;
    assert forall i :: 0 <= i < |open| ==> open[i] == list[i + 1];
    assert list[0] == state;
  }

  /** A final state has been met among the successors of the state at the head of the list. */
  method Finish<S(==,!new), A(!new)>(p: Problem<S, A>, ghost init: S, ghost all: set<S>, state: S, ghost open: seq<S>,
                                     closed: map<S, Link<S, A>>, ghost depth: map<S, nat>, ghost k: nat, action: A)
    returns (path: seq<A>)
    requires Expanding(p, init, all, state, open, closed, depth, k)
    requires action in p.actions(state) && p.isFinal(p.execute(action, state))
    ensures path != [] && Shortest(p, init, path)
  {
    HeadIsOpen(p, init, all, state, open, closed, depth);
    path := Reconstruct(p, init, all, closed, depth, state, action);
    NoSolutionWithin(p, init, all, [state] + open, closed, depth, depth[state]);
  }

  /** The inner loop: discovers the successors of the state just taken from the list, or finds a final one among
      them. */
  method Expand<S(==,!new), A(!new)>(p: Problem<S, A>, ghost init: S, ghost all: set<S>, state: S, open0: seq<S>,
                                     closed0: map<S, Link<S, A>>, ghost depth0: map<S, nat>)
    returns (path: seq<A>, open: seq<S>, closed: map<S, Link<S, A>>, ghost depth: map<S, nat>)
    requires StateSpace(p, init, all)
    requires Valid(p, init, all, [state] + open0, closed0, depth0) && AllExpanded(p, [state] + open0, closed0, depth0)
    ensures path != [] ==> Shortest(p, init, path)
    ensures path == [] ==> Valid(p, init, all, open, closed, depth) && AllExpanded(p, open, closed, depth)
    ensures closed0.Keys <= closed.Keys && (closed.Keys == closed0.Keys ==> open == open0)
  {
    path, open, closed, depth := [], open0, closed0, depth0;
    var actions := p.actions(state);
    HeadIsOpen(p, init, all, state, open, closed, depth);
    for k := 0 to |actions|
      invariant Expanding(p, init, all, state, open, closed, depth, k)
      invariant closed0.Keys <= closed.Keys && (closed.Keys == closed0.Keys ==> open == open0)
    {
      var nextState := p.execute(actions[k], state);
      if p.isFinal(nextState) {
        path := Finish(p, init, all, state, open, closed, depth, k, actions[k]);
        return;
      }
      if nextState in closed {
        AlreadyKnown(p, init, all, state, open, closed, depth, k);
      } else {
        ghost var closedBefore, depthBefore := closed, depth;
        closed := closed[nextState := From(state, actions[k])];
        depth := depth[nextState := depth[state] + 1];
        Discover(p, init, all, state, open, closedBefore, depthBefore, k, nextState, closed, depth);
        open := open + [nextState];
      }
    }
    Leave(p, init, all, state, open, closed, depth);
  }

  /** What holds between two expansions. */
  ghost predicate Searching<S(!new), A(!new)>(p: Problem<S, A>, init: S, all: set<S>, open: seq<S>,
                                              closed: map<S, Link<S, A>>, depth: map<S, nat>)
  {
    Valid(p, init, all, open, closed, depth) && AllExpanded(p, open, closed, depth)
  }

  lemma Start<S(!new), A(!new)>(p: Problem<S, A>, init: S, all: set<S>)
    requires StateSpace(p, init, all) && !p.isFinal(init)
    ensures var closed: map<S, Link<S, A>> := map[init := Root];
      Searching(p, init, all, [init], closed, map[init := 0])
  {
  }

  /** BreadthFirstSearch::solve, apart from its memory limit. An empty path means that the initial state is final
      already, or that no final state can be reached; any other path is a shortest solution. */
  method Solve<S(==,!new), A(!new)>(p: Problem<S, A>, init: S, ghost all: set<S>) returns (path: seq<A>)
    requires StateSpace(p, init, all)
    ensures path != [] ==> Shortest(p, init, path)
    ensures path == [] <==> p.isFinal(init) || Unsolvable(p, init)
  {
    if p.isFinal(init) {
      return [];
    }
    var open := [init];
    var closed: map<S, Link<S, A>> := map[init := Root];
    ghost var depth: map<S, nat> := map[init := 0];
    Start(p, init, all);
    while open != []
      invariant Searching(p, init, all, open, closed, depth)
      decreases |all| - |closed.Keys|, |open|
    {
      var state, rest := open[0], open[1..];
      assert open == [state] + rest;
      ghost var before := closed.Keys;
      path, open, closed, depth := Expand(p, init, all, state, rest, closed, depth);
      if path != [] {
        return;
      }
      SubsetSizes(before, closed.Keys, all);
    }
    NoSolutionWithin(p, init, all, open, closed, depth, 0);
    return [];
  }
}
