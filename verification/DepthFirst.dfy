/** Depth-limited depth-first search: DepthFirstSearch::solve of sui-solution.cc. */
module DepthFirst {
  import opened SearchProblems

  /** An entry of the shared list of actions: the dummy that stands for the initial state, or an action. */
  datatype Slot<A> = Dummy | Taken(action: A)

  datatype Item<S, A> = Item(state: S, slot: Slot<A>, depth: nat)

  /** The shared list is the dummy followed by actions. */
  ghost predicate IsChain<A>(cur: seq<Slot<A>>) {
    forall i :: 0 <= i < |cur| ==> (cur[i].Dummy? <==> i == 0)
  }

  /** The actions of the shared list, without the dummy. */
  ghost function Actions<A>(cur: seq<Slot<A>>): seq<A>
    requires IsChain(cur) && cur != []
  {
    seq(|cur| - 1, i requires 0 <= i < |cur| - 1 => cur[i + 1].action)
  }

  /** The first depth entries of the shared list and the item's own action. */
  ghost function Path<S, A>(cur: seq<Slot<A>>, item: Item<S, A>): seq<Slot<A>>
    requires item.depth <= |cur|
  {
    cur[..item.depth] + [item.slot]
  }

  /** Taking the actions on the path leads from the initial state to the state of the item. */
  ghost predicate ItemOk<S(!new), A(!new)>(p: Problem<S, A>, init: S, cur: seq<Slot<A>>, item: Item<S, A>) {
    && item.depth <= |cur| && IsChain(Path(cur, item))
    && Executable(p, init, Actions(Path(cur, item)))
    && Run(p, init, Actions(Path(cur, item))) == item.state
    && !p.isFinal(item.state)
  }

  /** What holds of the stack when the shared list has been cut back to the length top. */
  ghost predicate Valid<S(!new), A(!new)>(p: Problem<S, A>, init: S, limit: nat, stack: seq<Item<S, A>>,
                                          cur: seq<Slot<A>>) {
    && IsChain(cur)
    && (forall i :: 0 <= i < |stack| ==> stack[i].depth < limit && ItemOk(p, init, cur, stack[i]))
    && (forall i, j :: 0 <= i < j < |stack| ==> stack[i].depth <= stack[j].depth)
  }

  // ----- completeness -----

  /** A solution of at most limit steps that meets no final state on its way. */
  ghost predicate FirstSolution<S(!new), A(!new)>(p: Problem<S, A>, init: S, limit: nat, q: seq<A>) {
    && Solution(p, init, q) && |q| <= limit
    && forall i :: 0 <= i < |q| ==> !p.isFinal(Run(p, init, q[..i]))
  }

  /** Some item on the stack is on the way of q. */
  ghost predicate Pending<S(!new), A(!new)>(p: Problem<S, A>, init: S, stack: seq<Item<S, A>>, cur: seq<Slot<A>>,
                                            q: seq<A>) {
    exists i :: 0 <= i < |stack| && ItemOk(p, init, cur, stack[i]) && Actions(Path(cur, stack[i])) <= q
  }

  ghost predicate AllPending<S(!new), A(!new)>(p: Problem<S, A>, init: S, limit: nat, stack: seq<Item<S, A>>,
                                               cur: seq<Slot<A>>) {
    forall q: seq<A> :: FirstSolution(p, init, limit, q) ==> Pending(p, init, stack, cur, q)
  }

  /** What holds between two rounds. */
  ghost predicate Searching<S(!new), A(!new)>(p: Problem<S, A>, init: S, limit: nat, stack: seq<Item<S, A>>,
                                              cur: seq<Slot<A>>) {
    Valid(p, init, limit, stack, cur) && AllPending(p, init, limit, stack, cur)
  }

  /** Every solution within the limit starts with one that meets no final state on its way. */
  lemma {:induction false} FirstOnTheWay<S(!new), A(!new)>(p: Problem<S, A>, init: S, limit: nat, q: seq<A>, k: nat)
    returns (first: seq<A>)
    requires Solution(p, init, q) && |q| <= limit && k <= |q|
    requires forall i :: 0 <= i < k ==> !p.isFinal(Run(p, init, q[..i]))
    ensures FirstSolution(p, init, limit, first)
    decreases |q| - k
  {
    assert q[..|q|] == q;
    if p.isFinal(Run(p, init, q[..k])) {
      SolutionTail(p, init, q, k);
      first := q[..k];
      forall i | 0 <= i < |first| ensures !p.isFinal(Run(p, init, first[..i])) {
        assert first[..i] == q[..i];
      }
    } else {
      first := FirstOnTheWay(p, init, limit, q, k + 1);
    }
  }

  // ----- termination -----

  /** The trees below the first n successors of s. */
  ghost function ForestSize<S(!new), A(!new)>(p: Problem<S, A>, s: S, k: nat, n: nat): nat
    requires k > 0 && n <= |p.actions(s)|
    decreases k, 0, n
  {
    if n == 0 then 0 else ForestSize(p, s, k, n - 1) + TreeSize(p, p.execute(p.actions(s)[n - 1], s), k - 1)
  }

  /** The number of nodes of the search tree below s, cut off after k more levels. */
  ghost function TreeSize<S(!new), A(!new)>(p: Problem<S, A>, s: S, k: nat): nat
    decreases k, 1, 0
  {
    1 + if k == 0 then 0 else ForestSize(p, s, k, |p.actions(s)|)
  }

  ghost function StackSize<S(!new), A(!new)>(p: Problem<S, A>, limit: nat, stack: seq<Item<S, A>>): nat
    requires forall i :: 0 <= i < |stack| ==> stack[i].depth < limit
  {
    if stack == [] then 0
    else
      var top := stack[|stack| - 1];
      StackSize(p, limit, stack[..|stack| - 1]) + TreeSize(p, top.state, limit - 1 - top.depth)
  }

  /** The items for the first k actions of an item. */
  ghost function Children<S(!new), A(!new)>(p: Problem<S, A>, item: Item<S, A>, k: nat): seq<Item<S, A>>
    requires k <= |p.actions(item.state)|
  {
    seq(k, i requires 0 <= i < k =>
      Item(p.execute(p.actions(item.state)[i], item.state), Taken(p.actions(item.state)[i]), item.depth + 1))
  }

  lemma {:induction false} ChildrenSize<S(!new), A(!new)>(p: Problem<S, A>, limit: nat, rest: seq<Item<S, A>>,
                                                          item: Item<S, A>, k: nat)
    requires k <= |p.actions(item.state)| && item.depth + 1 < limit
    requires forall i :: 0 <= i < |rest| ==> rest[i].depth < limit
    ensures StackSize(p, limit, rest + Children(p, item, k)) ==
            StackSize(p, limit, rest) + ForestSize(p, item.state, limit - 1 - item.depth, k)
  {
    var stack := rest + Children(p, item, k);
    if k == 0 {
      assert stack == rest;
    } else {
      ChildrenSize(p, limit, rest, item, k - 1);
      assert stack[..|stack| - 1] == rest + Children(p, item, k - 1);
    }
  }

  // ----- one expansion -----

  /** Only the part of the shared list that the items use matters. */
  lemma SamePrefix<S(!new), A(!new)>(p: Problem<S, A>, init: S, limit: nat, stack: seq<Item<S, A>>, cur: seq<Slot<A>>,
                                     cur': seq<Slot<A>>, n: nat)
    requires Searching(p, init, limit, stack, cur)
    requires n <= |cur| && n <= |cur'| && cur[..n] == cur'[..n] && IsChain(cur')
    requires forall i :: 0 <= i < |stack| ==> stack[i].depth <= n
    ensures Searching(p, init, limit, stack, cur')
  {
    forall i | 0 <= i < |stack| ensures Path(cur', stack[i]) == Path(cur, stack[i]) {
      assert cur[..n][..stack[i].depth] == cur[..stack[i].depth];
      assert cur'[..n][..stack[i].depth] == cur'[..stack[i].depth];
    }
    forall q: seq<A> | FirstSolution(p, init, limit, q) ensures Pending(p, init, stack, cur', q) {
      var i :| 0 <= i < |stack| && ItemOk(p, init, cur, stack[i]) && Actions(Path(cur, stack[i])) <= q;
      assert ItemOk(p, init, cur', stack[i]);
    }
  }

  /** A child of the item whose path is the shared list continues that path by its own action. */
  lemma ChildOk<S(!new), A(!new)>(p: Problem<S, A>, init: S, cur: seq<Slot<A>>, item: Item<S, A>, k: nat)
    requires cur != [] && IsChain(cur) && |cur| == item.depth + 1 && k < |p.actions(item.state)|
    requires Executable(p, init, Actions(cur)) && Run(p, init, Actions(cur)) == item.state
    requires !p.isFinal(p.execute(p.actions(item.state)[k], item.state))
    ensures var a := p.actions(item.state)[k];
      var child := Item(p.execute(a, item.state), Taken(a), item.depth + 1);
      ItemOk(p, init, cur, child) && Actions(Path(cur, child)) == Actions(cur) + [a]
  {
    var a := p.actions(item.state)[k];
    var child := Item(p.execute(a, item.state), Taken(a), item.depth + 1);
    assert cur[..child.depth] == cur;
    assert Actions(Path(cur, child)) == Actions(cur) + [a];
    RunAppend(p, init, Actions(cur), [a]);
    assert Run(p, item.state, [a]) == p.execute(a, item.state) && Executable(p, item.state, [a]);
  }

  /** What the loop over the actions leaves on the stack when it meets no final state. */
  ghost function Expanded<S(!new), A(!new)>(p: Problem<S, A>, limit: nat, rest: seq<Item<S, A>>,
                                            item: Item<S, A>): seq<Item<S, A>> {
    if item.depth + 1 < limit then rest + Children(p, item, |p.actions(item.state)|) else rest
  }

  ghost predicate NoFinalSuccessor<S(!new), A(!new)>(p: Problem<S, A>, s: S, k: nat)
    requires k <= |p.actions(s)|
  {
    forall i :: 0 <= i < k ==> !p.isFinal(p.execute(p.actions(s)[i], s))
  }

  /** A solution that was waiting for the item now waits for one of its children. */
  lemma ChildPending<S(!new), A(!new)>(p: Problem<S, A>, init: S, limit: nat, rest: seq<Item<S, A>>, item: Item<S, A>,
                                       cur: seq<Slot<A>>, q: seq<A>)
    requires cur != [] && IsChain(cur) && |cur| == item.depth + 1 && item.depth < limit
    requires Executable(p, init, Actions(cur)) && Run(p, init, Actions(cur)) == item.state && !p.isFinal(item.state)
    requires NoFinalSuccessor(p, item.state, |p.actions(item.state)|)
    requires FirstSolution(p, init, limit, q) && Actions(cur) <= q
    ensures Pending(p, init, Expanded(p, limit, rest, item), cur, q)
  {
    var d := item.depth;
    assert q[..d] == Actions(cur);
    assert q[..|q|] == q;
    RunStep(p, init, q, d);
    var k :| 0 <= k < |p.actions(item.state)| && p.actions(item.state)[k] == q[d];
    assert !p.isFinal(p.execute(p.actions(item.state)[k], item.state));
    assert d + 1 < |q|;
    ChildOk(p, init, cur, item, k);
    var stack := Expanded(p, limit, rest, item);
    assert stack[|rest| + k] == Children(p, item, |p.actions(item.state)|)[k];
  }

  lemma ExpandKeepsItems<S(!new), A(!new)>(p: Problem<S, A>, init: S, limit: nat, rest: seq<Item<S, A>>,
                                           item: Item<S, A>, before: seq<Slot<A>>, cur: seq<Slot<A>>)
    requires Valid(p, init, limit, rest + [item], before)
    requires item.depth == |before| && cur == before + [item.slot]
    requires NoFinalSuccessor(p, item.state, |p.actions(item.state)|)
    ensures var stack := Expanded(p, limit, rest, item);
      forall i :: 0 <= i < |stack| ==> stack[i].depth < limit && ItemOk(p, init, cur, stack[i])
    ensures IsChain(cur)
  {
    var all, stack := rest + [item], Expanded(p, limit, rest, item);
    assert all[|rest|] == item && ItemOk(p, init, before, all[|rest|]);
    assert Path(before, item) == cur;
    forall i | 0 <= i < |stack| ensures stack[i].depth < limit && ItemOk(p, init, cur, stack[i]) {
      if i < |rest| {
        assert all[i] == rest[i] && all[i].depth <= all[|rest|].depth;
        assert cur[..rest[i].depth] == before[..rest[i].depth];
        assert Path(cur, rest[i]) == Path(before, rest[i]);
      } else {
        ChildOk(p, init, cur, item, i - |rest|);
      }
    }
  }

  lemma ExpandKeepsOrder<S(!new), A(!new)>(p: Problem<S, A>, init: S, limit: nat, rest: seq<Item<S, A>>,
                                           item: Item<S, A>, before: seq<Slot<A>>)
    requires Valid(p, init, limit, rest + [item], before)
    ensures var stack := Expanded(p, limit, rest, item);
      forall i, j :: 0 <= i < j < |stack| ==> stack[i].depth <= stack[j].depth
  {
    var all, stack := rest + [item], Expanded(p, limit, rest, item);
    forall i, j | 0 <= i < j < |stack| ensures stack[i].depth <= stack[j].depth {
      assert i < |rest| ==> all[i].depth <= all[|rest|].depth;
      assert j < |rest| ==> all[i].depth <= all[j].depth;
    }
  }

  lemma ExpandShrinks<S(!new), A(!new)>(p: Problem<S, A>, limit: nat, rest: seq<Item<S, A>>, item: Item<S, A>)
    requires forall i :: 0 <= i <= |rest| ==> (rest + [item])[i].depth < limit
    requires forall i :: 0 <= i < |Expanded(p, limit, rest, item)| ==> Expanded(p, limit, rest, item)[i].depth < limit
    ensures StackSize(p, limit, Expanded(p, limit, rest, item)) < StackSize(p, limit, rest + [item])
  {
    var all := rest + [item];
    assert forall i :: 0 <= i < |rest| ==> all[i] == rest[i];
    assert all[|rest|] == item && all[..|all| - 1] == rest;
    if item.depth + 1 < limit {
      ChildrenSize(p, limit, rest, item, |p.actions(item.state)|);
    }
  }

  lemma ExpandKeepsPending<S(!new), A(!new)>(p: Problem<S, A>, init: S, limit: nat, rest: seq<Item<S, A>>,
                                             item: Item<S, A>, before: seq<Slot<A>>, cur: seq<Slot<A>>)
    requires Searching(p, init, limit, rest + [item], before)
    requires item.depth == |before| && cur == before + [item.slot]
    requires NoFinalSuccessor(p, item.state, |p.actions(item.state)|)
    ensures AllPending(p, init, limit, Expanded(p, limit, rest, item), cur)
  {
    var all, stack := rest + [item], Expanded(p, limit, rest, item);
    assert all[|rest|] == item && ItemOk(p, init, before, all[|rest|]);
    assert Path(before, item) == cur;
    forall q: seq<A> | FirstSolution(p, init, limit, q) ensures Pending(p, init, stack, cur, q) {
      var i :| 0 <= i < |all| && ItemOk(p, init, before, all[i]) && Actions(Path(before, all[i])) <= q;
      if i < |rest| {
        assert cur[..rest[i].depth] == before[..rest[i].depth];
        assert Path(cur, rest[i]) == Path(before, rest[i]);
        assert stack[i] == rest[i] && ItemOk(p, init, cur, stack[i]);
      } else {
        ChildPending(p, init, limit, rest, item, cur, q);
      }
    }
  }

  /** Replacing the top of the stack by its children keeps everything in order and makes the search tree smaller. */
  lemma ExpandKeeps<S(!new), A(!new)>(p: Problem<S, A>, init: S, limit: nat, rest: seq<Item<S, A>>, item: Item<S, A>,
                                      before: seq<Slot<A>>, cur: seq<Slot<A>>)
    requires Searching(p, init, limit, rest + [item], before)
    requires item.depth == |before| && cur == before + [item.slot]
    requires NoFinalSuccessor(p, item.state, |p.actions(item.state)|)
    ensures Searching(p, init, limit, Expanded(p, limit, rest, item), cur)
    ensures StackSize(p, limit, Expanded(p, limit, rest, item)) < StackSize(p, limit, rest + [item])
  {
    ExpandKeepsItems(p, init, limit, rest, item, before, cur);
    ExpandKeepsOrder(p, init, limit, rest, item, before);
    ExpandKeepsPending(p, init, limit, rest, item, before, cur);
    ExpandShrinks(p, limit, rest, item);
  }

  // ----- the recursive search that the loop amounts to -----

  datatype Outcome<A> = Nothing | Way(actions: seq<A>)

  /** The least number of an action below k that leads to a final state, or k. */
  ghost function FirstFinal<S(!new), A(!new)>(p: Problem<S, A>, s: S, k: nat): (r: nat)
    requires k <= |p.actions(s)|
    ensures r <= k && NoFinalSuccessor(p, s, r)
    ensures r < k ==> p.isFinal(p.execute(p.actions(s)[r], s))
  {
    if k == 0 then 0
    else
      var r := FirstFinal(p, s, k - 1);
      if r < k - 1 || p.isFinal(p.execute(p.actions(s)[k - 1], s)) then r else k
  }

  /** Searches the tree below s: a final successor if there is one, otherwise the successors one after the other, the
      last one first. */
  ghost function Descend<S(!new), A(!new)>(p: Problem<S, A>, s: S, levels: nat): Outcome<A>
    decreases levels, 1, 0
  {
    var acts, k := p.actions(s), FirstFinal(p, s, |p.actions(s)|);
    if levels == 0 then Nothing else if k < |acts| then Way([acts[k]]) else DescendFrom(p, s, levels, |acts|)
  }

  ghost function DescendFrom<S(!new), A(!new)>(p: Problem<S, A>, s: S, levels: nat, n: nat): Outcome<A>
    requires levels > 0 && n <= |p.actions(s)|
    decreases levels, 0, n
  {
    if n == 0 then Nothing
    else
      var a := p.actions(s)[n - 1];
      var below := Descend(p, p.execute(a, s), levels - 1);
      if below.Way? then Way([a] + below.actions) else DescendFrom(p, s, levels, n - 1)
  }

  lemma {:induction false} NothingBelow<S(!new), A(!new)>(p: Problem<S, A>, s: S, n: nat)
    requires n <= |p.actions(s)|
    ensures DescendFrom(p, s, 1, n) == Nothing
  {
    if n > 0 {
      NothingBelow(p, s, n - 1);
    }
  }

  /** The outcome below s, after the actions that lead to s. */
  ghost function Beyond<A>(path: seq<A>, below: Outcome<A>, otherwise: Outcome<A>): Outcome<A> {
    if below.Way? then Way(path + below.actions) else otherwise
  }

  ghost predicate Fits<S, A>(limit: nat, stack: seq<Item<S, A>>, cur: seq<Slot<A>>) {
    forall i :: 0 <= i < |stack| ==> stack[i].depth < limit && stack[i].depth <= |cur| && IsChain(Path(cur, stack[i]))
  }

  /** What searching the trees below the items yields, from the top of the stack down. */
  ghost function Answer<S(!new), A(!new)>(p: Problem<S, A>, limit: nat, stack: seq<Item<S, A>>,
                                          cur: seq<Slot<A>>): Outcome<A>
    requires Fits(limit, stack, cur)
  {
    if stack == [] then Nothing
    else
      var top := stack[|stack| - 1];
      Beyond(Actions(Path(cur, top)), Descend(p, top.state, limit - top.depth),
             Answer(p, limit, stack[..|stack| - 1], cur))
  }

  /** Only the part of the shared list that the items use matters. */
  lemma {:induction false} SameAnswer<S(!new), A(!new)>(p: Problem<S, A>, limit: nat, stack: seq<Item<S, A>>,
                                                        cur: seq<Slot<A>>, cur': seq<Slot<A>>, n: nat)
    requires Fits(limit, stack, cur) && n <= |cur| && n <= |cur'| && cur[..n] == cur'[..n]
    requires forall i :: 0 <= i < |stack| ==> stack[i].depth <= n
    ensures Fits(limit, stack, cur') && Answer(p, limit, stack, cur') == Answer(p, limit, stack, cur)
  {
    forall i | 0 <= i < |stack| ensures Path(cur', stack[i]) == Path(cur, stack[i]) {
      assert cur[..n][..stack[i].depth] == cur[..stack[i].depth];
      assert cur'[..n][..stack[i].depth] == cur'[..stack[i].depth];
    }
    if stack != [] {
      SameAnswer(p, limit, stack[..|stack| - 1], cur, cur', n);
    }
  }

  lemma AnswerTop<S(!new), A(!new)>(p: Problem<S, A>, limit: nat, rest: seq<Item<S, A>>, item: Item<S, A>,
                                    cur: seq<Slot<A>>, levels: nat)
    requires Fits(limit, rest + [item], cur) && limit == levels + item.depth
    ensures Fits(limit, rest, cur) && item.depth < limit && item.depth <= |cur| && IsChain(Path(cur, item))
    ensures Answer(p, limit, rest + [item], cur) ==
            Beyond(Actions(Path(cur, item)), Descend(p, item.state, levels), Answer(p, limit, rest, cur))
  {
    var all := rest + [item];
    assert all[|rest|] == item && all[..|rest|] == rest;
    forall i | 0 <= i < |rest| ensures rest[i] == all[i] {
    }
  }

  lemma AnswerOfChild<S(!new), A(!new)>(p: Problem<S, A>, limit: nat, before: seq<Item<S, A>>, s: S, a: A,
                                        cur: seq<Slot<A>>, levels: nat, after: seq<Item<S, A>>)
    requires Fits(limit, before, cur) && cur != [] && IsChain(cur) && |cur| < limit && levels == limit - |cur|
    requires after == before + [Item(s, Taken(a), |cur|)]
    ensures Fits(limit, after, cur)
    ensures Answer(p, limit, after, cur) ==
            Beyond(Actions(cur) + [a], Descend(p, s, levels), Answer(p, limit, before, cur))
  {
    var child := Item(s, Taken(a), |cur|);
    assert cur[..child.depth] == cur;
    assert Actions(Path(cur, child)) == Actions(cur) + [a];
    forall i | 0 <= i <= |before| ensures after[i] == if i < |before| then before[i] else child {
    }
    AnswerTop(p, limit, before, child, cur, levels);
  }

  lemma BeyondNext<S(!new), A(!new)>(p: Problem<S, A>, s: S, levels: nat, n: nat, path: seq<A>, otherwise: Outcome<A>,
                                     a: A, s': S)
    requires n < |p.actions(s)| && a == p.actions(s)[n] && s' == p.execute(a, s)
    ensures Beyond(path, DescendFrom(p, s, levels + 1, n + 1), otherwise) ==
            Beyond(path + [a], Descend(p, s', levels), Beyond(path, DescendFrom(p, s, levels + 1, n), otherwise))
  {
    var below := Descend(p, s', levels);
    if below.Way? {
      assert path + [a] + below.actions == path + ([a] + below.actions);
    }
  }

  /** rest with the first n children of s on top, whose path is cur, is searched in the order of the recursion. */
  ghost predicate ChildrenSearched<S(!new), A(!new)>(p: Problem<S, A>, limit: nat, rest: seq<Item<S, A>>,
                                                     stack: seq<Item<S, A>>, cur: seq<Slot<A>>, s: S, levels: nat,
                                                     n: nat)
    requires n <= |p.actions(s)| && cur != [] && IsChain(cur) && Fits(limit, rest, cur)
  {
    && Fits(limit, stack, cur)
    && Answer(p, limit, stack, cur) ==
       Beyond(Actions(cur), DescendFrom(p, s, levels + 1, n), Answer(p, limit, rest, cur))
  }

  lemma OneMoreSearched<S(!new), A(!new)>(p: Problem<S, A>, limit: nat, rest: seq<Item<S, A>>, before: seq<Item<S, A>>,
                                          cur: seq<Slot<A>>, s: S, levels: nat, n: nat, after: seq<Item<S, A>>)
    requires n < |p.actions(s)| && cur != [] && IsChain(cur) && Fits(limit, rest, cur)
    requires |cur| < limit && levels == limit - |cur|
    requires ChildrenSearched(p, limit, rest, before, cur, s, levels, n)
    requires after == before + [Item(p.execute(p.actions(s)[n], s), Taken(p.actions(s)[n]), |cur|)]
    ensures ChildrenSearched(p, limit, rest, after, cur, s, levels, n + 1)
  {
    var a, s' := p.actions(s)[n], p.execute(p.actions(s)[n], s);
    AnswerOfChild(p, limit, before, s', a, cur, levels, after);
    BeyondNext(p, s, levels, n, Actions(cur), Answer(p, limit, rest, cur), a, s');
  }

  lemma {:induction false} AnswerOfChildren<S(!new), A(!new)>(p: Problem<S, A>, limit: nat, rest: seq<Item<S, A>>,
                                                              item: Item<S, A>, cur: seq<Slot<A>>, levels: nat, k: nat)
    requires k <= |p.actions(item.state)| && |cur| < limit && levels == limit - |cur|
    requires cur != [] && IsChain(cur) && |cur| == item.depth + 1 && Fits(limit, rest, cur)
    ensures ChildrenSearched(p, limit, rest, rest + Children(p, item, k), cur, item.state, levels, k)
  {
    if k == 0 {
      assert rest + Children(p, item, 0) == rest;
    } else {
      AnswerOfChildren(p, limit, rest, item, cur, levels, k - 1);
      var before, after := rest + Children(p, item, k - 1), rest + Children(p, item, k);
      var a := p.actions(item.state)[k - 1];
      assert after == before + [Item(p.execute(a, item.state), Taken(a), |cur|)];
      OneMoreSearched(p, limit, rest, before, cur, item.state, levels, k - 1, after);
    }
  }

  /** The outcome below an item without final successors. */
  lemma OutcomeBelow<S(!new), A(!new)>(p: Problem<S, A>, s: S, levels: nat)
    requires NoFinalSuccessor(p, s, |p.actions(s)|)
    ensures Descend(p, s, levels + 1) == DescendFrom(p, s, levels + 1, |p.actions(s)|)
    ensures levels == 0 ==> Descend(p, s, levels + 1) == Nothing
  {
    assert FirstFinal(p, s, |p.actions(s)|) == |p.actions(s)|;
    NothingBelow(p, s, |p.actions(s)|);
  }

  lemma AnswerPushed<S(!new), A(!new)>(p: Problem<S, A>, limit: nat, rest: seq<Item<S, A>>, item: Item<S, A>,
                                       cur: seq<Slot<A>>, levels: nat, pushed: seq<Item<S, A>>)
    requires NoFinalSuccessor(p, item.state, |p.actions(item.state)|)
    requires |cur| < limit && levels == limit - |cur| && cur != [] && IsChain(cur) && |cur| == item.depth + 1
    requires Fits(limit, rest, cur) && pushed == rest + Children(p, item, |p.actions(item.state)|)
    ensures Fits(limit, pushed, cur)
    ensures Answer(p, limit, pushed, cur) ==
            Beyond(Actions(cur), Descend(p, item.state, levels + 1), Answer(p, limit, rest, cur))
  {
    OutcomeBelow(p, item.state, levels);
    AnswerOfChildren(p, limit, rest, item, cur, levels, |p.actions(item.state)|);
  }

  /** A round that finds nothing leaves the answer as it is. */
  lemma AnswerExpanded<S(!new), A(!new)>(p: Problem<S, A>, limit: nat, rest: seq<Item<S, A>>, item: Item<S, A>,
                                         before: seq<Slot<A>>, cur: seq<Slot<A>>)
    requires Fits(limit, rest + [item], before) && item.depth == |before| && cur == before + [item.slot]
    requires forall i :: 0 <= i < |rest| ==> rest[i].depth <= item.depth
    requires NoFinalSuccessor(p, item.state, |p.actions(item.state)|)
    ensures Fits(limit, Expanded(p, limit, rest, item), cur)
    ensures Answer(p, limit, Expanded(p, limit, rest, item), cur) == Answer(p, limit, rest + [item], before)
  {
    assert (rest + [item])[|rest|] == item;
    var levels := limit - item.depth - 1;
    AnswerTop(p, limit, rest, item, before, levels + 1);
    assert Path(before, item) == cur;
    SameAnswer(p, limit, rest, before, cur, item.depth);
    if levels > 0 {
      AnswerPushed(p, limit, rest, item, cur, levels, Expanded(p, limit, rest, item));
    } else {
      OutcomeBelow(p, item.state, 0);
    }
  }

  /** A round that meets a final successor ends with the answer. */
  lemma AnswerFound<S(!new), A(!new)>(p: Problem<S, A>, limit: nat, rest: seq<Item<S, A>>, item: Item<S, A>,
                                      before: seq<Slot<A>>, k: nat)
    requires Fits(limit, rest + [item], before) && item.depth == |before| && k < |p.actions(item.state)|
    requires NoFinalSuccessor(p, item.state, k) && p.isFinal(p.execute(p.actions(item.state)[k], item.state))
    ensures IsChain(before + [item.slot])
    ensures Answer(p, limit, rest + [item], before) == Way(Actions(before + [item.slot]) + [p.actions(item.state)[k]])
  {
    assert (rest + [item])[|rest|] == item;
    AnswerTop(p, limit, rest, item, before, limit - item.depth);
    assert Path(before, item) == before + [item.slot];
    var r := FirstFinal(p, item.state, |p.actions(item.state)|);
    assert r == k;
  }

  /** Searching what is on the stack ends with the given outcome. */
  ghost predicate Yields<S(!new), A(!new)>(p: Problem<S, A>, limit: nat, stack: seq<Item<S, A>>, cur: seq<Slot<A>>,
                                           goal: Outcome<A>)
  {
    Fits(limit, stack, cur) && Answer(p, limit, stack, cur) == goal
  }

  lemma CutYields<S(!new), A(!new)>(p: Problem<S, A>, init: S, limit: nat, rest: seq<Item<S, A>>, item: Item<S, A>,
                                    cur: seq<Slot<A>>, cut: seq<Slot<A>>, goal: Outcome<A>)
    requires Valid(p, init, limit, rest + [item], cur) && Yields(p, limit, rest + [item], cur, goal)
    requires item.depth <= |cur| && cut == cur[..item.depth]
    ensures Yields(p, limit, rest + [item], cut, goal)
    ensures forall i :: 0 <= i < |rest| ==> rest[i].depth <= item.depth
  {
    var all := rest + [item];
    forall i | 0 <= i < |all| ensures all[i].depth <= item.depth {
      assert all[|rest|] == item;
    }
    forall i | 0 <= i < |rest| ensures rest[i].depth <= item.depth {
      assert all[i] == rest[i];
    }
    SameAnswer(p, limit, all, cur, cut, item.depth);
  }

  lemma RoundYields<S(!new), A(!new)>(p: Problem<S, A>, limit: nat, rest: seq<Item<S, A>>, item: Item<S, A>,
                                      cut: seq<Slot<A>>, stack: seq<Item<S, A>>, had: bool, cur: seq<Slot<A>>,
                                      goal: Outcome<A>)
    requires Yields(p, limit, rest + [item], cut, goal) && item.depth == |cut|
    requires forall i :: 0 <= i < |rest| ==> rest[i].depth <= item.depth
    requires NoFinalSuccessor(p, item.state, |p.actions(item.state)|) && stack == Expanded(p, limit, rest, item)
    requires had <==> item.depth + 1 < limit && |p.actions(item.state)| > 0
    requires cur == if had then cut + [item.slot] else cut
    ensures Yields(p, limit, stack, cur, goal)
  {
    AnswerExpanded(p, limit, rest, item, cut, cut + [item.slot]);
    if !had {
      assert stack == rest;
      SameAnswer(p, limit, rest, cut + [item.slot], cut, item.depth);
    }
  }

  lemma FoundYields<S(!new), A(!new)>(p: Problem<S, A>, limit: nat, rest: seq<Item<S, A>>, item: Item<S, A>,
                                      cut: seq<Slot<A>>, k: nat, cur: seq<Slot<A>>, goal: Outcome<A>)
    requires Yields(p, limit, rest + [item], cut, goal) && item.depth == |cut| && k < |p.actions(item.state)|
    requires NoFinalSuccessor(p, item.state, k) && p.isFinal(p.execute(p.actions(item.state)[k], item.state))
    requires cur == cut + [item.slot] + [Taken(p.actions(item.state)[k])]
    ensures IsChain(cur) && goal == Way(Actions(cur))
  {
    AnswerFound(p, limit, rest, item, cut, k);
    assert Actions(cur) == Actions(cut + [item.slot]) + [p.actions(item.state)[k]];
  }

  // ----- the search -----

  /** Removes one action from the end of the shared list for every level jumped over on the way up. */
  method CutBack<A>(cur0: seq<Slot<A>>, depthDifference: int) returns (cur: seq<Slot<A>>)
    requires depthDifference <= |cur0|
    ensures cur == if depthDifference > 0 then cur0[..|cur0| - depthDifference] else cur0
  {
    cur := cur0;
    if depthDifference == 1 {
      cur := cur[..|cur| - 1];
    } else if depthDifference > 0 {
      for i := 0 to depthDifference
        invariant i <= |cur0| && cur == cur0[..|cur0| - i]
      {
        cur := cur[..|cur| - 1];
      }
    }
  }

  /** The loop over the actions of the item just taken from the stack. */
  method Expand<S(!new), A(!new)>(p: Problem<S, A>, maxDepthWhenGenerating: int, item: Item<S, A>,
                                  stack0: seq<Item<S, A>>, cur0: seq<Slot<A>>)
    returns (found: bool, had: bool, stack: seq<Item<S, A>>, cur: seq<Slot<A>>, ghost last: nat)
    ensures found ==>
              && last < |p.actions(item.state)| && p.isFinal(p.execute(p.actions(item.state)[last], item.state))
              && NoFinalSuccessor(p, item.state, last)
              && cur == cur0 + [Taken(p.actions(item.state)[last])]
    ensures !found ==> NoFinalSuccessor(p, item.state, |p.actions(item.state)|) && cur == cur0
    ensures !found ==> stack == if item.depth < maxDepthWhenGenerating
                                then stack0 + Children(p, item, |p.actions(item.state)|) else stack0
    ensures !found ==> (had <==> item.depth < maxDepthWhenGenerating && |p.actions(item.state)| > 0)
  {
    found, had, stack, cur, last := false, false, stack0, cur0, 0;
    var actions := p.actions(item.state);
    for k := 0 to |actions|
      invariant NoFinalSuccessor(p, item.state, k)
      invariant stack == if item.depth < maxDepthWhenGenerating then stack0 + Children(p, item, k) else stack0
      invariant had <==> item.depth < maxDepthWhenGenerating && k > 0
    {
      var newState := p.execute(actions[k], item.state);
      if p.isFinal(newState) {
        cur := cur + [Taken(actions[k])];
        return true, true, stack, cur, k;
      } else if item.depth < maxDepthWhenGenerating {
        stack := stack + [Item(newState, Taken(actions[k]), item.depth + 1)];
        had := true;
        assert Children(p, item, k + 1) == Children(p, item, k) + [Item(newState, Taken(actions[k]), item.depth + 1)];
      }
    }
  }

  /** The number of levels the search descends: a limit below one acts like a limit of one. */
  function Levels(depthLimit: int): (n: nat)
    ensures n >= 1 && n >= depthLimit && (n == 1 || n == depthLimit)
  {
    if depthLimit < 1 then 1 else depthLimit
  }

  /** The shared list holds the actions of a solution. */
  ghost predicate Success<S(!new), A(!new)>(p: Problem<S, A>, init: S, limit: nat, cur: seq<Slot<A>>) {
    IsChain(cur) && |cur| >= 2 && |cur| - 1 <= limit && Solution(p, init, Actions(cur))
  }

  lemma SuccessOf<S(!new), A(!new)>(p: Problem<S, A>, init: S, limit: nat, before: seq<Slot<A>>, item: Item<S, A>,
                                    k: nat)
    requires ItemOk(p, init, before, item) && item.depth == |before| && item.depth < limit &&
             k < |p.actions(item.state)|
    requires p.isFinal(p.execute(p.actions(item.state)[k], item.state))
    ensures Success(p, init, limit, before + [item.slot] + [Taken(p.actions(item.state)[k])])
  {
    var a, cur := p.actions(item.state)[k], before + [item.slot];
    assert Path(before, item) == cur;
    assert Actions(cur + [Taken(a)]) == Actions(cur) + [a];
    RunAppend(p, init, Actions(cur), [a]);
    assert Run(p, item.state, [a]) == p.execute(a, item.state) && Executable(p, item.state, [a]);
  }

  /** How long the shared list is between two rounds: the next item needs as much of it as its depth says, and what
      the last round left beyond that is one entry for each level to be jumped over. */
  ghost predicate LengthOk<S, A>(stack: seq<Item<S, A>>, cur: seq<Slot<A>>, previousDepth: nat) {
    stack != [] ==>
      var d := stack[|stack| - 1].depth; |cur| == if d > previousDepth then d else previousDepth
  }

  /** When an item leaves nothing on the stack its own action is useless. */
  lemma DeadEnd<S(!new), A(!new)>(p: Problem<S, A>, init: S, limit: nat, rest: seq<Item<S, A>>, item: Item<S, A>,
                                  cut: seq<Slot<A>>, stack: seq<Item<S, A>>)
    requires Valid(p, init, limit, rest + [item], cut) && |cut| == item.depth
    requires stack == Expanded(p, limit, rest, item)
    requires item.depth + 1 >= limit || |p.actions(item.state)| == 0
    requires Searching(p, init, limit, stack, cut + [item.slot])
    ensures Searching(p, init, limit, stack, cut) && stack == rest
    ensures stack != [] ==> stack[|stack| - 1].depth <= item.depth
  {
    var all := rest + [item];
    assert stack == rest;
    assert forall i :: 0 <= i < |rest| ==> rest[i] == all[i] && all[i].depth <= all[|rest|].depth;
    SamePrefix(p, init, limit, rest, cut + [item.slot], cut, item.depth);
  }

  /** A round that finds nothing keeps everything in order. */
  lemma RoundKeeps<S(!new), A(!new)>(p: Problem<S, A>, init: S, limit: nat, rest: seq<Item<S, A>>, item: Item<S, A>,
                                     cut: seq<Slot<A>>, stack: seq<Item<S, A>>, had: bool, cur: seq<Slot<A>>)
    requires Searching(p, init, limit, rest + [item], cut) && |cut| == item.depth
    requires NoFinalSuccessor(p, item.state, |p.actions(item.state)|) && stack == Expanded(p, limit, rest, item)
    requires had <==> item.depth + 1 < limit && |p.actions(item.state)| > 0
    requires cur == if had then cut + [item.slot] else cut
    ensures Searching(p, init, limit, stack, cur) && LengthOk(stack, cur, item.depth)
    ensures StackSize(p, limit, stack) < StackSize(p, limit, rest + [item])
  {
    ExpandKeeps(p, init, limit, rest, item, cut, cut + [item.slot]);
    if !had {
      DeadEnd(p, init, limit, rest, item, cut, stack);
    }
  }

  lemma CutKeeps<S(!new), A(!new)>(p: Problem<S, A>, init: S, limit: nat, rest: seq<Item<S, A>>, item: Item<S, A>,
                                   cur: seq<Slot<A>>, cut: seq<Slot<A>>)
    requires Searching(p, init, limit, rest + [item], cur)
    requires item.depth <= |cur| && cut == cur[..item.depth]
    ensures Searching(p, init, limit, rest + [item], cut)
    ensures item.depth < limit && ItemOk(p, init, cut, item)
  {
    var all := rest + [item];
    assert forall i :: 0 <= i < |all| ==> all[i].depth <= all[|rest|].depth;
    SamePrefix(p, init, limit, all, cur, cut, item.depth);
    assert ItemOk(p, init, cut, all[|rest|]);
  }

  /** What holds between two rounds of a search for the given outcome. */
  ghost predicate InProgress<S(!new), A(!new)>(p: Problem<S, A>, init: S, limit: nat, stack: seq<Item<S, A>>,
                                               cur: seq<Slot<A>>, previous: nat, goal: Outcome<A>)
  {
    && Searching(p, init, limit, stack, cur) && Yields(p, limit, stack, cur, goal)
    && LengthOk(stack, cur, previous)
  }

  /** What holds when the search has ended with a solution. */
  ghost predicate Succeeded<S(!new), A(!new)>(p: Problem<S, A>, init: S, limit: nat, cur: seq<Slot<A>>,
                                              goal: Outcome<A>)
  {
    Success(p, init, limit, cur) && goal == Way(Actions(cur))
  }

  /** One round of the main loop. */
  method Round<S(!new), A(!new)>(p: Problem<S, A>, ghost init: S, depthLimit: int, stack0: seq<Item<S, A>>,
                                 cur0: seq<Slot<A>>, previous: nat, ghost goal: Outcome<A>)
    returns (found: bool, stack: seq<Item<S, A>>, cur: seq<Slot<A>>, depth: nat)
    requires stack0 != [] && InProgress(p, init, Levels(depthLimit), stack0, cur0, previous, goal)
    ensures found ==> Succeeded(p, init, Levels(depthLimit), cur, goal)
    ensures !found ==>
              && InProgress(p, init, Levels(depthLimit), stack, cur, depth, goal)
              && StackSize(p, Levels(depthLimit), stack) < StackSize(p, Levels(depthLimit), stack0)
  {
    ghost var limit := Levels(depthLimit);
    var item, rest := stack0[|stack0| - 1], stack0[..|stack0| - 1];
    assert stack0 == rest + [item];
    depth := item.depth;
    ghost var before := cur0[..depth];
    var cut := CutBack(cur0, previous - depth);
    CutYields(p, init, limit, rest, item, cur0, cut, goal);
    CutKeeps(p, init, limit, rest, item, cur0, cut);

    var had;
    ghost var last;
    found, had, stack, cur, last := Expand(p, depthLimit - 1, item, rest, cut + [item.slot]);
    if found {
      SuccessOf(p, init, limit, cut, item, last);
      FoundYields(p, limit, rest, item, cut, last, cur, goal);
      return;
    }
    if !had {
      cur := cur[..|cur| - 1];
    }
    RoundKeeps(p, init, limit, rest, item, cut, stack, had, cur);
    RoundYields(p, limit, rest, item, cut, stack, had, cur, goal);
  }

  lemma Start<S(!new), A(!new)>(p: Problem<S, A>, init: S, limit: nat)
    requires limit > 0 && !p.isFinal(init)
    ensures Searching(p, init, limit, [Item(init, Dummy, 0)], [])
    ensures Yields(p, limit, [Item(init, Dummy, 0)], [], Descend(p, init, limit))
  {
    var item: Item<S, A> := Item(init, Dummy, 0);
    assert Path([], item) == [Dummy];
    AnswerTop(p, limit, [], item, [], limit);
    assert [] + [item] == [item];
    assert Descend(p, init, limit).Way? ==> [] + Descend(p, init, limit).actions == Descend(p, init, limit).actions;
    assert ItemOk(p, init, [], [item][0]);
  }

  lemma NothingLeft<S(!new), A(!new)>(p: Problem<S, A>, init: S, limit: nat, cur: seq<Slot<A>>)
    requires AllPending(p, init, limit, [], cur)
    ensures forall q: seq<A> :: Solution(p, init, q) ==> |q| > limit
  {
    forall q: seq<A> | Solution(p, init, q) ensures |q| > limit {
      if |q| <= limit {
        var first := FirstOnTheWay(p, init, limit, q, 0);
        assert false;
      }
    }
  }

  /** The actions of the shared list, its first entry removed. */
  method WithoutDummy<A>(cur: seq<Slot<A>>) returns (ret: seq<A>)
    requires IsChain(cur) && cur != []
    ensures ret == Actions(cur)
  {
    ret := [];
    for i := 1 to |cur|
      invariant ret == Actions(cur)[..i - 1]
    {
      ret := ret + [cur[i].action];
    }
    assert Actions(cur)[..|cur| - 1] == Actions(cur);
  }

  /** The loop of solve. */
  method Search<S(!new), A(!new)>(p: Problem<S, A>, init: S, depthLimit: int, ghost goal: Outcome<A>)
    returns (found: bool, cur: seq<Slot<A>>)
    requires !p.isFinal(init) && goal == Descend(p, init, Levels(depthLimit))
    ensures found ==> Succeeded(p, init, Levels(depthLimit), cur, goal)
    ensures !found ==> goal == Nothing && forall q: seq<A> :: Solution(p, init, q) ==> |q| > Levels(depthLimit)
  {
    ghost var limit := Levels(depthLimit);
    var stack: seq<Item<S, A>> := [Item(init, Dummy, 0)];
    var previousDepth := 0;
    found, cur := false, [];
    Start(p, init, limit);
    while stack != [] && !found
      invariant if found then Succeeded(p, init, limit, cur, goal)
                else InProgress(p, init, limit, stack, cur, previousDepth, goal)
      decreases !found, if found then 0 else StackSize(p, limit, stack)
    {
      found, stack, cur, previousDepth := Round(p, init, depthLimit, stack, cur, previousDepth, goal);
    }
    if !found {
      NothingLeft(p, init, limit, cur);
    }
  }

  /** DepthFirstSearch::solve, apart from its memory limit. */
  method Solve<S(!new), A(!new)>(p: Problem<S, A>, init: S, depthLimit: int) returns (ret: seq<A>)
    ensures ret != [] ==> Solution(p, init, ret) && (|ret| == 1 || |ret| <= depthLimit)
    ensures ret == [] <==> p.isFinal(init) || forall q: seq<A> :: Solution(p, init, q) ==> |q| > 1 && |q| > depthLimit
    ensures !p.isFinal(init) ==>
              Descend(p, init, Levels(depthLimit)) == if ret == [] then Nothing else Way(ret)
  {
    if p.isFinal(init) {
      return [];
    }
    var found, cur := Search(p, init, depthLimit, Descend(p, init, Levels(depthLimit)));
    if !found {
      return [];
    }
    ret := WithoutDummy(cur);
  }
}
