/** The search problems: a deterministic transition system in which every state offers a finite list of actions. */
module SearchProblems {

  datatype Problem<!S, !A> = Problem(actions: S -> seq<A>, execute: (A, S) -> S, isFinal: S -> bool)

  /** How a state was reached: it is the initial one, or action led to it from parent. */
  datatype Link<S, A> = Root | From(parent: S, action: A)

  /** The state after a sequence of actions. */
  ghost function Run<S(!new), A(!new)>(p: Problem<S, A>, s: S, acts: seq<A>): S {
    if acts == [] then s else Run(p, p.execute(acts[0], s), acts[1..])
  }

  /** Every action of the sequence is on offer when its turn comes. */
  ghost predicate Executable<S(!new), A(!new)>(p: Problem<S, A>, s: S, acts: seq<A>) {
    acts == [] || (acts[0] in p.actions(s) && Executable(p, p.execute(acts[0], s), acts[1..]))
  }

  ghost predicate Solution<S(!new), A(!new)>(p: Problem<S, A>, s: S, acts: seq<A>) {
    Executable(p, s, acts) && p.isFinal(Run(p, s, acts))
  }

  ghost predicate Shortest<S(!new), A(!new)>(p: Problem<S, A>, s: S, acts: seq<A>) {
    Solution(p, s, acts) && forall q: seq<A> :: Solution(p, s, q) ==> |acts| <= |q|
  }

  ghost predicate Unsolvable<S(!new), A(!new)>(p: Problem<S, A>, s: S) {
    forall q: seq<A> :: !Solution(p, s, q)
  }

  /** The set contains the initial state and is not left by any action. */
  ghost predicate StateSpace<S(!new), A(!new)>(p: Problem<S, A>, init: S, all: set<S>) {
    init in all && forall s, a :: s in all && a in p.actions(s) ==> p.execute(a, s) in all
  }

  lemma {:induction false} RunAppend<S(!new), A(!new)>(p: Problem<S, A>, s: S, acts: seq<A>, more: seq<A>)
    ensures Run(p, s, acts + more) == Run(p, Run(p, s, acts), more)
    ensures Executable(p, s, acts + more) <==> Executable(p, s, acts) && Executable(p, Run(p, s, acts), more)
  {
    if acts == [] {
      assert acts + more == more;
    } else {
      assert (acts + more)[1..] == acts[1..] + more;
      RunAppend(p, p.execute(acts[0], s), acts[1..], more);
    }
  }

  /** The state after the first i + 1 actions of a sequence comes from the one after the first i. */
  lemma RunStep<S(!new), A(!new)>(p: Problem<S, A>, s: S, acts: seq<A>, i: nat)
    requires i < |acts|
    ensures Run(p, s, acts[..i + 1]) == p.execute(acts[i], Run(p, s, acts[..i]))
    ensures Executable(p, s, acts) ==> acts[i] in p.actions(Run(p, s, acts[..i])) && Executable(p, s, acts[..i + 1])
  {
    assert acts[..i + 1] == acts[..i] + [acts[i]];
    RunAppend(p, s, acts[..i], [acts[i]]);
    assert acts == acts[..i + 1] + acts[i + 1..];
    RunAppend(p, s, acts[..i + 1], acts[i + 1..]);
  }

  /** What is left of a solution after its first i actions solves the problem from there. */
  lemma SolutionTail<S(!new), A(!new)>(p: Problem<S, A>, s: S, acts: seq<A>, i: nat)
    requires Solution(p, s, acts) && i <= |acts|
    ensures Executable(p, s, acts[..i]) && Solution(p, Run(p, s, acts[..i]), acts[i..])
  {
    assert acts == acts[..i] + acts[i..];
    RunAppend(p, s, acts[..i], acts[i..]);
  }

  lemma SubsetSizes<T>(a: set<T>, b: set<T>, c: set<T>)
    requires a <= b <= c
    ensures |a| <= |b| <= |c| && (|a| == |b| ==> a == b)
  {
    assert b == a + (b - a) && c == b + (c - b);
  }
}
