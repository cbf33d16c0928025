/** The heuristic that A* is used with, over the stacks of a card game: it counts the cards that are out of sequence. */
module StudentHeuristic {
  import opened SearchProblems
  import AStar

  datatype Color = Heart | Diamond | Club | Spade

  datatype Card = Card(color: Color, value: int)

  datatype RealColor = Black | Red

  function GetColor(card: Card): RealColor {
    match card.color
    case Heart => Red
    case Diamond => Red
    case _ => Black
  }

  /** card continues a sequence that ends in prev. */
  predicate Continues(prev: Card, card: Card) {
    GetColor(prev) != GetColor(card) && card.value == prev.value - 1
  }

  /** The first card of a stack is in place, and every card that continues the sequence below it. */
  predicate WellPlacedAt(stack: seq<Card>, i: nat)
    requires i < |stack|
  {
    i == 0 || Continues(stack[i - 1], stack[i])
  }

  /** The places in a stack below k whose cards are not in place. */
  ghost function Misplaced(stack: seq<Card>, k: nat): set<nat>
    requires k <= |stack|
  {
    set i: nat | i < k && !WellPlacedAt(stack, i)
  }

  ghost function CardsIn(stacks: seq<seq<Card>>, n: nat): nat
    requires n <= |stacks|
  {
    if n == 0 then 0 else CardsIn(stacks, n - 1) + |stacks[n - 1]|
  }

  lemma MisplacedNext(stack: seq<Card>, k: nat)
    requires k < |stack|
    ensures |Misplaced(stack, k + 1)| ==
            |Misplaced(stack, k)| + if WellPlacedAt(stack, k) then 0 else 1
  {
    if WellPlacedAt(stack, k) {
      assert Misplaced(stack, k + 1) == Misplaced(stack, k);
    } else {
      assert Misplaced(stack, k + 1) == Misplaced(stack, k) + {k};
    }
  }

  // ----- the sequences that a stack consists of -----

  predicate IsRed(card: Card) {
    card.color in {Heart, Diamond}
  }

  /** Each card of the piece is as much below the first one as it is behind it, and the colours alternate. */
  ghost predicate IsSequence(piece: seq<Card>) {
    && (forall i :: 0 <= i < |piece| ==> piece[i].value == piece[0].value - i)
    && (forall i :: 0 < i < |piece| ==> IsRed(piece[i]) != IsRed(piece[i - 1]))
  }

  ghost function Joined(pieces: seq<seq<Card>>): seq<Card> {
    if pieces == [] then [] else Joined(pieces[..|pieces| - 1]) + pieces[|pieces| - 1]
  }

  /** The pieces, none of them empty and each a sequence, make up the stack. */
  ghost predicate IsCutting(stack: seq<Card>, pieces: seq<seq<Card>>) {
    Joined(pieces) == stack && forall j :: 0 <= j < |pieces| ==> pieces[j] != [] && IsSequence(pieces[j])
  }

  /** The stack can be cut into n sequences and not into fewer. */
  ghost predicate IsLeastCut(stack: seq<Card>, n: nat) {
    && (exists pieces :: IsCutting(stack, pieces) && |pieces| == n)
    && (forall pieces :: IsCutting(stack, pieces) ==> n <= |pieces|)
  }

  lemma ContinuesIs(prev: Card, card: Card)
    ensures Continues(prev, card) <==> card.value == prev.value - 1 && IsRed(card) != IsRed(prev)
  {
  }

  lemma SequenceNext(piece: seq<Card>, card: Card)
    requires piece != [] && IsSequence(piece)
    ensures IsSequence(piece + [card]) <==> Continues(piece[|piece| - 1], card)
  {
    var n, longer := |piece|, piece + [card];
    assert longer[n] == card && longer[n - 1] == piece[n - 1];
    if Continues(piece[n - 1], card) {
      forall i | 0 <= i < |longer| ensures longer[i].value == longer[0].value - i {
        assert i < n ==> longer[i] == piece[i];
      }
      forall i | 0 < i < |longer| ensures IsRed(longer[i]) != IsRed(longer[i - 1]) {
        assert i < n ==> longer[i] == piece[i] && longer[i - 1] == piece[i - 1];
      }
    }
  }

  lemma JoinedAppend(pieces: seq<seq<Card>>, piece: seq<Card>)
    ensures Joined(pieces + [piece]) == Joined(pieces) + piece
  {
    assert (pieces + [piece])[..|pieces|] == pieces;
  }

  /** The first k cards are cut before each card that is not in place. */
  lemma {:induction false} CutAtMisplaced(stack: seq<Card>, k: nat) returns (pieces: seq<seq<Card>>)
    requires 0 < k <= |stack|
    ensures IsCutting(stack[..k], pieces) && |pieces| == |Misplaced(stack, k)| + 1
  {
    if k == 1 {
      pieces := [stack[..1]];
      assert Misplaced(stack, 1) == {} && Joined([]) + stack[..1] == stack[..1];
      JoinedAppend([], stack[..1]);
      assert [] + [stack[..1]] == pieces;
    } else {
      var before := CutAtMisplaced(stack, k - 1);
      var card := stack[k - 1];
      var rest, last := before[..|before| - 1], before[|before| - 1];
      assert before == rest + [last] && stack[..k] == stack[..k - 1] + [card];
      assert last[|last| - 1] == stack[k - 2];
      MisplacedNext(stack, k - 1);
      SequenceNext(last, card);
      if Continues(stack[k - 2], card) {
        pieces := rest + [last + [card]];
        JoinedAppend(rest, last + [card]);
        assert Joined(rest) + (last + [card]) == Joined(rest) + last + [card];
      } else {
        pieces := before + [[card]];
        JoinedAppend(before, [card]);
      }
    }
  }

  lemma InSequence(piece: seq<Card>, i: nat)
    requires IsSequence(piece) && 0 < i < |piece|
    ensures Continues(piece[i - 1], piece[i])
  {
    assert piece[i].value == piece[0].value - i && piece[i - 1].value == piece[0].value - (i - 1);
  }

  lemma MisplacedOfSequence(piece: seq<Card>)
    requires IsSequence(piece)
    ensures Misplaced(piece, |piece|) == {}
  {
    forall i: nat | 0 < i < |piece| ensures WellPlacedAt(piece, i) {
      InSequence(piece, i);
    }
  }

  /** A sequence put on a stack brings no card that is out of place, except perhaps its first one. */
  lemma MisplacedOnTop(below: seq<Card>, piece: seq<Card>)
    requires IsSequence(piece)
    ensures |Misplaced(below + piece, |below + piece|)| <= |Misplaced(below, |below|)| + 1
  {
    var stack := below + piece;
    var more := Misplaced(below, |below|) + {|below|};
    forall i: nat | |below| < i < |stack| ensures WellPlacedAt(stack, i) {
      InSequence(piece, i - |below|);
    }
    forall i: nat | i < |below| && !WellPlacedAt(stack, i) ensures !WellPlacedAt(below, i) {
      assert stack[i] == below[i];
    }
    SubsetSizes(Misplaced(stack, |stack|), more, more);
  }

  /** Cutting into fewer pieces is not possible. */
  lemma {:induction false} NoFewerPieces(stack: seq<Card>, pieces: seq<seq<Card>>)
    requires IsCutting(stack, pieces) && stack != []
    ensures |Misplaced(stack, |stack|)| + 1 <= |pieces|
    decreases |pieces|
  {
    var rest, last := pieces[..|pieces| - 1], pieces[|pieces| - 1];
    var below := Joined(rest);
    assert stack == below + last;
    if below == [] {
      assert stack == last;
      MisplacedOfSequence(last);
    } else {
      NoFewerPieces(below, rest);
      MisplacedOnTop(below, last);
    }
  }

  /** The least number of sequences that the stack can be cut into. */
  ghost function FewestPieces(stack: seq<Card>): nat {
    if stack == [] then 0 else |Misplaced(stack, |stack|)| + 1
  }

  /** It can be cut into so many, and not into fewer. */
  lemma FewestIsLeast(stack: seq<Card>)
    ensures IsLeastCut(stack, FewestPieces(stack)) && (FewestPieces(stack) == 0 <==> stack == [])
  {
    if stack == [] {
      assert IsCutting([], []);
    } else {
      assert stack[..|stack|] == stack;
      var cut := CutAtMisplaced(stack, |stack|);
      forall pieces: seq<seq<Card>> | IsCutting(stack, pieces) ensures FewestPieces(stack) <= |pieces| {
        NoFewerPieces(stack, pieces);
      }
    }
  }

  /** The cuts that part the stack into as few sequences as possible. */
  ghost function Cuts(stack: seq<Card>): nat {
    if stack == [] then 0 else FewestPieces(stack) - 1
  }

  /** The cuts that the first n stacks need. */
  ghost function CutsIn(stacks: seq<seq<Card>>, n: nat): nat
    requires n <= |stacks|
  {
    if n == 0 then 0 else CutsIn(stacks, n - 1) + Cuts(stacks[n - 1])
  }

  // ----- distanceLowerBound -----

  /** The inner loop of distanceLowerBound: the well placed cards of one stack. */
  method WellPlaced(stack: seq<Card>) returns (wellPlaced: nat)
    ensures wellPlaced <= |stack| &&
            (if stack == [] then wellPlaced == 0 else IsLeastCut(stack, |stack| - wellPlaced + 1))
    ensures wellPlaced + Cuts(stack) == |stack|
  {
    wellPlaced := 0;
    assert Misplaced(stack, 0) == {};
    for k := 0 to |stack|
      invariant wellPlaced + |Misplaced(stack, k)| == k
    {
      MisplacedNext(stack, k);
      if k == 0 || Continues(stack[k - 1], stack[k]) {
        wellPlaced := wellPlaced + 1;
      }
    }
    FewestIsLeast(stack);
  }

  /** distanceLowerBound: as many as the cuts that part the stacks into sequences, which are as few as possible. */
  method DistanceLowerBound(stacks: seq<seq<Card>>) returns (r: real)
    ensures r == CutsIn(stacks, |stacks|) as real
  {
    var cardsInStacks, wellPlaced := 0.0, 0.0;
    for n := 0 to |stacks|
      invariant cardsInStacks - wellPlaced == CutsIn(stacks, n) as real
    {
      var well := WellPlaced(stacks[n]);
      wellPlaced := wellPlaced + well as real;
      cardsInStacks := cardsInStacks + |stacks[n]| as real;
    }
    r := cardsInStacks - wellPlaced;
  }

  lemma {:induction false} MisplacedAtMost(stack: seq<Card>, k: nat)
    requires k <= |stack|
    ensures |Misplaced(stack, k)| <= k
  {
    if k == 0 {
      assert Misplaced(stack, 0) == {};
    } else {
      MisplacedAtMost(stack, k - 1);
      MisplacedNext(stack, k - 1);
    }
  }

  lemma CutsAtMostCards(stack: seq<Card>)
    ensures Cuts(stack) <= |stack|
  {
    MisplacedAtMost(stack, |stack|);
  }

  lemma {:induction false} AtMostCards(stacks: seq<seq<Card>>, n: nat)
    requires n <= |stacks|
    ensures CutsIn(stacks, n) <= CardsIn(stacks, n)
  {
    if n > 0 {
      AtMostCards(stacks, n - 1);
      CutsAtMostCards(stacks[n - 1]);
    }
  }

  // ----- in a search -----

  ghost function Cards<S(!new)>(stacks: S -> seq<seq<Card>>, s: S): nat {
    CardsIn(stacks(s), |stacks(s)|)
  }

  /** No action takes more than one card off the stacks, and in the end there is none left on them. */
  ghost predicate OneCardAtATime<S(!new), A(!new)>(p: Problem<S, A>, stacks: S -> seq<seq<Card>>) {
    && (forall s, a :: a in p.actions(s) ==> Cards(stacks, s) <= Cards(stacks, p.execute(a, s)) + 1)
    && (forall s :: p.isFinal(s) ==> Cards(stacks, s) == 0)
  }

  lemma {:induction false} StepsForCards<S(!new), A(!new)>(p: Problem<S, A>, stacks: S -> seq<seq<Card>>, s: S,
                                                           q: seq<A>)
    requires OneCardAtATime(p, stacks) && Solution(p, s, q)
    ensures Cards(stacks, s) <= |q|
    decreases |q|
  {
    if q != [] {
      StepsForCards(p, stacks, p.execute(q[0], s), q[1..]);
    }
  }

  ghost function Heuristic<S(!new)>(stacks: S -> seq<seq<Card>>): S -> real {
    s => CutsIn(stacks(s), |stacks(s)|) as real
  }

  /** A game in which one card is moved at a time never needs fewer steps than the heuristic says, so A* is optimal
      with it. */
  lemma HeuristicIsAdmissible<S(!new), A(!new)>(p: Problem<S, A>, stacks: S -> seq<seq<Card>>)
    requires OneCardAtATime(p, stacks)
    ensures AStar.Admissible(p, Heuristic(stacks))
  {
    forall s, q: seq<A> | Solution(p, s, q) ensures Heuristic(stacks)(s) <= |q| as real {
      StepsForCards(p, stacks, s, q);
      AtMostCards(stacks(s), |stacks(s)|);
    }
  }
}
