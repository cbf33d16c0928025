/** The random parity check matrix of the encoder: parityCheckMatrix of matrices_generator.cpp. */
module ParityCheck {
  import opened Gf2
  import opened Maths
  import opened Rank
  import opened Shuffle

  // ----- what is generated -----

  /** Ones from column lo up to column hi. */
  function Interval(n: nat, lo: nat, hi: nat): Vec {
    seq(n, j => lo <= j < hi)
  }

  function Negation(v: Vec): Vec {
    seq(|v|, j requires 0 <= j < |v| => !v[j])
  }

  /** The numbers drawn for the shuffle of a row. */
  function PicksOf(rng: (nat, nat) -> nat, row: nat, n: nat): seq<nat> {
    seq(n, k requires 0 <= k => rng(row, k))
  }

  function OutcomeRow(n: nat, rng: (nat, nat) -> nat, r: nat): (v: Vec)
    ensures |v| == n
  {
    if r == 0 then Interval(n, 0, n / 2)
    else if r == 1 then Interval(n, n / 2, n / 2 + n / 2)
    else if r % 2 == 0 then Shuffled(Interval(n, 0, n / 2), PicksOf(rng, r, n))
    else Negation(Shuffled(Interval(n, 0, n / 2), PicksOf(rng, r - 1, n)))
  }

  /** The matrix for codewords of n bits, as a function of the numbers drawn. */
  function OutcomeOf(n: nat, rng: (nat, nat) -> nat): (B: Matrix)
    requires n >= 2
  {
    seq(n - 2, r requires 0 <= r => OutcomeRow(n, rng, r))
  }

  // ----- generating it -----

  method SwapCells(H: Mat, row: nat, k: nat, p: nat)
    requires IsBinary(H) && row < H.Length0 && k < H.Length1 && p < H.Length1
    modifies H
    ensures IsBinary(H)
    ensures Bits(H)[row] == Swapped(old(Bits(H))[row], k, p)
    ensures forall i :: 0 <= i < H.Length0 && i != row ==> Bits(H)[i] == old(Bits(H))[i]
  {
    H[row, k], H[row, p] := H[row, p], H[row, k];
  }

  /** std::shuffle on one row. */
  method ShuffleRow(H: Mat, row: nat, rng: (nat, nat) -> nat)
    requires IsBinary(H) && row < H.Length0
    modifies H
    ensures IsBinary(H)
    ensures Bits(H)[row] == Shuffled(old(Bits(H))[row], PicksOf(rng, row, H.Length1))
    ensures forall i :: 0 <= i < H.Length0 && i != row ==> Bits(H)[i] == old(Bits(H))[i]
  {
    ghost var w, picks := Bits(H)[row], PicksOf(rng, row, H.Length1);
    if H.Length1 == 0 {
      return;
    }
    ShuffleStarts(w, picks);
    var k := 1;
    while k < H.Length1
      invariant 1 <= k <= H.Length1 && IsBinary(H)
      invariant ShuffledTo(Bits(H)[row], w, picks, k)
      invariant forall i :: 0 <= i < H.Length0 && i != row ==> Bits(H)[i] == old(Bits(H))[i]
    {
      var p := Place(rng(row, k), k);
      ShuffleStep(Bits(H)[row], w, picks, k);
      SwapCells(H, row, k, p);
      k := k + 1;
    }
    ShuffleEnds(Bits(H)[row], w, picks);
  }

  /** Fills row i with ones from column lo up to column hi, in a row of zeros. */
  method FillOnes(H: Mat, i: nat, lo: nat, hi: nat)
    requires IsBinary(H) && i < H.Length0 && lo <= hi <= H.Length1
    requires Bits(H)[i] == Zero(H.Length1)
    modifies H
    ensures IsBinary(H)
    ensures Bits(H)[i] == Interval(H.Length1, lo, hi)
    ensures forall r :: 0 <= r < H.Length0 && r != i ==> Bits(H)[r] == old(Bits(H))[r]
  {
    forall c | 0 <= c < H.Length1 ensures H[i, c] == 0 {
      assert !Bits(H)[i][c];
    }
    for j := lo to hi
      invariant IsBinary(H)
      invariant forall c :: 0 <= c < H.Length1 ==> H[i, c] == if lo <= c < j then 1 else 0
      invariant forall r :: 0 <= r < H.Length0 && r != i ==> Bits(H)[r] == old(Bits(H))[r]
    {
      H[i, j] := 1;
    }
  }

  /** Row i: ones in half of the places, at random. */
  method FillRow(H: Mat, i: nat, rng: (nat, nat) -> nat)
    requires IsBinary(H) && 2 <= i < H.Length0 && i % 2 == 0
    requires Bits(H)[i] == Zero(H.Length1)
    modifies H
    ensures IsBinary(H)
    ensures Bits(H)[i] == OutcomeRow(H.Length1, rng, i)
    ensures forall r :: 0 <= r < H.Length0 && r != i ==> Bits(H)[r] == old(Bits(H))[r]
  {
    FillOnes(H, i, 0, H.Length1 / 2);
    ShuffleRow(H, i, rng);
  }

  /** Row i + 1 becomes the negation of row i. */
  method NegateInto(H: Mat, i: nat)
    requires IsBinary(H) && i + 1 < H.Length0
    modifies H
    ensures IsBinary(H)
    ensures Bits(H)[i + 1] == Negation(old(Bits(H))[i])
    ensures forall r :: 0 <= r < H.Length0 && r != i + 1 ==> Bits(H)[r] == old(Bits(H))[r]
  {
    forall j | 0 <= j < H.Length1 { H[i + 1, j] := 1 - H[i, j]; }
  }

  /** The first two rows: dC consecutive ones each. */
  method FirstBlock(nCode: nat, ghost rng: (nat, nat) -> nat) returns (H: Mat)
    requires nCode >= 4
    ensures fresh(H) && IsBinary(H) && H.Length0 == nCode - 2 && H.Length1 == nCode
    ensures forall r :: 0 <= r < 2 ==> Bits(H)[r] == OutcomeRow(nCode, rng, r)
    ensures forall r :: 2 <= r < nCode - 2 ==> Bits(H)[r] == Zero(nCode)
  {
    var dC := nCode / 2;
    H := new int[nCode - 2, nCode]((i, j) => 0);
    assert forall r :: 0 <= r < nCode - 2 ==> Bits(H)[r] == Zero(nCode);
    FillOnes(H, 0, 0, dC);
    FillOnes(H, 1, dC, dC + dC);
  }

  /** The first k rows are as they should be, the others still zero. */
  ghost predicate FilledTo(B: Matrix, n: nat, rng: (nat, nat) -> nat, k: nat) {
    && (forall r :: 0 <= r < k && r < |B| ==> B[r] == OutcomeRow(n, rng, r))
    && (forall r :: k <= r < |B| ==> B[r] == Zero(n))
  }

  lemma FilledNext(B: Matrix, B': Matrix, n: nat, rng: (nat, nat) -> nat, i: nat)
    requires FilledTo(B, n, rng, i) && 2 <= i && i + 1 < |B| == |B'| && i % 2 == 0
    requires B'[i] == OutcomeRow(n, rng, i) && B'[i + 1] == Negation(B'[i])
    requires forall r :: 0 <= r < |B| && r != i && r != i + 1 ==> B'[r] == B[r]
    ensures FilledTo(B', n, rng, i + 2)
  {
    assert OutcomeRow(n, rng, i + 1) == Negation(OutcomeRow(n, rng, i));
  }

  /** Rows i and i + 1; fails when there is no row i + 1. */
  method AddPair(H: Mat, i: nat, rng: (nat, nat) -> nat) returns (ok: bool)
    requires IsBinary(H) && 2 <= i < H.Length0 && i % 2 == 0 && FilledTo(Bits(H), H.Length1, rng, i)
    modifies H
    ensures IsBinary(H) && (ok <==> i + 1 < H.Length0)
    ensures ok ==> FilledTo(Bits(H), H.Length1, rng, i + 2)
  {
    ghost var B := Bits(H);
    FillRow(H, i, rng);
    ok := i + 1 < H.Length0;
    if ok {
      NegateInto(H, i);
      FilledNext(B, Bits(H), H.Length1, rng, i);
    }
  }

  datatype Generated = Generated(H: Mat) | Failed

  /** A matrix cannot have a negative number of rows, and with an odd number of rows the last one has no row to be
      negated into. For 2 and 3 the code writes its first block outside of the matrix. */
  method ParityCheckMatrix(nCode: int, rng: (nat, nat) -> nat) returns (g: Generated)
    requires nCode != 2 && nCode != 3
    ensures g.Generated? <==> nCode >= 4 && nCode % 2 == 0
    ensures g.Generated? ==>
              && fresh(g.H) && IsBinary(g.H) && g.H.Length0 == nCode - 2 && g.H.Length1 == nCode
              && Bits(g.H) == OutcomeOf(nCode, rng)
  {
    var nEquations := nCode - 2;
    if nEquations < 0 {
      return Failed;
    }
    var H := FirstBlock(nCode, rng);
    var i := 2;
    while i < H.Length0
      invariant 2 <= i <= H.Length0 && i % 2 == 0 && IsBinary(H) && FilledTo(Bits(H), nCode, rng, i)
    {
      var ok := AddPair(H, i, rng);
      if !ok {
        return Failed;
      }
      i := i + 2;
    }
    assert Bits(H) == OutcomeOf(nCode, rng);
    return Generated(H);
  }

  // ----- which matrices are generated -----

  ghost predicate Complements(u: Vec, v: Vec) {
    |u| == |v| && forall j :: 0 <= j < |u| ==> v[j] == !u[j]
  }

  /** In the first k rows of B, every row with an even number has n / 2 ones and the next row is its complement. */
  ghost predicate Paired(B: Matrix, n: nat, k: nat)
    requires IsMatrix(B, |B|, n) && k <= |B|
  {
    forall i :: 0 <= i < k - 1 && i % 2 == 0 ==> Ones(B[i], n) == n / 2 && Complements(B[i], B[i + 1])
  }

  /** What can be generated for codewords of n bits: see GeneratedExactly. */
  ghost predicate GeneratorOutcome(B: Matrix, n: nat) {
    && n % 2 == 0 && n >= 4 && IsMatrix(B, n - 2, n)
    && (forall j :: 0 <= j < n ==> B[0][j] == (j < n / 2))
    && Paired(B, n, n - 2)
  }

  lemma {:induction false} OnesIsMultiplicity(v: Vec, c: nat)
    requires c <= |v|
    ensures Ones(v, c) == multiset(v[..c])[true] && c - Ones(v, c) == multiset(v[..c])[false]
  {
    if c > 0 {
      OnesIsMultiplicity(v, c - 1);
      assert v[..c] == v[..c - 1] + [v[c - 1]];
    }
  }

  /** Rows with equally many ones are arrangements of each other. */
  lemma OnesDecideArrangement(u: Vec, v: Vec)
    requires |u| == |v|
    ensures Ones(u, |u|) == Ones(v, |v|) <==> multiset(u) == multiset(v)
  {
    OnesIsMultiplicity(u, |u|);
    OnesIsMultiplicity(v, |v|);
    assert u[..|u|] == u && v[..|v|] == v;
    if Ones(u, |u|) == Ones(v, |v|) {
      forall b: bool ensures multiset(u)[b] == multiset(v)[b] {
        assert b == true || b == false;
      }
    }
  }

  lemma {:induction false} OnesInterval(n: nat, lo: nat, hi: nat, c: nat)
    requires lo <= hi <= n && c <= n
    ensures Ones(Interval(n, lo, hi), c) == if c <= lo then 0 else if c <= hi then c - lo else hi - lo
  {
    if c > 0 {
      OnesInterval(n, lo, hi, c - 1);
    }
  }

  lemma ShuffleKeepsOnes(w: Vec, picks: seq<nat>)
    requires |picks| == |w|
    ensures Ones(Shuffled(w, picks), |w|) == Ones(w, |w|)
  {
    var v := Shuffled(w, picks);
    ShuffledIsArrangement(w, picks);
    OnesDecideArrangement(w, v);
  }

  /** A shuffled row keeps its weight. */
  lemma ShuffledHalf(n: nat, rng: (nat, nat) -> nat, r: nat)
    requires r % 2 == 0
    ensures Ones(OutcomeRow(n, rng, r), n) == n / 2
  {
    var half := Interval(n, 0, n / 2);
    OnesInterval(n, 0, n / 2, n);
    if r > 0 {
      ShuffleKeepsOnes(half, PicksOf(rng, r, n));
    }
  }

  /** Whatever is drawn, the first block is as laid out and the rows are pairs of a half-weight row and its
      complement. */
  lemma OutcomeIsGenerated(n: nat, rng: (nat, nat) -> nat)
    requires n % 2 == 0 && n >= 4
    ensures GeneratorOutcome(OutcomeOf(n, rng), n)
  {
    var B := OutcomeOf(n, rng);
    forall i | 0 <= i < n - 3 && i % 2 == 0 ensures Ones(B[i], n) == n / 2 && Complements(B[i], B[i + 1]) {
      ShuffledHalf(n, rng, i);
    }
  }

  /** Picks that shuffle the first half into the given row. */
  lemma PicksFor(n: nat, row: Vec) returns (picks: seq<nat>)
    requires |row| == n && Ones(row, n) == n / 2
    ensures |picks| == n && Shuffled(Interval(n, 0, n / 2), picks) == row
  {
    OnesInterval(n, 0, n / 2, n);
    OnesDecideArrangement(Interval(n, 0, n / 2), row);
    picks := EveryArrangement(Interval(n, 0, n / 2), row);
  }

  /** Draws number k of row r from the r-th list. */
  function Drawing(lists: seq<seq<nat>>): (nat, nat) -> nat {
    (r: nat, k: nat) => if r < |lists| && k < |lists[r]| then lists[r][k] else 0
  }

  ghost predicate Draws(lists: seq<seq<nat>>, B: Matrix, n: nat)
    requires IsMatrix(B, |B|, n) && |lists| <= |B|
  {
    forall r :: 0 <= r < |lists| ==>
      |lists[r]| == n && (r % 2 == 0 ==> Shuffled(Interval(n, 0, n / 2), lists[r]) == B[r])
  }

  lemma {:induction false} ListsFor(B: Matrix, n: nat, k: nat) returns (lists: seq<seq<nat>>)
    requires GeneratorOutcome(B, n) && k <= n - 2
    ensures |lists| == k && Draws(lists, B, n)
  {
    if k == 0 {
      lists := [];
    } else {
      lists := ListsFor(B, n, k - 1);
      var picks := seq(n, j => 0);
      if (k - 1) % 2 == 0 {
        assert Complements(B[k - 1], B[k]) || k == n - 2;
        picks := PicksFor(n, B[k - 1]);
      }
      lists := lists + [picks];
    }
  }

  lemma OutcomeRowFor(B: Matrix, n: nat, lists: seq<seq<nat>>, r: nat)
    requires GeneratorOutcome(B, n) && |lists| == n - 2 && Draws(lists, B, n) && r < n - 2
    ensures OutcomeRow(n, Drawing(lists), r) == B[r]
  {
    var rng := Drawing(lists);
    var i := r - r % 2;
    assert Complements(B[i], B[i + 1]);
    if i > 0 {
      assert PicksOf(rng, i, n) == lists[i];
    }
  }

  /** Every such matrix is generated, by these numbers. */
  lemma EveryOutcome(B: Matrix, n: nat) returns (rng: (nat, nat) -> nat)
    requires GeneratorOutcome(B, n)
    ensures OutcomeOf(n, rng) == B
  {
    var lists := ListsFor(B, n, n - 2);
    rng := Drawing(lists);
    forall r | 0 <= r < n - 2 ensures OutcomeRow(n, rng, r) == B[r] {
      OutcomeRowFor(B, n, lists, r);
    }
  }

  /** The generator returns exactly the matrices with the given first row whose rows are pairs of a half-weight row
      and its complement. */
  lemma GeneratedExactly(B: Matrix, n: nat)
    requires n >= 2
    ensures GeneratorOutcome(B, n) <==>
      n % 2 == 0 && n >= 4 && exists rng: (nat, nat) -> nat :: B == OutcomeOf(n, rng)
  {
    if GeneratorOutcome(B, n) {
      var rng := EveryOutcome(B, n);
      assert B == OutcomeOf(n, rng);
    }
    if n % 2 == 0 && n >= 4 {
      forall rng: (nat, nat) -> nat | B == OutcomeOf(n, rng) ensures GeneratorOutcome(B, n) {
        OutcomeIsGenerated(n, rng);
      }
    }
  }

  // ----- weights -----

  lemma {:induction false} OnesOfComplement(u: Vec, v: Vec, c: nat)
    requires Complements(u, v) && c <= |u|
    ensures Ones(v, c) == c - Ones(u, c)
  {
    if c > 0 {
      OnesOfComplement(u, v, c - 1);
    }
  }

  /** Every parity check equation has n / 2 bits. */
  lemma RowWeight(B: Matrix, n: nat, i: nat)
    requires GeneratorOutcome(B, n) && i < n - 2
    ensures Ones(B[i], n) == n / 2
  {
    if i % 2 == 1 {
      OnesOfComplement(B[i - 1], B[i], n);
    }
  }

  /** The number of the first k equations that bit j takes part in. */
  ghost function ColumnOnes(B: Matrix, n: nat, j: nat, k: nat): nat
    requires IsMatrix(B, |B|, n) && j < n && k <= |B|
  {
    if k == 0 then 0 else ColumnOnes(B, n, j, k - 1) + if B[k - 1][j] then 1 else 0
  }

  /** Every bit takes part in one equation of each pair. */
  lemma {:induction false} ColumnWeight(B: Matrix, n: nat, j: nat, k: nat)
    requires GeneratorOutcome(B, n) && j < n && k <= n - 2 && k % 2 == 0
    ensures ColumnOnes(B, n, j, k) == k / 2
  {
    if k > 0 {
      ColumnWeight(B, n, j, k - 2);
      assert Complements(B[k - 2], B[k - 1]);
    }
  }

  // ----- rank -----

  /** Row 1 and all rows with even numbers: the other rows follow from these. */
  function Representatives(B: Matrix): Matrix
    requires |B| >= 2
  {
    [B[1]] + seq(|B| / 2, t requires 0 <= t < |B| / 2 => B[2 * t])
  }

  lemma RowFromRepresentatives(B: Matrix, n: nat, i: nat)
    requires GeneratorOutcome(B, n) && i < n - 2
    ensures IsMatrix(Representatives(B), n / 2, n) && InSpan(Representatives(B), n, B[i])
  {
    var S, s := Representatives(B), n / 2;
    var even := Unit(s, 1 + i / 2);
    CombineUnit(S, s, n, 1 + i / 2);
    if i % 2 == 0 {
      assert Combine(even, S, n) == B[i];
    } else {
      CombineUnit(S, s, n, 0);
      CombineUnit(S, s, n, 1);
      var ones := Add(Unit(s, 0), Unit(s, 1));
      CombineAdd(Unit(s, 0), Unit(s, 1), S, n);
      CombineAdd(ones, even, S, n);
      assert Complements(B[0], B[1]) && Complements(B[i - 1], B[i]);
      assert Add(Add(B[1], B[0]), B[i - 1]) == B[i];
      assert Combine(Add(ones, even), S, n) == B[i];
    }
  }

  lemma RepresentativesSpan(B: Matrix, n: nat)
    requires GeneratorOutcome(B, n)
    ensures IsMatrix(Representatives(B), n / 2, n)
    ensures Spans(Representatives(B), B, n) && Spans(B, Representatives(B), n)
  {
    var S := Representatives(B);
    forall i | 0 <= i < |B| ensures InSpan(S, n, B[i]) {
      RowFromRepresentatives(B, n, i);
    }
    forall t | 0 <= t < |S| ensures InSpan(B, n, S[t]) {
      var i := if t == 0 then 1 else 2 * (t - 1);
      CombineUnit(B, |B|, n, i);
      assert Combine(Unit(|B|, i), B, n) == S[t];
    }
  }

  /** Whatever the shuffles do, the rank is at most half the codeword length; it is exactly half, so that the message
      has half as many bits as the codeword, just when no representative row is redundant. */
  lemma RankAtMostHalf(B: Matrix, n: nat, r: nat)
    requires GeneratorOutcome(B, n) && HasRank(B, n, r)
    ensures IsMatrix(Representatives(B), n / 2, n) && r <= n / 2
    ensures r == n / 2 <==> IndependentRows(Representatives(B), n)
  {
    RepresentativesSpan(B, n);
    RankOfSpanningSet(B, Representatives(B), n, r);
  }

  lemma EqualRowsDependent(S: Matrix, n: nat, i: nat, j: nat)
    requires IsMatrix(S, |S|, n) && i < j < |S| && S[i] == S[j]
    ensures !IndependentRows(S, n)
  {
    var u, v := Unit(|S|, i), Unit(|S|, j);
    CombineAdd(u, v, S, n);
    CombineUnit(S, |S|, n, i);
    CombineUnit(S, |S|, n, j);
    assert Combine(Add(u, v), S, n) == Zero(n);
    assert Add(u, v)[i];
  }

  /** A row repeated by the shuffles is redundant. */
  lemma RepeatedRow(B: Matrix, n: nat, t: nat, t': nat)
    requires GeneratorOutcome(B, n) && t < t' < (n - 2) / 2 && B[2 * t] == B[2 * t']
    ensures IsMatrix(Representatives(B), n / 2, n)
    ensures !IndependentRows(Representatives(B), n)
  {
    RepresentativesSpan(B, n);
    EqualRowsDependent(Representatives(B), n, 1 + t, 1 + t');
  }

  // ----- both extremes are reached -----

  /** The numbers drawn leave the representative rows of the matrix independent. */
  ghost predicate DrawsFullRank(n: nat, rng: (nat, nat) -> nat)
    requires n >= 4
  {
    IsMatrix(Representatives(OutcomeOf(n, rng)), n / 2, n) && IndependentRows(Representatives(OutcomeOf(n, rng)), n)
  }

  /** No shuffle moves anything: all pairs are alike. */
  ghost predicate StaysPut(rng: (nat, nat) -> nat) {
    forall r, k :: rng(r, k) == k
  }

  lemma UnshuffledRow(n: nat, rng: (nat, nat) -> nat, r: nat)
    requires StaysPut(rng) && r % 2 == 0
    ensures OutcomeRow(n, rng, r) == Interval(n, 0, n / 2)
  {
    if r > 0 {
      StayingPut(Interval(n, 0, n / 2), PicksOf(rng, r, n));
    }
  }

  /** From six bits on the shuffles may repeat a row, and then the rank falls short of n / 2. */
  lemma ShortfallPossible(n: nat, rng: (nat, nat) -> nat)
    requires n % 2 == 0 && n >= 6 && StaysPut(rng)
    ensures GeneratorOutcome(OutcomeOf(n, rng), n) && !DrawsFullRank(n, rng)
  {
    var B := OutcomeOf(n, rng);
    OutcomeIsGenerated(n, rng);
    UnshuffledRow(n, rng, 0);
    UnshuffledRow(n, rng, 2);
    assert B[2 * 0] == B[2 * 1];
    RepeatedRow(B, n, 0, 1);
  }

  /** The first half with its t-th place exchanged for the first place of the second half. */
  function SpreadRow(n: nat, t: nat): (v: Vec)
    requires n >= 4 && n % 2 == 0 && t < n / 2
    ensures |v| == n
  {
    if t == 0 then Interval(n, 0, n / 2) else Swapped(Interval(n, 0, n / 2), t - 1, n / 2)
  }

  function SpreadMatrix(n: nat): (B: Matrix)
    requires n >= 4 && n % 2 == 0
    ensures |B| == n - 2
  {
    seq(n - 2, r requires 0 <= r < n - 2 =>
      if r % 2 == 0 then SpreadRow(n, r / 2) else Negation(SpreadRow(n, r / 2)))
  }

  lemma SpreadRowWeight(n: nat, t: nat)
    requires n >= 4 && n % 2 == 0 && t < n / 2
    ensures Ones(SpreadRow(n, t), n) == n / 2
  {
    var half := Interval(n, 0, n / 2);
    OnesInterval(n, 0, n / 2, n);
    if t > 0 {
      SwapKeepsMultiset(half, t - 1, n / 2);
      OnesDecideArrangement(half, SpreadRow(n, t));
    }
  }

  lemma SpreadIsGenerated(n: nat)
    requires n >= 4 && n % 2 == 0
    ensures GeneratorOutcome(SpreadMatrix(n), n)
  {
    var B := SpreadMatrix(n);
    forall i | 0 <= i < n - 3 && i % 2 == 0 ensures Ones(B[i], n) == n / 2 && Complements(B[i], B[i + 1]) {
      SpreadRowWeight(n, i / 2);
      assert (i + 1) / 2 == i / 2 && B[i + 1] == Negation(B[i]);
    }
  }

  /** Entry j of the representative row i of the spread matrix. */
  predicate SpreadEntry(h: nat, i: nat, j: nat) {
    if i == 0 then j >= h
    else if i == 1 then j < h
    else j == h || (j < h && j != i - 2)
  }

  lemma SpreadEntries(n: nat)
    requires n >= 4 && n % 2 == 0
    ensures var S := Representatives(SpreadMatrix(n));
      IsMatrix(S, n / 2, n) && forall i, j :: 0 <= i < n / 2 && 0 <= j < n ==> S[i][j] == SpreadEntry(n / 2, i, j)
  {
  }

  /** Column j of the representative rows, summed over the rows that c selects. */
  lemma SpreadColumn(n: nat, c: Vec, j: nat) returns (column: Vec)
    requires n >= 4 && n % 2 == 0 && |c| == n / 2 && j < n
    requires IsMatrix(Representatives(SpreadMatrix(n)), n / 2, n)
    requires Combine(c, Representatives(SpreadMatrix(n)), n) == Zero(n)
    ensures |column| == n / 2 && !Dot(c, column)
    ensures forall i :: 0 <= i < n / 2 ==> column[i] == SpreadEntry(n / 2, i, j)
  {
    var S := Representatives(SpreadMatrix(n));
    SpreadEntries(n);
    CombineAt(c, S, n, j);
    column := Transpose(S, n / 2, n)[j];
  }

  /** Row number 2 + j is the only one that column j lacks beside the zeroth, and the last column of the first half
      has it. */
  lemma SpreadDifference(n: nat, c: Vec, i: nat)
    requires n >= 4 && n % 2 == 0 && |c| == n / 2 && 2 <= i < n / 2
    requires IsMatrix(Representatives(SpreadMatrix(n)), n / 2, n)
    requires Combine(c, Representatives(SpreadMatrix(n)), n) == Zero(n)
    ensures !c[i]
  {
    var h := n / 2;
    var short := SpreadColumn(n, c, i - 2);
    var full := SpreadColumn(n, c, h - 1);
    assert full == Add(short, Unit(h, i));
    DotAdd(c, short, Unit(h, i));
    DotUnit(c, i);
  }

  lemma SpreadIndependent(n: nat)
    requires n >= 4 && n % 2 == 0
    ensures IsMatrix(Representatives(SpreadMatrix(n)), n / 2, n)
    ensures IndependentRows(Representatives(SpreadMatrix(n)), n)
  {
    var S, h := Representatives(SpreadMatrix(n)), n / 2;
    SpreadEntries(n);
    forall c: Vec | |c| == h && Combine(c, S, n) == Zero(n) ensures c == Zero(h) {
      var last := SpreadColumn(n, c, h + 1);
      assert last == Unit(h, 0);
      DotUnit(c, 0);
      forall i | 2 <= i < h ensures !c[i] {
        SpreadDifference(n, c, i);
      }
      var full := SpreadColumn(n, c, h - 1);
      if c[1] {
        assert c == Unit(h, 1);
        DotUnit(full, 1);
      }
      assert c == Zero(h);
    }
  }

  /** For every length some drawing leaves the representative rows independent: the rank is n / 2. */
  lemma FullRankPossible(n: nat) returns (rng: (nat, nat) -> nat)
    requires n >= 4 && n % 2 == 0
    ensures DrawsFullRank(n, rng)
  {
    SpreadIsGenerated(n);
    SpreadIndependent(n);
    rng := EveryOutcome(SpreadMatrix(n), n);
  }
}
