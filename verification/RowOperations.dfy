/** Elementary row operations, reduced row echelon form, and what both keep. */
module RowOperations {
  import opened Gf2

  function SwapRows(X: Matrix, i: nat, k: nat): Matrix
    requires i < |X| && k < |X|
  {
    X[i := X[k]][k := X[i]]
  }

  /** Row src is added to row dst. */
  function AddRow(X: Matrix, dst: nat, src: nat, n: nat): Matrix
    requires dst < |X| && src < |X| && IsMatrix(X, |X|, n)
  {
    X[dst := Add(X[dst], X[src])]
  }

  /** Multiplying by such an E performs a row operation, and performing it twice changes nothing. */
  ghost predicate IsSelfInverse(E: Matrix, m: nat) {
    IsMatrix(E, m, m) && Mul(E, E, m, m, m) == Identity(m)
  }

  lemma SwapIsProduct(X: Matrix, m: nat, n: nat, i: nat, k: nat)
    requires IsMatrix(X, m, n) && i < m && k < m
    ensures IsMatrix(SwapRows(Identity(m), i, k), m, m)
    ensures Mul(SwapRows(Identity(m), i, k), X, m, m, n) == SwapRows(X, i, k)
  {
    var E := SwapRows(Identity(m), i, k);
    forall r | 0 <= r < m ensures Mul(E, X, m, m, n)[r] == SwapRows(X, i, k)[r] {
      CombineUnit(X, m, n, if r == k then i else if r == i then k else r);
    }
  }

  lemma SwapIsSelfInverse(m: nat, i: nat, k: nat)
    requires i < m && k < m
    ensures IsSelfInverse(SwapRows(Identity(m), i, k), m)
  {
    SwapIsProduct(SwapRows(Identity(m), i, k), m, m, i, k);
    assert SwapRows(SwapRows(Identity(m), i, k), i, k) == Identity(m);
  }

  lemma AddIsProduct(X: Matrix, m: nat, n: nat, dst: nat, src: nat)
    requires IsMatrix(X, m, n) && dst < m && src < m
    ensures IsMatrix(AddRow(Identity(m), dst, src, m), m, m)
    ensures Mul(AddRow(Identity(m), dst, src, m), X, m, m, n) == AddRow(X, dst, src, n)
  {
    var E := AddRow(Identity(m), dst, src, m);
    forall r | 0 <= r < m ensures Mul(E, X, m, m, n)[r] == AddRow(X, dst, src, n)[r] {
      CombineUnit(X, m, n, r);
      if r == dst {
        CombineUnit(X, m, n, src);
        CombineAdd(Unit(m, dst), Unit(m, src), X, n);
      }
    }
  }

  lemma AddIsSelfInverse(m: nat, dst: nat, src: nat)
    requires dst < m && src < m && dst != src
    ensures IsSelfInverse(AddRow(Identity(m), dst, src, m), m)
  {
    AddIsProduct(AddRow(Identity(m), dst, src, m), m, m, dst, src);
    assert Add(Add(Unit(m, dst), Unit(m, src)), Unit(m, src)) == Unit(m, dst);
    assert AddRow(AddRow(Identity(m), dst, src, m), dst, src, m) == Identity(m);
  }

  // ----- recording row operations -----

  /** A is P X, and R undoes P. */
  ghost predicate Tracks(X: Matrix, A: Matrix, P: Matrix, R: Matrix, m: nat, n: nat) {
    && IsMatrix(X, m, n)
    && IsInverse(P, R, m)
    && A == Mul(P, X, m, m, n)
  }

  lemma TracksStart(X: Matrix, m: nat, n: nat)
    requires IsMatrix(X, m, n)
    ensures Tracks(X, X, Identity(m), Identity(m), m, n)
  {
    IdentityIsInverse(m);
    MulIdentity(X, m, n);
  }

  /** Applying the same row operation to A and to P keeps the record right. */
  lemma TracksStep(E: Matrix, X: Matrix, A: Matrix, P: Matrix, R: Matrix, m: nat, n: nat)
    requires IsSelfInverse(E, m) && Tracks(X, A, P, R, m, n)
    ensures Tracks(X, Mul(E, A, m, m, n), Mul(E, P, m, m, m), Mul(R, E, m, m, m), m, n)
  {
    var EP, RE := Mul(E, P, m, m, m), Mul(R, E, m, m, m);
    MulAssoc(E, P, X, m, m, m, n);
    calc {
      Mul(EP, RE, m, m, m);
      { MulAssoc(E, P, RE, m, m, m, m); MulAssoc(P, R, E, m, m, m, m); }
      Mul(E, Mul(Identity(m), E, m, m, m), m, m, m);
      { MulIdentity(E, m, m); }
      Identity(m);
    }
    calc {
      Mul(RE, EP, m, m, m);
      { MulAssoc(R, E, EP, m, m, m, m); MulAssoc(E, E, P, m, m, m, m); }
      Mul(R, Mul(Identity(m), P, m, m, m), m, m, m);
      { MulIdentity(P, m, m); }
      Identity(m);
    }
  }

  lemma TracksSwap(X: Matrix, A: Matrix, P: Matrix, R: Matrix, m: nat, n: nat, i: nat, k: nat) returns (R': Matrix)
    requires Tracks(X, A, P, R, m, n) && i < m && k < m
    ensures Tracks(X, SwapRows(A, i, k), SwapRows(P, i, k), R', m, n)
  {
    var E := SwapRows(Identity(m), i, k);
    SwapIsSelfInverse(m, i, k);
    SwapIsProduct(A, m, n, i, k);
    SwapIsProduct(P, m, m, i, k);
    TracksStep(E, X, A, P, R, m, n);
    R' := Mul(R, E, m, m, m);
  }

  lemma TracksAdd(X: Matrix, A: Matrix, P: Matrix, R: Matrix, m: nat, n: nat, dst: nat, src: nat) returns (R': Matrix)
    requires Tracks(X, A, P, R, m, n) && dst < m && src < m && dst != src
    ensures Tracks(X, AddRow(A, dst, src, n), AddRow(P, dst, src, m), R', m, n)
  {
    var E := AddRow(Identity(m), dst, src, m);
    AddIsSelfInverse(m, dst, src);
    AddIsProduct(A, m, n, dst, src);
    AddIsProduct(P, m, m, dst, src);
    TracksStep(E, X, A, P, R, m, n);
    R' := Mul(R, E, m, m, m);
  }

  // ----- reduced row echelon form -----

  /** Columns before j of B are in reduced row echelon form with pivots in the columns listed by piv. */
  ghost predicate Reduced(B: Matrix, m: nat, n: nat, piv: seq<nat>, j: nat) {
    && IsMatrix(B, m, n) && j <= n && |piv| <= m
    && (forall s, t :: 0 <= s < t < |piv| ==> piv[s] < piv[t])
    && (forall t :: 0 <= t < |piv| ==> piv[t] < j)
    && (forall t, r :: 0 <= t < |piv| && 0 <= r < m ==> B[r][piv[t]] == (r == t))
    && (forall t, q :: 0 <= t < |piv| && 0 <= q < piv[t] ==> !B[t][q])
    && (forall r, q :: |piv| <= r < m && 0 <= q < j ==> !B[r][q])
  }

  lemma ReducedSwap(B: Matrix, m: nat, n: nat, piv: seq<nat>, j: nat, i: nat, k: nat)
    requires Reduced(B, m, n, piv, j) && |piv| <= i < m && |piv| <= k < m
    ensures Reduced(SwapRows(B, i, k), m, n, piv, j)
  {
  }

  lemma ReducedSkip(B: Matrix, m: nat, n: nat, piv: seq<nat>, j: nat)
    requires Reduced(B, m, n, piv, j) && j < n
    requires forall r :: |piv| <= r < m ==> !B[r][j]
    ensures Reduced(B, m, n, piv, j + 1)
  {
  }

  // ----- Gauss-Jordan elimination as a function -----

  /** The reduced matrix A, the record P of the row operations, and the number of pivots found. */
  datatype Reduction = Reduction(A: Matrix, P: Matrix, pivots: nat)

  /** The first row at or after start with a one in column j, or |A|. */
  function FirstOne(A: Matrix, j: nat, start: nat): (r: nat)
    requires start <= |A| && forall i :: 0 <= i < |A| ==> j < |A[i]|
    ensures start <= r <= |A|
    ensures forall i :: start <= i < r ==> !A[i][j]
    ensures r < |A| ==> A[r][j]
    decreases |A| - start
  {
    if start == |A| || A[start][j] then start else FirstOne(A, j, start + 1)
  }

  /** M after row p has been added to those of its first k rows for which A has a one in column j. */
  function ClearedTo(A: Matrix, M: Matrix, p: nat, j: nat, n: nat, k: nat): (r: Matrix)
    requires IsMatrix(M, |A|, n) && p < |A| && k <= |A| && forall i :: 0 <= i < |A| ==> j < |A[i]|
    ensures IsMatrix(r, |A|, n)
  {
    seq(|A|, i requires 0 <= i < |A| => if i < k && i != p && A[i][j] then Add(M[i], M[p]) else M[i])
  }

  function ReduceStep(s: Reduction, m: nat, n: nat, j: nat): (t: Reduction)
    requires IsMatrix(s.A, m, n) && IsMatrix(s.P, m, m) && s.pivots <= m && j < n
    ensures IsMatrix(t.A, m, n) && IsMatrix(t.P, m, m) && t.pivots <= m
  {
    if s.pivots == m || FirstOne(s.A, j, s.pivots) == m then s
    else
      var r := FirstOne(s.A, j, s.pivots);
      var A1, P1 := SwapRows(s.A, r, s.pivots), SwapRows(s.P, r, s.pivots);
      Reduction(ClearedTo(A1, A1, s.pivots, j, n, m), ClearedTo(A1, P1, s.pivots, j, m, m), s.pivots + 1)
  }

  /** The first j columns of X reduced. */
  function ReduceTo(X: Matrix, m: nat, n: nat, j: nat): (s: Reduction)
    requires IsMatrix(X, m, n) && j <= n
    ensures IsMatrix(s.A, m, n) && IsMatrix(s.P, m, m) && s.pivots <= m
  {
    if j == 0 then Reduction(X, Identity(m), 0) else ReduceStep(ReduceTo(X, m, n, j - 1), m, n, j - 1)
  }

  function Reduce(X: Matrix, m: nat, n: nat): (s: Reduction)
    requires IsMatrix(X, m, n)
    ensures IsMatrix(s.A, m, n) && IsMatrix(s.P, m, m) && s.pivots <= m
  {
    ReduceTo(X, m, n, n)
  }

  lemma ClearedNext(A: Matrix, M: Matrix, p: nat, j: nat, n: nat, k: nat)
    requires IsMatrix(M, |A|, n) && p < |A| && k < |A| && forall i :: 0 <= i < |A| ==> j < |A[i]|
    ensures var B := ClearedTo(A, M, p, j, n, k);
      ClearedTo(A, M, p, j, n, k + 1) == if k != p && A[k][j] then AddRow(B, k, p, n) else B
  {
  }

  lemma ClearIsProduct(A: Matrix, M: Matrix, p: nat, j: nat, m: nat, n: nat)
    requires |A| == m && IsMatrix(M, m, n) && p < m && forall i :: 0 <= i < m ==> j < |A[i]|
    ensures Mul(ClearedTo(A, Identity(m), p, j, m, m), M, m, m, n) == ClearedTo(A, M, p, j, n, m)
  {
    var E := ClearedTo(A, Identity(m), p, j, m, m);
    forall i | 0 <= i < m ensures Mul(E, M, m, m, n)[i] == ClearedTo(A, M, p, j, n, m)[i] {
      CombineUnit(M, m, n, i);
      if i != p && A[i][j] {
        CombineUnit(M, m, n, p);
        CombineAdd(Unit(m, i), Unit(m, p), M, n);
      }
    }
  }

  lemma ClearIsSelfInverse(A: Matrix, p: nat, j: nat, m: nat)
    requires |A| == m && p < m && forall i :: 0 <= i < m ==> j < |A[i]|
    ensures IsSelfInverse(ClearedTo(A, Identity(m), p, j, m, m), m)
  {
    var E := ClearedTo(A, Identity(m), p, j, m, m);
    ClearIsProduct(A, E, p, j, m, m);
    forall i | 0 <= i < m ensures ClearedTo(A, E, p, j, m, m)[i] == Unit(m, i) {
      assert Add(Add(Unit(m, i), Unit(m, p)), Unit(m, p)) == Unit(m, i);
    }
    assert ClearedTo(A, E, p, j, m, m) == Identity(m);
  }

  lemma TracksClear(X: Matrix, A: Matrix, P: Matrix, R: Matrix, m: nat, n: nat, p: nat, j: nat) returns (R': Matrix)
    requires Tracks(X, A, P, R, m, n) && j < n && p < m
    ensures Tracks(X, ClearedTo(A, A, p, j, n, m), ClearedTo(A, P, p, j, m, m), R', m, n)
  {
    var E := ClearedTo(A, Identity(m), p, j, m, m);
    ClearIsSelfInverse(A, p, j, m);
    ClearIsProduct(A, A, p, j, m, n);
    ClearIsProduct(A, P, p, j, m, m);
    TracksStep(E, X, A, P, R, m, n);
    R' := Mul(R, E, m, m, m);
  }

  /** Clearing the column of a new pivot reduces one more column. */
  lemma ClearedReduced(A: Matrix, m: nat, n: nat, piv: seq<nat>, j: nat)
    requires Reduced(A, m, n, piv, j) && j < n && |piv| < m && A[|piv|][j]
    ensures Reduced(ClearedTo(A, A, |piv|, j, n, m), m, n, piv + [j], j + 1)
  {
  }

  /** One column: the record stays right, and one more column is reduced. */
  lemma ReduceStepCorrect(X: Matrix, s: Reduction, R: Matrix, piv: seq<nat>, m: nat, n: nat, j: nat)
    returns (R': Matrix, piv': seq<nat>)
    requires Tracks(X, s.A, s.P, R, m, n) && Reduced(s.A, m, n, piv, j) && |piv| == s.pivots && j < n
    ensures var t := ReduceStep(s, m, n, j);
      Tracks(X, t.A, t.P, R', m, n) && Reduced(t.A, m, n, piv', j + 1) && |piv'| == t.pivots
  {
    if s.pivots == m || FirstOne(s.A, j, s.pivots) == m {
      ReducedSkip(s.A, m, n, piv, j);
      R', piv' := R, piv;
    } else {
      var r := FirstOne(s.A, j, s.pivots);
      R' := TracksSwap(X, s.A, s.P, R, m, n, r, s.pivots);
      ReducedSwap(s.A, m, n, piv, j, r, s.pivots);
      var A1, P1 := SwapRows(s.A, r, s.pivots), SwapRows(s.P, r, s.pivots);
      R' := TracksClear(X, A1, P1, R', m, n, s.pivots, j);
      ClearedReduced(A1, m, n, piv, j);
      piv' := piv + [j];
    }
  }

  /** After j columns: A = P X with R undoing P, and these columns of A in reduced row echelon form. */
  ghost predicate CorrectTo(X: Matrix, s: Reduction, R: Matrix, piv: seq<nat>, m: nat, n: nat, j: nat) {
    Tracks(X, s.A, s.P, R, m, n) && Reduced(s.A, m, n, piv, j) && |piv| == s.pivots
  }

  lemma ReduceToNext(X: Matrix, m: nat, n: nat, j: nat)
    requires IsMatrix(X, m, n) && 0 < j <= n
    ensures ReduceTo(X, m, n, j) == ReduceStep(ReduceTo(X, m, n, j - 1), m, n, j - 1)
  {
  }

  /** The elimination keeps A = P X with P invertible, and column by column brings A to reduced row echelon form. */
  lemma {:induction false} ReduceToCorrect(X: Matrix, m: nat, n: nat, j: nat) returns (R: Matrix, piv: seq<nat>)
    requires IsMatrix(X, m, n) && j <= n
    ensures CorrectTo(X, ReduceTo(X, m, n, j), R, piv, m, n, j)
  {
    if j == 0 {
      TracksStart(X, m, n);
      R, piv := Identity(m), [];
    } else {
      R, piv := ReduceToCorrect(X, m, n, j - 1);
      R, piv := ReduceStepCorrect(X, ReduceTo(X, m, n, j - 1), R, piv, m, n, j - 1);
      ReduceToNext(X, m, n, j);
    }
  }

  /** Gauss-Jordan elimination: A = P X, P is invertible, A is in reduced row echelon form. */
  lemma ReduceCorrect(X: Matrix, m: nat, n: nat) returns (R: Matrix, piv: seq<nat>)
    requires IsMatrix(X, m, n)
    ensures var s := Reduce(X, m, n);
      Tracks(X, s.A, s.P, R, m, n) && Reduced(s.A, m, n, piv, n) && |piv| == s.pivots
  {
    R, piv := ReduceToCorrect(X, m, n, n);
  }

  lemma StopsAt(X: Matrix, m: nat, n: nat, k: nat, s: Reduction)
    requires IsMatrix(X, m, n) && 0 < k <= n && ReduceTo(X, m, n, k - 1) == s && s.pivots == m
    ensures ReduceTo(X, m, n, k) == s
  {
  }

  /** Once every row has its pivot the remaining columns change nothing, so the loop may stop early. */
  lemma {:induction false} ReduceToStops(X: Matrix, m: nat, n: nat, j: nat, k: nat)
    requires IsMatrix(X, m, n) && j <= k <= n && ReduceTo(X, m, n, j).pivots == m
    ensures ReduceTo(X, m, n, k) == ReduceTo(X, m, n, j)
  {
    if j < k {
      ReduceToStops(X, m, n, j, k - 1);
      StopsAt(X, m, n, k, ReduceTo(X, m, n, j));
    }
  }

  // ----- linear systems -----

  /** (X Y) v = X (Y v). */
  lemma ApplyMul(X: Matrix, Y: Matrix, v: Vec, l: nat, m: nat)
    requires IsMatrix(X, l, m) && IsMatrix(Y, m, |v|)
    ensures Apply(Mul(X, Y, l, m, |v|), v) == Apply(X, Apply(Y, v))
  {
    forall i | 0 <= i < l ensures Apply(Mul(X, Y, l, m, |v|), v)[i] == Apply(X, Apply(Y, v))[i] {
      DotCombine(v, X[i], Y);
    }
  }

  lemma ApplyIdentity(v: Vec)
    ensures Apply(Identity(|v|), v) == v
  {
    forall i | 0 <= i < |v| ensures Apply(Identity(|v|), v)[i] == v[i] {
      DotUnit(v, i);
    }
  }

  lemma ApplyZero(X: Matrix, m: nat, n: nat)
    requires IsMatrix(X, m, n)
    ensures Apply(X, Zero(n)) == Zero(m)
  {
    forall i | 0 <= i < m ensures !Dot(X[i], Zero(n)) {
      DotZero(X[i]);
    }
  }

  /** The system A v = b comes from A0 v = b0 by the row operations recorded in P. */
  ghost predicate SystemTracks(A0: Matrix, b0: Vec, A: Matrix, b: Vec, P: Matrix, R: Matrix, m: nat, n: nat) {
    Tracks(A0, A, P, R, m, n) && |b0| == m && b == Apply(P, b0)
  }

  lemma SystemTracksStart(A: Matrix, b: Vec, m: nat, n: nat)
    requires IsMatrix(A, m, n) && |b| == m
    ensures SystemTracks(A, b, A, b, Identity(m), Identity(m), m, n)
  {
    TracksStart(A, m, n);
    ApplyIdentity(b);
  }

  lemma SystemTracksSwap(A0: Matrix, b0: Vec, A: Matrix, b: Vec, P: Matrix, R: Matrix, m: nat, n: nat, i: nat, k: nat)
    returns (R': Matrix)
    requires SystemTracks(A0, b0, A, b, P, R, m, n) && i < m && k < m
    ensures SystemTracks(A0, b0, SwapRows(A, i, k), b[i := b[k]][k := b[i]], SwapRows(P, i, k), R', m, n)
  {
    R' := TracksSwap(A0, A, P, R, m, n, i, k);
    assert Apply(SwapRows(P, i, k), b0) == b[i := b[k]][k := b[i]];
  }

  lemma SystemTracksAdd(A0: Matrix, b0: Vec, A: Matrix, b: Vec, P: Matrix, R: Matrix, m: nat, n: nat, dst: nat,
                        src: nat)
    returns (R': Matrix)
    requires SystemTracks(A0, b0, A, b, P, R, m, n) && dst < m && src < m && dst != src
    ensures SystemTracks(A0, b0, AddRow(A, dst, src, n), b[dst := b[dst] != b[src]], AddRow(P, dst, src, m), R', m, n)
  {
    R' := TracksAdd(A0, A, P, R, m, n, dst, src);
    DotAdd(b0, P[dst], P[src]);
    assert Apply(AddRow(P, dst, src, m), b0) == b[dst := b[dst] != b[src]];
  }

  /** Row operations change no solution. */
  lemma SystemTracksSolutions(A0: Matrix, b0: Vec, A: Matrix, b: Vec, P: Matrix, R: Matrix, m: nat, v: Vec)
    requires SystemTracks(A0, b0, A, b, P, R, m, |v|)
    ensures Apply(A, v) == b <==> Apply(A0, v) == b0
  {
    ApplyMul(P, A0, v, m, m);
    ApplyMul(R, P, Apply(A0, v), m, m);
    ApplyMul(R, P, b0, m, m);
    ApplyIdentity(Apply(A0, v));
    ApplyIdentity(b0);
  }

  /** Row operations create no redundant column. */
  lemma TracksIndependence(A0: Matrix, A: Matrix, P: Matrix, R: Matrix, m: nat, n: nat)
    requires Tracks(A0, A, P, R, m, n) && IndependentColumns(A0, n)
    ensures IndependentColumns(A, n)
  {
    forall v: Vec | |v| == n && Apply(A, v) == Zero(m) ensures v == Zero(n) {
      ApplyZero(P, m, m);
      SystemTracksSolutions(A0, Zero(m), A, Zero(m), P, R, m, v);
    }
  }

  /** Of the first c columns of B, column i is the unit vector with its one in row i. */
  ghost predicate UnitColumns(B: Matrix, m: nat, n: nat, c: nat)
    requires IsMatrix(B, m, n)
  {
    forall i, r :: 0 <= i < c && i < n && 0 <= r < m ==> B[r][i] == (r == i)
  }

  lemma SwapKeepsUnit(B: Matrix, B': Matrix, m: nat, n: nat, i: nat, k: nat)
    requires IsMatrix(B, m, n) && i <= k < m && B' == SwapRows(B, i, k)
    ensures IsMatrix(B', m, n) && (UnitColumns(B, m, n, i) ==> UnitColumns(B', m, n, i))
  {
  }

  /** B comes from B0 by adding row pivot to some of the rows before end, namely so that column pivot is cleared. */
  ghost predicate Cleared(B0: Matrix, B: Matrix, m: nat, n: nat, pivot: nat, end: nat)
    requires IsMatrix(B0, m, n) && IsMatrix(B, m, n) && pivot < m
  {
    && B[pivot] == B0[pivot]
    && (UnitColumns(B0, m, n, pivot) ==> UnitColumns(B, m, n, pivot))
    && (pivot < n && B0[pivot][pivot] ==> forall r :: 0 <= r < end && r < m && r != pivot ==> !B[r][pivot])
  }

  lemma ClearedAdd(B0: Matrix, B: Matrix, m: nat, n: nat, pivot: nat, row: nat)
    requires IsMatrix(B0, m, n) && IsMatrix(B, m, n) && pivot < m && row < m && row != pivot
    requires Cleared(B0, B, m, n, pivot, row) && (pivot < n ==> B[row][pivot])
    ensures Cleared(B0, AddRow(B, row, pivot, n), m, n, pivot, row + 1)
  {
  }

  /** If columns before c are unit columns and column c is zero from row c on, column c is redundant. */
  lemma RedundantColumn(B: Matrix, m: nat, n: nat, c: nat) returns (v: Vec)
    requires IsMatrix(B, m, n) && c < n && c <= m
    requires UnitColumns(B, m, n, c)
    requires forall r :: c <= r < m ==> !B[r][c]
    ensures |v| == n && v[c] && Apply(B, v) == Zero(m)
    ensures forall i :: c < i < n ==> !v[i]
  {
    v := seq(n, i requires 0 <= i < n => if i < c then B[i][c] else i == c);
    forall r | 0 <= r < m ensures !Dot(B[r], v) {
      if r < c {
        var u := if B[r][c] then Add(Unit(n, r), Unit(n, c)) else Unit(n, r);
        DotToExt(B[r], v, u, v, n);
        DotAdd(v, Unit(n, r), Unit(n, c));
        DotUnit(v, r);
        DotUnit(v, c);
      } else {
        DotToExt(B[r], v, Zero(n), v, n);
        DotZero(v);
      }
    }
  }

  /** If elimination finds no pivot in column c, a column of the original matrix is redundant. */
  lemma NoPivotMeansDependent(A0: Matrix, A: Matrix, P: Matrix, R: Matrix, m: nat, n: nat, c: nat)
    requires Tracks(A0, A, P, R, m, n) && c < n && c <= m
    requires UnitColumns(A, m, n, c) && forall r :: c <= r < m ==> !A[r][c]
    ensures !IndependentColumns(A0, n)
  {
    var v := RedundantColumn(A, m, n, c);
    if IndependentColumns(A0, n) {
      TracksIndependence(A0, A, P, R, m, n);
      assert false;
    }
  }
}
