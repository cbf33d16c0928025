/** The coding matrix and the random parity check matrix: matrices_generator.cpp. */
module MatricesGenerator {
  import opened Gf2
  import opened RowOperations
  import opened NullSpace
  import opened Rank
  import opened Maths

  lemma {:induction false} OnesPadded(D: Matrix, a: nat, n: nat, r: nat, i: nat, c: nat)
    requires PaddedIdentity(D, a, n, r) && i < a && c <= n
    ensures Ones(D[i], c) == if i < r && i < c then 1 else 0
  {
    if c > 0 {
      OnesPadded(D, a, n, r, i, c - 1);
    }
  }

  lemma {:induction false} MatSumPadded(D: Matrix, a: nat, n: nat, r: nat, k: nat)
    requires PaddedIdentity(D, a, n, r) && k <= a
    ensures MatSum(D, k) == if k < r then k else r
  {
    if k > 0 {
      MatSumPadded(D, a, n, r, k - 1);
      OnesPadded(D, a, n, r, k - 1, n);
    }
  }

  /** An n x k matrix of zeros with the identity in its last k rows. */
  method PaddedEye(n: nat, k: nat) returns (Y: Mat)
    requires k <= n
    ensures fresh(Y) && Y.Length0 == n && Y.Length1 == k && IsBinary(Y)
    ensures forall i, j :: 0 <= i < n && 0 <= j < k ==> Bits(Y)[i][j] == (i == n - k + j)
  {
    Y := new int[n, k]((i, j) => 0);
    for i := 0 to k
      invariant forall r, c :: 0 <= r < n && 0 <= c < k ==> Y[r, c] == if r == n - k + c && c < i then 1 else 0
    {
      Y[n - k + i, i] := 1;
    }
  }

  /** Multiplying by the padded identity selects the last columns of Q = P^T. */
  lemma LastColumns(P: Matrix, Y: Matrix, n: nat, k: nat)
    requires IsMatrix(P, n, n) && IsMatrix(Y, n, k) && k <= n
    requires forall i, j :: 0 <= i < n && 0 <= j < k ==> Y[i][j] == (i == n - k + j)
    ensures Mul(Transpose(P, n, n), Y, n, n, k) == Transpose(P[n - k..], k, n)
  {
    var Q := Transpose(P, n, n);
    forall i | 0 <= i < n ensures Mul(Q, Y, n, n, k)[i] == Transpose(P[n - k..], k, n)[i] {
      forall j | 0 <= j < k ensures Mul(Q, Y, n, n, k)[i][j] == P[n - k + j][i] {
        CombineAt(Q[i], Y, k, j);
        assert Transpose(Y, n, k)[j] == Unit(n, n - k + j);
        DotUnit(Q[i], n - k + j);
      }
    }
  }

  /** The generator matrix as a function of the parity check matrix: those columns of P^T that H maps to zero. */
  ghost function CodingMatrixOf(H: Matrix, n: nat): (G: Matrix)
    requires IsMatrix(H, |H|, n)
  {
    var s := Reduce(Transpose(H, |H|, n), n, |H|);
    Transpose(s.P[s.pivots..], n - s.pivots, n)
  }

  lemma BasisOfReduction(H: Matrix, n: nat, k: nat, s: Reduction, R: Matrix, piv: seq<nat>)
    requires IsMatrix(H, |H|, n) && s == Reduce(Transpose(H, |H|, n), n, |H|) && |piv| == s.pivots && k + |piv| == n
    requires Tracks(Transpose(H, |H|, n), s.A, s.P, R, n, |H|) && Reduced(s.A, n, |H|, piv, |H|)
    ensures NullSpaceBasis(H, CodingMatrixOf(H, n), n, k)
  {
    GeneratorIsNullSpaceBasis(H, s.A, s.P, R, piv, CodingMatrixOf(H, n), n);
  }

  /** The rank of H is the number of pivots that the elimination of its transpose meets. */
  lemma RankOfReduction(H: Matrix, n: nat, s: Reduction, R: Matrix, piv: seq<nat>)
    requires IsMatrix(H, |H|, n)
    requires Tracks(Transpose(H, |H|, n), s.A, s.P, R, n, |H|) && Reduced(s.A, n, |H|, piv, |H|)
    ensures HasRank(H, n, |piv|)
  {
    var At := Transpose(s.A, n, |H|);
    var s2 := Reduce(At, |H|, n);
    var R2, piv2 := ReduceCorrect(At, |H|, n);
    RankOfParityMatrix(H, s.A, s.P, R, piv, s2.A, s2.P, R2, piv2, n);
  }

  /** The columns of the coding matrix are a basis of the null space of H, as many as H leaves bits free. */
  lemma CodingMatrixIsBasis(H: Matrix, n: nat, k: nat)
    requires IsMatrix(H, |H|, n) && k + Reduce(Transpose(H, |H|, n), n, |H|).pivots == n
    ensures NullSpaceBasis(H, CodingMatrixOf(H, n), n, k)
    ensures HasRank(H, n, n - k)
  {
    var Ht, a := Transpose(H, |H|, n), |H|;
    var s := Reduce(Ht, n, a);
    var R, piv := ReduceCorrect(Ht, n, a);
    BasisOfReduction(H, n, k, s, R, piv);
    RankOfReduction(H, n, s, R, piv);
  }

  /** What the second elimination leaves is an identity block as large as the number of pivots of the first. */
  lemma SecondReduction(X: Matrix, m: nat, n: nat)
    requires IsMatrix(X, m, n)
    ensures var s := Reduce(X, m, n); PaddedIdentity(Reduce(Transpose(s.A, m, n), n, m).A, n, m, s.pivots)
    ensures var s := Reduce(X, m, n); MatSum(Reduce(Transpose(s.A, m, n), n, m).A, n) == s.pivots
  {
    var s := Reduce(X, m, n);
    var R, piv := ReduceCorrect(X, m, n);
    var At := Transpose(s.A, m, n);
    var s2 := Reduce(At, n, m);
    var R2, piv2 := ReduceCorrect(At, n, m);
    SecondEliminationIsPaddedIdentity(s.A, piv, s2.A, s2.P, R2, piv2, n, m);
    MatSumPadded(s2.A, n, m, s.pivots, n);
  }

  /** The second elimination: the sum of the entries it leaves is the number of pivots of the first. */
  method PivotCount(A: Mat, ghost X: Matrix) returns (s: int)
    requires IsBinary(A) && A.Length1 > 0 && IsMatrix(X, A.Length0, A.Length1)
    requires Bits(A) == Reduce(X, A.Length0, A.Length1).A
    ensures s == Reduce(X, A.Length0, A.Length1).pivots
  {
    var hrefDiag := TransposeMat(A);
    var D, _ := GaussJordan(hrefDiag);
    SecondReduction(X, A.Length0, A.Length1);
    s := SumEntries(D);
  }

  /** The last nBits columns of the transpose of tQ, obtained as a product with a padded identity. */
  method FreeColumns(tQ: Mat, nBits: nat) returns (G: Mat)
    requires IsBinary(tQ) && tQ.Length0 == tQ.Length1 && nBits <= tQ.Length0
    ensures fresh(G) && IsBinary(G) && G.Length0 == tQ.Length0 && G.Length1 == nBits
    ensures Bits(G) == Transpose(Bits(tQ)[tQ.Length0 - nBits..], nBits, tQ.Length0)
  {
    var Y := PaddedEye(tQ.Length0, nBits);
    var Q := TransposeMat(tQ);
    ResiduesOfBits(Q);
    ResiduesOfBits(Y);
    LastColumns(Bits(tQ), Bits(Y), tQ.Length0, nBits);
    G := BinaryProduct(Q, Y);
  }

  /** The generator matrix of the code with parity check matrix H, codewords being columns. */
  method CodingMatrix(H: Mat) returns (G: Mat)
    requires IsBinary(H) && H.Length0 > 0 && H.Length1 > 0
    ensures fresh(G) && IsBinary(G) && G.Length0 == H.Length1 && G.Length1 <= H.Length1
    ensures Bits(G) == CodingMatrixOf(Bits(H), H.Length1)
    ensures NullSpaceBasis(Bits(H), Bits(G), H.Length1, G.Length1)
    ensures HasRank(Bits(H), H.Length1, H.Length1 - G.Length1)
  {
    var nCode := H.Length1;
    ghost var H0 := Bits(H);
    var Ht := TransposeMat(H);
    var hrefColonnes, tQ := GaussJordan(Ht);
    ghost var reduction := Reduce(Bits(Ht), nCode, H.Length0);
    ghost var P := Bits(tQ);
    var s := PivotCount(hrefColonnes, Bits(Ht));
    assert s == reduction.pivots && P == reduction.P;
    var nBits := nCode - s;
    G := FreeColumns(tQ, nBits);
    assert Bits(G) == Transpose(P[s..], nBits, nCode);
    assert CodingMatrixOf(H0, nCode) == Transpose(P[s..], nBits, nCode);
    CodingMatrixIsBasis(H0, nCode, nBits);
  }
}
