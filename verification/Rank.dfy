/** The rank of a matrix, defined without reference to any elimination, and its uniqueness. */
module Rank {
  import opened Gf2
  import opened RowOperations
  import opened NullSpace

  ghost predicate InSpan(B: Matrix, n: nat, x: Vec)
    requires IsMatrix(B, |B|, n)
  {
    exists c: Vec :: |c| == |B| && Combine(c, B, n) == x
  }

  /** Every row of X is a combination of rows of B. */
  ghost predicate Spans(B: Matrix, X: Matrix, n: nat)
    requires IsMatrix(B, |B|, n)
  {
    forall i :: 0 <= i < |X| ==> InSpan(B, n, X[i])
  }

  /** r is the dimension of the space that the rows of X span. */
  ghost predicate HasRank(X: Matrix, n: nat, r: nat)
    requires IsMatrix(X, |X|, n)
  {
    exists B: Matrix :: IsMatrix(B, r, n) && IndependentRows(B, n) && Spans(B, X, n) && Spans(X, B, n)
  }

  // ----- dimension -----

  lemma {:induction false} PivotsFit(piv: seq<nat>, s: nat)
    requires forall i, j :: 0 <= i < j < |piv| ==> piv[i] < piv[j]
    requires forall i :: 0 <= i < |piv| ==> piv[i] < s
    ensures |piv| <= s
  {
    if |piv| > 0 {
      PivotsFit(piv[..|piv| - 1], piv[|piv| - 1]);
    }
  }

  /** More vectors than coordinates are dependent. */
  lemma TooManyRows(C: Matrix, s: nat)
    requires IsMatrix(C, |C|, s) && |C| > s
    ensures !IndependentRows(C, s)
  {
    var r := |C|;
    var A, P := Reduce(C, r, s).A, Reduce(C, r, s).P;
    var R, piv := ReduceCorrect(C, r, s);
    PivotsFit(piv, s);
    assert A[s] == Zero(s);
    CombineToZero(R, r, r, r);
    assert Combine(P[s], R, r) == Mul(P, R, r, r, r)[s] == Unit(r, s);
    assert Unit(r, s)[s];
    assert Combine(P[s], C, s) == Zero(s);
  }

  ghost function Coefficient(B: Matrix, n: nat, x: Vec): (c: Vec)
    requires IsMatrix(B, |B|, n) && InSpan(B, n, x)
    ensures |c| == |B| && Combine(c, B, n) == x
  {
    var c: Vec :| |c| == |B| && Combine(c, B, n) == x; c
  }

  lemma Coefficients(B: Matrix, X: Matrix, n: nat) returns (C: Matrix)
    requires IsMatrix(B, |B|, n) && IsMatrix(X, |X|, n) && Spans(B, X, n)
    ensures IsMatrix(C, |X|, |B|) && X == Mul(C, B, |X|, |B|, n)
  {
    C := seq(|X|, i requires 0 <= i < |X| => Coefficient(B, n, X[i]));
    assert forall i :: 0 <= i < |X| ==> X[i] == Mul(C, B, |X|, |B|, n)[i];
  }

  lemma SpanTrans(Z: Matrix, Y: Matrix, X: Matrix, n: nat)
    requires IsMatrix(Z, |Z|, n) && IsMatrix(Y, |Y|, n) && IsMatrix(X, |X|, n)
    requires Spans(Z, Y, n) && Spans(Y, X, n)
    ensures Spans(Z, X, n)
  {
    var C := Coefficients(Z, Y, n);
    forall i | 0 <= i < |X| ensures InSpan(Z, n, X[i]) {
      assert InSpan(Y, n, X[i]);
      var c := Coefficient(Y, n, X[i]);
      CombineMul(c, C, Z, |Z|, n);
    }
  }

  /** Independent vectors in the span of S are no more than S has rows. */
  lemma SpanBound(S: Matrix, B: Matrix, n: nat)
    requires IsMatrix(S, |S|, n) && IsMatrix(B, |B|, n)
    requires IndependentRows(B, n) && Spans(S, B, n)
    ensures |B| <= |S|
  {
    var C := Coefficients(S, B, n);
    if |B| > |S| {
      TooManyRows(C, |S|);
      var c: Vec :| |c| == |B| && Combine(c, C, |S|) == Zero(|S|) && c != Zero(|B|);
      CombineMul(c, C, S, |S|, n);
      CombineToZero(S, |S|, n, |S|);
      assert false;
    }
  }

  lemma RankIsUnique(X: Matrix, n: nat, r: nat, r': nat)
    requires IsMatrix(X, |X|, n) && HasRank(X, n, r) && HasRank(X, n, r')
    ensures r == r'
  {
    var B: Matrix :| IsMatrix(B, r, n) && IndependentRows(B, n) && Spans(B, X, n) && Spans(X, B, n);
    var B': Matrix :| IsMatrix(B', r', n) && IndependentRows(B', n) && Spans(B', X, n) && Spans(X, B', n);
    SpanTrans(B, X, B', n);
    SpanTrans(B', X, B, n);
    SpanBound(B, B', n);
    SpanBound(B', B, n);
  }

  /** Leaving out a row that is not used. */
  lemma {:induction false} CombineWithout(c: Vec, S: Matrix, n: nat, p: nat, k: nat)
    requires IsMatrix(S, |c|, n) && p < |c| && !c[p] && k <= |c|
    ensures CombineTo(c, S, n, k) ==
            CombineTo(c[..p] + c[p + 1..], S[..p] + S[p + 1..], n, if k <= p then k else k - 1)
  {
    if k > 0 {
      CombineWithout(c, S, n, p, k - 1);
    }
  }

  lemma InSpanWithout(c: Vec, S: Matrix, n: nat, p: nat)
    requires IsMatrix(S, |c|, n) && p < |c| && !c[p]
    ensures InSpan(S[..p] + S[p + 1..], n, Combine(c, S, n))
  {
    CombineWithout(c, S, n, p, |c|);
    assert Combine(c[..p] + c[p + 1..], S[..p] + S[p + 1..], n) == Combine(c, S, n);
  }

  /** A dependent set of rows contains one that the others span. */
  lemma DropRedundant(S: Matrix, n: nat) returns (S': Matrix)
    requires IsMatrix(S, |S|, n) && !IndependentRows(S, n)
    ensures |S'| == |S| - 1 && IsMatrix(S', |S'|, n) && Spans(S', S, n)
  {
    var d: Vec :| |d| == |S| && Combine(d, S, n) == Zero(n) && d != Zero(|S|);
    var p: nat :| p < |S| && d[p];
    S' := S[..p] + S[p + 1..];
    forall i | 0 <= i < |S| ensures InSpan(S', n, S[i]) {
      CombineUnit(S, |S|, n, i);
      if i == p {
        CombineAdd(Unit(|S|, p), d, S, n);
        assert Add(S[p], Zero(n)) == S[p];
        InSpanWithout(Add(Unit(|S|, p), d), S, n, p);
      } else {
        InSpanWithout(Unit(|S|, i), S, n, p);
      }
    }
  }

  /** If S spans the row space of X, the rank of X is at most the number of rows of S, and equals it just when S is
      independent. */
  lemma RankOfSpanningSet(X: Matrix, S: Matrix, n: nat, r: nat)
    requires IsMatrix(X, |X|, n) && IsMatrix(S, |S|, n) && HasRank(X, n, r)
    requires Spans(S, X, n) && Spans(X, S, n)
    ensures r <= |S|
    ensures r == |S| <==> IndependentRows(S, n)
  {
    var B: Matrix :| IsMatrix(B, r, n) && IndependentRows(B, n) && Spans(B, X, n) && Spans(X, B, n);
    SpanTrans(S, X, B, n);
    SpanBound(S, B, n);
    if IndependentRows(S, n) {
      SpanTrans(B, X, S, n);
      SpanBound(B, S, n);
    } else {
      var S' := DropRedundant(S, n);
      SpanTrans(S', S, B, n);
      SpanBound(S', B, n);
    }
  }

  // ----- the rank of a parity check matrix -----

  lemma TransposeMul(X: Matrix, Y: Matrix, l: nat, m: nat, n: nat)
    requires IsMatrix(X, l, m) && IsMatrix(Y, m, n)
    ensures Transpose(Mul(X, Y, l, m, n), l, n) == Mul(Transpose(Y, m, n), Transpose(X, l, m), n, m, l)
  {
    var L, M := Transpose(Mul(X, Y, l, m, n), l, n), Mul(Transpose(Y, m, n), Transpose(X, l, m), n, m, l);
    forall j | 0 <= j < n ensures L[j] == M[j] {
      forall i | 0 <= i < l ensures L[j][i] == M[j][i] {
        CombineAt(X[i], Y, n, j);
        CombineAt(Transpose(Y, m, n)[j], Transpose(X, l, m), l, i);
        assert Transpose(Transpose(X, l, m), m, l)[i] == X[i];
        DotToComm(X[i], Transpose(Y, m, n)[j], m);
      }
    }
  }

  lemma TransposeInverse(P: Matrix, R: Matrix, n: nat)
    requires IsInverse(P, R, n)
    ensures IsInverse(Transpose(P, n, n), Transpose(R, n, n), n)
  {
    TransposeMul(P, R, n, n, n);
    TransposeMul(R, P, n, n, n);
    assert forall i :: 0 <= i < n ==> Transpose(Identity(n), n, n)[i] == Identity(n)[i];
  }

  /** Rows that are zero contribute nothing. */
  lemma {:induction false} CombinePrefix(c: Vec, W: Matrix, n: nat, r: nat, k: nat)
    requires IsMatrix(W, |c|, n) && r <= |c| && k <= |c|
    requires forall i :: r <= i < |c| ==> !c[i] || W[i] == Zero(n)
    ensures CombineTo(c, W, n, k) == CombineTo(c[..r], W[..r], n, if k <= r then k else r)
  {
    if k > 0 {
      CombinePrefix(c, W, n, r, k - 1);
    }
  }

  /** P2 H = D R^T, where D is the outcome of the second elimination. */
  lemma BothEliminations(H: Matrix, A: Matrix, P: Matrix, R: Matrix, piv: seq<nat>,
                         D: Matrix, P2: Matrix, R2: Matrix, piv2: seq<nat>, n: nat)
    requires FirstElimination(H, A, P, R, piv, n) && SecondElimination(A, D, P2, R2, piv2, |H|, n)
    ensures Mul(P2, H, |H|, |H|, n) == Mul(D, Transpose(R, n, n), |H|, n, n)
  {
    var a, Rt, Pt := |H|, Transpose(R, n, n), Transpose(P, n, n);
    var Ht := Transpose(H, a, n);
    assert forall i :: 0 <= i < a ==> Transpose(Ht, n, a)[i] == H[i];
    TransposeMul(P, Ht, n, n, a);
    assert Transpose(A, n, a) == Mul(H, Pt, a, n, n);
    MulAssoc(P2, H, Pt, a, a, n, n);
    MulAssoc(Mul(P2, H, a, a, n), Pt, Rt, a, n, n, n);
    TransposeInverse(P, R, n);
    MulIdentity(Mul(P2, H, a, a, n), a, n);
  }

  lemma LeadingRowsIndependent(P: Matrix, R: Matrix, n: nat, r: nat)
    requires IsInverse(P, R, n) && r <= n
    ensures IndependentRows(Transpose(R, n, n)[..r], n)
  {
    var Rt, Pt := Transpose(R, n, n), Transpose(P, n, n);
    TransposeInverse(P, R, n);
    forall c: Vec | |c| == r && Combine(c, Rt[..r], n) == Zero(n) ensures c == Zero(r) {
      var d := c + Zero(n - r);
      assert d[..r] == c;
      CombinePrefix(d, Rt, n, r, n);
      RowsOfInvertible(Rt, Pt, n, d);
      CombineToZero(Pt, n, n, n);
      assert d == Zero(n);
    }
  }

  lemma RankOfParityMatrix(H: Matrix, A: Matrix, P: Matrix, R: Matrix, piv: seq<nat>,
                           D: Matrix, P2: Matrix, R2: Matrix, piv2: seq<nat>, n: nat)
    requires FirstElimination(H, A, P, R, piv, n) && SecondElimination(A, D, P2, R2, piv2, |H|, n)
    ensures HasRank(H, n, |piv|)
  {
    var a, r, Rt := |H|, |piv|, Transpose(R, n, n);
    PivotsFit(piv, a);
    var B, W := Rt[..r], Mul(D, Rt, a, n, n);
    SecondEliminationIsPaddedIdentity(A, piv, D, P2, R2, piv2, a, n);
    BothEliminations(H, A, P, R, piv, D, P2, R2, piv2, n);
    forall t | 0 <= t < a ensures W[t] == if t < r then B[t] else Zero(n) {
      assert D[t] == if t < r then Unit(n, t) else Zero(n);
      CombineToZero(Rt, n, n, n);
      if t < r {
        CombineUnit(Rt, n, n, t);
      }
    }
    assert W[..r] == B;
    forall t | 0 <= t < r ensures InSpan(H, n, B[t]) {
      assert Combine(P2[t], H, n) == W[t];
    }
    MulAssoc(R2, P2, H, a, a, a, n);
    MulIdentity(H, a, n);
    forall i | 0 <= i < a ensures InSpan(B, n, H[i]) {
      assert Combine(R2[i], W, n) == H[i];
      CombinePrefix(R2[i], W, n, r, a);
      assert Combine(R2[i][..r], B, n) == H[i];
    }
    LeadingRowsIndependent(P, R, n, r);
    assert IsMatrix(B, r, n) && Spans(B, H, n) && Spans(H, B, n);
  }
}
