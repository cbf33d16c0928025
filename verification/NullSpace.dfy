/** Why two eliminations turn a parity check matrix H into a basis of its null space.

    Throughout, H is an a x n matrix, A = P H^T is in reduced row echelon form with pivots piv and P is invertible,
    which is what the first elimination of codingMatrix delivers. The generator matrix consists of the columns P[r]^T,
    P[r + 1]^T, ..., where r is the number of pivots.
 */
module NullSpace {
  import opened Gf2
  import opened RowOperations

  /** The columns of G are independent, and their combinations are exactly the x with H x = 0. */
  ghost predicate NullSpaceBasis(H: Matrix, G: Matrix, n: nat, k: nat) {
    && IsMatrix(H, |H|, n) && IsMatrix(G, n, k)
    && IndependentColumns(G, k)
    && (forall m: Vec :: |m| == k ==> Apply(H, Apply(G, m)) == Zero(|H|))
    && (forall x: Vec :: |x| == n && Apply(H, x) == Zero(|H|) ==> exists m: Vec :: |m| == k && Apply(G, m) == x)
  }

  ghost predicate FirstElimination(H: Matrix, A: Matrix, P: Matrix, R: Matrix, piv: seq<nat>, n: nat) {
    && IsMatrix(H, |H|, n)
    && Tracks(Transpose(H, |H|, n), A, P, R, n, |H|)
    && Reduced(A, n, |H|, piv, |H|)
  }

  lemma ApplyTranspose(X: Matrix, m: nat, n: nat, c: Vec)
    requires IsMatrix(X, m, n) && |c| == m
    ensures Apply(Transpose(X, m, n), c) == Combine(c, X, n)
  {
    forall j | 0 <= j < n ensures Apply(Transpose(X, m, n), c)[j] == Combine(c, X, n)[j] {
      CombineAt(c, X, n, j);
      DotToComm(c, Transpose(X, m, n)[j], m);
    }
  }

  lemma {:induction false} CombineLeadingZeros(c: Vec, X: Matrix, n: nat, k: nat)
    requires IsMatrix(X, |c|, n) && k <= |c|
    requires forall i :: 0 <= i < k ==> !c[i]
    ensures CombineTo(c, X, n, k) == Zero(n)
  {
    if k > 0 {
      CombineLeadingZeros(c, X, n, k - 1);
    }
  }

  /** Leading zeros select nothing. */
  lemma {:induction false} CombineSuffix(c: Vec, X: Matrix, n: nat, r: nat, k: nat)
    requires r <= |X| && |c| == |X| - r && IsMatrix(X, |X|, n) && k <= |c|
    ensures CombineTo(c, X[r..], n, k) == CombineTo(Zero(r) + c, X, n, r + k)
  {
    if k == 0 {
      CombineLeadingZeros(Zero(r) + c, X, n, r);
    } else {
      CombineSuffix(c, X, n, r, k - 1);
    }
  }

  /** In a combination of the rows of a reduced matrix the pivot columns show the coefficients. */
  lemma CombineReducedAt(c: Vec, A: Matrix, n: nat, piv: seq<nat>, t: nat)
    requires Reduced(A, |c|, n, piv, n) && t < |piv|
    ensures Combine(c, A, n)[piv[t]] == c[t]
  {
    CombineAt(c, A, n, piv[t]);
    assert Transpose(A, |c|, n)[piv[t]] == Unit(|c|, t);
    DotUnit(c, t);
  }

  lemma {:induction false} CombineZeroRows(c: Vec, A: Matrix, n: nat, piv: seq<nat>, k: nat)
    requires Reduced(A, |c|, n, piv, n) && k <= |c|
    requires forall i :: 0 <= i < |piv| ==> !c[i]
    ensures CombineTo(c, A, n, k) == Zero(n)
  {
    if k > 0 {
      CombineZeroRows(c, A, n, piv, k - 1);
    }
  }

  /** H (c P)^T = c A. */
  lemma ParityOfCombination(H: Matrix, A: Matrix, P: Matrix, R: Matrix, piv: seq<nat>, n: nat, c: Vec)
    requires FirstElimination(H, A, P, R, piv, n) && |c| == n
    ensures Apply(H, Combine(c, P, n)) == Combine(c, A, |H|)
  {
    var Ht := Transpose(H, |H|, n);
    forall h | 0 <= h < |H| ensures Dot(H[h], Combine(c, P, n)) == Combine(c, A, |H|)[h] {
      DotCombine(H[h], c, P);
      CombineAt(c, A, |H|, h);
      forall i | 0 <= i < n ensures A[i][h] == Dot(P[i], H[h]) {
        CombineAt(P[i], Ht, |H|, h);
        assert Transpose(Ht, n, |H|)[h] == H[h];
      }
      assert Apply(P, H[h]) == Transpose(A, n, |H|)[h];
    }
  }

  /** Every vector is a combination of the rows of P, and of one set of rows only. */
  lemma RowsOfInvertible(P: Matrix, R: Matrix, n: nat, x: Vec)
    requires IsInverse(P, R, n) && |x| == n
    ensures Combine(Combine(x, R, n), P, n) == x
    ensures Combine(Combine(x, P, n), R, n) == x
  {
    CombineMul(x, R, P, n, n);
    CombineMul(x, P, R, n, n);
    CombineIdentity(x);
  }

  lemma GeneratorProduct(P: Matrix, G: Matrix, n: nat, r: nat, m: Vec)
    requires IsMatrix(P, n, n) && r <= n && |m| == n - r
    requires G == Transpose(P[r..], n - r, n)
    ensures Apply(G, m) == Combine(Zero(r) + m, P, n)
  {
    ApplyTranspose(P[r..], n - r, n, m);
    CombineSuffix(m, P, n, r, n - r);
  }

  /** Everything G generates satisfies all parity checks, and only the zero message generates zero. */
  lemma GeneratorSound(H: Matrix, A: Matrix, P: Matrix, R: Matrix, piv: seq<nat>, G: Matrix, n: nat, m: Vec)
    requires FirstElimination(H, A, P, R, piv, n) && |m| == n - |piv|
    requires G == Transpose(P[|piv|..], n - |piv|, n)
    ensures Apply(H, Apply(G, m)) == Zero(|H|)
    ensures Apply(G, m) == Zero(n) ==> m == Zero(n - |piv|)
  {
    var c := Zero(|piv|) + m;
    GeneratorProduct(P, G, n, |piv|, m);
    ParityOfCombination(H, A, P, R, piv, n, c);
    CombineZeroRows(c, A, |H|, piv, n);
    if Apply(G, m) == Zero(n) {
      RowsOfInvertible(P, R, n, c);
      CombineToZero(R, n, n, n);
      assert c == Zero(n);
      assert m == c[|piv|..];
    }
  }

  /** Everything that satisfies all parity checks is generated by some message. */
  lemma GeneratorComplete(H: Matrix, A: Matrix, P: Matrix, R: Matrix, piv: seq<nat>, G: Matrix, n: nat, x: Vec)
    returns (m: Vec)
    requires FirstElimination(H, A, P, R, piv, n) && |x| == n && Apply(H, x) == Zero(|H|)
    requires G == Transpose(P[|piv|..], n - |piv|, n)
    ensures |m| == n - |piv| && Apply(G, m) == x
  {
    var c := Combine(x, R, n);
    RowsOfInvertible(P, R, n, x);
    ParityOfCombination(H, A, P, R, piv, n, c);
    forall t | 0 <= t < |piv| ensures !c[t] {
      CombineReducedAt(c, A, |H|, piv, t);
    }
    m := c[|piv|..];
    assert c == Zero(|piv|) + m;
    GeneratorProduct(P, G, n, |piv|, m);
  }

  /** The rows of P below the pivots are a basis of the null space of H. */
  lemma GeneratorIsNullSpaceBasis(H: Matrix, A: Matrix, P: Matrix, R: Matrix, piv: seq<nat>, G: Matrix, n: nat)
    requires FirstElimination(H, A, P, R, piv, n)
    requires G == Transpose(P[|piv|..], n - |piv|, n)
    ensures NullSpaceBasis(H, G, n, n - |piv|)
  {
    forall m: Vec | |m| == n - |piv|
      ensures Apply(H, Apply(G, m)) == Zero(|H|)
      ensures Apply(G, m) == Zero(n) ==> m == Zero(n - |piv|)
    {
      GeneratorSound(H, A, P, R, piv, G, n, m);
    }
    forall x: Vec | |x| == n && Apply(H, x) == Zero(|H|)
      ensures exists m: Vec :: |m| == n - |piv| && Apply(G, m) == x
    {
      var m := GeneratorComplete(H, A, P, R, piv, G, n, x);
    }
  }

  // ----- the second elimination -----

  /** Row i of D has a single one, in column i, for i < r, and there are no other ones. */
  ghost predicate PaddedIdentity(D: Matrix, a: nat, n: nat, r: nat) {
    IsMatrix(D, a, n) && r <= a && r <= n && forall i, j :: 0 <= i < a && 0 <= j < n ==> D[i][j] == (i == j && j < r)
  }

  ghost predicate SecondElimination(A: Matrix, D: Matrix, P2: Matrix, R2: Matrix, piv2: seq<nat>, a: nat, n: nat) {
    && IsMatrix(A, n, a)
    && Tracks(Transpose(A, n, a), D, P2, R2, a, n)
    && Reduced(D, a, n, piv2, n)
  }

  /** Among the first |piv| columns the second elimination finds a pivot in each. */
  lemma {:induction false} SecondPivots(A: Matrix, piv: seq<nat>, D: Matrix, P2: Matrix, R2: Matrix, piv2: seq<nat>,
                                        a: nat, n: nat, c: nat)
    requires Reduced(A, n, a, piv, a) && SecondElimination(A, D, P2, R2, piv2, a, n)
    requires c <= |piv|
    ensures c <= |piv2| && forall t :: 0 <= t < c ==> piv2[t] == t
  {
    if c > 0 {
      SecondPivots(A, piv, D, P2, R2, piv2, a, n, c - 1);
      if |piv2| == c - 1 || piv2[c - 1] != c - 1 {
        forall r | c - 1 <= r < a ensures !D[r][c - 1] {
          if r < |piv2| {
            assert c > 1 ==> piv2[c - 2] == c - 2 < piv2[c - 1];
            assert piv2[c - 1] > c - 1 && piv2[r] >= piv2[c - 1];
          }
        }
        forall i, r | 0 <= i < c - 1 && 0 <= r < a ensures D[r][i] == (r == i) {
          assert D[r][piv2[i]] == (r == i);
        }
        var v := RedundantColumn(D, a, n, c - 1);
        ApplyZero(P2, a, a);
        SystemTracksSolutions(Transpose(A, n, a), Zero(a), D, Zero(a), P2, R2, a, v);
        ApplyTranspose(A, n, a, v);
        CombineReducedAt(v, A, a, piv, c - 1);
        assert false;
      }
    }
  }

  lemma SecondEliminationIsPaddedIdentity(A: Matrix, piv: seq<nat>, D: Matrix, P2: Matrix, R2: Matrix, piv2: seq<nat>,
                                          a: nat, n: nat)
    requires Reduced(A, n, a, piv, a) && SecondElimination(A, D, P2, R2, piv2, a, n)
    ensures PaddedIdentity(D, a, n, |piv|)
  {
    SecondPivots(A, piv, D, P2, R2, piv2, a, n, |piv|);
    forall i, j | 0 <= i < a && |piv| <= j < n ensures !D[i][j] {
      CombineAt(P2[i], Transpose(A, n, a), n, j);
      assert Transpose(Transpose(A, n, a), a, n)[j] == A[j];
      assert A[j] == Zero(a);
      DotZero(P2[i]);
    }
    forall i, j | 0 <= i < a && 0 <= j < |piv| ensures D[i][j] == (i == j) {
      assert D[i][piv2[j]] == (i == j);
    }
  }
}
