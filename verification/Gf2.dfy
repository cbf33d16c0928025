/** Vectors and matrices over the field with two elements.

    A vector is a sequence of bits, a matrix is the sequence of its rows. Addition is exclusive or, so every
    vector is its own negative. This module is the mathematical side of the LDPC coder: it knows nothing of
    the in-place algorithms that are proved against it.
 */
module Gf2 {

  type Vec = seq<bool>
  type Matrix = seq<Vec>

  ghost predicate IsMatrix(X: Matrix, m: nat, n: nat) {
    |X| == m && forall i :: 0 <= i < m ==> |X[i]| == n
  }

  function Zero(n: nat): Vec {
    seq(n, i => false)
  }

  function Unit(n: nat, i: nat): Vec {
    seq(n, j => j == i)
  }

  function Identity(n: nat): Matrix {
    seq(n, i requires 0 <= i => Unit(n, i))
  }

  function Add(u: Vec, v: Vec): Vec
    requires |u| == |v|
  {
    seq(|u|, i requires 0 <= i < |u| => u[i] != v[i])
  }

  function Transpose(X: Matrix, m: nat, n: nat): Matrix
    requires IsMatrix(X, m, n)
  {
    seq(n, j requires 0 <= j < n => seq(m, i requires 0 <= i < m => X[i][j]))
  }

  /** The scalar product of the first k entries of two vectors. */
  function DotTo(u: Vec, v: Vec, k: nat): bool
    requires k <= |u| && k <= |v|
  {
    if k == 0 then false else DotTo(u, v, k - 1) != (u[k - 1] && v[k - 1])
  }

  function Dot(u: Vec, v: Vec): bool
    requires |u| == |v|
  {
    DotTo(u, v, |u|)
  }

  /** The sum of those of the first k rows of X that c selects; rows have n entries. */
  function CombineTo(c: Vec, X: Matrix, n: nat, k: nat): (r: Vec)
    requires k <= |c| && k <= |X| && forall i :: 0 <= i < |X| ==> |X[i]| == n
    ensures |r| == n
  {
    if k == 0 then Zero(n)
    else if c[k - 1] then Add(CombineTo(c, X, n, k - 1), X[k - 1])
    else CombineTo(c, X, n, k - 1)
  }

  /** The row vector c times the matrix X. */
  function Combine(c: Vec, X: Matrix, n: nat): (r: Vec)
    requires IsMatrix(X, |c|, n)
    ensures |r| == n
  {
    CombineTo(c, X, n, |c|)
  }

  /** The matrix X times the column vector v. */
  function Apply(X: Matrix, v: Vec): (r: Vec)
    requires forall i :: 0 <= i < |X| ==> |X[i]| == |v|
    ensures |r| == |X|
  {
    seq(|X|, i requires 0 <= i < |X| => Dot(X[i], v))
  }

  /** The product of an l x m matrix and an m x n matrix. */
  function Mul(X: Matrix, Y: Matrix, l: nat, m: nat, n: nat): (Z: Matrix)
    requires IsMatrix(X, l, m) && IsMatrix(Y, m, n)
    ensures IsMatrix(Z, l, n)
  {
    seq(l, i requires 0 <= i < l => Combine(X[i], Y, n))
  }

  /** R undoes P on both sides. */
  ghost predicate IsInverse(P: Matrix, R: Matrix, m: nat) {
    && IsMatrix(P, m, m) && IsMatrix(R, m, m)
    && Mul(P, R, m, m, m) == Identity(m)
    && Mul(R, P, m, m, m) == Identity(m)
  }

  /** No column of X is redundant: X v = 0 only for v = 0. */
  ghost predicate IndependentColumns(X: Matrix, n: nat)
    requires forall i :: 0 <= i < |X| ==> |X[i]| == n
  {
    forall v: Vec :: |v| == n && Apply(X, v) == Zero(|X|) ==> v == Zero(n)
  }

  /** No row of X is redundant: c X = 0 only for c = 0. */
  ghost predicate IndependentRows(X: Matrix, n: nat)
    requires IsMatrix(X, |X|, n)
  {
    forall c: Vec :: |c| == |X| && Combine(c, X, n) == Zero(n) ==> c == Zero(|X|)
  }

  // ----- bilinearity -----

  lemma {:induction false} DotToAdd(u: Vec, v: Vec, w: Vec, k: nat)
    requires |u| == |v| == |w| && k <= |u|
    ensures DotTo(u, Add(v, w), k) == (DotTo(u, v, k) != DotTo(u, w, k))
    decreases k
  {
    if k > 0 {
      DotToAdd(u, v, w, k - 1);
    }
  }

  lemma {:induction false} DotToComm(u: Vec, v: Vec, k: nat)
    requires |u| == |v| && k <= |u|
    ensures DotTo(u, v, k) == DotTo(v, u, k)
  {
    if k > 0 {
      DotToComm(u, v, k - 1);
    }
  }

  lemma DotAdd(u: Vec, v: Vec, w: Vec)
    requires |u| == |v| == |w|
    ensures Dot(u, Add(v, w)) == (Dot(u, v) != Dot(u, w))
    ensures Dot(Add(v, w), u) == (Dot(v, u) != Dot(w, u))
  {
    DotToAdd(u, v, w, |u|);
    DotToComm(u, Add(v, w), |u|);
    DotToComm(u, v, |u|);
    DotToComm(u, w, |u|);
  }

  lemma {:induction false} DotToZero(u: Vec, k: nat)
    requires k <= |u|
    ensures !DotTo(u, Zero(|u|), k)
  {
    if k > 0 {
      DotToZero(u, k - 1);
    }
  }

  lemma DotZero(u: Vec)
    ensures !Dot(u, Zero(|u|)) && !Dot(Zero(|u|), u)
  {
    DotToZero(u, |u|);
    DotToComm(u, Zero(|u|), |u|);
  }

  lemma {:induction false} DotToUnit(u: Vec, i: nat, k: nat)
    requires k <= |u|
    ensures DotTo(u, Unit(|u|, i), k) == (i < k && u[i])
  {
    if k > 0 {
      DotToUnit(u, i, k - 1);
    }
  }

  lemma DotUnit(u: Vec, i: nat)
    requires i < |u|
    ensures Dot(u, Unit(|u|, i)) == Dot(Unit(|u|, i), u) == u[i]
  {
    DotToUnit(u, i, |u|);
    DotToComm(u, Unit(|u|, i), |u|);
  }

  lemma {:induction false} DotToExt(u: Vec, v: Vec, u': Vec, v': Vec, k: nat)
    requires k <= |u| && k <= |v| && k <= |u'| && k <= |v'|
    requires forall i :: 0 <= i < k ==> (u[i] && v[i]) == (u'[i] && v'[i])
    ensures DotTo(u, v, k) == DotTo(u', v', k)
  {
    if k > 0 {
      DotToExt(u, v, u', v', k - 1);
    }
  }

  /** u (c X)^T = c (X u). */
  lemma {:induction false} DotToCombine(u: Vec, c: Vec, X: Matrix, k: nat)
    requires IsMatrix(X, |c|, |u|) && k <= |c|
    ensures Dot(u, CombineTo(c, X, |u|, k)) == DotTo(c, Apply(X, u), k)
  {
    if k == 0 {
      DotZero(u);
    } else {
      DotToCombine(u, c, X, k - 1);
      DotAdd(u, CombineTo(c, X, |u|, k - 1), X[k - 1]);
      DotToComm(u, X[k - 1], |u|);
    }
  }

  lemma DotCombine(u: Vec, c: Vec, X: Matrix)
    requires IsMatrix(X, |c|, |u|)
    ensures Dot(u, Combine(c, X, |u|)) == Dot(Combine(c, X, |u|), u) == Dot(c, Apply(X, u))
  {
    DotToCombine(u, c, X, |c|);
    DotToComm(u, Combine(c, X, |u|), |u|);
  }

  /** Entry j of c X is the scalar product of c with column j of X. */
  lemma CombineAt(c: Vec, X: Matrix, n: nat, j: nat)
    requires IsMatrix(X, |c|, n) && j < n
    ensures Combine(c, X, n)[j] == Dot(c, Transpose(X, |c|, n)[j])
  {
    var e := Unit(n, j);
    DotCombine(e, c, X);
    DotUnit(Combine(c, X, n), j);
    forall i | 0 <= i < |c| ensures Apply(X, e)[i] == X[i][j] {
      DotUnit(X[i], j);
    }
    assert Apply(X, e) == Transpose(X, |c|, n)[j];
  }

  lemma {:induction false} CombineToAdd(c: Vec, d: Vec, X: Matrix, n: nat, k: nat)
    requires |c| == |d| && IsMatrix(X, |c|, n) && k <= |c|
    ensures CombineTo(Add(c, d), X, n, k) == Add(CombineTo(c, X, n, k), CombineTo(d, X, n, k))
  {
    if k > 0 {
      CombineToAdd(c, d, X, n, k - 1);
    }
  }

  lemma CombineAdd(c: Vec, d: Vec, X: Matrix, n: nat)
    requires |c| == |d| && IsMatrix(X, |c|, n)
    ensures Combine(Add(c, d), X, n) == Add(Combine(c, X, n), Combine(d, X, n))
  {
    CombineToAdd(c, d, X, n, |c|);
  }

  lemma {:induction false} CombineToZero(X: Matrix, m: nat, n: nat, k: nat)
    requires IsMatrix(X, m, n) && k <= m
    ensures CombineTo(Zero(m), X, n, k) == Zero(n)
  {
    if k > 0 {
      CombineToZero(X, m, n, k - 1);
    }
  }

  lemma {:induction false} CombineToUnit(X: Matrix, m: nat, n: nat, i: nat, k: nat)
    requires IsMatrix(X, m, n) && k <= m
    ensures CombineTo(Unit(m, i), X, n, k) == if i < k then X[i] else Zero(n)
  {
    if k > 0 {
      CombineToUnit(X, m, n, i, k - 1);
    }
  }

  lemma CombineUnit(X: Matrix, m: nat, n: nat, i: nat)
    requires IsMatrix(X, m, n) && i < m
    ensures Combine(Unit(m, i), X, n) == X[i]
  {
    CombineToUnit(X, m, n, i, m);
  }

  // ----- products -----

  /** (c Y) Z = c (Y Z). */
  lemma {:induction false} CombineToMul(c: Vec, Y: Matrix, Z: Matrix, m: nat, n: nat, k: nat)
    requires IsMatrix(Y, |c|, m) && IsMatrix(Z, m, n) && k <= |c|
    ensures Combine(CombineTo(c, Y, m, k), Z, n) == CombineTo(c, Mul(Y, Z, |c|, m, n), n, k)
  {
    if k == 0 {
      CombineToZero(Z, m, n, m);
    } else {
      CombineToMul(c, Y, Z, m, n, k - 1);
      CombineAdd(CombineTo(c, Y, m, k - 1), Y[k - 1], Z, n);
    }
  }

  lemma CombineMul(c: Vec, Y: Matrix, Z: Matrix, m: nat, n: nat)
    requires IsMatrix(Y, |c|, m) && IsMatrix(Z, m, n)
    ensures Combine(Combine(c, Y, m), Z, n) == Combine(c, Mul(Y, Z, |c|, m, n), n)
  {
    CombineToMul(c, Y, Z, m, n, |c|);
  }

  lemma MulAssoc(X: Matrix, Y: Matrix, Z: Matrix, a: nat, b: nat, c: nat, d: nat)
    requires IsMatrix(X, a, b) && IsMatrix(Y, b, c) && IsMatrix(Z, c, d)
    ensures Mul(Mul(X, Y, a, b, c), Z, a, c, d) == Mul(X, Mul(Y, Z, b, c, d), a, b, d)
  {
    forall i | 0 <= i < a
      ensures Mul(Mul(X, Y, a, b, c), Z, a, c, d)[i] == Mul(X, Mul(Y, Z, b, c, d), a, b, d)[i]
    {
      CombineMul(X[i], Y, Z, c, d);
    }
  }

  /** Multiplying a row vector by the identity changes nothing. */
  lemma CombineIdentity(c: Vec)
    ensures Combine(c, Identity(|c|), |c|) == c
  {
    forall j | 0 <= j < |c| ensures Combine(c, Identity(|c|), |c|)[j] == c[j] {
      CombineAt(c, Identity(|c|), |c|, j);
      assert Transpose(Identity(|c|), |c|, |c|)[j] == Unit(|c|, j);
      DotUnit(c, j);
    }
  }

  lemma MulIdentity(X: Matrix, m: nat, n: nat)
    requires IsMatrix(X, m, n)
    ensures Mul(Identity(m), X, m, m, n) == X
    ensures Mul(X, Identity(n), m, n, n) == X
  {
    forall i | 0 <= i < m
      ensures Mul(Identity(m), X, m, m, n)[i] == X[i] && Mul(X, Identity(n), m, n, n)[i] == X[i]
    {
      CombineUnit(X, m, n, i);
      CombineIdentity(X[i]);
    }
  }

  lemma IdentityIsInverse(m: nat)
    ensures IsInverse(Identity(m), Identity(m), m)
  {
    MulIdentity(Identity(m), m, m);
  }
}
