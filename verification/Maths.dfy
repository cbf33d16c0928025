/** The matrix routines of the LDPC coder: maths.cpp.

    A matrix is a two-dimensional array of machine integers that hold 0 or 1; Bits is its value over the field
    with two elements.
 */
module Maths {
  import opened Gf2
  import opened RowOperations

  type Mat = array2<int>

  ghost predicate IsBinary(M: Mat)
    reads M
  {
    forall i, j :: 0 <= i < M.Length0 && 0 <= j < M.Length1 ==> M[i, j] == 0 || M[i, j] == 1
  }

  ghost function Bits(M: Mat): (B: Matrix)
    reads M
    ensures IsMatrix(B, M.Length0, M.Length1)
  {
    seq(M.Length0, i requires 0 <= i < M.Length0 reads M =>
      seq(M.Length1, j requires 0 <= j < M.Length1 reads M => M[i, j] == 1))
  }

  /** The column vector stored in an n x 1 matrix. */
  ghost function Column(b: Mat): (v: Vec)
    requires b.Length1 == 1
    reads b
    ensures |v| == b.Length0
  {
    seq(b.Length0, i requires 0 <= i < b.Length0 reads b => b[i, 0] == 1)
  }

  method Clone(X: Mat) returns (A: Mat)
    ensures fresh(A) && A.Length0 == X.Length0 && A.Length1 == X.Length1
    ensures forall i, j :: 0 <= i < A.Length0 && 0 <= j < A.Length1 ==> A[i, j] == X[i, j]
    ensures Bits(A) == Bits(X)
  {
    A := new int[X.Length0, X.Length1]((i, j) requires 0 <= i < X.Length0 && 0 <= j < X.Length1 reads X => X[i, j]);
    assert forall i :: 0 <= i < X.Length0 ==> Bits(A)[i] == Bits(X)[i];
  }

  method Eye(n: nat) returns (P: Mat)
    ensures fresh(P) && P.Length0 == P.Length1 == n && IsBinary(P) && Bits(P) == Identity(n)
  {
    P := new int[n, n]((i, j) => if i == j then 1 else 0);
    assert forall i :: 0 <= i < n ==> Bits(P)[i] == Identity(n)[i];
  }

  method SwapRowsInPlace(M: Mat, i: nat, k: nat)
    requires i < M.Length0 && k < M.Length0 && IsBinary(M)
    modifies M
    ensures IsBinary(M) && Bits(M) == SwapRows(old(Bits(M)), i, k)
  {
    var temp := new int[M.Length1](j requires 0 <= j < M.Length1 reads M => M[i, j]);
    forall j | 0 <= j < M.Length1 { M[i, j] := M[k, j]; }
    forall j | 0 <= j < M.Length1 { M[k, j] := temp[j]; }
    forall r | 0 <= r < M.Length0 ensures Bits(M)[r] == SwapRows(old(Bits(M)), i, k)[r] {
    }
  }

  /** Row dst becomes the absolute difference of rows dst and src; on bits that is their sum. */
  method AddRowInPlace(M: Mat, dst: nat, src: nat)
    requires dst < M.Length0 && src < M.Length0 && dst != src && IsBinary(M)
    modifies M
    ensures IsBinary(M) && Bits(M) == AddRow(old(Bits(M)), dst, src, M.Length1)
  {
    forall j | 0 <= j < M.Length1 {
      M[dst, j] := if M[dst, j] < M[src, j] then M[src, j] - M[dst, j] else M[dst, j] - M[src, j];
    }
    assert forall r :: 0 <= r < M.Length0 ==> Bits(M)[r] == AddRow(old(Bits(M)), dst, src, M.Length1)[r];
  }

  /** The first row at or after start with a one in column j, or start itself when there is none. */
  method FindPivot(A: Mat, start: nat, j: nat) returns (pivot: nat)
    requires start < A.Length0 && j < A.Length1 && IsBinary(A)
    ensures start <= pivot < A.Length0
    ensures var r := FirstOne(Bits(A), j, start);
      if r == A.Length0 then A[pivot, j] == 0 else pivot == r && A[pivot, j] == 1
  {
    pivot := start;
    var i := pivot;
    while i < A.Length0
      invariant pivot == start <= i <= A.Length0
      invariant FirstOne(Bits(A), j, start) == FirstOne(Bits(A), j, i)
    {
      if A[i, j] == 1 {
        return i;
      }
      i := i + 1;
    }
  }

  /** Clears column j of every row but the pivot row. */
  method ClearColumn(A: Mat, P: Mat, pivot: nat, j: nat)
    requires A != P && P.Length0 == P.Length1 == A.Length0 && IsBinary(A) && IsBinary(P)
    requires pivot < A.Length0 && j < A.Length1
    modifies A, P
    ensures IsBinary(A) && IsBinary(P)
    ensures Bits(A) == old(ClearedTo(Bits(A), Bits(A), pivot, j, A.Length1, A.Length0))
    ensures Bits(P) == old(ClearedTo(Bits(A), Bits(P), pivot, j, A.Length0, A.Length0))
  {
    var m, n := A.Length0, A.Length1;
    ghost var A1, P1 := Bits(A), Bits(P);
    for i := 0 to m
      invariant IsBinary(A) && IsBinary(P)
      invariant Bits(A) == ClearedTo(A1, A1, pivot, j, n, i)
      invariant Bits(P) == ClearedTo(A1, P1, pivot, j, m, i)
    {
      ClearedNext(A1, A1, pivot, j, n, i);
      ClearedNext(A1, P1, pivot, j, m, i);
      assert (A[i, j] == 1) == Bits(A)[i][j] == A1[i][j];
      if i != pivot && A[i, j] == 1 {
        AddRowInPlace(A, i, pivot);
        AddRowInPlace(P, i, pivot);
      }
    }
  }

  /** One round of gaussJordan: finds the pivot of column j, if any, and makes it the only one of its column. */
  method ReduceColumn(A: Mat, P: Mat, pivotBefore: int, j: nat) returns (pivotOld: int)
    requires A != P && P.Length0 == P.Length1 == A.Length0 && IsBinary(A) && IsBinary(P)
    requires 0 <= pivotBefore + 1 < A.Length0 && j < A.Length1
    modifies A, P
    ensures IsBinary(A) && IsBinary(P) && pivotOld >= -1
    ensures Reduction(Bits(A), Bits(P), pivotOld + 1) ==
            old(ReduceStep(Reduction(Bits(A), Bits(P), pivotBefore + 1), A.Length0, A.Length1, j))
  {
    pivotOld := pivotBefore;
    var pivot := FindPivot(A, pivotOld + 1, j);
    if A[pivot, j] != 0 {
      pivotOld := pivotOld + 1;
      if pivotOld != pivot {
        SwapRowsInPlace(A, pivot, pivotOld);
        SwapRowsInPlace(P, pivot, pivotOld);
      }
      ClearColumn(A, P, pivotOld, j);
    }
  }

  /** The loop of gaussJordan over the columns; it stops early once every row has its pivot. */
  method ReduceColumns(A: Mat, P: Mat, ghost X: Matrix)
    requires A != P && P.Length0 == P.Length1 == A.Length0 > 0 && IsBinary(A) && IsBinary(P)
    requires Bits(A) == X && Bits(P) == Identity(A.Length0)
    modifies A, P
    ensures IsBinary(A) && IsBinary(P)
    ensures Bits(A) == Reduce(X, A.Length0, A.Length1).A && Bits(P) == Reduce(X, A.Length0, A.Length1).P
  {
    var m, n := A.Length0, A.Length1;
    ghost var s := ReduceTo(X, m, n, 0);

    var pivotOld := -1;
    var j := 0;
    while j < n
      invariant 0 <= j <= n && pivotOld < m - 1
      invariant IsBinary(A) && IsBinary(P)
      invariant s == ReduceTo(X, m, n, j) && Reduction(Bits(A), Bits(P), pivotOld + 1) == s
    {
      s := ReduceStep(s, m, n, j);
      pivotOld := ReduceColumn(A, P, pivotOld, j);
      if pivotOld == m - 1 {
        ReduceToStops(X, m, n, j + 1, n);
        break;
      }
      j := j + 1;
    }
  }

  /** Gauss-Jordan elimination of X; P records the row operations. */
  method GaussJordan(X: Mat) returns (A: Mat, P: Mat)
    requires IsBinary(X)
    requires X.Length0 > 0
    ensures fresh(A) && A.Length0 == X.Length0 && A.Length1 == X.Length1 && IsBinary(A)
    ensures fresh(P) && P.Length0 == P.Length1 == X.Length0 && IsBinary(P)
    ensures Bits(A) == Reduce(Bits(X), X.Length0, X.Length1).A
    ensures Bits(P) == Reduce(Bits(X), X.Length0, X.Length1).P
  {
    A := Clone(X);
    P := Eye(A.Length0);
    ReduceColumns(A, P, Bits(X));
  }

  // ----- gaussElimination -----

  /** What the memory past the end of a matrix holds: it may change from one turn to the next, as the right side of the
      system may lie there. A turn is one search for a pivot or one elimination, in which no cell is read twice. */
  type Memory = (nat, nat, nat) -> int

  /** The machine word that A.at<int>(row, col) denotes. The matrix is stored row after row without gaps, so a column
      past the end of a row is a cell of a later row, and past the end of the matrix it is whatever the memory holds
      during that turn. */
  function ReadCell(A: Mat, row: nat, col: nat, beyond: Memory, turn: nat): int
    requires row < A.Length0
    reads A
  {
    if col < A.Length1 then A[row, col]
    else
      var flat := row * A.Length1 + col;
      if A.Length1 > 0 && flat / A.Length1 < A.Length0 then A[flat / A.Length1, flat % A.Length1]
      else beyond(turn, row, col)
  }

  /** Adds equation src to equation dst, both sides. */
  method AddEquation(A: Mat, b: Mat, dst: nat, src: nat)
    requires A != b && b.Length0 == A.Length0 && b.Length1 == 1 && IsBinary(A) && IsBinary(b)
    requires dst < A.Length0 && src < A.Length0 && dst != src
    modifies A, b
    ensures IsBinary(A) && IsBinary(b)
    ensures Bits(A) == AddRow(old(Bits(A)), dst, src, A.Length1)
    ensures Column(b) == old(Column(b)[dst := Column(b)[dst] != Column(b)[src]])
  {
    AddRowInPlace(A, dst, src);
    b[dst, 0] := if b[dst, 0] == b[src, 0] then 0 else 1;
  }

  /** Exchanges two equations, both sides; the entry of b travels through a byte. */
  method SwapEquations(A: Mat, b: Mat, i: nat, k: nat)
    requires A != b && b.Length0 == A.Length0 && b.Length1 == 1 && IsBinary(A) && IsBinary(b)
    requires i < A.Length0 && k < A.Length0
    modifies A, b
    ensures IsBinary(A) && IsBinary(b)
    ensures Bits(A) == SwapRows(old(Bits(A)), i, k)
    ensures Column(b) == old(Column(b)[i := Column(b)[k]][k := Column(b)[i]])
  {
    SwapRowsInPlace(A, i, k);
    var tempVal := b[i, 0] % 256;
    b[i, 0] := b[k, 0];
    b[k, 0] := tempVal;
  }

  /** Adds row pivot to every other row whose cell in column pivot is one, and treats the right side alike. */
  method EliminateRows(A: Mat, b: Mat, pivot: nat, beyond: Memory, turn: nat,
                       ghost A0: Matrix, ghost b0: Vec, ghost P0: Matrix, ghost R0: Matrix)
    returns (ghost P: Matrix, ghost R: Matrix)
    requires A != b && b.Length0 == A.Length0 && b.Length1 == 1 && IsBinary(A) && IsBinary(b)
    requires pivot < A.Length0 && (pivot < A.Length1 ==> Bits(A)[pivot][pivot])
    requires SystemTracks(A0, b0, Bits(A), Column(b), P0, R0, A.Length0, A.Length1)
    modifies A, b
    ensures IsBinary(A) && IsBinary(b)
    ensures SystemTracks(A0, b0, Bits(A), Column(b), P, R, A.Length0, A.Length1)
    ensures UnitColumns(old(Bits(A)), A.Length0, A.Length1, pivot) ==>
            UnitColumns(Bits(A), A.Length0, A.Length1, pivot + 1)
  {
    ghost var B0 := Bits(A);
    P, R := P0, R0;
    for row := 0 to A.Length0
      invariant IsBinary(A) && IsBinary(b)
      invariant SystemTracks(A0, b0, Bits(A), Column(b), P, R, A.Length0, A.Length1)
      invariant Cleared(B0, Bits(A), A.Length0, A.Length1, pivot, row)
    {
      if row != pivot && ReadCell(A, row, pivot, beyond, turn) == 1 {
        ClearedAdd(B0, Bits(A), A.Length0, A.Length1, pivot, row);
        R := SystemTracksAdd(A0, b0, Bits(A), Column(b), P, R, A.Length0, A.Length1, row, pivot);
        P := AddRow(P, row, pivot, A.Length0);
        AddEquation(A, b, row, pivot);
      }
    }
  }

  /** The first cell at or below (start, start) in column start that reads as one, or -1. */
  method FindPivotCell(A: Mat, start: nat, beyond: Memory, turn: nat) returns (pivot: int)
    requires start < A.Length0
    ensures pivot == -1 || start <= pivot < A.Length0
    ensures start < A.Length1 && pivot != -1 ==> Bits(A)[pivot][start]
    ensures start < A.Length1 ==>
            forall r :: start <= r < A.Length0 && (r < pivot || pivot == -1) ==> !Bits(A)[r][start]
  {
    pivot := -1;
    var row := start;
    while row < A.Length0
      invariant start <= row <= A.Length0 && pivot == -1
      invariant start < A.Length1 ==> forall r :: start <= r < row ==> !Bits(A)[r][start]
    {
      if ReadCell(A, row, start, beyond, turn) == 1 {
        pivot := row;
        break;
      }
      row := row + 1;
    }
  }

  /** One round of gaussElimination, for row and column i. */
  method EliminateColumn(A: Mat, b: Mat, i: nat, beyond: Memory,
                         ghost A0: Matrix, ghost b0: Vec, ghost P0: Matrix, ghost R0: Matrix)
    returns (ghost P: Matrix, ghost R: Matrix)
    requires A != b && b.Length0 == A.Length0 && b.Length1 == 1 && IsBinary(A) && IsBinary(b)
    requires i < A.Length0
    requires SystemTracks(A0, b0, Bits(A), Column(b), P0, R0, A.Length0, A.Length1)
    modifies A, b
    ensures IsBinary(A) && IsBinary(b)
    ensures SystemTracks(A0, b0, Bits(A), Column(b), P, R, A.Length0, A.Length1)
    ensures IndependentColumns(A0, A.Length1) && UnitColumns(old(Bits(A)), A.Length0, A.Length1, i) ==>
              UnitColumns(Bits(A), A.Length0, A.Length1, i + 1)
  {
    P, R := P0, R0;
    var pivot := FindPivotCell(A, i, beyond, i + i);
    if pivot == -1 {
      if i < A.Length1 && UnitColumns(Bits(A), A.Length0, A.Length1, i) {
        NoPivotMeansDependent(A0, Bits(A), P, R, A.Length0, A.Length1, i);
      }
      return;
    }

    if pivot != i {
      R := SystemTracksSwap(A0, b0, Bits(A), Column(b), P, R, A.Length0, A.Length1, i, pivot);
      P := SwapRows(P, i, pivot);
      SwapKeepsUnit(Bits(A), SwapRows(Bits(A), i, pivot), A.Length0, A.Length1, i, pivot);
      SwapEquations(A, b, i, pivot);
    }
    P, R := EliminateRows(A, b, i, beyond, i + i + 1, A0, b0, P, R);
  }

  /** Gaussian elimination of the system A v = b in place. The outer loop runs over the rows and takes the row number
      for the column number, so for a matrix with more rows than columns it goes on past the last column. */
  method GaussElimination(A: Mat, b: Mat, beyond: Memory)
    requires A != b && b.Length0 == A.Length0 && b.Length1 == 1 && IsBinary(A) && IsBinary(b)
    modifies A, b
    ensures IsBinary(A) && IsBinary(b)
    ensures forall v: Vec :: |v| == A.Length1 ==>
              (Apply(Bits(A), v) == Column(b) <==> Apply(old(Bits(A)), v) == old(Column(b)))
    ensures A.Length1 <= A.Length0 && IndependentColumns(old(Bits(A)), A.Length1) ==>
              UnitColumns(Bits(A), A.Length0, A.Length1, A.Length1)
  {
    ghost var A0, b0, m, n := Bits(A), Column(b), A.Length0, A.Length1;
    ghost var P, R := Identity(m), Identity(m);
    SystemTracksStart(A0, b0, m, n);
    for i := 0 to A.Length0
      invariant IsBinary(A) && IsBinary(b)
      invariant SystemTracks(A0, b0, Bits(A), Column(b), P, R, m, n)
      invariant IndependentColumns(A0, n) ==> UnitColumns(Bits(A), m, n, i)
    {
      P, R := EliminateColumn(A, b, i, beyond, A0, b0, P, R);
    }
    forall v: Vec | |v| == n ensures Apply(Bits(A), v) == Column(b) <==> Apply(A0, v) == b0 {
      SystemTracksSolutions(A0, b0, Bits(A), Column(b), P, R, m, v);
    }
  }

  // ----- binaryProduct -----

  /** The residues modulo two of the entries of any integer matrix. */
  ghost function Residues(M: Mat): (B: Matrix)
    reads M
    ensures IsMatrix(B, M.Length0, M.Length1)
  {
    seq(M.Length0, i requires 0 <= i < M.Length0 reads M =>
      seq(M.Length1, j requires 0 <= j < M.Length1 reads M => M[i, j] % 2 == 1))
  }

  lemma ResiduesOfBits(M: Mat)
    requires IsBinary(M)
    ensures Residues(M) == Bits(M)
  {
    assert forall i :: 0 <= i < M.Length0 ==> Residues(M)[i] == Bits(M)[i];
  }

  lemma OddProduct(s: int, x: int, y: int)
    ensures (s + x * y) % 2 == 1 <==> (s % 2 == 1) != (x % 2 == 1 && y % 2 == 1)
  {
    var p, q := x / 2, y / 2;
    assert x == 2 * p + x % 2 && y == 2 * q + y % 2;
    assert x * y == 2 * (2 * p * q + p * (y % 2) + q * (x % 2)) + (x % 2) * (y % 2);
  }

  /** The sum of the first k products of row i of X with column j of Y, over the integers. */
  function InnerProduct(X: Mat, Y: Mat, i: nat, j: nat, k: nat): int
    requires i < X.Length0 && j < Y.Length1 && k <= X.Length1 && k <= Y.Length0
    reads X, Y
  {
    if k == 0 then 0 else InnerProduct(X, Y, i, j, k - 1) + X[i, k - 1] * Y[k - 1, j]
  }

  lemma {:induction false} InnerProductParity(X: Mat, Y: Mat, i: nat, j: nat, k: nat, u: Vec, v: Vec)
    requires i < X.Length0 && j < Y.Length1 && k <= X.Length1 == Y.Length0
    requires u == Residues(X)[i] && v == Transpose(Residues(Y), Y.Length0, Y.Length1)[j]
    ensures InnerProduct(X, Y, i, j, k) % 2 == 1 <==> DotTo(u, v, k)
  {
    if k > 0 {
      InnerProductParity(X, Y, i, j, k - 1, u, v);
      OddProduct(InnerProduct(X, Y, i, j, k - 1), X[i, k - 1], Y[k - 1, j]);
    }
  }

  /** The matrix product over the integers, reduced modulo two entry by entry. */
  method BinaryProduct(X: Mat, Y: Mat) returns (Z: Mat)
    requires X.Length1 == Y.Length0
    ensures fresh(Z) && Z.Length0 == X.Length0 && Z.Length1 == Y.Length1 && IsBinary(Z)
    ensures Bits(Z) == Mul(Residues(X), Residues(Y), X.Length0, X.Length1, Y.Length1)
  {
    var inner := X.Length1;
    Z := new int[X.Length0, Y.Length1]((i, j) requires 0 <= i < X.Length0 && 0 <= j < Y.Length1 reads X, Y =>
      InnerProduct(X, Y, i, j, inner) % 2);
    ghost var target := Mul(Residues(X), Residues(Y), X.Length0, inner, Y.Length1);
    forall r | 0 <= r < Z.Length0 ensures Bits(Z)[r] == target[r] {
      forall c | 0 <= c < Z.Length1 ensures Bits(Z)[r][c] == target[r][c] {
        CombineAt(Residues(X)[r], Residues(Y), Y.Length1, c);
        InnerProductParity(X, Y, r, c, inner, Residues(X)[r], Transpose(Residues(Y), Y.Length0, Y.Length1)[c]);
      }
    }
  }

  method TransposeMat(X: Mat) returns (Y: Mat)
    requires IsBinary(X)
    ensures fresh(Y) && Y.Length0 == X.Length1 && Y.Length1 == X.Length0 && IsBinary(Y)
    ensures Bits(Y) == Transpose(Bits(X), X.Length0, X.Length1)
  {
    Y := new int[X.Length1, X.Length0]((j, i) requires 0 <= i < X.Length0 && 0 <= j < X.Length1 reads X => X[i, j]);
    assert forall j :: 0 <= j < X.Length1 ==> Bits(Y)[j] == Transpose(Bits(X), X.Length0, X.Length1)[j];
  }

  /** The number of ones among the first c entries of v. */
  ghost function Ones(v: Vec, c: nat): nat
    requires c <= |v|
  {
    if c == 0 then 0 else Ones(v, c - 1) + if v[c - 1] then 1 else 0
  }

  /** The number of ones in the first r rows of B. */
  ghost function MatSum(B: Matrix, r: nat): nat
    requires r <= |B|
  {
    if r == 0 then 0 else MatSum(B, r - 1) + Ones(B[r - 1], |B[r - 1]|)
  }

  method SumEntries(M: Mat) returns (s: int)
    requires IsBinary(M)
    ensures s == MatSum(Bits(M), M.Length0)
  {
    s := 0;
    for i := 0 to M.Length0
      invariant s == MatSum(Bits(M), i)
    {
      for j := 0 to M.Length1
        invariant s == MatSum(Bits(M), i) + Ones(Bits(M)[i], j)
      {
        s := s + M[i, j];
      }
    }
  }
}
