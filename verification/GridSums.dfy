/** Sums over the cubes of a box, as the nested loops of the mesh builders add them up. */
module GridSums {

  type Count = (int, int, int) -> nat

  predicate Inside(i: int, low: int, n: nat) {
    low <= i < low + n
  }

  /** f(low) + ... + f(low + n - 1). */
  function Sum(f: int -> nat, low: int, n: nat): nat {
    if n == 0 then 0 else Sum(f, low, n - 1) + f(low + n - 1)
  }

  lemma {:induction false} SumSplit(f: int -> nat, low: int, a: nat, b: nat)
    ensures Sum(f, low, a + b) == Sum(f, low, a) + Sum(f, low + a, b)
  {
    if b > 0 {
      SumSplit(f, low, a, b - 1);
    }
  }

  lemma SumOne(f: int -> nat, low: int)
    ensures Sum(f, low, 1) == f(low)
  {
    assert Sum(f, low, 0) == 0;
  }

  lemma {:induction false} SumAdd(f: int -> nat, g: int -> nat, h: int -> nat, low: int, n: nat)
    requires forall i :: low <= i < low + n ==> f(i) == g(i) + h(i)
    ensures Sum(f, low, n) == Sum(g, low, n) + Sum(h, low, n)
  {
    if n > 0 {
      SumAdd(f, g, h, low, n - 1);
    }
  }

  lemma {:induction false} SumZero(f: int -> nat, low: int, n: nat)
    ensures Sum(f, low, n) == 0 <==> forall i :: Inside(i, low, n) ==> f(i) == 0
  {
    if n > 0 {
      SumZero(f, low, n - 1);
      assert forall i :: Inside(i, low, n) <==> Inside(i, low, n - 1) || i == low + n - 1;
    }
  }

  // ----- lines, slices and boxes -----

  function Cells(g: Count, x: int, y: int): int -> nat {
    z => g(x, y, z)
  }

  function Line(g: Count, x: int, y: int, z: int, n: nat): nat {
    Sum(Cells(g, x, y), z, n)
  }

  function Lines(g: Count, x: int, z: int, n: nat): int -> nat {
    y => Line(g, x, y, z, n)
  }

  function Slice(g: Count, x: int, y: int, z: int, m: nat, n: nat): nat {
    Sum(Lines(g, x, z, n), y, m)
  }

  function Slices(g: Count, y: int, z: int, m: nat, n: nat): int -> nat {
    x => Slice(g, x, y, z, m, n)
  }

  /** The sum over the box of edges k, m and n with its lowest corner at (x, y, z). */
  function Box(g: Count, x: int, y: int, z: int, k: nat, m: nat, n: nat): nat {
    Sum(Slices(g, y, z, m, n), x, k)
  }

  /** The sums of two functions add up. */
  lemma BoxAdd(f: Count, g: Count, h: Count, x: int, y: int, z: int, k: nat, m: nat, n: nat)
    requires forall a, b, c :: Inside(a, x, k) && Inside(b, y, m) && Inside(c, z, n) ==>
             f(a, b, c) == g(a, b, c) + h(a, b, c)
    ensures Box(f, x, y, z, k, m, n) == Box(g, x, y, z, k, m, n) + Box(h, x, y, z, k, m, n)
  {
    forall a | x <= a < x + k
      ensures Slices(f, y, z, m, n)(a) == Slices(g, y, z, m, n)(a) + Slices(h, y, z, m, n)(a)
    {
      assert Inside(a, x, k);
      forall b | y <= b < y + m
        ensures Lines(f, a, z, n)(b) == Lines(g, a, z, n)(b) + Lines(h, a, z, n)(b)
      {
        assert Inside(b, y, m);
        forall c | z <= c < z + n ensures Cells(f, a, b)(c) == Cells(g, a, b)(c) + Cells(h, a, b)(c) {
          assert Inside(c, z, n);
        }
        SumAdd(Cells(f, a, b), Cells(g, a, b), Cells(h, a, b), z, n);
      }
      SumAdd(Lines(f, a, z, n), Lines(g, a, z, n), Lines(h, a, z, n), y, m);
    }
    SumAdd(Slices(f, y, z, m, n), Slices(g, y, z, m, n), Slices(h, y, z, m, n), x, k);
  }

  lemma LineZero(g: Count, x: int, y: int, z: int, n: nat)
    ensures Line(g, x, y, z, n) == 0 <==> forall c :: Inside(c, z, n) ==> g(x, y, c) == 0
  {
    SumZero(Cells(g, x, y), z, n);
    assert forall c :: Inside(c, z, n) ==> Cells(g, x, y)(c) == g(x, y, c);
  }

  lemma SliceZero(g: Count, x: int, y: int, z: int, m: nat, n: nat)
    ensures Slice(g, x, y, z, m, n) == 0 <==> forall b, c :: Inside(b, y, m) && Inside(c, z, n) ==> g(x, b, c) == 0
  {
    SumZero(Lines(g, x, z, n), y, m);
    forall b ensures Lines(g, x, z, n)(b) == 0 <==> forall c :: Inside(c, z, n) ==> g(x, b, c) == 0 {
      LineZero(g, x, b, z, n);
    }
  }

  /** A box sums to zero exactly when every cube of it counts zero. */
  lemma BoxZero(g: Count, x: int, y: int, z: int, k: nat, m: nat, n: nat)
    ensures Box(g, x, y, z, k, m, n) == 0 <==>
      forall a, b, c :: Inside(a, x, k) && Inside(b, y, m) && Inside(c, z, n) ==> g(a, b, c) == 0
  {
    SumZero(Slices(g, y, z, m, n), x, k);
    forall a
      ensures Slices(g, y, z, m, n)(a) == 0 <==>
              forall b, c :: Inside(b, y, m) && Inside(c, z, n) ==> g(a, b, c) == 0
    {
      SliceZero(g, a, y, z, m, n);
    }
  }

  function Zero(): Count {
    (a, b, c) => 0
  }

  /** Functions that agree on a box have the same sum over it. */
  lemma BoxAgree(f: Count, g: Count, x: int, y: int, z: int, k: nat, m: nat, n: nat)
    requires forall a, b, c :: Inside(a, x, k) && Inside(b, y, m) && Inside(c, z, n) ==> f(a, b, c) == g(a, b, c)
    ensures Box(f, x, y, z, k, m, n) == Box(g, x, y, z, k, m, n)
  {
    BoxAdd(f, g, Zero(), x, y, z, k, m, n);
    BoxZero(Zero(), x, y, z, k, m, n);
  }

  // ----- splitting a box -----

  lemma SplitX(g: Count, x: int, y: int, z: int, a: nat, b: nat, m: nat, n: nat)
    ensures Box(g, x, y, z, a + b, m, n) == Box(g, x, y, z, a, m, n) + Box(g, x + a, y, z, b, m, n)
  {
    SumSplit(Slices(g, y, z, m, n), x, a, b);
  }

  lemma SplitY(g: Count, x: int, y: int, z: int, k: nat, a: nat, b: nat, n: nat)
    ensures Box(g, x, y, z, k, a + b, n) == Box(g, x, y, z, k, a, n) + Box(g, x, y + a, z, k, b, n)
  {
    forall i | x <= i < x + k
      ensures Slices(g, y, z, a + b, n)(i) == Slices(g, y, z, a, n)(i) + Slices(g, y + a, z, b, n)(i)
    {
      SumSplit(Lines(g, i, z, n), y, a, b);
    }
    SumAdd(Slices(g, y, z, a + b, n), Slices(g, y, z, a, n), Slices(g, y + a, z, b, n), x, k);
  }

  lemma SplitZ(g: Count, x: int, y: int, z: int, k: nat, m: nat, a: nat, b: nat)
    ensures Box(g, x, y, z, k, m, a + b) == Box(g, x, y, z, k, m, a) + Box(g, x, y, z + a, k, m, b)
  {
    forall i | x <= i < x + k
      ensures Slices(g, y, z, m, a + b)(i) == Slices(g, y, z, m, a)(i) + Slices(g, y, z + a, m, b)(i)
    {
      forall j | y <= j < y + m
        ensures Lines(g, i, z, a + b)(j) == Lines(g, i, z, a)(j) + Lines(g, i, z + a, b)(j)
      {
        SumSplit(Cells(g, i, j), z, a, b);
      }
      SumAdd(Lines(g, i, z, a + b), Lines(g, i, z, a), Lines(g, i, z + a, b), y, m);
    }
    SumAdd(Slices(g, y, z, m, a + b), Slices(g, y, z, m, a), Slices(g, y, z + a, m, b), x, k);
  }

  /** The sum over a cube of edge n. */
  function Cube(g: Count, x: int, y: int, z: int, n: nat): nat {
    Box(g, x, y, z, n, n, n)
  }

  /** The sum over the octant of edge h in direction (dx, dy, dz) of the cube at (x, y, z). */
  function OctantSum(g: Count, h: nat, x: int, y: int, z: int, dx: nat, dy: nat, dz: nat): nat {
    Cube(g, x + dx * h, y + dy * h, z + dz * h, h)
  }

  lemma OctantAt(g: Count, h: nat, x: int, y: int, z: int, dx: nat, dy: nat, dz: nat, u: int, v: int, w: int)
    requires u == x + dx * h && v == y + dy * h && w == z + dz * h
    ensures OctantSum(g, h, x, y, z, dx, dy, dz) == Box(g, u, v, w, h, h, h)
  {
  }

  lemma Halves(g: Count, x: int, y: int, z: int, h: nat, e: nat, dx: nat, dy: nat, u: int, v: int)
    requires e == h + h && u == x + dx * h && v == y + dy * h
    ensures Box(g, u, v, z, h, h, e) == OctantSum(g, h, x, y, z, dx, dy, 0) + OctantSum(g, h, x, y, z, dx, dy, 1)
  {
    SplitZ(g, u, v, z, h, h, h, h);
    OctantAt(g, h, x, y, z, dx, dy, 0, u, v, z);
    OctantAt(g, h, x, y, z, dx, dy, 1, u, v, z + h);
  }

  lemma Quarters(g: Count, x: int, y: int, z: int, h: nat, e: nat, dx: nat, u: int)
    requires e == h + h && u == x + dx * h
    ensures Box(g, u, y, z, h, e, e) ==
      OctantSum(g, h, x, y, z, dx, 0, 0) + OctantSum(g, h, x, y, z, dx, 0, 1) +
      OctantSum(g, h, x, y, z, dx, 1, 0) + OctantSum(g, h, x, y, z, dx, 1, 1)
  {
    SplitY(g, u, y, z, h, h, h, e);
    Halves(g, x, y, z, h, e, dx, 0, u, y);
    Halves(g, x, y, z, h, e, dx, 1, u, y + h);
  }

  /** A cube is made of its eight octants. */
  lemma Octants(g: Count, x: int, y: int, z: int, h: nat, e: nat)
    requires e == h + h
    ensures Cube(g, x, y, z, e) ==
      OctantSum(g, h, x, y, z, 0, 0, 0) + OctantSum(g, h, x, y, z, 0, 0, 1) +
      OctantSum(g, h, x, y, z, 0, 1, 0) + OctantSum(g, h, x, y, z, 0, 1, 1) +
      OctantSum(g, h, x, y, z, 1, 0, 0) + OctantSum(g, h, x, y, z, 1, 0, 1) +
      OctantSum(g, h, x, y, z, 1, 1, 0) + OctantSum(g, h, x, y, z, 1, 1, 1)
  {
    SplitX(g, x, y, z, h, h, e, e);
    Quarters(g, x, y, z, h, e, 0, x);
    Quarters(g, x, y, z, h, e, 1, x + h);
  }

  lemma TrimSlices(g: Count, x: int, y: int, z: int, k: nat, n: nat)
    requires k <= n
    requires forall a, b, c :: a >= x + k || b >= y + k || c >= z + k ==> g(a, b, c) == 0
    ensures Box(g, x, y, z, k, n, n) == Cube(g, x, y, z, k)
  {
    var r := n - k;
    SplitY(g, x, y, z, k, k, r, n);
    BoxZero(g, x, y + k, z, k, r, n);
    SplitZ(g, x, y, z, k, k, k, r);
    BoxZero(g, x, y, z + k, k, k, r);
  }

  /** When the last layers in every direction count zero, the cube of edge n sums to the same as that of edge k. */
  lemma Trim(g: Count, x: int, y: int, z: int, k: nat, n: nat)
    requires k <= n
    requires forall a, b, c :: a >= x + k || b >= y + k || c >= z + k ==> g(a, b, c) == 0
    ensures Cube(g, x, y, z, n) == Cube(g, x, y, z, k)
  {
    var r := n - k;
    SplitX(g, x, y, z, k, r, n, n);
    BoxZero(g, x + k, y, z, r, n, n);
    TrimSlices(g, x, y, z, k, n);
  }
}
