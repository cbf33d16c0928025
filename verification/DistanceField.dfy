/** The scalar field of the mesh builders, the distance to the nearest point of a cloud, and why a block far from the
    surface may be skipped: evaluateFieldAt and isBlockEmpty of tree_mesh_builder.cpp, over the real numbers. */
module DistanceField {

  datatype Vec3 = Vec3(x: real, y: real, z: real)

  /** The square root is a parameter; what is used of it is only this. */
  ghost predicate IsSquareRoot(sqrt: real -> real) {
    forall v: real :: v >= 0.0 ==> sqrt(v) >= 0.0 && sqrt(v) * sqrt(v) == v
  }

  /** The points of the cloud, and the largest value a number can hold. */
  datatype Field = Field(points: seq<Vec3>, largest: real, sqrt: real -> real)

  ghost predicate ValidField(f: Field) {
    f.largest >= 0.0 && IsSquareRoot(f.sqrt)
  }

  function DistanceSquared(p: Vec3, q: Vec3): real {
    (p.x - q.x) * (p.x - q.x) + (p.y - q.y) * (p.y - q.y) + (p.z - q.z) * (p.z - q.z)
  }

  /** v is the least of the first k squared distances from p, or the largest number if all are larger. */
  ghost predicate IsNearest(f: Field, p: Vec3, k: nat, v: real)
    requires k <= |f.points|
  {
    && v <= f.largest && (forall i :: 0 <= i < k ==> v <= DistanceSquared(p, f.points[i]))
    && (v == f.largest || exists i :: 0 <= i < k && v == DistanceSquared(p, f.points[i]))
  }

  /** value is the square root of the least squared distance. */
  ghost predicate IsValueAt(f: Field, p: Vec3, value: real) {
    exists v: real :: IsNearest(f, p, |f.points|, v) && value == f.sqrt(v)
  }

  function NearestTo(f: Field, p: Vec3, k: nat): real
    requires k <= |f.points|
  {
    if k == 0 then f.largest
    else
      var d, v := DistanceSquared(p, f.points[k - 1]), NearestTo(f, p, k - 1);
      if v > d then d else v
  }

  function ValueAt(f: Field, p: Vec3): real {
    f.sqrt(NearestTo(f, p, |f.points|))
  }

  lemma {:induction false} NearestToIsNearest(f: Field, p: Vec3, k: nat)
    requires k <= |f.points|
    ensures IsNearest(f, p, k, NearestTo(f, p, k))
  {
    if k > 0 {
      NearestToIsNearest(f, p, k - 1);
    }
  }

  /** evaluateFieldAt. */
  method EvaluateFieldAt(f: Field, pos: Vec3) returns (r: real)
    ensures r == ValueAt(f, pos) && IsValueAt(f, pos, r)
  {
    var value := f.largest;
    for i := 0 to |f.points|
      invariant value == NearestTo(f, pos, i)
    {
      var distanceSquared := DistanceSquared(pos, f.points[i]);
      if value > distanceSquared {
        value := distanceSquared;
      }
    }
    NearestToIsNearest(f, pos, |f.points|);
    r := f.sqrt(value);
  }

  // ----- the triangle inequality -----

  lemma PositiveProduct(a: real, b: real)
    requires a > 0.0 && b > 0.0
    ensures a * b > 0.0
  {
  }

  lemma SquareMonotone(a: real, b: real)
    requires 0.0 <= b && a * a <= b * b
    ensures a <= b
  {
    assert (a - b) * (a + b) == a * a - b * b;
    if a > b {
      PositiveProduct(a - b, a + b);
    }
  }

  lemma ProductMonotone(a: real, b: real, c: real, d: real)
    requires 0.0 <= a <= b && 0.0 <= c <= d
    ensures a * c <= b * d
  {
    assert a * c <= b * c;
    assert b * c <= b * d;
  }

  lemma Lagrange(a: real, b: real, c: real, x: real, y: real, z: real)
    ensures (a * a + b * b + c * c) * (x * x + y * y + z * z) - (a * x + b * y + c * z) * (a * x + b * y + c * z) ==
            (a * y - b * x) * (a * y - b * x) + (a * z - c * x) * (a * z - c * x) + (b * z - c * y) * (b * z - c * y)
  {
  }

  /** Lagrange's identity in three dimensions gives the inequality of Cauchy and Schwarz. */
  lemma CauchySchwarz(a: Vec3, b: Vec3)
    ensures (a.x * b.x + a.y * b.y + a.z * b.z) * (a.x * b.x + a.y * b.y + a.z * b.z) <=
            (a.x * a.x + a.y * a.y + a.z * a.z) * (b.x * b.x + b.y * b.y + b.z * b.z)
  {
    var u, v, w := a.x * b.y - a.y * b.x, a.x * b.z - a.z * b.x, a.y * b.z - a.z * b.y;
    Lagrange(a.x, a.y, a.z, b.x, b.y, b.z);
    assert u * u + v * v + w * w >= 0.0;
  }

  lemma SquareOfProduct(e: real, f: real)
    ensures (e * f) * (e * f) == (e * e) * (f * f)
  {
  }

  /** Two vectors of lengths at most e and f have a scalar product of at most e f. */
  lemma ScalarProductBound(a: Vec3, b: Vec3, e: real, f: real, n: real, m: real, s: real)
    requires n == a.x * a.x + a.y * a.y + a.z * a.z && m == b.x * b.x + b.y * b.y + b.z * b.z
    requires s == a.x * b.x + a.y * b.y + a.z * b.z
    requires 0.0 <= e && 0.0 <= f && n <= e * e && m <= f * f
    ensures s <= e * f
  {
    CauchySchwarz(a, b);
    assert n >= 0.0 && m >= 0.0;
    ProductMonotone(n, e * e, m, f * f);
    SquareOfProduct(e, f);
    assert e * f >= 0.0;
    SquareMonotone(s, e * f);
  }

  lemma SquareOfSum(e: real, f: real)
    ensures (e + f) * (e + f) == e * e + 2.0 * (e * f) + f * f
  {
  }

  lemma SquaredDistanceOfSum(p: Vec3, q: Vec3, r: Vec3)
    ensures var a, b := Vec3(p.x - q.x, p.y - q.y, p.z - q.z), Vec3(q.x - r.x, q.y - r.y, q.z - r.z);
      DistanceSquared(p, r) ==
        DistanceSquared(p, q) + 2.0 * (a.x * b.x + a.y * b.y + a.z * b.z) + DistanceSquared(q, r)
  {
    SquareOfSum(p.x - q.x, q.x - r.x);
    SquareOfSum(p.y - q.y, q.y - r.y);
    SquareOfSum(p.z - q.z, q.z - r.z);
  }

  /** The triangle inequality, for squared distances. */
  lemma Triangle(p: Vec3, q: Vec3, r: Vec3, e: real, f: real)
    requires 0.0 <= e && 0.0 <= f && DistanceSquared(p, q) <= e * e && DistanceSquared(q, r) <= f * f
    ensures DistanceSquared(p, r) <= (e + f) * (e + f)
  {
    var a, b := Vec3(p.x - q.x, p.y - q.y, p.z - q.z), Vec3(q.x - r.x, q.y - r.y, q.z - r.z);
    ScalarProductBound(a, b, e, f, DistanceSquared(p, q), DistanceSquared(q, r), a.x * b.x + a.y * b.y + a.z * b.z);
    SquaredDistanceOfSum(p, q, r);
    SquareOfSum(e, f);
  }

  lemma DistanceNonNegative(p: Vec3, q: Vec3)
    ensures DistanceSquared(p, q) >= 0.0
  {
  }

  /** Nothing is nearer to p than what is nearest to it. */
  lemma NearestAtMost(f: Field, p: Vec3, i: nat, w: real)
    requires i < |f.points| && DistanceSquared(p, f.points[i]) <= w
    ensures NearestTo(f, p, |f.points|) <= w
  {
    NearestToIsNearest(f, p, |f.points|);
  }

  /** The point nearest to p, or -1 when every one is farther than the largest number. */
  lemma NearestPoint(f: Field, p: Vec3) returns (i: int)
    ensures -1 <= i < |f.points|
    ensures if i == -1 then NearestTo(f, p, |f.points|) == f.largest
      else DistanceSquared(p, f.points[i]) == NearestTo(f, p, |f.points|)
  {
    var v := NearestTo(f, p, |f.points|);
    NearestToIsNearest(f, p, |f.points|);
    if v == f.largest {
      i := -1;
    } else {
      i :| 0 <= i < |f.points| && v == DistanceSquared(p, f.points[i]);
    }
  }

  lemma FarthestRoot(e: real, b: real)
    requires 0.0 <= e && 0.0 <= b
    ensures b * b <= (e + b) * (e + b)
  {
    SquareOfSum(e, b);
    assert e * b >= 0.0;
  }

  /** What is nearest to p is at most as far as the distance to q and from there to the point i. */
  lemma NearestBy(f: Field, p: Vec3, q: Vec3, i: nat, e: real, b: real)
    requires i < |f.points| && 0.0 <= e && 0.0 <= b
    requires DistanceSquared(p, q) <= e * e && DistanceSquared(q, f.points[i]) <= b * b
    ensures NearestTo(f, p, |f.points|) <= (e + b) * (e + b)
  {
    Triangle(p, q, f.points[i], e, b);
    NearestAtMost(f, p, i, (e + b) * (e + b));
  }

  lemma NearestAtMostLargest(f: Field, p: Vec3, w: real)
    requires f.largest <= w
    ensures NearestTo(f, p, |f.points|) <= w
  {
    NearestToIsNearest(f, p, |f.points|);
  }

  /** What is nearest to p is at most as far as the distance to q and from there to what is nearest to q. */
  lemma NearestFallsSlowly(f: Field, p: Vec3, q: Vec3, e: real, b: real)
    requires 0.0 <= e && 0.0 <= b && DistanceSquared(p, q) <= e * e && b * b == NearestTo(f, q, |f.points|)
    ensures NearestTo(f, p, |f.points|) <= (e + b) * (e + b)
  {
    var i := NearestPoint(f, q);
    if i == -1 {
      FarthestRoot(e, b);
      NearestAtMostLargest(f, p, (e + b) * (e + b));
    } else {
      NearestBy(f, p, q, i, e, b);
    }
  }

  lemma NearestNonNegative(f: Field, p: Vec3)
    requires f.largest >= 0.0
    ensures NearestTo(f, p, |f.points|) >= 0.0
  {
    var i := NearestPoint(f, p);
    if i != -1 {
      DistanceNonNegative(p, f.points[i]);
    }
  }

  lemma RootAtMost(a: real, e: real, b: real, u: real)
    requires 0.0 <= e && 0.0 <= b && a * a == u && u <= (e + b) * (e + b)
    ensures a <= b + e
  {
    SquareMonotone(a, e + b);
  }

  lemma Root(f: Field, v: real)
    requires ValidField(f) && v >= 0.0
    ensures f.sqrt(v) >= 0.0 && f.sqrt(v) * f.sqrt(v) == v
  {
  }

  lemma RootFallsSlowly(f: Field, p: Vec3, q: Vec3, e: real, a: real, b: real)
    requires 0.0 <= e && 0.0 <= a && 0.0 <= b && DistanceSquared(p, q) <= e * e
    requires a * a == NearestTo(f, p, |f.points|) && b * b == NearestTo(f, q, |f.points|)
    ensures a <= b + e
  {
    NearestFallsSlowly(f, p, q, e, b);
    RootAtMost(a, e, b, a * a);
  }

  /** The value of the field is the root of the least squared distance. */
  lemma ValueIsRoot(f: Field, p: Vec3, a: real)
    requires ValidField(f) && a == ValueAt(f, p)
    ensures 0.0 <= a && a * a == NearestTo(f, p, |f.points|)
  {
    NearestNonNegative(f, p);
    Root(f, NearestTo(f, p, |f.points|));
  }

  /** From one place to another at distance at most e the field falls by no more than e. */
  lemma FieldFallsSlowly(f: Field, p: Vec3, q: Vec3, e: real, a: real, b: real)
    requires ValidField(f) && e >= 0.0 && DistanceSquared(p, q) <= e * e
    requires a == ValueAt(f, p) && b == ValueAt(f, q)
    ensures a <= b + e
  {
    ValueIsRoot(f, p, a);
    ValueIsRoot(f, q, b);
    RootFallsSlowly(f, p, q, e, a, b);
  }

  // ----- blocks -----

  function Coordinate(x: int, resolution: real): real {
    x as real * resolution
  }

  /** The point with the given grid coordinates. */
  function GridPoint(x: int, y: int, z: int, resolution: real): Vec3 {
    Vec3(Coordinate(x, resolution), Coordinate(y, resolution), Coordinate(z, resolution))
  }

  /** The middle of the block of the given edge length, in grid units, whose lowest corner has these coordinates. */
  function MidPoint(x: int, y: int, z: int, edgeLen: real, resolution: real): Vec3 {
    var half := edgeLen / 2.0;
    Vec3(Coordinate(x, resolution) + half, Coordinate(y, resolution) + half, Coordinate(z, resolution) + half)
  }

  /** p lies in the block. */
  predicate InBlock(p: Vec3, x: int, y: int, z: int, edgeLen: real, resolution: real) {
    && Coordinate(x, resolution) <= p.x <= Coordinate(x, resolution) + edgeLen
    && Coordinate(y, resolution) <= p.y <= Coordinate(y, resolution) + edgeLen
    && Coordinate(z, resolution) <= p.z <= Coordinate(z, resolution) + edgeLen
  }

  lemma BoundedSquare(d: real, h: real)
    requires -h <= d <= h
    ensures d * d <= h * h
  {
    assert (h - d) * (h + d) == h * h - d * d;
    assert (h - d) * (h + d) >= 0.0;
  }

  /** A coordinate within the block is at most half an edge from that of the middle. */
  lemma CoordinateNearMiddle(low: real, edgeLen: real, c: real, m: real, hh: real)
    requires low <= c <= low + edgeLen && m == low + edgeLen / 2.0 && hh == edgeLen / 2.0 * (edgeLen / 2.0)
    ensures (m - c) * (m - c) <= hh
  {
    BoundedSquare(m - c, edgeLen / 2.0);
  }

  /** The factor of isBlockEmpty: half the diagonal of a cube of edge one. */
  lemma HalfDiagonal(s: real, edgeLen: real, e: real, hh: real)
    requires s * s == 3.0 && e == s / 2.0 * edgeLen && hh == edgeLen / 2.0 * (edgeLen / 2.0)
    ensures e * e == hh + hh + hh
  {
    var half := edgeLen / 2.0;
    assert e == s * half;
    SquareOfProduct(s, half);
    assert e * e == (s * s) * (half * half);
  }

  /** Three coordinates at most h apart give a squared distance of at most 3 h h. */
  lemma NearInEachCoordinate(p: Vec3, q: Vec3, hh: real, w: real)
    requires (p.x - q.x) * (p.x - q.x) <= hh && (p.y - q.y) * (p.y - q.y) <= hh && (p.z - q.z) * (p.z - q.z) <= hh
    requires w == hh + hh + hh
    ensures DistanceSquared(p, q) <= w
  {
  }

  /** Every point of a block is within half the diagonal of its middle. */
  lemma BlockAroundMiddle(x: int, y: int, z: int, resolution: real, edgeLen: real, mid: Vec3, p: Vec3, s: real, e: real)
    requires InBlock(p, x, y, z, edgeLen, resolution) && s * s == 3.0 && e == s / 2.0 * edgeLen
    requires mid == MidPoint(x, y, z, edgeLen, resolution)
    ensures DistanceSquared(mid, p) <= e * e
  {
    var hh := edgeLen / 2.0 * (edgeLen / 2.0);
    CoordinateNearMiddle(Coordinate(x, resolution), edgeLen, p.x, mid.x, hh);
    CoordinateNearMiddle(Coordinate(y, resolution), edgeLen, p.y, mid.y, hh);
    CoordinateNearMiddle(Coordinate(z, resolution), edgeLen, p.z, mid.z, hh);
    HalfDiagonal(s, edgeLen, e, hh);
    NearInEachCoordinate(mid, p, hh, e * e);
  }

  /** What the field at the middle of an empty block must exceed the iso level by. */
  function Margin(f: Field, edgeLen: real): real {
    f.sqrt(3.0) / 2.0 * edgeLen
  }

  /** isBlockEmpty. */
  function BlockEmpty(f: Field, isoLevel: real, edgeLen: real, x: int, y: int, z: int, resolution: real): bool {
    ValueAt(f, MidPoint(x, y, z, edgeLen, resolution)) > isoLevel + Margin(f, edgeLen)
  }

  lemma MarginIs(f: Field, edgeLen: real, multiplier: real)
    requires multiplier == f.sqrt(3.0) / 2.0
    ensures multiplier * edgeLen == Margin(f, edgeLen)
  {
  }

  method IsBlockEmpty(f: Field, isoLevel: real, resolution: real, edgeLen: real, x: int, y: int, z: int)
    returns (empty: bool)
    ensures empty == BlockEmpty(f, isoLevel, edgeLen, x, y, z, resolution)
  {
    var multiplier := f.sqrt(3.0) / 2.0;
    var halfEdgeLen := edgeLen / 2.0;
    var midPoint := Vec3(Coordinate(x, resolution) + halfEdgeLen, Coordinate(y, resolution) + halfEdgeLen,
      Coordinate(z, resolution) + halfEdgeLen);
    MarginIs(f, edgeLen, multiplier);
    var value := EvaluateFieldAt(f, midPoint);
    empty := value > isoLevel + multiplier * edgeLen;
  }

  lemma MarginNonNegative(f: Field, edgeLen: real)
    requires ValidField(f) && edgeLen >= 0.0
    ensures Margin(f, edgeLen) >= 0.0
  {
    Root(f, 3.0);
  }

  /** Every point of a block is within the margin of its middle. */
  lemma WithinMargin(f: Field, x: int, y: int, z: int, resolution: real, edgeLen: real, mid: Vec3, p: Vec3, e: real)
    requires ValidField(f) && InBlock(p, x, y, z, edgeLen, resolution) && e == Margin(f, edgeLen)
    requires mid == MidPoint(x, y, z, edgeLen, resolution)
    ensures DistanceSquared(mid, p) <= e * e
  {
    Root(f, 3.0);
    BlockAroundMiddle(x, y, z, resolution, edgeLen, mid, p, f.sqrt(3.0), e);
  }

  /** Far above the iso level at one place means above it nearby. */
  lemma AboveNearby(f: Field, isoLevel: real, mid: Vec3, p: Vec3, e: real)
    requires ValidField(f) && e >= 0.0 && DistanceSquared(mid, p) <= e * e && ValueAt(f, mid) > isoLevel + e
    ensures ValueAt(f, p) > isoLevel
  {
    FieldFallsSlowly(f, mid, p, e, ValueAt(f, mid), ValueAt(f, p));
  }

  /** In a block that is found empty the field exceeds the iso level everywhere. */
  lemma EmptyBlockIsAbove(f: Field, isoLevel: real, edgeLen: real, x: int, y: int, z: int, resolution: real, p: Vec3)
    requires ValidField(f) && edgeLen >= 0.0 && BlockEmpty(f, isoLevel, edgeLen, x, y, z, resolution)
    requires InBlock(p, x, y, z, edgeLen, resolution)
    ensures ValueAt(f, p) > isoLevel
  {
    var e := Margin(f, edgeLen);
    var mid := MidPoint(x, y, z, edgeLen, resolution);
    MarginNonNegative(f, edgeLen);
    WithinMargin(f, x, y, z, resolution, edgeLen, mid, p, e);
    AboveNearby(f, isoLevel, mid, p, e);
  }

  // ----- the test skips whatever may be skipped -----

  /** No cloud with this value at the middle of the block has a point of the block that is not above the iso level. */
  ghost predicate AlwaysAbove(f: Field, value: real, isoLevel: real, edgeLen: real, x: int, y: int, z: int,
                              resolution: real)
  {
    forall points: seq<Vec3>, largest: real, p: Vec3 ::
      ValidField(Field(points, largest, f.sqrt)) && InBlock(p, x, y, z, edgeLen, resolution)
      && ValueAt(Field(points, largest, f.sqrt), MidPoint(x, y, z, edgeLen, resolution)) == value ==>
        ValueAt(Field(points, largest, f.sqrt), p) > isoLevel
  }

  lemma RootOfSquare(f: Field, v: real)
    requires ValidField(f) && v >= 0.0
    ensures f.sqrt(v * v) == v
  {
    Root(f, v * v);
    SquareMonotone(v, f.sqrt(v * v));
    SquareMonotone(f.sqrt(v * v), v);
  }

  /** The point that is off in each coordinate by d. */
  function Shifted(p: Vec3, d: real): Vec3 {
    Vec3(p.x + d, p.y + d, p.z + d)
  }

  lemma ShiftedApart(p: Vec3, d: real, e: real, s: real, v: real)
    requires s * s == 3.0 && v == s * (e - d)
    ensures DistanceSquared(Shifted(p, d), Shifted(p, e)) == v * v
  {
    SquareOfProduct(s, e - d);
    assert (d - e) * (d - e) == (e - d) * (e - d);
  }

  lemma SmallerSquare(a: real, b: real)
    requires 0.0 <= a <= b
    ensures a * a <= b * b
  {
    ProductMonotone(a, b, a, b);
  }

  /** The field of a single point, where that is near enough. */
  lemma ValueOfOnePoint(f: Field, q: Vec3, largest: real, p: Vec3, v: real)
    requires ValidField(f) && v >= 0.0 && DistanceSquared(p, q) == v * v && v * v <= largest
    ensures ValueAt(Field([q], largest, f.sqrt), p) == v
  {
    var f' := Field([q], largest, f.sqrt);
    assert NearestTo(f', p, 0) == largest;
    assert NearestTo(f', p, 1) == v * v;
    RootOfSquare(f, v);
  }

  lemma QuotientAtMost(a: real, s: real, edgeLen: real)
    requires s > 0.0 && a <= s / 2.0 * edgeLen
    ensures a / s <= edgeLen / 2.0
  {
    var q := a / s;
    assert q * s == a;
    assert s / 2.0 * edgeLen == s * (edgeLen / 2.0);
    assert (q - edgeLen / 2.0) * s == q * s - s * (edgeLen / 2.0);
  }

  lemma RootOfThree(f: Field)
    requires ValidField(f)
    ensures f.sqrt(3.0) > 0.0 && f.sqrt(3.0) * f.sqrt(3.0) == 3.0
  {
    Root(f, 3.0);
  }

  lemma NotFarAbove(f: Field, isoLevel: real, edgeLen: real, x: int, y: int, z: int, resolution: real, v: real)
    requires ValidField(f) && edgeLen >= 0.0 && 0.0 <= isoLevel < v <= isoLevel + Margin(f, edgeLen)
    ensures !AlwaysAbove(f, v, isoLevel, edgeLen, x, y, z, resolution)
  {
    var s, mid := f.sqrt(3.0), MidPoint(x, y, z, edgeLen, resolution);
    RootOfThree(f);
    var t, w := v / s, (v - isoLevel) / s;
    assert t * s == v && w * s == v - isoLevel;
    QuotientAtMost(v - isoLevel, s, edgeLen);
    var p, q := Shifted(mid, w), Shifted(mid, t);
    assert Shifted(mid, 0.0) == mid;
    ShiftedApart(mid, 0.0, t, s, v);
    assert s * (t - w) == isoLevel;
    ShiftedApart(mid, w, t, s, isoLevel);
    SmallerSquare(isoLevel, v);
    ValueOfOnePoint(f, q, v * v, mid, v);
    ValueOfOnePoint(f, q, v * v, p, isoLevel);
    assert InBlock(p, x, y, z, edgeLen, resolution);
    assert ValidField(Field([q], v * v, f.sqrt));
  }

  /** A block is found empty exactly when the value at its middle rules out that a point of the block is not above the
      iso level; no test of that value could skip more. */
  lemma EmptyExactly(f: Field, isoLevel: real, edgeLen: real, x: int, y: int, z: int, resolution: real)
    requires ValidField(f) && edgeLen >= 0.0 && isoLevel >= 0.0
    ensures BlockEmpty(f, isoLevel, edgeLen, x, y, z, resolution) <==>
            AlwaysAbove(f, ValueAt(f, MidPoint(x, y, z, edgeLen, resolution)), isoLevel, edgeLen, x, y, z, resolution)
  {
    var mid := MidPoint(x, y, z, edgeLen, resolution);
    var v := ValueAt(f, mid);
    if BlockEmpty(f, isoLevel, edgeLen, x, y, z, resolution) {
      forall points: seq<Vec3>, largest: real, p: Vec3
        | ValidField(Field(points, largest, f.sqrt)) && InBlock(p, x, y, z, edgeLen, resolution)
          && ValueAt(Field(points, largest, f.sqrt), mid) == v
        ensures ValueAt(Field(points, largest, f.sqrt), p) > isoLevel
      {
        EmptyBlockIsAbove(Field(points, largest, f.sqrt), isoLevel, edgeLen, x, y, z, resolution, p);
      }
    } else if v > isoLevel {
      NotFarAbove(f, isoLevel, edgeLen, x, y, z, resolution, v);
    } else {
      assert InBlock(mid, x, y, z, edgeLen, resolution) && f == Field(f.points, f.largest, f.sqrt);
    }
  }

  lemma CoordinateInBlock(x: int, i: int, l: nat, resolution: real, edgeLen: real)
    requires x <= i <= x + l && resolution > 0.0 && edgeLen == l as real * resolution
    ensures edgeLen >= 0.0 &&
            Coordinate(x, resolution) <= Coordinate(i, resolution) <= Coordinate(x, resolution) + edgeLen
  {
    var k := (i - x) as real;
    assert i as real == x as real + k;
    assert i as real * resolution == x as real * resolution + k * resolution;
    assert 0.0 <= k <= l as real;
    assert 0.0 <= k * resolution;
    assert k * resolution <= l as real * resolution;
  }

  /** So it does at every grid point of the block. */
  lemma EmptyBlockGridPoint(f: Field, isoLevel: real, l: nat, edgeLen: real, x: int, y: int, z: int, resolution: real,
      i: int, j: int, k: int)
    requires ValidField(f) && resolution > 0.0 && edgeLen == l as real * resolution
    requires BlockEmpty(f, isoLevel, edgeLen, x, y, z, resolution)
    requires x <= i <= x + l && y <= j <= y + l && z <= k <= z + l
    ensures ValueAt(f, GridPoint(i, j, k, resolution)) > isoLevel
  {
    CoordinateInBlock(x, i, l, resolution, edgeLen);
    CoordinateInBlock(y, j, l, resolution, edgeLen);
    CoordinateInBlock(z, k, l, resolution, edgeLen);
    EmptyBlockIsAbove(f, isoLevel, edgeLen, x, y, z, resolution, GridPoint(i, j, k, resolution));
  }
}
