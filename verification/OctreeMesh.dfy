/** The octree traversal of tree_mesh_builder.cpp against the triple loop of loop_mesh_builder.cpp: what it leaves
    out, what it visits, and when the two count the same triangles. */
module OctreeMesh {
  import opened GridSums
  import opened DistanceField

  /** The largest edge of a block that is not divided. */
  const EDGE_LEN_CUTOFF: nat := 1

  /** What the traversal reads: the field, the iso level, the edge of a grid cube and the number of triangles that
      building a cube makes. */
  datatype Mesh = Mesh(field: Field, isoLevel: real, resolution: real, triangles: Count)

  /** The block of that edge length, in cubes, at that corner is skipped. */
  type Skip = (nat, int, int, int) -> bool

  /** The length of an edge of l cubes. */
  function GridEdge(m: Mesh, l: nat): real {
    l as real * m.resolution
  }

  /** isBlockEmpty finds the block of edge l at (x, y, z) empty. */
  predicate EmptyAt(m: Mesh, l: nat, x: int, y: int, z: int) {
    BlockEmpty(m.field, m.isoLevel, GridEdge(m, l), x, y, z, m.resolution)
  }

  function Skipped(m: Mesh): Skip {
    (l: nat, x: int, y: int, z: int) => EmptyAt(m, l, x, y, z)
  }

  lemma SkippedWhenEmpty(m: Mesh, l: nat, x: int, y: int, z: int)
    ensures Skipped(m)(l, x, y, z) == BlockEmpty(m.field, m.isoLevel, GridEdge(m, l), x, y, z, m.resolution)
  {
    assert Skipped(m)(l, x, y, z) == EmptyAt(m, l, x, y, z);
  }

  // ----- the two builders -----

  /** marchCubes of the loop builder. */
  method MarchLoop(m: Mesh, gridSize: nat) returns (totalTriangles: nat)
    ensures totalTriangles == Cube(m.triangles, 0, 0, 0, gridSize)
  {
    totalTriangles := 0;
    for x := 0 to gridSize
      invariant totalTriangles == Box(m.triangles, 0, 0, 0, x, gridSize, gridSize)
    {
      ghost var before := totalTriangles;
      for y := 0 to gridSize
        invariant totalTriangles == before + Slice(m.triangles, x, 0, 0, y, gridSize)
      {
        ghost var row := totalTriangles;
        for z := 0 to gridSize
          invariant totalTriangles == row + Line(m.triangles, x, y, 0, z)
        {
          totalTriangles := totalTriangles + m.triangles(x, y, z);
        }
      }
    }
  }

  /** The octant of edge h of the block at (x, y, z), in direction (dx, dy, dz). */
  function Octant(g: Count, skip: Skip, h: nat, x: int, y: int, z: int, dx: nat, dy: nat, dz: nat): nat
    decreases h, 1
  {
    Traversal(g, skip, h, x + dx * h, y + dy * h, z + dz * h)
  }

  /** What the traversal of a block adds up. */
  function Traversal(g: Count, skip: Skip, l: nat, x: int, y: int, z: int): nat
    decreases l, 0
  {
    if l <= EDGE_LEN_CUTOFF then Cube(g, x, y, z, l)
    else if skip(l, x, y, z) then 0
    else
      var h := l / 2;
      Octant(g, skip, h, x, y, z, 0, 0, 0) + Octant(g, skip, h, x, y, z, 0, 0, 1) +
      Octant(g, skip, h, x, y, z, 0, 1, 0) + Octant(g, skip, h, x, y, z, 0, 1, 1) +
      Octant(g, skip, h, x, y, z, 1, 0, 0) + Octant(g, skip, h, x, y, z, 1, 0, 1) +
      Octant(g, skip, h, x, y, z, 1, 1, 0) + Octant(g, skip, h, x, y, z, 1, 1, 1)
  }

  /** The serial loops below the cutoff. */
  method TraverseSerially(m: Mesh, currentEdgeLen: nat, blockX: int, blockY: int, blockZ: int)
    returns (totalTriangles: nat)
    requires currentEdgeLen <= EDGE_LEN_CUTOFF
    ensures totalTriangles == Cube(m.triangles, blockX, blockY, blockZ, currentEdgeLen)
  {
    totalTriangles := 0;
    for x := 0 to currentEdgeLen
      invariant totalTriangles == Box(m.triangles, blockX, blockY, blockZ, x, currentEdgeLen, currentEdgeLen)
    {
      ghost var before := totalTriangles;
      for y := 0 to currentEdgeLen
        invariant totalTriangles == before + Slice(m.triangles, blockX + x, blockY, blockZ, y, currentEdgeLen)
      {
        ghost var row := totalTriangles;
        for z := 0 to currentEdgeLen
          invariant totalTriangles == row + Line(m.triangles, blockX + x, blockY + y, blockZ, z)
        {
          var cx, cy, cz := blockX * currentEdgeLen + x, blockY * currentEdgeLen + y, blockZ * currentEdgeLen + z;
          totalTriangles := totalTriangles + m.triangles(cx, cy, cz);
        }
      }
    }
  }

  lemma TraversalOfSkipped(g: Count, skip: Skip, l: nat, x: int, y: int, z: int)
    requires l > 1 && skip(l, x, y, z)
    ensures Traversal(g, skip, l, x, y, z) == 0
  {
  }

  lemma OctantIs(g: Count, skip: Skip, h: nat, x: int, y: int, z: int, dx: nat, dy: nat, dz: nat, u: int, v: int,
                 w: int)
    requires u == x + dx * h && v == y + dy * h && w == z + dz * h
    ensures Octant(g, skip, h, x, y, z, dx, dy, dz) == Traversal(g, skip, h, u, v, w)
  {
  }

  /** doBlock: the octant in direction (dx, dy, dz) of a block. */
  method DoBlock(m: Mesh, totalTriangles: nat, edgeLen: nat, blockX: int, blockY: int, blockZ: int, dx: nat, dy: nat,
                 dz: nat)
    returns (r: nat)
    ensures r == totalTriangles + Octant(m.triangles, Skipped(m), edgeLen, blockX, blockY, blockZ, dx, dy, dz)
    decreases edgeLen, 1
  {
    var x, y, z := blockX + dx * edgeLen, blockY + dy * edgeLen, blockZ + dz * edgeLen;
    var divisionResult := OctreeTraverse(m, edgeLen, x, y, z);
    OctantIs(m.triangles, Skipped(m), edgeLen, blockX, blockY, blockZ, dx, dy, dz, x, y, z);
    r := totalTriangles + divisionResult;
  }

  lemma TraversalOctants(g: Count, skip: Skip, l: nat, x: int, y: int, z: int, h: nat)
    requires l > 1 && !skip(l, x, y, z) && h == l / 2
    ensures Traversal(g, skip, l, x, y, z) ==
      Octant(g, skip, h, x, y, z, 0, 0, 0) + Octant(g, skip, h, x, y, z, 0, 0, 1) +
      Octant(g, skip, h, x, y, z, 0, 1, 0) + Octant(g, skip, h, x, y, z, 0, 1, 1) +
      Octant(g, skip, h, x, y, z, 1, 0, 0) + Octant(g, skip, h, x, y, z, 1, 0, 1) +
      Octant(g, skip, h, x, y, z, 1, 1, 0) + Octant(g, skip, h, x, y, z, 1, 1, 1)
  {
  }

  /** octreeTraverse. */
  method OctreeTraverse(m: Mesh, currentEdgeLen: nat, blockX: int, blockY: int, blockZ: int)
    returns (totalTriangles: nat)
    ensures totalTriangles == Traversal(m.triangles, Skipped(m), currentEdgeLen, blockX, blockY, blockZ)
    decreases currentEdgeLen, 0
  {
    if currentEdgeLen <= EDGE_LEN_CUTOFF {
      totalTriangles := TraverseSerially(m, currentEdgeLen, blockX, blockY, blockZ);
      return;
    }
    var edgeLenInGridSpace := GridEdge(m, currentEdgeLen);
    var empty := IsBlockEmpty(m.field, m.isoLevel, m.resolution, edgeLenInGridSpace, blockX, blockY, blockZ);
    SkippedWhenEmpty(m, currentEdgeLen, blockX, blockY, blockZ);
    if empty {
      TraversalOfSkipped(m.triangles, Skipped(m), currentEdgeLen, blockX, blockY, blockZ);
      return 0;
    }
    var divisionEdgeLen := currentEdgeLen / 2;
    totalTriangles := 0;
    totalTriangles := DoBlock(m, totalTriangles, divisionEdgeLen, blockX, blockY, blockZ, 0, 0, 0);
    totalTriangles := DoBlock(m, totalTriangles, divisionEdgeLen, blockX, blockY, blockZ, 0, 0, 1);
    totalTriangles := DoBlock(m, totalTriangles, divisionEdgeLen, blockX, blockY, blockZ, 0, 1, 0);
    totalTriangles := DoBlock(m, totalTriangles, divisionEdgeLen, blockX, blockY, blockZ, 0, 1, 1);
    totalTriangles := DoBlock(m, totalTriangles, divisionEdgeLen, blockX, blockY, blockZ, 1, 0, 0);
    totalTriangles := DoBlock(m, totalTriangles, divisionEdgeLen, blockX, blockY, blockZ, 1, 0, 1);
    totalTriangles := DoBlock(m, totalTriangles, divisionEdgeLen, blockX, blockY, blockZ, 1, 1, 0);
    totalTriangles := DoBlock(m, totalTriangles, divisionEdgeLen, blockX, blockY, blockZ, 1, 1, 1);
    TraversalOctants(m.triangles, Skipped(m), currentEdgeLen, blockX, blockY, blockZ, divisionEdgeLen);
  }

  // ----- which cubes are reached -----

  /** Halving the edge down to one leads to the i-th cube along an axis; an odd edge loses its last one each time. */
  predicate Covered(l: nat, i: int) {
    if l <= 1 then 0 <= i < l
    else var h := l / 2; Covered(h, i) || Covered(h, i - h)
  }

  predicate PowerOfTwo(l: nat) {
    l == 1 || (l > 1 && l % 2 == 0 && PowerOfTwo(l / 2))
  }

  lemma {:induction false} CoveredWithin(l: nat, i: int)
    requires Covered(l, i)
    ensures 0 <= i < l && (l > 1 ==> i < l / 2 + l / 2)
  {
    if l > 1 {
      var h := l / 2;
      if Covered(h, i) {
        CoveredWithin(h, i);
      } else {
        CoveredWithin(h, i - h);
      }
    }
  }

  /** Of the two halves, only one leads to a cube. */
  lemma CoveredHalf(l: nat, i: int)
    requires l > 1
    ensures var h := l / 2;
      && (0 <= i < h ==> Covered(l, i) == Covered(h, i))
      && (h <= i < h + h ==> Covered(l, i) == Covered(h, i - h))
      && (i < 0 || i >= h + h ==> !Covered(l, i))
  {
    var h := l / 2;
    if Covered(h, i) {
      CoveredWithin(h, i);
    }
    if Covered(h, i - h) {
      CoveredWithin(h, i - h);
    }
  }

  lemma {:induction false} CoversPowers(l: nat, i: int)
    requires PowerOfTwo(l) && 0 <= i < l
    ensures Covered(l, i)
  {
    if l > 1 {
      CoversPowers(l / 2, if i < l / 2 then i else i - l / 2);
    }
  }

  lemma {:induction false} MissesLast(l: nat)
    requires l > 0 && !PowerOfTwo(l)
    ensures !Covered(l, l - 1)
  {
    CoveredHalf(l, l - 1);
    if l % 2 == 0 {
      MissesLast(l / 2);
    }
  }

  /** The traversal reaches all cubes along an axis exactly when the edge is a power of two (or there are none). */
  lemma CoversAll(l: nat)
    ensures (forall i :: 0 <= i < l ==> Covered(l, i)) <==> l == 0 || PowerOfTwo(l)
  {
    if PowerOfTwo(l) {
      forall i | 0 <= i < l ensures Covered(l, i) {
        CoversPowers(l, i);
      }
    } else if l > 0 {
      MissesLast(l);
    }
  }

  /** The counts of the cubes of a block that the traversal reaches when it skips nothing. */
  function Reached(g: Count, l: nat, x: int, y: int, z: int): Count {
    (a, b, c) => if Covered(l, a - x) && Covered(l, b - y) && Covered(l, c - z) then g(a, b, c) else 0
  }

  function NotReached(g: Count, l: nat, x: int, y: int, z: int): Count {
    (a, b, c) => if Covered(l, a - x) && Covered(l, b - y) && Covered(l, c - z) then 0 else g(a, b, c)
  }

  /** Blocks are skipped only where no cube makes triangles. */
  ghost predicate SkipIsSound(g: Count, skip: Skip) {
    forall l: nat, x, y, z, a, b, c ::
      skip(l, x, y, z) && Inside(a, x, l) && Inside(b, y, l) && Inside(c, z, l) ==> g(a, b, c) == 0
  }

  /** What is reached lies in the eight octants. */
  lemma ReachedOctants(g: Count, l: nat, x: int, y: int, z: int, h: nat)
    requires l > 1 && h == l / 2
    ensures var r := Reached(g, l, x, y, z);
      Cube(r, x, y, z, l) ==
        OctantSum(r, h, x, y, z, 0, 0, 0) + OctantSum(r, h, x, y, z, 0, 0, 1) +
        OctantSum(r, h, x, y, z, 0, 1, 0) + OctantSum(r, h, x, y, z, 0, 1, 1) +
        OctantSum(r, h, x, y, z, 1, 0, 0) + OctantSum(r, h, x, y, z, 1, 0, 1) +
        OctantSum(r, h, x, y, z, 1, 1, 0) + OctantSum(r, h, x, y, z, 1, 1, 1)
  {
    var r, e := Reached(g, l, x, y, z), h + h;
    forall a, b, c | a >= x + e || b >= y + e || c >= z + e ensures r(a, b, c) == 0 {
      CoveredHalf(l, a - x);
      CoveredHalf(l, b - y);
      CoveredHalf(l, c - z);
    }
    Trim(r, x, y, z, e, l);
    Octants(r, x, y, z, h, e);
  }

  lemma CoveredOctant(l: nat, h: nat, x: int, d: nat, i: int)
    requires l > 1 && h == l / 2 && d <= 1 && Inside(i, x + d * h, h)
    ensures Covered(h, i - (x + d * h)) == Covered(l, i - x)
  {
    CoveredHalf(l, i - x);
  }

  lemma ReachedAgrees(g: Count, l: nat, x: int, y: int, z: int, h: nat, dx: nat, dy: nat, dz: nat, u: int, v: int,
                      w: int)
    requires l > 1 && h == l / 2 && dx <= 1 && dy <= 1 && dz <= 1
    requires u == x + dx * h && v == y + dy * h && w == z + dz * h
    ensures Cube(Reached(g, h, u, v, w), u, v, w, h) == Cube(Reached(g, l, x, y, z), u, v, w, h)
  {
    var whole, part := Reached(g, l, x, y, z), Reached(g, h, u, v, w);
    forall a, b, c | Inside(a, u, h) && Inside(b, v, h) && Inside(c, w, h) ensures part(a, b, c) == whole(a, b, c) {
      CoveredOctant(l, h, x, dx, a);
      CoveredOctant(l, h, y, dy, b);
      CoveredOctant(l, h, z, dz, c);
    }
    BoxAgree(part, whole, u, v, w, h, h, h);
  }

  lemma {:induction false} OctantTotal(g: Count, skip: Skip, l: nat, x: int, y: int, z: int, h: nat, dx: nat, dy: nat,
                                       dz: nat)
    requires SkipIsSound(g, skip) && l > 1 && h == l / 2 && dx <= 1 && dy <= 1 && dz <= 1
    ensures Octant(g, skip, h, x, y, z, dx, dy, dz) ==
      OctantSum(Reached(g, l, x, y, z), h, x, y, z, dx, dy, dz)
    decreases h, 1
  {
    var u, v, w := x + dx * h, y + dy * h, z + dz * h;
    TraversalTotal(g, skip, h, u, v, w);
    ReachedAgrees(g, l, x, y, z, h, dx, dy, dz, u, v, w);
    OctantIs(g, skip, h, x, y, z, dx, dy, dz, u, v, w);
    OctantAt(Reached(g, l, x, y, z), h, x, y, z, dx, dy, dz, u, v, w);
  }

  /** The traversal adds up exactly the cubes that it reaches when it skips nothing. */
  lemma {:induction false} TraversalTotal(g: Count, skip: Skip, l: nat, x: int, y: int, z: int)
    requires SkipIsSound(g, skip)
    ensures Traversal(g, skip, l, x, y, z) == Cube(Reached(g, l, x, y, z), x, y, z, l)
    decreases l, 0
  {
    var reached := Reached(g, l, x, y, z);
    if l <= EDGE_LEN_CUTOFF {
      BoxAgree(reached, g, x, y, z, l, l, l);
    } else if skip(l, x, y, z) {
      BoxZero(reached, x, y, z, l, l, l);
    } else {
      var h := l / 2;
      OctantTotal(g, skip, l, x, y, z, h, 0, 0, 0);
      OctantTotal(g, skip, l, x, y, z, h, 0, 0, 1);
      OctantTotal(g, skip, l, x, y, z, h, 0, 1, 0);
      OctantTotal(g, skip, l, x, y, z, h, 0, 1, 1);
      OctantTotal(g, skip, l, x, y, z, h, 1, 0, 0);
      OctantTotal(g, skip, l, x, y, z, h, 1, 0, 1);
      OctantTotal(g, skip, l, x, y, z, h, 1, 1, 0);
      OctantTotal(g, skip, l, x, y, z, h, 1, 1, 1);
      ReachedOctants(g, l, x, y, z, h);
      TraversalOctants(g, skip, l, x, y, z, h);
    }
  }

  // ----- the two totals -----

  /** The traversal and the loop count the same triangles. */
  predicate SameTotal(m: Mesh, l: nat) {
    Traversal(m.triangles, Skipped(m), l, 0, 0, 0) == Cube(m.triangles, 0, 0, 0, l)
  }

  predicate CubeReached(l: nat, a: int, b: int, c: int) {
    Covered(l, a) && Covered(l, b) && Covered(l, c)
  }

  /** The grid points at which the field exceeds the iso level. */
  function Above(m: Mesh): (int, int, int) -> bool {
    (i, j, k) => ValueAt(m.field, GridPoint(i, j, k, m.resolution)) > m.isoLevel
  }

  /** All grid points of a block are above; those of a cube are its eight corners. */
  ghost predicate AllAbove(above: (int, int, int) -> bool, l: nat, x: int, y: int, z: int) {
    forall i, j, k :: x <= i <= x + l && y <= j <= y + l && z <= k <= z + l ==> above(i, j, k)
  }

  /** Building a cube makes no triangle when its corners are all above the iso level. */
  ghost predicate NoTriangleAbove(g: Count, above: (int, int, int) -> bool) {
    forall x, y, z :: AllAbove(above, 1, x, y, z) ==> g(x, y, z) == 0
  }

  ghost predicate ValidMesh(m: Mesh) {
    ValidField(m.field) && m.resolution > 0.0 && NoTriangleAbove(m.triangles, Above(m))
  }

  lemma NoTriangleInBlock(g: Count, above: (int, int, int) -> bool, l: nat, x: int, y: int, z: int, a: int, b: int,
                          c: int)
    requires NoTriangleAbove(g, above) && AllAbove(above, l, x, y, z)
    requires Inside(a, x, l) && Inside(b, y, l) && Inside(c, z, l)
    ensures g(a, b, c) == 0
  {
    assert AllAbove(above, 1, a, b, c);
  }

  lemma EmptyBlockPoint(m: Mesh, l: nat, x: int, y: int, z: int, i: int, j: int, k: int)
    requires ValidField(m.field) && m.resolution > 0.0 && EmptyAt(m, l, x, y, z)
    requires x <= i <= x + l && y <= j <= y + l && z <= k <= z + l
    ensures Above(m)(i, j, k)
  {
    EmptyBlockGridPoint(m.field, m.isoLevel, l, GridEdge(m, l), x, y, z, m.resolution, i, j, k);
  }

  lemma EmptyBlockAllAbove(m: Mesh, l: nat, x: int, y: int, z: int)
    requires ValidField(m.field) && m.resolution > 0.0 && Skipped(m)(l, x, y, z)
    ensures AllAbove(Above(m), l, x, y, z)
  {
    SkippedWhenEmpty(m, l, x, y, z);
    forall i, j, k | x <= i <= x + l && y <= j <= y + l && z <= k <= z + l ensures Above(m)(i, j, k) {
      EmptyBlockPoint(m, l, x, y, z, i, j, k);
    }
  }

  /** The value at the middle of a block with edges of length e shows that all of its points are above the iso level. */
  ghost predicate ShownAbove(m: Mesh, e: real, x: int, y: int, z: int) {
    AlwaysAbove(m.field, ValueAt(m.field, MidPoint(x, y, z, e, m.resolution)), m.isoLevel, e, x, y, z, m.resolution)
  }

  /** A block is skipped exactly then. */
  lemma SkippedExactly(m: Mesh, l: nat, x: int, y: int, z: int, e: real)
    requires ValidField(m.field) && m.resolution > 0.0 && m.isoLevel >= 0.0 && e == l as real * m.resolution
    ensures Skipped(m)(l, x, y, z) <==> ShownAbove(m, e, x, y, z)
  {
    SkippedWhenEmpty(m, l, x, y, z);
    ProductMonotone(0.0, l as real, 0.0, m.resolution);
    assert GridEdge(m, l) == e;
    EmptyExactly(m.field, m.isoLevel, e, x, y, z, m.resolution);
    assert BlockEmpty(m.field, m.isoLevel, e, x, y, z, m.resolution) <==> ShownAbove(m, e, x, y, z);
  }

  /** Blocks that isBlockEmpty finds empty hold no triangle. */
  lemma EmptyBlocksHoldNothing(m: Mesh)
    requires ValidMesh(m)
    ensures SkipIsSound(m.triangles, Skipped(m))
  {
    forall l: nat, x, y, z, a, b, c | Skipped(m)(l, x, y, z) && Inside(a, x, l) && Inside(b, y, l) && Inside(c, z, l)
      ensures m.triangles(a, b, c) == 0
    {
      EmptyBlockAllAbove(m, l, x, y, z);
      NoTriangleInBlock(m.triangles, Above(m), l, x, y, z, a, b, c);
    }
  }

  /** For every grid size: the traversal never counts more than the loop, and the two totals agree exactly when the
      cubes that halving the edge never leads to hold no triangle. */
  lemma TotalsAgree(m: Mesh, l: nat)
    requires ValidMesh(m)
    ensures Traversal(m.triangles, Skipped(m), l, 0, 0, 0) <= Cube(m.triangles, 0, 0, 0, l)
    ensures SameTotal(m, l) <==>
      forall a, b, c :: Inside(a, 0, l) && Inside(b, 0, l) && Inside(c, 0, l) && !CubeReached(l, a, b, c) ==>
        m.triangles(a, b, c) == 0
  {
    var g := m.triangles;
    var reached, rest := Reached(g, l, 0, 0, 0), NotReached(g, l, 0, 0, 0);
    EmptyBlocksHoldNothing(m);
    TraversalTotal(g, Skipped(m), l, 0, 0, 0);
    BoxAdd(g, reached, rest, 0, 0, 0, l, l, l);
    BoxZero(rest, 0, 0, 0, l, l, l);
    assert forall a, b, c :: rest(a, b, c) == if CubeReached(l, a, b, c) then 0 else g(a, b, c);
  }

  /** On a grid whose size is a power of two the traversal refines the loop. */
  lemma OctreeRefinesLoop(m: Mesh, l: nat)
    requires ValidMesh(m) && PowerOfTwo(l)
    ensures SameTotal(m, l)
  {
    forall a, b, c | Inside(a, 0, l) && Inside(b, 0, l) && Inside(c, 0, l) ensures CubeReached(l, a, b, c) {
      CoversPowers(l, a);
      CoversPowers(l, b);
      CoversPowers(l, c);
    }
    TotalsAgree(m, l);
  }

  /** marchCubes of the octree builder: on a grid whose size is a power of two it counts what the loop counts. */
  method MarchTree(m: Mesh, gridSize: nat) returns (totalTriangles: nat)
    ensures totalTriangles == Traversal(m.triangles, Skipped(m), gridSize, 0, 0, 0)
    ensures ValidMesh(m) && PowerOfTwo(gridSize) ==> totalTriangles == Cube(m.triangles, 0, 0, 0, gridSize)
  {
    totalTriangles := OctreeTraverse(m, gridSize, 0, 0, 0);
    ghost var wellBuilt := ValidMesh(m) && PowerOfTwo(gridSize);
    if wellBuilt {
      OctreeRefinesLoop(m, gridSize);
    }
  }

  function Only(a: int, b: int, c: int): Count {
    (i, j, k) => if i == a && j == b && k == c then 1 else 0
  }

  /** A cloud of one point, at the far corner of a grid of unit cubes, and one triangle, in the last cube of the
      grid. */
  function CornerMesh(l: nat, largest: real, sqrt: real -> real): Mesh {
    Mesh(Field([GridPoint(l, l, l, 1.0)], largest, sqrt), 0.5, 1.0, Only(l - 1, l - 1, l - 1))
  }

  lemma RootOfZero(v: real)
    requires v * v == 0.0
    ensures !(v > 0.0)
  {
    SquareMonotone(v, 0.0);
  }

  /** At a point of the cloud the field is zero. */
  lemma ZeroAtPoint(f: Field, i: nat)
    requires ValidField(f) && i < |f.points|
    ensures !(ValueAt(f, f.points[i]) > 0.0)
  {
    var p := f.points[i];
    NearestAtMost(f, p, i, 0.0);
    NearestNonNegative(f, p);
    Root(f, 0.0);
    RootOfZero(f.sqrt(0.0));
  }

  lemma CornerMeshIsValid(l: nat, largest: real, sqrt: real -> real)
    requires IsSquareRoot(sqrt) && largest >= 0.0
    ensures ValidMesh(CornerMesh(l, largest, sqrt))
  {
    var m := CornerMesh(l, largest, sqrt);
    ZeroAtPoint(m.field, 0);
    assert !Above(m)(l, l, l);
    assert !AllAbove(Above(m), 1, l - 1, l - 1, l - 1);
  }

  lemma SquareOfInteger(d: int, x: real, square: real)
    requires x == d as real && square == x * x
    ensures square >= 0.0 && (d != 0 ==> square >= 1.0)
  {
    if d >= 1 {
      ProductMonotone(1.0, x, 1.0, x);
    } else if d <= -1 {
      ProductMonotone(1.0, -x, 1.0, -x);
      assert square == (-x) * (-x);
    }
  }

  lemma DistanceIs(p: Vec3, q: Vec3, a: real, b: real, c: real)
    requires a == (p.x - q.x) * (p.x - q.x) && b == (p.y - q.y) * (p.y - q.y) && c == (p.z - q.z) * (p.z - q.z)
    ensures DistanceSquared(p, q) == a + b + c
  {
  }

  lemma FarFromCorner(l: nat, i: int, j: int, k: int, p: Vec3, q: Vec3)
    requires p == Vec3(i as real, j as real, k as real) && q == Vec3(l as real, l as real, l as real)
    requires !(i == j == k == l)
    ensures DistanceSquared(p, q) >= 1.0
  {
    var x, y, z := p.x - q.x, p.y - q.y, p.z - q.z;
    var a, b, c := x * x, y * y, z * z;
    SquareOfInteger(i - l, x, a);
    SquareOfInteger(j - l, y, b);
    SquareOfInteger(k - l, z, c);
    DistanceIs(p, q, a, b, c);
  }

  lemma UnitGridPoint(i: int, j: int, k: int)
    ensures GridPoint(i, j, k, 1.0) == Vec3(i as real, j as real, k as real)
  {
  }

  lemma RootOfOne(a: real)
    requires a >= 0.0 && a * a >= 1.0
    ensures a > 0.5
  {
    SquareMonotone(1.0, a);
  }

  /** A place at distance one or more from the only point of the cloud. */
  lemma FarFromPoint(f: Field, p: Vec3)
    requires ValidField(f) && f.largest >= 1.0 && |f.points| == 1 && DistanceSquared(p, f.points[0]) >= 1.0
    ensures ValueAt(f, p) > 0.5
  {
    var i := NearestPoint(f, p);
    ValueIsRoot(f, p, ValueAt(f, p));
    RootOfOne(ValueAt(f, p));
  }

  /** The corner is the only grid point that is not above the iso level, so every cube of the grid but the last is
      bound to make no triangle. */
  lemma OnlyTheCornerWithin(l: nat, largest: real, sqrt: real -> real, i: int, j: int, k: int)
    requires IsSquareRoot(sqrt) && largest >= 1.0
    ensures Above(CornerMesh(l, largest, sqrt))(i, j, k) <==> !(i == j == k == l)
  {
    var m := CornerMesh(l, largest, sqrt);
    var p, q := GridPoint(i, j, k, 1.0), GridPoint(l, l, l, 1.0);
    if i == j == k == l {
      ZeroAtPoint(m.field, 0);
    } else {
      UnitGridPoint(i, j, k);
      UnitGridPoint(l, l, l);
      FarFromCorner(l, i, j, k, p, q);
      FarFromPoint(m.field, p);
    }
  }

  /** On a grid of any other size the traversal loses the triangles of the last cube. */
  lemma LosesCorner(m: Mesh, l: nat)
    requires ValidMesh(m) && l > 0 && !PowerOfTwo(l) && m.triangles(l - 1, l - 1, l - 1) > 0
    ensures Traversal(m.triangles, Skipped(m), l, 0, 0, 0) < Cube(m.triangles, 0, 0, 0, l)
  {
    MissesLast(l);
    assert Inside(l - 1, 0, l) && !CubeReached(l, l - 1, l - 1, l - 1);
    TotalsAgree(m, l);
  }

  /** So the two builders agree on every mesh exactly when the grid size is zero or a power of two, whatever the
      largest number is. */
  lemma AgreeOnAllMeshes(l: nat, largest: real, sqrt: real -> real)
    requires IsSquareRoot(sqrt) && largest >= 0.0
    ensures (forall m: Mesh :: ValidMesh(m) && m.field.largest == largest ==> SameTotal(m, l)) <==>
      l == 0 || PowerOfTwo(l)
  {
    if PowerOfTwo(l) {
      forall m: Mesh | ValidMesh(m) ensures SameTotal(m, l) {
        OctreeRefinesLoop(m, l);
      }
    } else if l > 0 {
      CornerMeshIsValid(l, largest, sqrt);
      LosesCorner(CornerMesh(l, largest, sqrt), l);
    }
  }

  // ----- each cube once -----

  /** The lower end, from x on in steps of s, of the piece that i lies in. */
  function Corner(x: int, i: int, s: nat): int
    requires s > 0
  {
    x + (i - x) / s * s
  }

  predicate SkippedAround(skip: Skip, s: nat, x: int, y: int, z: int, a: int, b: int, c: int)
    requires s > 0
  {
    skip(s, Corner(x, a, s), Corner(y, b, s), Corner(z, c, s))
  }

  /** One of the blocks around the cube, of edges 2, 4, ... up to l, is skipped. */
  ghost predicate UnderSkipped(skip: Skip, l: nat, x: int, y: int, z: int, a: int, b: int, c: int) {
    exists s: nat :: 2 <= s <= l && PowerOfTwo(s) && SkippedAround(skip, s, x, y, z, a, b, c)
  }

  predicate InCube(l: nat, x: int, y: int, z: int, a: int, b: int, c: int) {
    Inside(a, x, l) && Inside(b, y, l) && Inside(c, z, l)
  }

  lemma {:induction false} PowersDivide(s: nat, h: nat) returns (q: nat)
    requires PowerOfTwo(s) && PowerOfTwo(h) && s <= h
    ensures h == q * s
  {
    if s == 1 {
      q := h;
    } else {
      q := PowersDivide(s / 2, h / 2);
      assert h == 2 * (q * (s / 2));
    }
  }

  lemma {:induction false} NextPower(s: nat, h: nat)
    requires PowerOfTwo(s) && PowerOfTwo(h) && h < s <= h + h
    ensures s == h + h
  {
    if h > 1 {
      NextPower(s / 2, h / 2);
    }
  }

  lemma MultipleBounds(e: int, s: nat)
    ensures (e >= 1 ==> e * s >= s) && (e <= -1 ==> e * s <= -(s as int))
  {
  }

  lemma QuotientIs(n: int, s: nat, d: int, r: int)
    requires s > 0 && n == d * s + r && 0 <= r < s
    ensures n / s == d
  {
    var e := n / s - d;
    assert n == n / s * s + n % s;
    assert e * s == r - n % s;
    MultipleBounds(e, s);
  }

  /** Moving the origin by a multiple of s moves no corner. */
  lemma CornerMoves(x: int, i: int, s: nat, q: int)
    requires s > 0
    ensures Corner(x + q * s, i, s) == Corner(x, i, s)
  {
    var d, r := (i - x) / s, (i - x) % s;
    assert i - (x + q * s) == (d - q) * s + r;
    QuotientIs(i - (x + q * s), s, d - q, r);
    assert (d - q) * s == d * s - q * s;
  }

  lemma OctantCorner(x: int, i: int, s: nat, h: nat, d: nat)
    requires PowerOfTwo(s) && PowerOfTwo(h) && s <= h && d <= 1
    ensures Corner(x + d * h, i, s) == Corner(x, i, s)
  {
    if d == 1 {
      var q := PowersDivide(s, h);
      CornerMoves(x, i, s, q);
    }
  }

  /** The block itself is the largest around each of its cubes. */
  lemma CornerOfBlock(x: int, i: int, l: nat)
    requires Inside(i, x, l)
    ensures Corner(x, i, l) == x
  {
    QuotientIs(i - x, l, 0, i - x);
  }

  /** Within an octant, the smaller blocks around a cube are those of the octant. */
  lemma OctantSkips(skip: Skip, l: nat, h: nat, x: int, y: int, z: int, dx: nat, dy: nat, dz: nat, a: int, b: int,
                    c: int)
    requires PowerOfTwo(l) && l > 1 && h == l / 2 && dx <= 1 && dy <= 1 && dz <= 1
    requires InCube(l, x, y, z, a, b, c) && !skip(l, x, y, z)
    ensures UnderSkipped(skip, l, x, y, z, a, b, c) <==>
      UnderSkipped(skip, h, x + dx * h, y + dy * h, z + dz * h, a, b, c)
  {
    forall s: nat | 2 <= s <= h && PowerOfTwo(s)
      ensures SkippedAround(skip, s, x, y, z, a, b, c) ==
        SkippedAround(skip, s, x + dx * h, y + dy * h, z + dz * h, a, b, c)
    {
      OctantCorner(x, a, s, h, dx);
      OctantCorner(y, b, s, h, dy);
      OctantCorner(z, c, s, h, dz);
    }
    forall s: nat | h < s <= l && PowerOfTwo(s) ensures !SkippedAround(skip, s, x, y, z, a, b, c) {
      NextPower(s, h);
      CornerOfBlock(x, a, l);
      CornerOfBlock(y, b, l);
      CornerOfBlock(z, c, l);
    }
  }

  lemma SkippedBlockIsAround(skip: Skip, l: nat, x: int, y: int, z: int, a: int, b: int, c: int)
    requires PowerOfTwo(l) && l > 1 && InCube(l, x, y, z, a, b, c) && skip(l, x, y, z)
    ensures UnderSkipped(skip, l, x, y, z, a, b, c)
  {
    CornerOfBlock(x, a, l);
    CornerOfBlock(y, b, l);
    CornerOfBlock(z, c, l);
    assert SkippedAround(skip, l, x, y, z, a, b, c);
  }

  /** How often the traversal builds the cube (a, b, c). */
  function Visits(skip: Skip, l: nat, x: int, y: int, z: int, a: int, b: int, c: int): nat {
    Traversal(Only(a, b, c), skip, l, x, y, z)
  }

  function OctantVisits(skip: Skip, h: nat, x: int, y: int, z: int, dx: nat, dy: nat, dz: nat, a: int, b: int,
                        c: int): nat {
    Octant(Only(a, b, c), skip, h, x, y, z, dx, dy, dz)
  }

  lemma UnitCube(x: int, y: int, z: int, a: int, b: int, c: int)
    ensures Cube(Only(a, b, c), x, y, z, 1) == if InCube(1, x, y, z, a, b, c) then 1 else 0
  {
    var g := Only(a, b, c);
    SumOne(Cells(g, x, y), z);
    SumOne(Lines(g, x, z, 1), y);
    SumOne(Slices(g, y, z, 1, 1), x);
  }

  /** The cube lies in the half d along an axis. */
  predicate InHalf(x: int, h: nat, d: nat, i: int) {
    if d == 0 then x <= i < x + h else x + h <= i < x + h + h
  }

  lemma HalfIs(x: int, h: nat, d: nat, i: int, u: int)
    requires d <= 1 && u == x + d * h
    ensures InHalf(x, h, d, i) == Inside(i, u, h)
  {
  }

  lemma {:induction false} OctantVisited(skip: Skip, l: nat, h: nat, x: int, y: int, z: int, dx: nat, dy: nat, dz: nat,
      a: int, b: int, c: int)
    requires PowerOfTwo(l) && l > 1 && h == l / 2 && dx <= 1 && dy <= 1 && dz <= 1 && !skip(l, x, y, z)
    ensures OctantVisits(skip, h, x, y, z, dx, dy, dz, a, b, c) ==
      if InHalf(x, h, dx, a) && InHalf(y, h, dy, b) && InHalf(z, h, dz, c) &&
        !UnderSkipped(skip, l, x, y, z, a, b, c) then 1
      else 0
    decreases h, 1
  {
    var u, v, w := x + dx * h, y + dy * h, z + dz * h;
    HalfIs(x, h, dx, a, u);
    HalfIs(y, h, dy, b, v);
    HalfIs(z, h, dz, c, w);
    VisitedOnce(skip, h, u, v, w, a, b, c);
    if InHalf(x, h, dx, a) && InHalf(y, h, dy, b) && InHalf(z, h, dz, c) {
      OctantSkips(skip, l, h, x, y, z, dx, dy, dz, a, b, c);
    }
  }

  /** With a power of two as the edge, the traversal builds each cube of the block once, unless a block around it is
      skipped, and no other cube. */
  lemma {:induction false} VisitedOnce(skip: Skip, l: nat, x: int, y: int, z: int, a: int, b: int, c: int)
    requires PowerOfTwo(l)
    ensures Visits(skip, l, x, y, z, a, b, c) ==
      if InCube(l, x, y, z, a, b, c) && !UnderSkipped(skip, l, x, y, z, a, b, c) then 1 else 0
    decreases l, 0
  {
    if l == 1 {
      UnitCube(x, y, z, a, b, c);
    } else if skip(l, x, y, z) {
      if InCube(l, x, y, z, a, b, c) {
        SkippedBlockIsAround(skip, l, x, y, z, a, b, c);
      }
    } else {
      var h := l / 2;
      OctantVisited(skip, l, h, x, y, z, 0, 0, 0, a, b, c);
      OctantVisited(skip, l, h, x, y, z, 0, 0, 1, a, b, c);
      OctantVisited(skip, l, h, x, y, z, 0, 1, 0, a, b, c);
      OctantVisited(skip, l, h, x, y, z, 0, 1, 1, a, b, c);
      OctantVisited(skip, l, h, x, y, z, 1, 0, 0, a, b, c);
      OctantVisited(skip, l, h, x, y, z, 1, 0, 1, a, b, c);
      OctantVisited(skip, l, h, x, y, z, 1, 1, 0, a, b, c);
      OctantVisited(skip, l, h, x, y, z, 1, 1, 1, a, b, c);
      TraversalOctants(Only(a, b, c), skip, l, x, y, z, h);
    }
  }
}
