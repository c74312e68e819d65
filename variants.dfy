/**
 * How the seven variants relate to one another. Each class is specified
 * against the shared tests of Geometry; the lemmas here state what the
 * progression of optimisations keeps and what it changes: passing the other
 * circle by pointer keeps the test, folding it into one expression doubles
 * the radius sum instead of squaring it, and the vectorised row start
 * differs between the intrinsics and the assembly once the row index
 * reaches 256.
 */
module Variants {
  import opened Geometry
  import opened Sse
  import Basic
  import Optimized
  import MoreOptimized
  import LoopOptimized
  import DataOptimized
  import SimdOptimized
  import AssemblyOptimized
  import Bits

  /**
   * OptimizedCircle takes the other circle by pointer where BasicCircle takes
   * a copy; on circles with the same fields both report the same result.
   */
  lemma PointerPassingKeepsTheTest(b: Basic.BasicCircle, o: Optimized.OptimizedCircle,
                                   other: Optimized.OptimizedCircle)
    requires b.Value() == o.Value()
    ensures b.CheckForCollision(other.Value()) == o.CheckForCollision(other)
  {
  }

  /**
   * The squared form of MoreOptimizedCircle's one-expression test reports
   * what BasicCircle reports.
   */
  lemma SquaredFoldAgreesWithBasic(b: Basic.BasicCircle, m: MoreOptimized.MoreOptimizedCircle,
                                   other: MoreOptimized.MoreOptimizedCircle)
    requires b.Value() == m.Value()
    ensures m.CheckForCollisionSquared(other) == b.CheckForCollision(other.Value())
  {
  }

  /**
   * MoreOptimizedCircle as written misses a collision BasicCircle reports:
   * radii 5 and 5 with centres 7 apart.
   */
  lemma DoubledFoldMissesBasicCollision(b: Basic.BasicCircle, m: MoreOptimized.MoreOptimizedCircle,
                                        other: MoreOptimized.MoreOptimizedCircle)
    requires b.Value() == m.Value()
    requires m.xPosition == 0 && m.yPosition == 0 && m.radius == 5
    requires other.xPosition == 7 && other.yPosition == 0 && other.radius == 5
    ensures b.CheckForCollision(other.Value())
    ensures !m.CheckForCollision(other)
  {
    DoubledSumMissesOverlap();
  }

  /**
   * The struct-of-arrays table agrees with the array-of-structs one on the
   * same population: each cell DataOptimizedCircles writes (i < j) holds what
   * LoopOptimizedCircles writes at (i, j) and, by symmetry, at (j, i). The
   * requirements are the two CheckForCollisions postconditions.
   */
  lemma DataTableMatchesLoopTable(loop: LoopOptimized.LoopOptimizedCircles,
                                  data: DataOptimized.DataOptimizedCircles)
    requires loop.Valid() && data.Valid()
    requires loop.circles[..] == data.Circles()
    requires forall i, j :: 0 <= i < NumCircles && 0 <= j < NumCircles ==>
      loop.isCollided[i, j] == CirclesCollideDoubledSum(loop.circles[i], loop.circles[j])
    requires forall i, j :: 0 <= i < j < NumCircles ==>
      data.isCollided[i, j] == CollidesDoubledSum(data.xPosition[i], data.yPosition[i], data.radius[i],
                                                  data.xPosition[j], data.yPosition[j], data.radius[j])
    ensures forall i, j :: 0 <= i < j < NumCircles ==>
      data.isCollided[i, j] == loop.isCollided[i, j] && data.isCollided[i, j] == loop.isCollided[j, i]
  {
    forall i, j | 0 <= i < j < NumCircles
      ensures data.isCollided[i, j] == loop.isCollided[i, j] && data.isCollided[i, j] == loop.isCollided[j, i]
    {
      assert loop.circles[i] == loop.circles[..][i] == data.Circles()[i];
      assert loop.circles[j] == loop.circles[..][j] == data.Circles()[j];
      CollidesSymmetric(data.xPosition[i], data.yPosition[i], data.radius[i],
                        data.xPosition[j], data.yPosition[j], data.radius[j]);
    }
  }

  /**
   * The row start the intrinsics variant means to compute: the largest
   * multiple of four not above i, so that every batch is aligned and the
   * first batch contains column i.
   */
  function IntendedRowStart(i: nat): (j: nat)
    ensures j % Lanes == 0 && j <= i < j + Lanes
  {
    AssemblyOptimized.RoundDown4(i);
    i - i % 4
  }

  /** The assembly variant computes the intended row start for every row. */
  lemma AssemblyRowStartIsIntended(i: nat)
    ensures AssemblyOptimized.RowStart(i) == IntendedRowStart(i)
  {
  }

  /**
   * i & 0xFC in the intrinsics variant gives the intended row start exactly
   * for the rows below 256; every other row starts at least 256 columns
   * before its own aligned batch.
   */
  lemma {:induction false} SimdRowStartIntendedBelow256(i: nat)
    ensures SimdOptimized.RowStart(i) == IntendedRowStart(i) <==> i < 256
    ensures i >= 256 ==> SimdOptimized.RowStart(i) + 256 <= IntendedRowStart(i)
  {
    var q := i / 256;
    assert i == 256 * q + i % 256;
    if i < 256 {
      assert q == 0;
    } else {
      assert q >= 1;
    }
  }

  /** Row 300: the intrinsics start at column 44, the assembly at column 300. */
  lemma Row300Starts()
    ensures SimdOptimized.RowStart(300) == 44
    ensures AssemblyOptimized.RowStart(300) == 300
  {
    Bits.DivModUnique(300, 256, 1, 44);
    Bits.DivModUnique(300, 4, 75, 0);
  }

  /**
   * Both vectorised variants write every cell on and above the diagonal, so
   * each reports the squared-radius test for every pair i <= j; the row the
   * intrinsics write contains the row the assembly writes.
   */
  lemma VectorRowsCoverUpperTriangle(i: nat, j: nat)
    requires i <= j < NumCircles
    ensures SimdOptimized.RowStart(i) <= j && AssemblyOptimized.RowStart(i) <= j
    ensures SimdOptimized.RowStart(i) <= AssemblyOptimized.RowStart(i)
  {
    SimdRowStartIntendedBelow256(i);
  }
}
