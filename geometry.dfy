/**
 * The arithmetic that every variant of the collision kernel shares: the
 * population size, the circle record, the two overlap tests the variants
 * use, and the one-tick motion of a circle. The source stores every
 * coordinate, velocity and radius as a single-precision float; here they are
 * exact integers in the source's own unit (the doubled-sum test is not
 * invariant under a change of unit), so no rounding is modelled.
 */
module Geometry {

  /** NUM_CIRCLES: the fixed population size every variant is built for. */
  const NumCircles: nat := 1000

  /** One circle: the five fields every variant stores, in whatever layout. */
  datatype Circle = Circle(
    xPosition: int,
    yPosition: int,
    xVelocity: int,
    yVelocity: int,
    radius: int)

  /** Squared length of the vector between two centres. */
  function SquaredDistance(x1: int, y1: int, x2: int, y2: int): (d: int)
    ensures d >= 0
    ensures d == 0 <==> x1 == x2 && y1 == y2
  {
    (x1 - x2) * (x1 - x2) + (y1 - y2) * (y1 - y2)
  }

  /** The overlap test: squared centre distance strictly below the squared radius sum. */
  predicate Collides(x1: int, y1: int, r1: int, x2: int, y2: int, r2: int)
  {
    SquaredDistance(x1, y1, x2, y2) < (r1 + r2) * (r1 + r2)
  }

  /**
   * The test that three of the variants actually perform: the radius sum is
   * added to itself, (r1 + r2) + (r1 + r2), instead of being squared.
   */
  predicate CollidesDoubledSum(x1: int, y1: int, r1: int, x2: int, y2: int, r2: int)
  {
    SquaredDistance(x1, y1, x2, y2) < 2 * (r1 + r2)
  }

  /** The squared-radius test on two circle records. */
  predicate CirclesCollide(c: Circle, d: Circle)
  {
    Collides(c.xPosition, c.yPosition, c.radius, d.xPosition, d.yPosition, d.radius)
  }

  /** The doubled-sum test on two circle records. */
  predicate CirclesCollideDoubledSum(c: Circle, d: Circle)
  {
    CollidesDoubledSum(c.xPosition, c.yPosition, c.radius, d.xPosition, d.yPosition, d.radius)
  }

  /** One tick of motion: the position moves by the velocity, nothing else changes. */
  function Advanced(c: Circle): (a: Circle)
    ensures a.xVelocity == c.xVelocity && a.yVelocity == c.yVelocity && a.radius == c.radius
    ensures a.xPosition - c.xPosition == c.xVelocity && a.yPosition - c.yPosition == c.yVelocity
  {
    c.(xPosition := c.xPosition + c.xVelocity, yPosition := c.yPosition + c.yVelocity)
  }

  /** One tick of motion applied to every circle of an array-of-structs population. */
  function AdvancedAll(cs: seq<Circle>): (r: seq<Circle>)
    ensures |r| == |cs|
    ensures forall k :: 0 <= k < |cs| ==> r[k] == Advanced(cs[k])
  {
    seq(|cs|, k requires 0 <= k < |cs| => Advanced(cs[k]))
  }

  /** One tick of motion applied to one coordinate column of a struct-of-arrays population. */
  function AdvancedColumn(position: seq<int>, velocity: seq<int>): (r: seq<int>)
    requires |position| == |velocity|
    ensures |r| == |position|
    ensures forall k :: 0 <= k < |position| ==> r[k] - position[k] == velocity[k]
  {
    seq(|position|, k requires 0 <= k < |position| => position[k] + velocity[k])
  }

  /** The struct-of-arrays columns read back as an array of structs. */
  function Population(xPosition: seq<int>, xVelocity: seq<int>, yPosition: seq<int>,
                      yVelocity: seq<int>, radius: seq<int>): (cs: seq<Circle>)
    requires |xVelocity| == |xPosition| && |yPosition| == |xPosition|
    requires |yVelocity| == |xPosition| && |radius| == |xPosition|
    ensures |cs| == |xPosition|
    ensures forall k :: 0 <= k < |cs| ==>
      cs[k] == Circle(xPosition[k], yPosition[k], xVelocity[k], yVelocity[k], radius[k])
  {
    seq(|xPosition|, k requires 0 <= k < |xPosition| =>
      Circle(xPosition[k], yPosition[k], xVelocity[k], yVelocity[k], radius[k]))
  }

  /** Both tests are symmetric in the two circles. */
  lemma CollidesSymmetric(x1: int, y1: int, r1: int, x2: int, y2: int, r2: int)
    ensures Collides(x1, y1, r1, x2, y2, r2) == Collides(x2, y2, r2, x1, y1, r1)
    ensures CollidesDoubledSum(x1, y1, r1, x2, y2, r2) == CollidesDoubledSum(x2, y2, r2, x1, y1, r1)
  {
    assert (x1 - x2) * (x1 - x2) == (x2 - x1) * (x2 - x1);
    assert (y1 - y2) * (y1 - y2) == (y2 - y1) * (y2 - y1);
  }

  /** Both tests depend only on the difference of the centres. */
  lemma CollidesTranslationInvariant(x1: int, y1: int, r1: int, x2: int, y2: int, r2: int,
                                     dx: int, dy: int)
    ensures Collides(x1 + dx, y1 + dy, r1, x2 + dx, y2 + dy, r2) == Collides(x1, y1, r1, x2, y2, r2)
    ensures CollidesDoubledSum(x1 + dx, y1 + dy, r1, x2 + dx, y2 + dy, r2)
         == CollidesDoubledSum(x1, y1, r1, x2, y2, r2)
  {
    assert (x1 + dx) - (x2 + dx) == x1 - x2;
    assert (y1 + dy) - (y2 + dy) == y1 - y2;
  }

  /** Squaring is strictly monotonic on the non-negative integers. */
  lemma SquareMonotonic(a: int, b: int)
    requires a >= 0 && b >= 0
    ensures a * a < b * b <==> a < b
  {
    if a < b {
      assert a * a <= a * b;
      assert a * b < b * b;
    } else {
      assert b * b <= b * a;
      assert b * a <= a * a;
    }
  }

  /**
   * Comparing squares is the same as comparing lengths: for any non-negative
   * d whose square is the squared centre distance (d is the centre distance),
   * the circles collide exactly when d is below the radius sum.
   */
  lemma CollidesIffCloserThanRadiusSum(x1: int, y1: int, r1: int, x2: int, y2: int, r2: int,
                                       d: int)
    requires d >= 0 && d * d == SquaredDistance(x1, y1, x2, y2)
    requires r1 + r2 >= 0
    ensures Collides(x1, y1, r1, x2, y2, r2) <==> d < r1 + r2
  {
    SquareMonotonic(d, r1 + r2);
  }

  /** Circles exactly r1 + r2 apart touch and are reported as not colliding. */
  lemma TouchingCirclesDoNotCollide(x1: int, y1: int, r1: int, x2: int, y2: int, r2: int,
                                    d: int)
    requires d >= 0 && d * d == SquaredDistance(x1, y1, x2, y2)
    requires d == r1 + r2
    ensures !Collides(x1, y1, r1, x2, y2, r2)
  {
  }

  /** Circles any positive amount closer than r1 + r2 are reported as colliding. */
  lemma OverlappingCirclesCollide(x1: int, y1: int, r1: int, x2: int, y2: int, r2: int,
                                  d: int, eps: int)
    requires d >= 0 && d * d == SquaredDistance(x1, y1, x2, y2)
    requires 0 < eps && d == r1 + r2 - eps
    ensures Collides(x1, y1, r1, x2, y2, r2)
  {
    SquareMonotonic(d, r1 + r2);
  }

  /**
   * A circle is compared with itself when a variant writes the diagonal:
   * the squared test holds for every non-zero radius, the doubled-sum test
   * for every positive one.
   */
  lemma SelfCollision(x: int, y: int, r: int)
    ensures Collides(x, y, r, x, y, r) <==> r != 0
    ensures CollidesDoubledSum(x, y, r, x, y, r) <==> r > 0
  {
    assert SquaredDistance(x, y, x, y) == 0;
    if r != 0 {
      assert (r + r) * (r + r) == 4 * (r * r);
      assert r * r > 0;
    }
  }

  /**
   * How the doubled-sum test relates to the squared one: once the radius sum
   * is at least 2 (every radius the constructors draw is at least 5), a
   * doubled-sum collision is a real one, and the two tests disagree exactly
   * when the squared distance lies in [2(r1 + r2), (r1 + r2)^2).
   */
  lemma DoubledSumUnderReports(x1: int, y1: int, r1: int, x2: int, y2: int, r2: int)
    requires r1 + r2 >= 2
    ensures CollidesDoubledSum(x1, y1, r1, x2, y2, r2) ==> Collides(x1, y1, r1, x2, y2, r2)
    ensures Collides(x1, y1, r1, x2, y2, r2) != CollidesDoubledSum(x1, y1, r1, x2, y2, r2) <==>
      2 * (r1 + r2) <= SquaredDistance(x1, y1, x2, y2) < (r1 + r2) * (r1 + r2)
  {
    var s := r1 + r2;
    assert s * s - 2 * s == s * (s - 2);
    assert s * (s - 2) >= 0;
  }

  /**
   * Radii 5 and 5 with centres 7 apart: the circles overlap, and the
   * doubled-sum test misses it (49 is not below 20).
   */
  lemma DoubledSumMissesOverlap()
    ensures Collides(0, 0, 5, 7, 0, 5)
    ensures !CollidesDoubledSum(0, 0, 5, 7, 0, 5)
  {
  }

  /**
   * Two circles moving with the same velocity keep their collision status
   * across a tick.
   */
  lemma CommonMotionPreservesCollision(a: Circle, b: Circle)
    requires a.xVelocity == b.xVelocity && a.yVelocity == b.yVelocity
    ensures Collides(Advanced(a).xPosition, Advanced(a).yPosition, Advanced(a).radius,
                     Advanced(b).xPosition, Advanced(b).yPosition, Advanced(b).radius)
        == Collides(a.xPosition, a.yPosition, a.radius, b.xPosition, b.yPosition, b.radius)
  {
    CollidesTranslationInvariant(a.xPosition, a.yPosition, a.radius,
                                 b.xPosition, b.yPosition, b.radius, a.xVelocity, a.yVelocity);
  }

  /** Advancing the columns is advancing every circle of the same population. */
  lemma AdvanceLayoutsAgree(xPosition: seq<int>, xVelocity: seq<int>, yPosition: seq<int>,
                            yVelocity: seq<int>, radius: seq<int>)
    requires |xVelocity| == |xPosition| && |yPosition| == |xPosition|
    requires |yVelocity| == |xPosition| && |radius| == |xPosition|
    ensures Population(AdvancedColumn(xPosition, xVelocity), xVelocity,
                       AdvancedColumn(yPosition, yVelocity), yVelocity, radius)
         == AdvancedAll(Population(xPosition, xVelocity, yPosition, yVelocity, radius))
  {
    var lhs := Population(AdvancedColumn(xPosition, xVelocity), xVelocity,
                          AdvancedColumn(yPosition, yVelocity), yVelocity, radius);
    var rhs := AdvancedAll(Population(xPosition, xVelocity, yPosition, yVelocity, radius));
    forall k | 0 <= k < |lhs|
      ensures lhs[k] == rhs[k]
    {
    }
  }
}
