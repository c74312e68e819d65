/**
 * MoreOptimizedCircle: the pointer-passing circle with the whole test folded
 * into one expression. The expression compares the squared distance with
 * the radius sum ADDED to itself, (r1 + r2) + (r1 + r2), where the two
 * earlier classes square it.
 */
module MoreOptimized {
  import opened Geometry

  class MoreOptimizedCircle {
    var xPosition: int
    var yPosition: int
    var xVelocity: int
    var yVelocity: int
    var radius: int

    /** The five fields as one value. */
    function Value(): Circle
      reads this
    {
      Circle(xPosition, yPosition, xVelocity, yVelocity, radius)
    }

    /** The constructor's five random draws are its parameters. */
    constructor (x: int, y: int, vx: int, vy: int, r: int)
      ensures Value() == Circle(x, y, vx, vy, r)
    {
      xPosition, yPosition := x, y;
      xVelocity, yVelocity := vx, vy;
      radius := r;
    }

    /**
     * The test as written: the squared distance against the doubled radius
     * sum, one expression.
     */
    function CheckForCollision(otherCircle: MoreOptimizedCircle): (collided: bool)
      reads this, otherCircle
      ensures collided <==> CollidesDoubledSum(xPosition, yPosition, radius,
                                               otherCircle.xPosition, otherCircle.yPosition,
                                               otherCircle.radius)
    {
      (xPosition - otherCircle.xPosition) * (xPosition - otherCircle.xPosition)
        + (yPosition - otherCircle.yPosition) * (yPosition - otherCircle.yPosition)
        < (radius + otherCircle.radius) + (radius + otherCircle.radius)
    }

    /**
     * Once the radii add up to at least 2, every collision the doubled-sum
     * test reports is a real one; it misses exactly the pairs whose squared
     * distance lies in [2(r1 + r2), (r1 + r2)^2).
     */
    lemma DoubledSumHitIsReal(otherCircle: MoreOptimizedCircle)
      requires radius + otherCircle.radius >= 2
      ensures CheckForCollision(otherCircle) ==>
        Collides(xPosition, yPosition, radius,
                 otherCircle.xPosition, otherCircle.yPosition, otherCircle.radius)
      ensures CheckForCollision(otherCircle) != CheckForCollisionSquared(otherCircle) <==>
        2 * (radius + otherCircle.radius)
          <= SquaredDistance(xPosition, yPosition, otherCircle.xPosition, otherCircle.yPosition)
          < (radius + otherCircle.radius) * (radius + otherCircle.radius)
    {
      DoubledSumUnderReports(xPosition, yPosition, radius,
                             otherCircle.xPosition, otherCircle.yPosition, otherCircle.radius);
    }

    /**
     * The same one-expression test with the radius sum squared, as the two
     * earlier classes compute it: the circles collide exactly when it holds.
     */
    function CheckForCollisionSquared(otherCircle: MoreOptimizedCircle): (collided: bool)
      reads this, otherCircle
      ensures collided <==> Collides(xPosition, yPosition, radius,
                                     otherCircle.xPosition, otherCircle.yPosition, otherCircle.radius)
    {
      (xPosition - otherCircle.xPosition) * (xPosition - otherCircle.xPosition)
        + (yPosition - otherCircle.yPosition) * (yPosition - otherCircle.yPosition)
        < (radius + otherCircle.radius) * (radius + otherCircle.radius)
    }

    /** One tick: each position moves by its velocity. */
    method Update()
      modifies this
      ensures Value() == Advanced(old(Value()))
    {
      xPosition := xPosition + xVelocity;
      yPosition := yPosition + yVelocity;
    }
  }
}
