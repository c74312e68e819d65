/**
 * OptimizedCircle: BasicCircle with one change, the other circle is passed
 * by pointer instead of by value, so CheckForCollision reads the other
 * object's fields in place.
 */
module Optimized {
  import opened Geometry

  class OptimizedCircle {
    var xPosition: int
    var yPosition: int
    var xVelocity: int
    var yVelocity: int
    var radius: int

    /** The five fields as one value. */
    function Value(): Circle
      reads this
    {
      Circle(xPosition, yPosition, xVelocity, yVelocity, radius)
    }

    /** The constructor's five random draws are its parameters. */
    constructor (x: int, y: int, vx: int, vy: int, r: int)
      ensures Value() == Circle(x, y, vx, vy, r)
    {
      xPosition, yPosition := x, y;
      xVelocity, yVelocity := vx, vy;
      radius := r;
    }

    /**
     * The same arithmetic as BasicCircle, reading the other circle through
     * the pointer; otherCircle may be this circle itself.
     */
    function CheckForCollision(otherCircle: OptimizedCircle): (collided: bool)
      reads this, otherCircle
      ensures collided <==> Collides(xPosition, yPosition, radius,
                                     otherCircle.xPosition, otherCircle.yPosition, otherCircle.radius)
    {
      var xDifference := xPosition - otherCircle.xPosition;
      var xOff := xDifference * xDifference;
      var yDifference := yPosition - otherCircle.yPosition;
      var yOff := yDifference * yDifference;
      var magSquared := xOff + yOff;
      var radiusSum := radius + otherCircle.radius;
      var radSquared := radiusSum * radiusSum;
      magSquared < radSquared
    }

    /** One tick: each position moves by its velocity. */
    method Update()
      modifies this
      ensures Value() == Advanced(old(Value()))
    {
      xPosition := xPosition + xVelocity;
      yPosition := yPosition + yVelocity;
    }
  }
}
