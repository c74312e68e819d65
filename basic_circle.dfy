/**
 * BasicCircle: one object per circle. CheckForCollision receives the other
 * circle BY VALUE, so it works on a copy of the other circle's fields; here
 * that copy is a Circle value.
 */
module Basic {
  import opened Geometry

  class BasicCircle {
    var xPosition: int
    var yPosition: int
    var xVelocity: int
    var yVelocity: int
    var radius: int

    /** The five fields as one value: what passing the circle by value copies. */
    function Value(): Circle
      reads this
    {
      Circle(xPosition, yPosition, xVelocity, yVelocity, radius)
    }

    /** The constructor's five random draws are its parameters. */
    constructor (x: int, y: int, vx: int, vy: int, r: int)
      ensures Value() == Circle(x, y, vx, vy, r)
    {
      xPosition, yPosition := x, y;
      xVelocity, yVelocity := vx, vy;
      radius := r;
    }

    /**
     * xOff and yOff are the squared coordinate differences, magSquared their
     * sum and radSquared the squared radius sum; the circles collide when
     * magSquared < radSquared.
     */
    function CheckForCollision(otherCircle: Circle): (collided: bool)
      reads this
      ensures collided <==> Collides(xPosition, yPosition, radius,
                                     otherCircle.xPosition, otherCircle.yPosition, otherCircle.radius)
    {
      var xDifference := xPosition - otherCircle.xPosition;
      var xOff := xDifference * xDifference;
      var yDifference := yPosition - otherCircle.yPosition;
      var yOff := yDifference * yDifference;
      var magSquared := xOff + yOff;
      var radiusSum := radius + otherCircle.radius;
      var radSquared := radiusSum * radiusSum;
      magSquared < radSquared
    }

    /** One tick: each position moves by its velocity. */
    method Update()
      modifies this
      ensures Value() == Advanced(old(Value()))
    {
      xPosition := xPosition + xVelocity;
      yPosition := yPosition + yVelocity;
    }
  }
}
