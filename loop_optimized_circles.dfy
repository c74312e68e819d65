/**
 * LoopOptimizedCircles: the whole population in one object, as an array of
 * Circle structs, with the pairwise results in an N x N table. Update and
 * CheckForCollisions loop over the array themselves instead of calling a
 * method per circle. Every cell of the table is computed, the diagonal and
 * both triangles included, with the doubled-sum threshold.
 */
module LoopOptimized {
  import opened Geometry

  class LoopOptimizedCircles {
    /** circles[NUM_CIRCLES]: the array of structs. */
    var circles: array<Circle>
    /** isCollided[i][j]: the result for the pair (i, j). */
    var isCollided: array2<bool>

    ghost predicate Valid()
      reads this
    {
      && circles.Length == NumCircles
      && isCollided.Length0 == NumCircles && isCollided.Length1 == NumCircles
    }

    /**
     * The structs' random draws are the parameter; every row of the table
     * starts cleared.
     */
    constructor (cs: seq<Circle>)
      requires |cs| == NumCircles
      ensures Valid() && fresh(circles) && fresh(isCollided)
      ensures circles[..] == cs
      ensures forall i, j :: 0 <= i < NumCircles && 0 <= j < NumCircles ==> !isCollided[i, j]
    {
      circles := new Circle[NumCircles](k requires 0 <= k < NumCircles => cs[k]);
      isCollided := new bool[NumCircles, NumCircles]((i, j) => false);
    }

    /** One pass over the array: each circle's position moves by its velocity. */
    method Update()
      requires Valid()
      modifies circles
      ensures circles[..] == AdvancedAll(old(circles[..]))
    {
      for i := 0 to NumCircles
        invariant forall k :: 0 <= k < i ==> circles[k] == Advanced(old(circles[k]))
        invariant forall k :: i <= k < NumCircles ==> circles[k] == old(circles[k])
      {
        circles[i] := circles[i].(xPosition := circles[i].xPosition + circles[i].xVelocity);
        circles[i] := circles[i].(yPosition := circles[i].yPosition + circles[i].yVelocity);
      }
    }

    /**
     * Both loops run over all NUM_CIRCLES circles, so every cell (i, j) is
     * written with the doubled-sum test of circles i and j. The table that
     * results is symmetric, and its diagonal holds true for every circle of
     * positive radius.
     */
    method CheckForCollisions()
      requires Valid()
      modifies isCollided
      ensures forall i, j :: 0 <= i < NumCircles && 0 <= j < NumCircles ==>
        isCollided[i, j] == CirclesCollideDoubledSum(circles[i], circles[j])
      ensures forall i, j :: 0 <= i < NumCircles && 0 <= j < NumCircles ==>
        isCollided[i, j] == isCollided[j, i]
      ensures forall i :: 0 <= i < NumCircles && circles[i].radius > 0 ==> isCollided[i, i]
    {
      for i := 0 to NumCircles
        invariant forall a, b :: 0 <= a < i && 0 <= b < NumCircles ==>
          isCollided[a, b] == CirclesCollideDoubledSum(circles[a], circles[b])
      {
        for j := 0 to NumCircles
          invariant forall a, b :: 0 <= a < i && 0 <= b < NumCircles ==>
            isCollided[a, b] == CirclesCollideDoubledSum(circles[a], circles[b])
          invariant forall b :: 0 <= b < j ==>
            isCollided[i, b] == CirclesCollideDoubledSum(circles[i], circles[b])
        {
          isCollided[i, j] :=
            (circles[i].xPosition - circles[j].xPosition) * (circles[i].xPosition - circles[j].xPosition)
            + (circles[i].yPosition - circles[j].yPosition) * (circles[i].yPosition - circles[j].yPosition)
            < (circles[i].radius + circles[j].radius) + (circles[i].radius + circles[j].radius);
        }
      }
      forall i, j | 0 <= i < NumCircles && 0 <= j < NumCircles
        ensures isCollided[i, j] == isCollided[j, i]
      {
        CollidesSymmetric(circles[i].xPosition, circles[i].yPosition, circles[i].radius,
                          circles[j].xPosition, circles[j].yPosition, circles[j].radius);
      }
      forall i | 0 <= i < NumCircles && circles[i].radius > 0
        ensures isCollided[i, i]
      {
        SelfCollision(circles[i].xPosition, circles[i].yPosition, circles[i].radius);
      }
    }
  }
}
