/**
 * DataOptimizedCircles: the population as a structure of arrays, one array
 * per field. CheckForCollisions fills only the cells above the diagonal,
 * j from i + 1, with the doubled-sum threshold; the cells on and below the
 * diagonal keep the zeros the constructor wrote.
 */
module DataOptimized {
  import opened Geometry

  class DataOptimizedCircles {
    var xPosition: array<int>
    var xVelocity: array<int>
    var yPosition: array<int>
    var yVelocity: array<int>
    var radius: array<int>
    /** isCollided[i][j]: the result for the pair (i, j), meaningful for i < j. */
    var isCollided: array2<bool>

    ghost predicate Valid()
      reads this
    {
      && xPosition.Length == NumCircles && xVelocity.Length == NumCircles
      && yPosition.Length == NumCircles && yVelocity.Length == NumCircles
      && radius.Length == NumCircles
      && isCollided.Length0 == NumCircles && isCollided.Length1 == NumCircles
      && xPosition != xVelocity && xPosition != yPosition && xPosition != yVelocity
      && xPosition != radius && yPosition != xVelocity && yPosition != yVelocity
      && yPosition != radius
    }

    /** The population as an array of structs. */
    ghost function Circles(): (cs: seq<Circle>)
      reads this, xPosition, xVelocity, yPosition, yVelocity, radius
      requires Valid()
    {
      Population(xPosition[..], xVelocity[..], yPosition[..], yVelocity[..], radius[..])
    }

    /** Every cell on or below the diagonal is false. */
    ghost predicate LowerTriangleClear()
      reads this, isCollided
      requires Valid()
    {
      forall i, j :: 0 <= j <= i < NumCircles ==> !isCollided[i, j]
    }

    /**
     * The random draws of the first loop are the parameters; the second loop
     * clears every row of the table.
     */
    constructor (x: seq<int>, vx: seq<int>, y: seq<int>, vy: seq<int>, r: seq<int>)
      requires |x| == NumCircles && |vx| == NumCircles && |y| == NumCircles
      requires |vy| == NumCircles && |r| == NumCircles
      ensures Valid()
      ensures fresh(xPosition) && fresh(xVelocity) && fresh(yPosition) && fresh(yVelocity)
      ensures fresh(radius) && fresh(isCollided)
      ensures xPosition[..] == x && xVelocity[..] == vx && yPosition[..] == y
      ensures yVelocity[..] == vy && radius[..] == r
      ensures forall i, j :: 0 <= i < NumCircles && 0 <= j < NumCircles ==> !isCollided[i, j]
      ensures LowerTriangleClear()
    {
      xPosition := new int[NumCircles](k requires 0 <= k < NumCircles => x[k]);
      xVelocity := new int[NumCircles](k requires 0 <= k < NumCircles => vx[k]);
      yPosition := new int[NumCircles](k requires 0 <= k < NumCircles => y[k]);
      yVelocity := new int[NumCircles](k requires 0 <= k < NumCircles => vy[k]);
      radius := new int[NumCircles](k requires 0 <= k < NumCircles => r[k]);
      isCollided := new bool[NumCircles, NumCircles]((i, j) => false);
    }

    /**
     * Cell (i, j) for every i < j holds the doubled-sum test of circles i
     * and j; no cell on or below the diagonal is written, so a clear lower
     * triangle stays clear.
     */
    method CheckForCollisions()
      requires Valid()
      modifies isCollided
      ensures forall i, j :: 0 <= i < j < NumCircles ==>
        isCollided[i, j] == CollidesDoubledSum(xPosition[i], yPosition[i], radius[i],
                                               xPosition[j], yPosition[j], radius[j])
      ensures forall i, j :: 0 <= j <= i < NumCircles ==> isCollided[i, j] == old(isCollided[i, j])
      ensures old(LowerTriangleClear()) ==> LowerTriangleClear()
    {
      for i := 0 to NumCircles
        invariant forall a, b :: 0 <= a < i && a < b < NumCircles ==>
          isCollided[a, b] == CollidesDoubledSum(xPosition[a], yPosition[a], radius[a],
                                                 xPosition[b], yPosition[b], radius[b])
        invariant forall a, b :: 0 <= a < NumCircles && 0 <= b < NumCircles && !(a < i && a < b) ==>
          isCollided[a, b] == old(isCollided[a, b])
      {
        for j := i + 1 to NumCircles
          invariant forall a, b :: 0 <= a < i && a < b < NumCircles ==>
            isCollided[a, b] == CollidesDoubledSum(xPosition[a], yPosition[a], radius[a],
                                                   xPosition[b], yPosition[b], radius[b])
          invariant forall b :: i < b < j ==>
            isCollided[i, b] == CollidesDoubledSum(xPosition[i], yPosition[i], radius[i],
                                                   xPosition[b], yPosition[b], radius[b])
          invariant forall a, b :: 0 <= a < NumCircles && 0 <= b < NumCircles &&
                                   !(a < i && a < b) && !(a == i && i < b < j) ==>
            isCollided[a, b] == old(isCollided[a, b])
        {
          isCollided[i, j] := (xPosition[i] - xPosition[j]) * (xPosition[i] - xPosition[j])
            + (yPosition[i] - yPosition[j]) * (yPosition[i] - yPosition[j])
            < (radius[i] + radius[j]) + (radius[i] + radius[j]);
        }
      }
    }

    /** One pass over the arrays: each position moves by its velocity. */
    method Update()
      requires Valid()
      modifies xPosition, yPosition
      ensures xPosition[..] == AdvancedColumn(old(xPosition[..]), xVelocity[..])
      ensures yPosition[..] == AdvancedColumn(old(yPosition[..]), yVelocity[..])
    {
      for i := 0 to NumCircles
        invariant forall k :: 0 <= k < i ==> xPosition[k] == old(xPosition[k]) + xVelocity[k]
        invariant forall k :: 0 <= k < i ==> yPosition[k] == old(yPosition[k]) + yVelocity[k]
        invariant forall k :: i <= k < NumCircles ==> xPosition[k] == old(xPosition[k])
        invariant forall k :: i <= k < NumCircles ==> yPosition[k] == old(yPosition[k])
      {
        xPosition[i] := xPosition[i] + xVelocity[i];
        yPosition[i] := yPosition[i] + yVelocity[i];
      }
    }
  }
}
