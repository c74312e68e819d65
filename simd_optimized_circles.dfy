/**
 * SIMDOptimizedCircles: the struct-of-arrays population processed four
 * circles at a time with SSE intrinsics. Update advances four positions per
 * step; CheckForCollisions broadcasts circle i into every lane and compares
 * it against four columns per step, starting each row at i & 0xFC.
 */
module SimdOptimized {
  import opened Geometry
  import opened Sse
  import Bits

  /**
   * The first column row i compares against: int j = i & 0xFC. The mask
   * clears the two low bits and also every bit above bit 7, so the start is
   * a multiple of 4 that is never above i, but for i >= 256 it lies far
   * below i.
   */
  function RowStart(i: nat): (j: nat)
    ensures j % Lanes == 0 && j <= i
    ensures j == i % 256 - i % 4
  {
    Bits.MaskFC(i);
    Bits.BitAnd(i, 0xFC)
  }

  /**
   * Lane k of the comparison mask built from circle (xi, yi, ri) broadcast
   * and the four circles (xs, ys, rs) is the collision test of circle i and
   * lane k's circle.
   */
  lemma BatchLanes(xi: int, yi: int, ri: int, xs: Vec4, ys: Vec4, rs: Vec4)
    ensures var xDif := Sub(Broadcast(xi), xs);
            var yDif := Sub(Broadcast(yi), ys);
            var radiusAdd := Add(Broadcast(ri), rs);
            var mask := CmpLt(Add(Mul(xDif, xDif), Mul(yDif, yDif)), Mul(radiusAdd, radiusAdd));
            forall k :: 0 <= k < Lanes ==>
              mask.Lane(k) == Collides(xi, yi, ri, xs.Lane(k), ys.Lane(k), rs.Lane(k))
  {
  }

  class SIMDOptimizedCircles {
    var xPosition: array<int>
    var xVelocity: array<int>
    var yPosition: array<int>
    var yVelocity: array<int>
    var radius: array<int>
    /** isCollided[i][j]: the mask stored for the pair (i, j), as a boolean. */
    var isCollided: array2<bool>

    ghost predicate Valid()
      reads this, radius
    {
      && xPosition.Length == NumCircles && xVelocity.Length == NumCircles
      && yPosition.Length == NumCircles && yVelocity.Length == NumCircles
      && radius.Length == NumCircles
      && isCollided.Length0 == NumCircles && isCollided.Length1 == NumCircles
      && xPosition != xVelocity && xPosition != yPosition && xPosition != yVelocity
      && xPosition != radius && yPosition != xVelocity && yPosition != yVelocity
      && yPosition != radius
      && forall k :: 0 <= k < NumCircles ==> radius[k] > 0
    }

    /**
     * The constructor's random draws are its parameters; every collision
     * cell starts cleared.
     */
    constructor (x: seq<int>, vx: seq<int>, y: seq<int>, vy: seq<int>, r: seq<int>)
      requires |x| == NumCircles && |vx| == NumCircles && |y| == NumCircles
      requires |vy| == NumCircles && |r| == NumCircles
      requires forall k :: 0 <= k < NumCircles ==> r[k] > 0
      ensures Valid()
      ensures fresh(xPosition) && fresh(xVelocity) && fresh(yPosition) && fresh(yVelocity)
      ensures fresh(radius) && fresh(isCollided)
      ensures xPosition[..] == x && xVelocity[..] == vx && yPosition[..] == y
      ensures yVelocity[..] == vy && radius[..] == r
      ensures forall i, j :: 0 <= i < NumCircles && 0 <= j < NumCircles ==> !isCollided[i, j]
    {
      xPosition := new int[NumCircles](k requires 0 <= k < NumCircles => x[k]);
      xVelocity := new int[NumCircles](k requires 0 <= k < NumCircles => vx[k]);
      yPosition := new int[NumCircles](k requires 0 <= k < NumCircles => y[k]);
      yVelocity := new int[NumCircles](k requires 0 <= k < NumCircles => vy[k]);
      radius := new int[NumCircles](k requires 0 <= k < NumCircles => r[k]);
      isCollided := new bool[NumCircles, NumCircles]((i, j) => false);
    }

    /** Four positions per step: position += velocity, lane by lane. */
    method Update()
      requires Valid()
      modifies xPosition, yPosition
      ensures Valid()
      ensures xPosition[..] == AdvancedColumn(old(xPosition[..]), xVelocity[..])
      ensures yPosition[..] == AdvancedColumn(old(yPosition[..]), yVelocity[..])
    {
      var i := 0;
      while i < NumCircles
        invariant 0 <= i <= NumCircles && i % Lanes == 0
        invariant forall k :: 0 <= k < i ==> xPosition[k] == old(xPosition[k]) + xVelocity[k]
        invariant forall k :: 0 <= k < i ==> yPosition[k] == old(yPosition[k]) + yVelocity[k]
        invariant forall k :: i <= k < NumCircles ==> xPosition[k] == old(xPosition[k])
        invariant forall k :: i <= k < NumCircles ==> yPosition[k] == old(yPosition[k])
      {
        AlignedBatchFits(i, NumCircles);
        Store(xPosition, i, Add(Load(xPosition, i), Load(xVelocity, i)));
        Store(yPosition, i, Add(Load(yPosition, i), Load(yVelocity, i)));
        i := i + Lanes;
      }
    }

    /**
     * Row i is written from column RowStart(i) to the end, four columns per
     * step; each written cell holds the squared-radius test of circles i and
     * j. Columns before RowStart(i) keep what they held. RowStart(i) <= i,
     * so the diagonal is written too, and holds true since every radius is
     * positive.
     */
    method CheckForCollisions()
      requires Valid()
      modifies isCollided
      ensures Valid()
      ensures forall i, j :: 0 <= i < NumCircles && RowStart(i) <= j < NumCircles ==>
        isCollided[i, j] == Collides(xPosition[i], yPosition[i], radius[i],
                                     xPosition[j], yPosition[j], radius[j])
      ensures forall i, j :: 0 <= i < NumCircles && 0 <= j < RowStart(i) ==>
        isCollided[i, j] == old(isCollided[i, j])
      ensures forall i :: 0 <= i < NumCircles ==> isCollided[i, i]
    {
      var i := 0;
      while i < NumCircles
        invariant 0 <= i <= NumCircles
        invariant forall a, b :: 0 <= a < i && RowStart(a) <= b < NumCircles ==>
          isCollided[a, b] == Collides(xPosition[a], yPosition[a], radius[a],
                                       xPosition[b], yPosition[b], radius[b])
        invariant forall a, b :: 0 <= a < i && 0 <= b < RowStart(a) ==>
          isCollided[a, b] == old(isCollided[a, b])
        invariant forall a, b :: i <= a < NumCircles && 0 <= b < NumCircles ==>
          isCollided[a, b] == old(isCollided[a, b])
      {
        var xPos := Broadcast(xPosition[i]);
        var yPos := Broadcast(yPosition[i]);
        var rad := Broadcast(radius[i]);
        CheckRow(i, xPos, yPos, rad);
        i := i + 1;
      }
      forall i | 0 <= i < NumCircles
        ensures isCollided[i, i]
      {
        SelfCollision(xPosition[i], yPosition[i], radius[i]);
      }
    }

    /**
     * The do-while of one row: circle i, broadcast into xPos, yPos and rad,
     * against columns RowStart(i), RowStart(i) + 4, ... while the column is
     * below NumCircles. The body runs at least once since RowStart(i) <= i.
     */
    method CheckRow(i: nat, xPos: Vec4, yPos: Vec4, rad: Vec4)
      requires Valid() && i < NumCircles
      requires xPos == Broadcast(xPosition[i]) && yPos == Broadcast(yPosition[i])
      requires rad == Broadcast(radius[i])
      modifies isCollided
      ensures forall b :: RowStart(i) <= b < NumCircles ==>
        isCollided[i, b] == Collides(xPosition[i], yPosition[i], radius[i],
                                     xPosition[b], yPosition[b], radius[b])
      ensures forall a, b ::
        (0 <= a < NumCircles && 0 <= b < NumCircles && !(a == i && RowStart(i) <= b)) ==>
        isCollided[a, b] == old(isCollided[a, b])
    {
      var j := RowStart(i);
      while true
        invariant RowStart(i) <= j < NumCircles && j % Lanes == 0
        invariant forall b :: RowStart(i) <= b < j ==>
          isCollided[i, b] == Collides(xPosition[i], yPosition[i], radius[i],
                                       xPosition[b], yPosition[b], radius[b])
        invariant forall a, b ::
          (0 <= a < NumCircles && 0 <= b < NumCircles && !(a == i && RowStart(i) <= b < j)) ==>
          isCollided[a, b] == old(isCollided[a, b])
        decreases NumCircles - j
      {
        AlignedBatchFits(j, NumCircles);
        var xDif := Sub(xPos, Load(xPosition, j));
        var yDif := Sub(yPos, Load(yPosition, j));
        var radiusAdd := Add(rad, Load(radius, j));
        var mask := CmpLt(Add(Mul(xDif, xDif), Mul(yDif, yDif)), Mul(radiusAdd, radiusAdd));
        BatchLanes(xPosition[i], yPosition[i], radius[i],
                   Load(xPosition, j), Load(yPosition, j), Load(radius, j));
        StoreMask(isCollided, i, j, mask);
        j := j + Lanes;
        if !(j < NumCircles) {
          break;
        }
      }
    }
  }
}
