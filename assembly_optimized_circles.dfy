/**
 * AssemblyOptimizedCircles: the SIMD variant rewritten as inline SSE
 * assembly. The loop counters are byte offsets (a float is four bytes, a
 * batch of four is sixteen), held in esi and eax; the registers xmm0 to xmm5
 * are local values of type Vec4.
 */
module AssemblyOptimized {
  import opened Geometry
  import opened Sse
  import Bits

  /** The element a byte offset addresses in an array of 4-byte floats. */
  function Element(offset: nat): nat
  {
    offset / 4
  }

  /** The low byte of eax has the same remainder modulo 16 as eax itself. */
  lemma ModOfLowByte(eax: nat)
    ensures (eax % 256) % 256 == eax % 256
    ensures (eax % 256) % 16 == eax % 16
    ensures eax % 16 <= eax % 256 <= eax
  {
    var h := eax / 256;
    var b := eax % 256;
    var m := b / 16;
    var l := b % 16;
    assert eax == 256 * h + b;
    assert b == 16 * m + l;
    Bits.DivModUnique(b, 256, 0, b);
    Bits.DivModUnique(eax, 16, 16 * h + m, l);
    assert h >= 0 && m >= 0;
  }

  lemma LowByteMask(eax: nat, al: nat)
    requires al == eax % 256
    ensures eax % 16 <= al <= eax
    ensures eax - al + Bits.BitAnd(al, 0xF0) == eax - eax % 16
  {
    Bits.MaskF0(al);
    ModOfLowByte(eax);
  }

  /**
   * mov eax, esi; and al, 0xF0: the AND reaches only al, the low byte of
   * eax, so bits 8 and up survive and the offset is rounded down to a
   * multiple of 16 bytes.
   */
  function AndAlF0(eax: nat): (r: nat)
    ensures r == eax - eax % 16
  {
    LowByteMask(eax, eax % 256);
    eax - eax % 256 + Bits.BitAnd(eax % 256, 0xF0)
  }

  /** i rounded down to a multiple of 4 is a non-negative multiple of 4. */
  lemma RoundDown4(i: nat)
    ensures i % 4 <= i && (i - i % 4) % 4 == 0
  {
    var q := i / 4;
    assert i == 4 * q + i % 4 && q >= 0;
    Bits.DivModUnique(i - i % 4, 4, q, 0);
  }

  /**
   * The byte offset 4 * i rounded down by AndAlF0 is 4 times i rounded down
   * to a multiple of 4.
   */
  lemma ByteRoundDown(i: nat)
    ensures AndAlF0(4 * i) == 4 * (i - i % 4)
    ensures Element(AndAlF0(4 * i)) == i - i % 4
  {
    var q := i / 4;
    var l := i % 4;
    assert i == 4 * q + l && 0 <= l < 4;
    Bits.DivModUnique(4 * i, 16, q, 4 * l);
    assert AndAlF0(4 * i) == 4 * (i - l);
    Bits.DivModUnique(4 * (i - l), 4, i - l, 0);
  }

  /**
   * The first column row i compares against: the byte offset 4 * i rounded
   * down by AndAlF0, as an element index. It is i rounded down to a multiple
   * of 4, for every i.
   */
  function RowStart(i: nat): (j: nat)
    ensures j == i - i % 4
    ensures j % Lanes == 0 && j <= i
    ensures 4 * j == AndAlF0(4 * i)
  {
    RoundDown4(i);
    ByteRoundDown(i);
    Element(AndAlF0(4 * i))
  }

  /**
   * Lane k of the mask cmpltps computes from the loaded columns (xs, ys, rs)
   * and the broadcast circle (xi, yi, ri): (x_j - x_i)^2 + (y_j - y_i)^2 <
   * (r_j + r_i)^2, which is the collision test of circle i against lane k's
   * circle.
   */
  lemma BatchLanes(xi: int, yi: int, ri: int, xs: Vec4, ys: Vec4, rs: Vec4)
    ensures var xmm3 := Sub(xs, Broadcast(xi));
            var xmm4 := Sub(ys, Broadcast(yi));
            var xmm5 := Add(rs, Broadcast(ri));
            var mask := CmpLt(Add(Mul(xmm3, xmm3), Mul(xmm4, xmm4)), Mul(xmm5, xmm5));
            forall k :: 0 <= k < Lanes ==>
              mask.Lane(k) == Collides(xi, yi, ri, xs.Lane(k), ys.Lane(k), rs.Lane(k))
  {
    forall k | 0 <= k < Lanes
      ensures Collides(xs.Lane(k), ys.Lane(k), rs.Lane(k), xi, yi, ri)
           == Collides(xi, yi, ri, xs.Lane(k), ys.Lane(k), rs.Lane(k))
    {
      CollidesSymmetric(xi, yi, ri, xs.Lane(k), ys.Lane(k), rs.Lane(k));
    }
  }

  class AssemblyOptimizedCircles {
    var xPosition: array<int>
    var xVelocity: array<int>
    var yPosition: array<int>
    var yVelocity: array<int>
    var radius: array<int>
    /** isCollided[i][j]: the mask stored for the pair (i, j), as a boolean. */
    var isCollided: array2<bool>

    ghost predicate Valid()
      reads this, radius
    {
      && xPosition.Length == NumCircles && xVelocity.Length == NumCircles
      && yPosition.Length == NumCircles && yVelocity.Length == NumCircles
      && radius.Length == NumCircles
      && isCollided.Length0 == NumCircles && isCollided.Length1 == NumCircles
      && xPosition != xVelocity && xPosition != yPosition && xPosition != yVelocity
      && xPosition != radius && yPosition != xVelocity && yPosition != yVelocity
      && yPosition != radius
      && forall k :: 0 <= k < NumCircles ==> radius[k] > 0
    }

    /**
     * The constructor's random draws are its parameters; every collision
     * cell starts cleared.
     */
    constructor (x: seq<int>, vx: seq<int>, y: seq<int>, vy: seq<int>, r: seq<int>)
      requires |x| == NumCircles && |vx| == NumCircles && |y| == NumCircles
      requires |vy| == NumCircles && |r| == NumCircles
      requires forall k :: 0 <= k < NumCircles ==> r[k] > 0
      ensures Valid()
      ensures fresh(xPosition) && fresh(xVelocity) && fresh(yPosition) && fresh(yVelocity)
      ensures fresh(radius) && fresh(isCollided)
      ensures xPosition[..] == x && xVelocity[..] == vx && yPosition[..] == y
      ensures yVelocity[..] == vy && radius[..] == r
      ensures forall i, j :: 0 <= i < NumCircles && 0 <= j < NumCircles ==> !isCollided[i, j]
    {
      xPosition := new int[NumCircles](k requires 0 <= k < NumCircles => x[k]);
      xVelocity := new int[NumCircles](k requires 0 <= k < NumCircles => vx[k]);
      yPosition := new int[NumCircles](k requires 0 <= k < NumCircles => y[k]);
      yVelocity := new int[NumCircles](k requires 0 <= k < NumCircles => vy[k]);
      radius := new int[NumCircles](k requires 0 <= k < NumCircles => r[k]);
      isCollided := new bool[NumCircles, NumCircles]((i, j) => false);
    }

    /**
     * MovementLoop: a do-while over the byte offset esi = 0, 16, 32, ...
     * while esi < NumCircles * 4; each pass loads four positions of each
     * coordinate, adds the four velocities and stores them back. The element
     * esi addresses, esi / 4, is kept alongside it in k. The test holds on
     * entry (esi starts at 0), so the do-while runs as a while loop.
     */
    method Update()
      requires Valid()
      modifies xPosition, yPosition
      ensures Valid()
      ensures xPosition[..] == AdvancedColumn(old(xPosition[..]), xVelocity[..])
      ensures yPosition[..] == AdvancedColumn(old(yPosition[..]), yVelocity[..])
    {
      var esi: nat := 0;
      var k := 0;
      while esi < NumCircles * 4
        invariant 0 <= k <= NumCircles && k % Lanes == 0
        invariant esi == 4 * k
        invariant forall e :: 0 <= e < k ==> xPosition[e] == old(xPosition[e]) + xVelocity[e]
        invariant forall e :: 0 <= e < k ==> yPosition[e] == old(yPosition[e]) + yVelocity[e]
        invariant forall e :: k <= e < NumCircles ==> xPosition[e] == old(xPosition[e])
        invariant forall e :: k <= e < NumCircles ==> yPosition[e] == old(yPosition[e])
        decreases NumCircles - k
      {
        AlignedBatchFits(k, NumCircles);
        var xmm0 := Load(xPosition, k);
        var xmm1 := Load(yPosition, k);
        xmm0 := Add(xmm0, Load(xVelocity, k));
        xmm1 := Add(xmm1, Load(yVelocity, k));
        Store(xPosition, k, xmm0);
        Store(yPosition, k, xmm1);
        esi := esi + 16;
        k := k + Lanes;
      }
    }

    /**
     * OuterLoop: a do-while over the byte offset esi = 4 * i, kept alongside
     * the row index it addresses. Each pass sets eax to AndAlF0(esi),
     * broadcasts circle i into xmm0 to xmm2, saves esi in the local i while
     * esi points at the row of isCollided, restores it and steps it by 4.
     * Row i ends up written from column RowStart(i) <= i, the diagonal
     * included (true, since every radius is positive).
     */
    method CheckForCollisions()
      requires Valid()
      modifies isCollided
      ensures Valid()
      ensures forall i, j :: 0 <= i < NumCircles && RowStart(i) <= j < NumCircles ==>
        isCollided[i, j] == Collides(xPosition[i], yPosition[i], radius[i],
                                     xPosition[j], yPosition[j], radius[j])
      ensures forall i, j :: 0 <= i < NumCircles && 0 <= j < RowStart(i) ==>
        isCollided[i, j] == old(isCollided[i, j])
      ensures forall i :: 0 <= i < NumCircles ==> isCollided[i, i]
    {
      var i := 0;
      var esi: nat := 0;
      var row := 0;
      while true
        invariant 0 <= row < NumCircles && esi == 4 * row
        invariant forall a, b :: 0 <= a < row && RowStart(a) <= b < NumCircles ==>
          isCollided[a, b] == Collides(xPosition[a], yPosition[a], radius[a],
                                       xPosition[b], yPosition[b], radius[b])
        invariant forall a, b :: 0 <= a < row && 0 <= b < RowStart(a) ==>
          isCollided[a, b] == old(isCollided[a, b])
        invariant forall a, b :: row <= a < NumCircles && 0 <= b < NumCircles ==>
          isCollided[a, b] == old(isCollided[a, b])
        decreases NumCircles - row
      {
        var eax := AndAlF0(esi);
        var xmm0 := Broadcast(xPosition[row]);
        var xmm1 := Broadcast(yPosition[row]);
        var xmm2 := Broadcast(radius[row]);
        i := esi;
        CollisionStart(row, eax, xmm0, xmm1, xmm2);
        esi := i;
        esi := esi + 4;
        row := row + 1;
        if !(esi < NumCircles * 4) {
          break;
        }
      }
      forall i | 0 <= i < NumCircles
        ensures isCollided[i, i]
      {
        SelfCollision(xPosition[i], yPosition[i], radius[i]);
      }
    }

    /**
     * CollisionStart: the do-while over the column byte offset eax, from
     * AndAlF0(4 * row) in steps of 16 while eax < NumCircles * 4, with the
     * element it addresses kept in j. Each pass loads columns j .. j + 4 into
     * xmm3 to xmm5, subtracts circle `row` (broadcast in xmm0 to xmm2) from
     * the positions, adds its radius, squares, compares with cmpltps and
     * stores the mask into the row.
     */
    method CollisionStart(row: nat, eax0: nat, xmm0: Vec4, xmm1: Vec4, xmm2: Vec4)
      requires Valid() && row < NumCircles && eax0 == AndAlF0(4 * row)
      requires xmm0 == Broadcast(xPosition[row]) && xmm1 == Broadcast(yPosition[row])
      requires xmm2 == Broadcast(radius[row])
      modifies isCollided
      ensures forall b :: RowStart(row) <= b < NumCircles ==>
        isCollided[row, b] == Collides(xPosition[row], yPosition[row], radius[row],
                                       xPosition[b], yPosition[b], radius[b])
      ensures forall a, b ::
        (0 <= a < NumCircles && 0 <= b < NumCircles && !(a == row && RowStart(row) <= b)) ==>
        isCollided[a, b] == old(isCollided[a, b])
    {
      var eax: nat := eax0;
      var j := RowStart(row);
      while true
        invariant RowStart(row) <= j < NumCircles && j % Lanes == 0
        invariant eax == 4 * j
        invariant forall b :: RowStart(row) <= b < j ==>
          isCollided[row, b] == Collides(xPosition[row], yPosition[row], radius[row],
                                         xPosition[b], yPosition[b], radius[b])
        invariant forall a, b ::
          (0 <= a < NumCircles && 0 <= b < NumCircles && !(a == row && RowStart(row) <= b < j)) ==>
          isCollided[a, b] == old(isCollided[a, b])
        decreases NumCircles - j
      {
        AlignedBatchFits(j, NumCircles);
        var xmm3 := Load(xPosition, j);
        var xmm4 := Load(yPosition, j);
        var xmm5 := Load(radius, j);
        BatchLanes(xPosition[row], yPosition[row], radius[row], xmm3, xmm4, xmm5);
        xmm3 := Sub(xmm3, xmm0);
        xmm4 := Sub(xmm4, xmm1);
        xmm5 := Add(xmm5, xmm2);
        xmm3 := Mul(xmm3, xmm3);
        xmm4 := Mul(xmm4, xmm4);
        xmm5 := Mul(xmm5, xmm5);
        xmm3 := Add(xmm3, xmm4);
        var mask := CmpLt(xmm3, xmm5);
        StoreMask(isCollided, row, j, mask);
        eax := eax + 16;
        j := j + Lanes;
        if !(eax < NumCircles * 4) {
          break;
        }
      }
    }
  }
}
