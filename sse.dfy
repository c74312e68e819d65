/**
 * The SSE operations the two vectorised variants use, one lane at a time: a
 * 128-bit register holds four values, and every packed instruction acts on
 * the four lanes independently. The intrinsics of SIMDOptimizedCircles and
 * the instructions of AssemblyOptimizedCircles map onto the same operations:
 * _mm_load_ps / movaps from memory, _mm_store_ps / movaps to memory,
 * _mm_load1_ps / movss followed by shufps x, x, 0, _mm_add_ps / addps,
 * _mm_sub_ps / subps, _mm_mul_ps / mulps and _mm_cmplt_ps / cmpltps.
 */
module Sse {

  /** The number of lanes in a register. */
  const Lanes: nat := 4

  /** A register of four lanes (__m128 or xmm0 to xmm7). */
  datatype Vec4 = Vec4(l0: int, l1: int, l2: int, l3: int)
  {
    function Lane(k: nat): int
      requires k < Lanes
    {
      if k == 0 then l0 else if k == 1 then l1 else if k == 2 then l2 else l3
    }
  }

  /**
   * The result of a packed comparison: each lane is all ones or all zeros,
   * written here as true or false.
   */
  datatype Mask4 = Mask4(m0: bool, m1: bool, m2: bool, m3: bool)
  {
    function Lane(k: nat): bool
      requires k < Lanes
    {
      if k == 0 then m0 else if k == 1 then m1 else if k == 2 then m2 else m3
    }
  }

  /**
   * An aligned batch that starts before the end of an array whose length is
   * a multiple of four lies entirely inside it.
   */
  lemma AlignedBatchFits(j: nat, n: nat)
    requires j % Lanes == 0 && n % Lanes == 0 && j < n
    ensures j + Lanes <= n && (j + Lanes) % Lanes == 0
  {
    assert j == Lanes * (j / Lanes);
    assert n == Lanes * (n / Lanes);
    assert j + Lanes == Lanes * (j / Lanes + 1);
  }

  /** One value copied into every lane. */
  function Broadcast(v: int): (w: Vec4)
    ensures forall k :: 0 <= k < Lanes ==> w.Lane(k) == v
  {
    Vec4(v, v, v, v)
  }

  function Add(u: Vec4, v: Vec4): (w: Vec4)
    ensures forall k :: 0 <= k < Lanes ==> w.Lane(k) == u.Lane(k) + v.Lane(k)
  {
    Vec4(u.l0 + v.l0, u.l1 + v.l1, u.l2 + v.l2, u.l3 + v.l3)
  }

  function Sub(u: Vec4, v: Vec4): (w: Vec4)
    ensures forall k :: 0 <= k < Lanes ==> w.Lane(k) == u.Lane(k) - v.Lane(k)
  {
    Vec4(u.l0 - v.l0, u.l1 - v.l1, u.l2 - v.l2, u.l3 - v.l3)
  }

  function Mul(u: Vec4, v: Vec4): (w: Vec4)
    ensures forall k :: 0 <= k < Lanes ==> w.Lane(k) == u.Lane(k) * v.Lane(k)
  {
    Vec4(u.l0 * v.l0, u.l1 * v.l1, u.l2 * v.l2, u.l3 * v.l3)
  }

  /** Lane-wise strict less-than. */
  function CmpLt(u: Vec4, v: Vec4): (m: Mask4)
    ensures forall k :: 0 <= k < Lanes ==> (m.Lane(k) <==> u.Lane(k) < v.Lane(k))
  {
    Mask4(u.l0 < v.l0, u.l1 < v.l1, u.l2 < v.l2, u.l3 < v.l3)
  }

  /** An aligned load of the four elements a[i .. i + 4]. */
  function Load(a: array<int>, i: nat): (v: Vec4)
    reads a
    requires i % Lanes == 0 && i + Lanes <= a.Length
    ensures forall k :: 0 <= k < Lanes ==> v.Lane(k) == a[i + k]
  {
    Vec4(a[i], a[i + 1], a[i + 2], a[i + 3])
  }

  /** An aligned store of four lanes into a[i .. i + 4]; the rest of a is untouched. */
  method Store(a: array<int>, i: nat, v: Vec4)
    requires i % Lanes == 0 && i + Lanes <= a.Length
    modifies a
    ensures forall k :: 0 <= k < a.Length ==>
      a[k] == (if i <= k < i + Lanes then v.Lane(k - i) else old(a[k]))
  {
    a[i], a[i + 1], a[i + 2], a[i + 3] := v.l0, v.l1, v.l2, v.l3;
  }

  /**
   * An aligned store of a comparison mask into cells (row, j .. j + 4) of the
   * collision table; every other cell is untouched.
   */
  method StoreMask(t: array2<bool>, row: nat, j: nat, m: Mask4)
    requires row < t.Length0 && j % Lanes == 0 && j + Lanes <= t.Length1
    modifies t
    ensures forall a, b :: 0 <= a < t.Length0 && 0 <= b < t.Length1 ==>
      t[a, b] == (if a == row && j <= b < j + Lanes then m.Lane(b - j) else old(t[a, b]))
  {
    t[row, j], t[row, j + 1], t[row, j + 2], t[row, j + 3] := m.m0, m.m1, m.m2, m.m3;
  }
}
