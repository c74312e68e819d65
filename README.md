# Optimizing collision detection, modelled in Dafny

The repository is a teaching sequence. It implements one kernel seven times,
each version faster than the last. The kernel works on a fixed population of
NUM_CIRCLES circles, each with a position, a velocity and a radius:

- `Update` adds each circle's velocity to its position;
- `CheckForCollisions` (or `CheckForCollision`, for one pair) fills an
  overlap table. Each pair's squared centre distance is compared with a
  radius threshold.

The seven variants, and the module that models each one:

| variant | module | layout and technique |
|---|---|---|
| BasicCircle | `Basic` | one object per circle; the other circle is passed by value |
| OptimizedCircle | `Optimized` | the same, but the other circle is passed by pointer |
| MoreOptimizedCircle | `MoreOptimized` | the test folded into one expression |
| LoopOptimizedCircles | `LoopOptimized` | an array of structs; the loops sit inside the methods |
| DataOptimizedCircles | `DataOptimized` | a struct of arrays; only the upper triangle is filled |
| SIMDOptimizedCircles | `SimdOptimized` | four circles per step with SSE intrinsics |
| AssemblyOptimizedCircles | `AssemblyOptimized` | the SIMD version as inline SSE assembly |

Shared modules:

- `Geometry` holds the population size, the circle record, the two overlap
  tests the code uses and one tick of motion, with their properties.
- `Bits` defines bitwise AND on naturals one bit at a time, and proves what
  the masks `0xFC` and `0xF0` compute.
- `Sse` models the packed SSE operations lane by lane, on four-lane
  registers.
- `Variants` relates the variants to one another.

How the source becomes Dafny:

- Circles whose fields the source updates become classes. Every `Update` is
  a method whose postcondition gives the new positions as a function of the
  old ones.
- Every `CheckForCollisions` is a method whose postcondition says, cell by
  cell, which part of the table it writes, what each written cell holds, and
  that every other cell is left alone.
- A per-pair `CheckForCollision` reads only, so it is a function. Its
  postcondition is the overlap test it performs.
- The vectorised loops keep their shape:
  - the intrinsics' `for` loop and `do`/`while` loop;
  - in the assembly, the byte-offset counters `esi` and `eax`, stepped by 16
    or 4 and compared with `NUM_CIRCLES * 4`. The element index each
    counter addresses is kept beside it.
  - Each register (`__m128`, `xmm0` to `xmm5`) is a four-lane `Vec4` value.
  - Each comparison result is a `Mask4` of booleans.

What each variant's code computes, as the model states it:

- BasicCircle is the reference every later variant is meant to reproduce
  (BasicCircle.cpp:76-77). It, OptimizedCircle and the two vectorised
  variants compare with the squared radius sum `(r1 + r2)^2`.
  MoreOptimizedCircle, LoopOptimizedCircles and DataOptimizedCircles compare
  with `(r1 + r2) + (r1 + r2)` instead. The model keeps each variant's own
  formula and records the doubled sum under Findings.
- Which cells of the table hold a result depends on the variant:
  - LoopOptimizedCircles fills every cell. Its table is symmetric, and the
    diagonal is true for every circle of positive radius.
  - DataOptimizedCircles never writes the diagonal or the lower triangle,
    which keep the constructor's zeros.
  - The two vectorised variants write each row from a multiple of four at or
    below the row index. So they write the diagonal (true, since every
    radius is positive) and part of the lower triangle.

## Model

| member | source | states |
|---|---|---|
| `Geometry.SquaredDistance` | OptimizingCollisionDetection/OptimizingCollisionDetection/BasicCircle.cpp:53-58 | the squared magnitude of the centre offset is never negative and is zero exactly when the centres coincide |
| `Geometry.Advanced` | OptimizingCollisionDetection/OptimizingCollisionDetection/BasicCircle.cpp:71-74 | one tick moves each position coordinate by its velocity and leaves both velocities and the radius unchanged |
| `Geometry.AdvancedAll` | OptimizingCollisionDetection/OptimizingCollisionDetection/LoopOptimizedCircles.cpp:54-57 | advancing an array of structs keeps its length and advances every element by one tick |
| `Geometry.AdvancedColumn` | OptimizingCollisionDetection/OptimizingCollisionDetection/DataOptimizedCircles.cpp:76-79 | advancing one coordinate column keeps its length and moves each element by exactly its velocity |
| `Geometry.Population` | OptimizingCollisionDetection/OptimizingCollisionDetection/DataOptimizedCircles.h:37-41 | the struct-of-arrays columns read as an array of structs: element k gathers entry k of every column |
| `Geometry.CollidesSymmetric` | OptimizingCollisionDetection/OptimizingCollisionDetection/BasicCircle.cpp:53-63 | the squared test and the doubled-sum test each give the same answer with the two circles swapped |
| `Geometry.CollidesTranslationInvariant` | OptimizingCollisionDetection/OptimizingCollisionDetection/BasicCircle.cpp:53-56 | moving both circles by the same offset changes neither test: only coordinate differences matter |
| `Geometry.SquareMonotonic` | OptimizingCollisionDetection/OptimizingCollisionDetection/BasicCircle.cpp:60-66 | for non-negative values, comparing squares is comparing the values, which is why no square root is needed |
| `Geometry.CollidesIffCloserThanRadiusSum` | OptimizingCollisionDetection/OptimizingCollisionDetection/BasicCircle.cpp:51-66 | with d the centre distance and a non-negative radius sum, the squared test holds exactly when d < r1 + r2 |
| `Geometry.TouchingCirclesDoNotCollide` | OptimizingCollisionDetection/OptimizingCollisionDetection/BasicCircle.cpp:66 | the comparison is strict: circles exactly r1 + r2 apart are reported as not colliding |
| `Geometry.OverlappingCirclesCollide` | OptimizingCollisionDetection/OptimizingCollisionDetection/OptimizedCircle.cpp:59 | circles any positive amount closer than r1 + r2 are reported as colliding |
| `Geometry.SelfCollision` | OptimizingCollisionDetection/OptimizingCollisionDetection/LoopOptimizedCircles.cpp:63-66 | a circle compared with itself collides under the squared test iff its radius is non-zero, and under the doubled-sum test iff it is positive |
| `Geometry.DoubledSumUnderReports` | OptimizingCollisionDetection/OptimizingCollisionDetection/MoreOptimizedCircle.cpp:55-57 | once the radius sum is at least 2, a doubled-sum collision is a real one, and the two tests disagree exactly when 2(r1 + r2) <= squared distance < (r1 + r2)^2 |
| `Geometry.DoubledSumMissesOverlap` | OptimizingCollisionDetection/OptimizingCollisionDetection/LoopOptimizedCircles.cpp:64-66 | radii 5 and 5 with centres 7 apart overlap, and the doubled-sum test misses it |
| `Geometry.CommonMotionPreservesCollision` | OptimizingCollisionDetection/OptimizingCollisionDetection/BasicCircle.cpp:71-74 | two circles with equal velocities collide after a tick exactly when they did before |
| `Geometry.AdvanceLayoutsAgree` | OptimizingCollisionDetection/OptimizingCollisionDetection/DataOptimizedCircles.cpp:70-80 | advancing the x and y columns of a struct of arrays gives the population that advancing the array of structs gives |
| `Bits.BitAnd` | OptimizingCollisionDetection/OptimizingCollisionDetection/SIMDOptimizedCircles.cpp:134 | a & b is never above either operand |
| `Bits.BitAndLowMask` | OptimizingCollisionDetection/OptimizingCollisionDetection/SIMDOptimizedCircles.cpp:134 | AND with a mask of n low one-bits is the remainder modulo 2^n |
| `Bits.BitAndClearsLowBit` | OptimizingCollisionDetection/OptimizingCollisionDetection/SIMDOptimizedCircles.cpp:134-137 | AND with a mask whose lowest bit is clear drops the lowest bit of the other operand |
| `Bits.MaskFC` | OptimizingCollisionDetection/OptimizingCollisionDetection/SIMDOptimizedCircles.cpp:134-137 | i & 0xFC is a multiple of 4: the low byte of i rounded down to a multiple of 4, so bits 8 and up are lost |
| `Bits.MaskF0` | OptimizingCollisionDetection/OptimizingCollisionDetection/AssemblyOptimizedCircles.cpp:358 | b & 0xF0 is the low byte of b rounded down to a multiple of 16 |
| `Sse.AlignedBatchFits` | OptimizingCollisionDetection/OptimizingCollisionDetection/SIMDOptimizedCircles.cpp:84 | when N is a multiple of 4, a 4-aligned batch that starts before N ends inside the arrays, and the next start is aligned again |
| `Sse.Broadcast` | OptimizingCollisionDetection/OptimizingCollisionDetection/SIMDOptimizedCircles.cpp:127-129 | _mm_load1_ps (movss, then shufps x, x, 0) puts the same value in every lane |
| `Sse.Add` | OptimizingCollisionDetection/OptimizingCollisionDetection/SIMDOptimizedCircles.cpp:89-92 | _mm_add_ps / addps adds lane by lane |
| `Sse.Sub` | OptimizingCollisionDetection/OptimizingCollisionDetection/SIMDOptimizedCircles.cpp:141-147 | _mm_sub_ps / subps subtracts lane by lane |
| `Sse.Mul` | OptimizingCollisionDetection/OptimizingCollisionDetection/SIMDOptimizedCircles.cpp:157-162 | _mm_mul_ps / mulps multiplies lane by lane |
| `Sse.CmpLt` | OptimizingCollisionDetection/OptimizingCollisionDetection/SIMDOptimizedCircles.cpp:155-156 | _mm_cmplt_ps / cmpltps sets a lane exactly when that lane of the first operand is strictly below the second |
| `Sse.Load` | OptimizingCollisionDetection/OptimizingCollisionDetection/SIMDOptimizedCircles.cpp:90-92 | an aligned load puts a[i + k] in lane k |
| `Sse.Store` | OptimizingCollisionDetection/OptimizingCollisionDetection/SIMDOptimizedCircles.cpp:88-92 | an aligned store writes lane k to a[i + k] and no other element |
| `Sse.StoreMask` | OptimizingCollisionDetection/OptimizingCollisionDetection/SIMDOptimizedCircles.cpp:154-163 | storing a mask writes lane k to cell (row, j + k) and no other cell |
| `Basic.BasicCircle.constructor` | OptimizingCollisionDetection/OptimizingCollisionDetection/BasicCircle.cpp:34-41 | the circle holds the five drawn values |
| `Basic.BasicCircle.CheckForCollision` | OptimizingCollisionDetection/OptimizingCollisionDetection/BasicCircle.cpp:48-68 | true iff (x1 - x2)^2 + (y1 - y2)^2 < (r1 + r2)^2, for a by-value copy of the other circle; a function, so neither circle changes |
| `Basic.BasicCircle.Update` | OptimizingCollisionDetection/OptimizingCollisionDetection/BasicCircle.cpp:71-74 | the circle after the call is the old circle advanced one tick |
| `Optimized.OptimizedCircle.constructor` | OptimizingCollisionDetection/OptimizingCollisionDetection/OptimizedCircle.cpp:30-36 | the circle holds the five drawn values |
| `Optimized.OptimizedCircle.CheckForCollision` | OptimizingCollisionDetection/OptimizingCollisionDetection/OptimizedCircle.cpp:47-61 | true iff (x - p.x)^2 + (y - p.y)^2 < (r + p.r)^2, reading the other circle in place (it may be this circle); writes no field |
| `Optimized.OptimizedCircle.Update` | OptimizingCollisionDetection/OptimizingCollisionDetection/OptimizedCircle.cpp:64-67 | the circle after the call is the old circle advanced one tick |
| `MoreOptimized.MoreOptimizedCircle.constructor` | OptimizingCollisionDetection/OptimizingCollisionDetection/MoreOptimizedCircle.cpp:31-38 | the circle holds the five drawn values |
| `MoreOptimized.MoreOptimizedCircle.CheckForCollision` | OptimizingCollisionDetection/OptimizingCollisionDetection/MoreOptimizedCircle.cpp:49-59 | true iff dx^2 + dy^2 < (r1 + r2) + (r1 + r2); a function, so neither circle changes |
| `MoreOptimized.MoreOptimizedCircle.DoubledSumHitIsReal` | OptimizingCollisionDetection/OptimizingCollisionDetection/MoreOptimizedCircle.cpp:55-57 | when the radii add up to at least 2, a collision the one-expression test reports is a real one, and it differs from the squared form exactly when 2(r1 + r2) <= squared distance < (r1 + r2)^2 |
| `MoreOptimized.MoreOptimizedCircle.CheckForCollisionSquared` | OptimizingCollisionDetection/OptimizingCollisionDetection/MoreOptimizedCircle.cpp:55-57 | the same one expression with the radius sum squared holds exactly when the circles collide |
| `MoreOptimized.MoreOptimizedCircle.Update` | OptimizingCollisionDetection/OptimizingCollisionDetection/MoreOptimizedCircle.cpp:63-66 | the circle after the call is the old circle advanced one tick |
| `LoopOptimized.LoopOptimizedCircles.constructor` | OptimizingCollisionDetection/OptimizingCollisionDetection/LoopOptimizedCircles.cpp:32-38 | the structs hold the drawn circles and every cell of the table is false |
| `LoopOptimized.LoopOptimizedCircles.Update` | OptimizingCollisionDetection/OptimizingCollisionDetection/LoopOptimizedCircles.cpp:50-58 | every struct is advanced one tick: each position moves by its own velocity, and velocities and radii are unchanged |
| `LoopOptimized.LoopOptimizedCircles.CheckForCollisions` | OptimizingCollisionDetection/OptimizingCollisionDetection/LoopOptimizedCircles.cpp:60-69 | every cell (i, j) is overwritten with the doubled-sum test of circles i and j; the table is symmetric; the diagonal is true for every positive radius; the circles are not modified |
| `DataOptimized.DataOptimizedCircles.constructor` | OptimizingCollisionDetection/OptimizingCollisionDetection/DataOptimizedCircles.cpp:32-47 | the five columns hold the draws and every cell of the table is false |
| `DataOptimized.DataOptimizedCircles.CheckForCollisions` | OptimizingCollisionDetection/OptimizingCollisionDetection/DataOptimizedCircles.cpp:57-68 | each cell with i < j holds the doubled-sum test of circles i and j; cells with j <= i keep their old value, so a clear lower triangle and diagonal stay clear; no column is modified |
| `DataOptimized.DataOptimizedCircles.Update` | OptimizingCollisionDetection/OptimizingCollisionDetection/DataOptimizedCircles.cpp:70-80 | xPosition[i] += xVelocity[i] and yPosition[i] += yVelocity[i] for every i; velocities and radii are not modified |
| `SimdOptimized.RowStart` | OptimizingCollisionDetection/OptimizingCollisionDetection/SIMDOptimizedCircles.cpp:134 | the row start i & 0xFC is a multiple of 4 not above i, and equals i mod 256 rounded down to a multiple of 4 |
| `SimdOptimized.BatchLanes` | OptimizingCollisionDetection/OptimizingCollisionDetection/SIMDOptimizedCircles.cpp:141-163 | lane k of the mask built from the broadcast circle and four loaded circles is the squared collision test of the pair |
| `SimdOptimized.SIMDOptimizedCircles.constructor` | OptimizingCollisionDetection/OptimizingCollisionDetection/SIMDOptimizedCircles.cpp:36-62 | the five distinct columns hold the draws, every radius is positive, every cell is cleared |
| `SimdOptimized.SIMDOptimizedCircles.Update` | OptimizingCollisionDetection/OptimizingCollisionDetection/SIMDOptimizedCircles.cpp:79-116 | the stride-4 batches give every element position + velocity exactly once: the same columns as the element-wise update |
| `SimdOptimized.SIMDOptimizedCircles.CheckForCollisions` | OptimizingCollisionDetection/OptimizingCollisionDetection/SIMDOptimizedCircles.cpp:118-169 | every row i is visited: exactly the columns from i & 0xFC to the end hold the strict squared test, earlier columns keep their old value, and the diagonal is true |
| `SimdOptimized.SIMDOptimizedCircles.CheckRow` | OptimizingCollisionDetection/OptimizingCollisionDetection/SIMDOptimizedCircles.cpp:139-167 | the do-while runs at least once and writes row i from i & 0xFC to the end in batches of four, each cell the squared test; no other cell changes |
| `AssemblyOptimized.AndAlF0` | OptimizingCollisionDetection/OptimizingCollisionDetection/AssemblyOptimizedCircles.cpp:357-358 | `and al, 0xF0` touches only the low byte, so the offset is rounded down to a multiple of 16 and its higher bits survive |
| `AssemblyOptimized.ByteRoundDown` | OptimizingCollisionDetection/OptimizingCollisionDetection/AssemblyOptimizedCircles.cpp:357-358 | the byte offset 4i rounded down to a multiple of 16 is 4 times i rounded down to a multiple of 4 |
| `AssemblyOptimized.RowStart` | OptimizingCollisionDetection/OptimizingCollisionDetection/AssemblyOptimizedCircles.cpp:357-358 | the column start is 4 * floor(i / 4) for every i: a multiple of 4 not above i, matching the byte offset in eax |
| `AssemblyOptimized.BatchLanes` | OptimizingCollisionDetection/OptimizingCollisionDetection/AssemblyOptimizedCircles.cpp:374-388 | lane k of the cmpltps mask, computed as (x_j - x_i)^2 + (y_j - y_i)^2 < (r_j + r_i)^2, is the collision test of circle i and lane k's circle |
| `AssemblyOptimized.AssemblyOptimizedCircles.constructor` | OptimizingCollisionDetection/OptimizingCollisionDetection/AssemblyOptimizedCircles.cpp:34-60 | the five distinct columns hold the draws, every radius is positive, every cell is cleared |
| `AssemblyOptimized.AssemblyOptimizedCircles.Update` | OptimizingCollisionDetection/OptimizingCollisionDetection/AssemblyOptimizedCircles.cpp:174-203 | the byte offsets 0, 16, 32, ... below N * 4 give every element position + velocity exactly once; velocities are only read |
| `AssemblyOptimized.AssemblyOptimizedCircles.CheckForCollisions` | OptimizingCollisionDetection/OptimizingCollisionDetection/AssemblyOptimizedCircles.cpp:347-405 | every row i is visited, its counter restored after each row: exactly the columns from 4 * floor(i / 4) hold the strict squared test, earlier columns keep their old value, and the diagonal is true |
| `AssemblyOptimized.AssemblyOptimizedCircles.CollisionStart` | OptimizingCollisionDetection/OptimizingCollisionDetection/AssemblyOptimizedCircles.cpp:373-396 | one row from column 4 * floor(i / 4) to the end in batches of four, each cell the squared test; no other cell changes |
| `Variants.PointerPassingKeepsTheTest` | OptimizingCollisionDetection/OptimizingCollisionDetection/OptimizedCircle.cpp:44-61 | on circles with equal fields, OptimizedCircle's test gives BasicCircle's result: passing by pointer is the only change |
| `Variants.SquaredFoldAgreesWithBasic` | OptimizingCollisionDetection/OptimizingCollisionDetection/MoreOptimizedCircle.cpp:55-57 | the one-expression test with the sum squared gives BasicCircle's result |
| `Variants.DoubledFoldMissesBasicCollision` | OptimizingCollisionDetection/OptimizingCollisionDetection/MoreOptimizedCircle.cpp:57 | on radii 5 and 5 with centres 7 apart, BasicCircle reports a collision and MoreOptimizedCircle does not |
| `Variants.DataTableMatchesLoopTable` | OptimizingCollisionDetection/OptimizingCollisionDetection/DataOptimizedCircles.cpp:61-66 | on the same population, each upper-triangle cell of DataOptimizedCircles equals LoopOptimizedCircles' cell (i, j) and its mirror (j, i) |
| `Variants.IntendedRowStart` | OptimizingCollisionDetection/OptimizingCollisionDetection/SIMDOptimizedCircles.cpp:135-137 | the row start the comment describes (0, 1, 2, 3 to 0; 4 to 4; ...): the multiple of 4 whose batch contains column i |
| `Variants.AssemblyRowStartIsIntended` | OptimizingCollisionDetection/OptimizingCollisionDetection/AssemblyOptimizedCircles.cpp:357-358 | the assembly's row start is the intended one for every row |
| `Variants.SimdRowStartIntendedBelow256` | OptimizingCollisionDetection/OptimizingCollisionDetection/SIMDOptimizedCircles.cpp:134-137 | i & 0xFC is the intended start exactly when i < 256; above that it is at least 256 columns too low |
| `Variants.Row300Starts` | OptimizingCollisionDetection/OptimizingCollisionDetection/SIMDOptimizedCircles.cpp:134 | row 300 starts at column 44 in the intrinsics and at column 300 in the assembly |
| `Variants.VectorRowsCoverUpperTriangle` | OptimizingCollisionDetection/OptimizingCollisionDetection/SIMDOptimizedCircles.cpp:134-167 | both vectorised variants write every cell (i, j) with i <= j, and the intrinsics' row contains the assembly's |

## Left out

- Floating point. Coordinates, velocities and radii are `float` in the
  source and exact integers here, so rounding, NaN and the all-ones bit
  pattern of a `cmpltps` lane are not modelled. A comparison mask is a
  boolean per lane.
- The integers are in the source's own unit (1 stands for 1.0f): the
  doubled-sum test is not invariant under a change of unit, since the
  squared distance scales quadratically and the doubled sum linearly.
- Non-integer values are not covered. Every variant draws velocities as
  floats in [-1, 1] ([-5, 5] in the assembly variant), and the model keeps
  only whole values.
- `Geometry.CollidesIffCloserThanRadiusSum`, `Geometry.TouchingCirclesDoNotCollide`
  and `Geometry.OverlappingCirclesCollide` therefore speak only of pairs
  whose centre distance is an integer.
- Random draws. The constructors' calls to `Helper::RandomFloat` become
  constructor parameters, and the draw ranges are not modelled. The one
  exception is the vectorised variants, which require every radius to be
  positive (the draws lie in [5, 100]); that is what makes their diagonal
  true.
- Memory management. `malloc`, `_aligned_malloc`, `memset`, the frees and
  the destructors are not modelled. The table of separately allocated rows
  is one `array2<bool>`, created all false.
- The `boolTest` buffer of the two vectorised variants is allocated and
  never used.
- The 16-byte alignment of every array.
- In the assembly, the base pointers in `ebx`, `ecx`, `edx` and `edi`, and
  the row pointer loaded into `esi`, become the arrays and the row index.
  The pushes and saves into the local `i` are modelled as the value they
  preserve.
- AssemblyOptimizedCircles `Update`: the movement do-while is modelled as a
  while loop. Its test holds on entry, so the two run the same passes.
- AVXOptimizedCircles is not modelled: both of its method bodies are
  commented out.
- main.cpp (the timing driver and console output) and the timers of
  HelperFunctions.h are not modelled.
- Settings.h is not part of this model. NUM_CIRCLES is taken as 1000, the
  bound `3E8h` that the compiled loop compares with
  (AssemblyOptimizedCircles.cpp:112).

## Findings

| source | as written | input that shows it | evidently intended | confidence | as-written member | corrected member |
|---|---|---|---|---|---|---|
| OptimizingCollisionDetection/OptimizingCollisionDetection/MoreOptimizedCircle.cpp:57 | the squared distance is compared with `(r1 + r2) + (r1 + r2)`; LoopOptimizedCircles.cpp:66 and DataOptimizedCircles.cpp:65 copy the expression | radii 5 and 5, centres (0, 0) and (7, 0): 49 < 100, so the circles overlap, but 49 is not below 20 | `(r1 + r2) * (r1 + r2)`, as BasicCircle.cpp:62-63 computes it | not executed | `MoreOptimized.MoreOptimizedCircle.CheckForCollision`, shown by `Variants.DoubledFoldMissesBasicCollision` | `MoreOptimized.MoreOptimizedCircle.CheckForCollisionSquared` |
| OptimizingCollisionDetection/OptimizingCollisionDetection/SIMDOptimizedCircles.cpp:134 | `int j = i & 0xFC` clears bits 8 and up as well as the two low bits | row 300 starts at column 44, not 300. The written cells still hold the right test, but from row 256 on each row recomputes 256 * floor(i / 256) columns before its own batch | i rounded down to a multiple of 4, as the comment at lines 135-137 describes and as `and al, 0xF0` computes in the assembly | not executed | `SimdOptimized.RowStart`, shown by `Variants.Row300Starts` | `Variants.IntendedRowStart` |

LoopOptimizedCircles and DataOptimizedCircles keep their doubled-sum tables,
as written. `Geometry.DoubledSumUnderReports` bounds what those tables miss:
only pairs whose squared distance lies in [2(r1 + r2), (r1 + r2)^2).
