# Optical illusion sketch: verified model of the lattice core

The sketch fills a silhouette with small equilateral triangles. The silhouette is an
RGBA mask: a 600 x 600 pixel buffer in which an alpha of 1 or less means "outside".
The triangles come from two lattices:

- a wide lattice for broad parts of the silhouette;
- a narrow lattice for thin parts.

A third lattice covers the whole canvas behind the silhouette. Every triangle is turned
about a pivot slightly off its center. The turn is 0, 120 or 240 degrees, and it moves on
by one step per period.

This project models that core in Dafny and proves its properties. It has six modules:

- `Mask` (`mask.dfy`): the pixel buffer; `sampleAlpha` as the function `Mask.SampleAlpha`
  (clamped, floored read of the alpha byte); `estimateGradient` as `Mask.EstimateGradient`
  (central differences of four samples).
- `RayThickness` (`thickness.dfy`): `localThickness`, the nested ray walk with an early
  exit, as the method `RayThickness.LocalThickness`. It is proved equal to the recursive
  specification function `RayThickness.Thickness`, which is proved to be the least exit
  step over all rays, or the search radius.
- `Margin` (`margin.dfy`): `triangleInsideMaskWithMargin` as the method
  `Margin.TriangleInsideMaskWithMargin`, proved equal to the predicate
  `Margin.InsideWithMargin`: each of the six probe points (the three vertices and the
  three edge midpoints) passes its alpha test and its thickness test.
- `Lattice` (`lattice.dfy`): the cell decision of `drawAlternatingLattice` as the function
  `Lattice.CellDecision` (method `Lattice.DecideCell`); the grid walks of
  `drawAlternatingLattice` and `drawBackgroundLattice`, specified by `Lattice.PassOutput`
  and `Lattice.GridCells`; the `(r + c)` parity orientation `Lattice.BaseDegrees`; the
  narrow-mode band override `Lattice.CellOrientation`; and `offCenterPivot` as
  `Lattice.OffCenterPivot`.
- `Rotation` (`rotation.dfy`): the three-state stepper at the top of `draw`. Its
  transition is the function `Rotation.TickState`; the class `RotationStepper` holds the
  sketch's globals `_stepIndex`, `_lastStepMs` and `_angleOffset`, and its `Tick` method
  performs that transition.
- `Frame` (`frame.dfy`): `draw` itself, as `Frame.DrawFrame`, specified by `Frame.FrameAt`.
  It ticks the stepper, then runs the background lattice, the wide pass and the narrow
  pass with the sketch's lattice constants.

Coordinates are exact `real`s. The sketch's trigonometry is not modelled. A `Geometry`
value stands in for it and supplies these results:

- the ray directions `(cos a, sin a)`;
- the constant `sqrt(3)/2`;
- the projection `q` of a point on the boundary normal (`atan2`, `cos`, `sin`), from the estimated gradient;
- the placement of a triangle (`equiVertsFromSide`, then `rotAbout` about the pivot); in narrow mode the orientation it receives carries the estimated gradient, whose `atan2` is the normal.

Every decision the sketch makes on those results is modelled exactly. Angles are whole
degrees: the base orientation is -90 or +90, the narrow override adds 0 or 180 to the
normal, and the rotation is `stepIndex * 120`.

JavaScript's `%` truncates toward zero. It is modelled as `JsRemTwo`, and its parity is
proved to agree with Dafny's Euclidean `%`, negative operands included.

Three facts about the code that the lemmas make precise:

- **Thickness at the radius.** `localThickness` returns `maxR` when no ray leaves the
  mask before step `maxR`, and so also when the first exit is exactly at step `maxR`
  (`ThicknessIsMaxRIff`).
- **Pivot direction in narrow mode.** In the narrow pass the pivot still follows the
  `(r + c)` parity (sketch.js:363, 377-378), not the band override of the orientation
  (`PivotFollowsBaseOrientation`).
- **Side lengths.** Nothing in the sketch checks that a base side exceeds twice its
  spacing; `ConfiguredSidesPositive` proves that the configured sides are positive.

## Model

| member | source | states |
|---|---|---|
| `Mask.Floor` | Shazia_05_Optical_Illusion_2025_11_18_03_20_45/sketch.js:385-386 | `floor` returns the integer n with n <= x < n + 1 |
| `Mask.Constrain` | Shazia_05_Optical_Illusion_2025_11_18_03_20_45/sketch.js:385-386 | the clamped index lies in [low, high], and an index already in range is kept |
| `Mask.ConstrainIsNearest` | Shazia_05_Optical_Illusion_2025_11_18_03_20_45/sketch.js:385-386 | the clamped index is the value of [low, high] nearest to the unclamped one |
| `Mask.AlphaIndex` | Shazia_05_Optical_Illusion_2025_11_18_03_20_45/sketch.js:387-388 | the byte read, `4*(iy*w+ix)+3`, is inside the buffer of `4*w*h` bytes and is an alpha byte (index 3 mod 4) |
| `Mask.AlphaIndexInjective` | Shazia_05_Optical_Illusion_2025_11_18_03_20_45/sketch.js:387-388 | distinct pixels own distinct alpha bytes |
| `Mask.SampleAlphaInCanvas` | Shazia_05_Optical_Illusion_2025_11_18_03_20_45/sketch.js:384-389 | inside the canvas, `sampleAlpha` reads the alpha of the pixel that contains the point |
| `Mask.SampleAlphaBeyondEdges` | Shazia_05_Optical_Illusion_2025_11_18_03_20_45/sketch.js:384-389 | beyond any edge, `sampleAlpha` returns the alpha of the nearest edge pixel |
| `Mask.EstimateGradient` | Shazia_05_Optical_Illusion_2025_11_18_03_20_45/sketch.js:392-398 | each component of the gradient lies in [-255, 255] |
| `Mask.GradientAntisymmetric` | Shazia_05_Optical_Illusion_2025_11_18_03_20_45/sketch.js:392-398 | probing with the radius negated negates both components |
| `Mask.GradientOfUniformMask` | Shazia_05_Optical_Illusion_2025_11_18_03_20_45/sketch.js:392-398 | where all pixels share one alpha, both components are 0 |
| `RayThickness.FirstExitIsFirst` | Shazia_05_Optical_Illusion_2025_11_18_03_20_45/sketch.js:404-411 | the inner loop stops at a step where the ray is outside the mask, and every earlier step is inside; when it runs to the end, no step is outside |
| `RayThickness.ThicknessIsLeastExit` | Shazia_05_Optical_Illusion_2025_11_18_03_20_45/sketch.js:401-414 | the thickness is at most `maxR` and at least 1 when `maxR >= 1`; no ray is outside before it; below `maxR`, some ray is outside at it |
| `RayThickness.ThicknessIsMaxRIff` | Shazia_05_Optical_Illusion_2025_11_18_03_20_45/sketch.js:401-414 | the thickness equals `maxR` exactly when no ray is outside at any step below `maxR` |
| `RayThickness.ThicknessMonotone` | Shazia_05_Optical_Illusion_2025_11_18_03_20_45/sketch.js:401-414 | a larger search radius never gives a smaller thickness |
| `RayThickness.LocalThickness` | Shazia_05_Optical_Illusion_2025_11_18_03_20_45/sketch.js:401-414 | the nested loop with `break` returns the thickness of the specification |
| `Margin.Ceil` | Shazia_05_Optical_Illusion_2025_11_18_03_20_45/sketch.js:425 | `ceil` returns the integer n with x <= n < x + 1 |
| `Margin.ProbePoints` | Shazia_05_Optical_Illusion_2025_11_18_03_20_45/sketch.js:417-422 | a triangle has six probe points |
| `Margin.TriangleInsideMaskWithMargin` | Shazia_05_Optical_Illusion_2025_11_18_03_20_45/sketch.js:416-428 | returns true exactly when each of the six probes has alpha > 1 and a thickness, within `ceil(2 * margin)`, of at least `margin` |
| `Margin.OutsideProbeRejects` | Shazia_05_Optical_Illusion_2025_11_18_03_20_45/sketch.js:423-424 | a vertex or edge midpoint outside the mask rejects the triangle, whatever the margin |
| `Margin.UnitMarginOnlyChecksAlpha` | Shazia_05_Optical_Illusion_2025_11_18_03_20_45/sketch.js:416-428 | with margin 1 the test holds exactly when all six probes have alpha > 1: the thickness clause cannot reject |
| `Lattice.ConfiguredSidesPositive` | Shazia_05_Optical_Illusion_2025_11_18_03_20_45/sketch.js:6-26 | the drawn sides are 14, 10 and 14, all positive, and the margin `SPACING * 0.5` is 1 |
| `Lattice.JsRemTwo` | Shazia_05_Optical_Illusion_2025_11_18_03_20_45/sketch.js:348 | JavaScript's `x % 2` is 0 or 1 for x >= 0, 0 or -1 for x < 0, and differs from x by an even number |
| `Lattice.JsEvenAgrees` | Shazia_05_Optical_Illusion_2025_11_18_03_20_45/sketch.js:348 | `x % 2 === 0` in JavaScript holds exactly when x is even, negative x included |
| `Lattice.BaseAlternates` | Shazia_05_Optical_Illusion_2025_11_18_03_20_45/sketch.js:348 | the base orientation is -90 or +90; neighbours in a row or a column are opposite, diagonal neighbours are equal |
| `Lattice.PivotFollowsBaseOrientation` | Shazia_05_Optical_Illusion_2025_11_18_03_20_45/sketch.js:377-381 | the pivot is straight above the center for a -90 cell and straight below it for a +90 cell, `side * 0.12` away |
| `Lattice.CoordIsProduct` | Shazia_05_Optical_Illusion_2025_11_18_03_20_45/sketch.js:335-336 | the accumulated loop coordinate after n steps is n * step, the nominal cell center |
| `Lattice.OrientationByMode` | Shazia_05_Optical_Illusion_2025_11_18_03_20_45/sketch.js:348-357 | a wide cell keeps its parity orientation; a narrow cell faces along the normal when its band `floor(q / (base / 2))` is even and the other way when it is odd |
| `Lattice.PassesPartitionCells` | Shazia_05_Optical_Illusion_2025_11_18_03_20_45/sketch.js:337-345 | outside the mask both passes skip a point; inside it the narrow pass gets past classification iff thickness < 28, the wide pass iff thickness >= 28; no point is drawn by both |
| `Lattice.DrawnCellIsSound` | Shazia_05_Optical_Illusion_2025_11_18_03_20_45/sketch.js:337-371 | a drawn cell has its center inside the mask, its thickness on its pass's side, and its triangle inside the mask with margin |
| `Lattice.DecideCell` | Shazia_05_Optical_Illusion_2025_11_18_03_20_45/sketch.js:337-371 | the loop body with its three `continue`s makes the decision of the specification |
| `Lattice.StepCountExact` | Shazia_05_Optical_Illusion_2025_11_18_03_20_45/sketch.js:335-336 | a loop `v = 0; v <= bound; v += step` visits index n exactly when n < `StepCount(bound, step)` |
| `Lattice.GridCellsLength` | Shazia_05_Optical_Illusion_2025_11_18_03_20_45/sketch.js:312-313 | the nested row and column loops visit rows * cols cells |
| `Lattice.GridCellsAt` | Shazia_05_Optical_Illusion_2025_11_18_03_20_45/sketch.js:312-313 | cell (r, c) is visited at position r * cols + c |
| `Lattice.GridCellsMember` | Shazia_05_Optical_Illusion_2025_11_18_03_20_45/sketch.js:312-313 | everything the loops produce comes from one of the grid's cells |
| `Lattice.DrawnMember` | Shazia_05_Optical_Illusion_2025_11_18_03_20_45/sketch.js:371 | a triangle is emitted exactly when it is the triangle of a cell decided as drawn |
| `Lattice.PassOutputDrawn` | Shazia_05_Optical_Illusion_2025_11_18_03_20_45/sketch.js:331-374 | every triangle a pass emits is the triangle of a grid cell whose decision is to draw it |
| `Lattice.PassOutputComplete` | Shazia_05_Optical_Illusion_2025_11_18_03_20_45/sketch.js:331-374 | every grid cell whose decision is to draw has its triangle emitted |
| `Lattice.PassOutputInsideMask` | Shazia_05_Optical_Illusion_2025_11_18_03_20_45/sketch.js:331-374 | every triangle a pass emits lies inside the mask with the margin |
| `Lattice.EmitCell` | Shazia_05_Optical_Illusion_2025_11_18_03_20_45/sketch.js:337-371 | one pass of the column loop body appends the triangle of cell (r, c) exactly when its decision is to draw, so the output grows by one column |
| `Lattice.DrawLatticeRow` | Shazia_05_Optical_Illusion_2025_11_18_03_20_45/sketch.js:336-372 | the column loop emits, in column order, the triangles of the drawn cells of its row |
| `Lattice.DrawAlternatingLattice` | Shazia_05_Optical_Illusion_2025_11_18_03_20_45/sketch.js:331-374 | the pass emits the drawn cells' triangles row by row, and every one of them lies inside the mask with the margin |
| `Lattice.DrawBackgroundLattice` | Shazia_05_Optical_Illusion_2025_11_18_03_20_45/sketch.js:309-328 | one triangle per grid cell, unconditionally, in row-major order, each at the cell's parity orientation and pivot |
| `Rotation.PeriodMs` | Shazia_05_Optical_Illusion_2025_11_18_03_20_45/sketch.js:72 | the period is positive and at most 10^7 ms for any rate; for a rate of at least 0.0001 it is 1000 / rate |
| `Rotation.NextStepCycles` | Shazia_05_Optical_Illusion_2025_11_18_03_20_45/sketch.js:74 | the step index stays in {0, 1, 2}, always moves, and returns after exactly three steps |
| `Rotation.TickAdvancesIffPeriodElapsed` | Shazia_05_Optical_Illusion_2025_11_18_03_20_45/sketch.js:72-76 | a tick changes the state exactly when a period has elapsed, and then advances the index by one mod 3 and records `now` |
| `Rotation.AngleIsAThirdTurn` | Shazia_05_Optical_Illusion_2025_11_18_03_20_45/sketch.js:77 | the angle is 0, 120 or 240 degrees, one per step index |
| `Rotation.RunCountsAdvances` | Shazia_05_Optical_Illusion_2025_11_18_03_20_45/sketch.js:72-76 | after any sequence of ticks, the index is the start index plus the number of advances, mod 3 |
| `Rotation.RunSpacesAdvances` | Shazia_05_Optical_Illusion_2025_11_18_03_20_45/sketch.js:72-76 | the recorded step time moves on by at least one period per advance |
| `Rotation.ThreeAdvancesReturn` | Shazia_05_Optical_Illusion_2025_11_18_03_20_45/sketch.js:74 | three advances bring the index back to its start |
| `Rotation.FullTurnInThreeSeconds` | Shazia_05_Optical_Illusion_2025_11_18_03_20_45/sketch.js:29 | at 1 step per second, ticks 1, 2 and 3 seconds after the last step advance three times and come back to the start |
| `Rotation.RotationStepper.constructor` | Shazia_05_Optical_Illusion_2025_11_18_03_20_45/sketch.js:29-32 | the globals start at index 0, last step 0 ms and angle 0 |
| `Rotation.RotationStepper.Tick` | Shazia_05_Optical_Illusion_2025_11_18_03_20_45/sketch.js:71-77 | the stepper block of `draw` performs the transition of the specification and sets the angle to `stepIndex * 120` |
| `Frame.LatticeStepsPositive` | Shazia_05_Optical_Illusion_2025_11_18_03_20_45/sketch.js:10-26 | every lattice moves forward in both directions; the column steps are 9, 7 and 10 |
| `Frame.FramePatternInsideMask` | Shazia_05_Optical_Illusion_2025_11_18_03_20_45/sketch.js:299-303 | in a frame, every wide and narrow triangle lies inside the mask with the margin, and the background has one triangle per cell |
| `Frame.DrawFrame` | Shazia_05_Optical_Illusion_2025_11_18_03_20_45/sketch.js:70-303 | `draw` ticks the stepper once, then draws the background, wide and narrow lattices at the new angle |

## Left out

- Mask construction is left out: `createGraphics`, the silhouette and crown-hole Bézier paths (sketch.js:461-518), `erase` and `loadPixels`. The mask is a given pixel buffer.
- The hard-coded `TRI(...)` triangles (sketch.js:87-298) are left out. They are decorative coordinate data, and `DrawFrame` does not emit them.
- `equiVertsFromSide`, `rotAbout`, `Math.sqrt`, `atan2`, `cos` and `sin` are left out. They are floating-point trigonometry, supplied by the `Geometry` parameter. The model therefore does not prove that three 120-degree turns bring a vertex back to its place.
- `Lattice.OffCenterPivot`: `cos` and `sin` of plus or minus 90 degrees are taken as exactly 0 and plus or minus 1. In floating point, `Math.cos(HALF_PI)` is about 6e-17.
- Floating-point rounding is left out: coordinates are exact reals. In particular, the sketch's `y += rowStep` and `x += colStep` accumulate rounding error, and the model's `Coord` does not.
- `RayThickness.LocalThickness`: the angle loop `a += TWO_PI / 16` may run a 17th time near 2π because of rounding. That repeats direction 0 and cannot change the minimum, so the direction table is 16 entries (any table, in fact).
- `Frame.DrawFrame`: `millis()` is read twice in `draw`. The model uses a single time `now` for both reads.
- `Frame.DrawFrame`: `geo.halfRoot3 > 0.0` is required. It stands for `Math.sqrt(3) / 2`, which is positive.
- Colours, `background`, `fill`, `noStroke` and the `gray` argument of `drawBackgroundLattice` are left out. They are rendering state with no effect on the emitted geometry. Emitting a triangle is modelled as appending it to an output sequence.
- `setup` is left out, apart from the 600 x 600 canvas size, which the model takes as the `canvas` parameter.
