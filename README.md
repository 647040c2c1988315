# Dandelion puff: the wind field, its geometry and the app state, in Dafny

The program animates a field of wind. A grid of square cells covers the
canvas, and each cell holds a wind vector. Every frame does two things:

- A *wind tunnel* is a drag gesture: a start point and a wind vector. A
  tunnel whose wind has length less than 5 is skipped. Any other tunnel adds
  its wind, capped at `12 * increaseRate * random()`, to the cells whose
  centers lie within 45 pixels of its segment, and caps each such cell at 12.
- Every cell that no tunnel touched loses some of its length.

Moving bodies (`SimpleEntity`, `Trail`) follow a capped, damped kinematic
step. A small reducer holds the application state.

This project models that core:

- `src/linalg/Vector2.ts` becomes `vector2.dfy`, module `Vectors`. The vector
  value is the datatype `Vec`. `Vector2` is a class that holds one `Vec` and
  changes it in place.
- `src/linalg/LineSegment.ts` becomes `line_segment.dfy`, module `Segments`.
  It covers projection onto a segment and the distance to a segment.
- `src/linalg/VectorField.ts` becomes `vector_field.dfy`, module `Field`:
  - the grid arithmetic;
  - the cell enumeration;
  - the pixel lookup;
  - the near-segment query;
  - `decrease` and `applyWindTunnels`, each a method over an `array` that is
    proved equal to a function that specifies it.
- `src/linalg/SimpleEntity.ts` and `src/linalg/Trail.ts` become
  `simple_entity.dfy` (module `Entity`) and `trail.dfy` (module `Trails`).
  Both classes share one kinematic step, which is defined once in
  `motion.dfy` (module `Motion`).
- `src/state/reducer.ts` and `src/state/types.ts` become `reducer.dfy`, module
  `Reducer`.
- `common.dfy`, module `Common`, holds shared helpers:
  - `Option`;
  - JavaScript numbers that may be NaN (`Num`, where `None` is NaN);
  - `Math.floor` and `Math.ceil`;
  - `Array.prototype.filter`.

The model fixes a few modelling choices:

- **Length.** A length is the maximum norm max(|x|, |y|), not the Euclidean
  norm. That norm needs no square root, and every contract relies only on the
  norm laws (see "Left out"). The segment's projection is still proved optimal
  in the Euclidean sense: `ClosestPointIsNearest` works with squared Euclidean
  distances.
- **Random draws.** Every `Math.random()` is an explicit parameter, and a
  contract that depends on one requires it in [0, 1).
- **Wind-field draws.** `applyWindTunnels` takes two kinds of draw:
  - one draw per tunnel, which sizes that tunnel's wind component;
  - one draw per cell index, which scales that cell's decay.

Where the code's behaviour needs a decision, the model follows the code:

- **Pixel lookup.** `getVectorAtPixelPosition` (src/linalg/VectorField.ts:86-98)
  forms the index from the floored row and column and checks only that the
  array has that index. A point right of the grid therefore wraps into the
  next row. The as-written lookup is modelled and the wrap is exhibited (see
  "Findings"). The corrected lookup is proved to answer "no cell" for every
  point that lies in no cell.
- **Degenerate segment.** For a segment whose endpoints coincide,
  `closestPointOnSegment` (src/linalg/LineSegment.ts:33-43) divides 0 by 0
  and returns a NaN point. The model requires distinct endpoints. Its only
  caller, `applyWindTunnels`, never builds such a segment, because a tunnel
  shorter than 5 is skipped.
- **Unset dimensions.** `validateOrThrow` (src/linalg/VectorField.ts:193-203)
  is never called. A field with unset dimensions therefore has NaN rows and
  columns and no cells, and every operation on it does nothing. The model
  does the same.
- **Missing type.** `WindTunnel` is imported from `src/state/types.ts`, which
  does not declare it. The model declares `Field.WindTunnel` with the two
  fields that `applyWindTunnels` reads: `from` and `wind`.

## Model

| member | source | states |
|---|---|---|
| `Vectors.Vec.Len` | src/linalg/Vector2.ts:22-24 | A length is never negative. It is zero exactly for the zero vector. It bounds the absolute value of each component. |
| `Vectors.Vec.WithLength` | src/linalg/Vector2.ts:30-33 | `setMag(l)`: a zero vector stays zero. Any other vector gets length abs(l). For l >= 0 the result points the same way. |
| `Vectors.Vec.Capped` | src/linalg/Vector2.ts:35-43 | For a bound `max >= 0`, `capLength(max)` never lengthens a vector. A vector within `max` is unchanged. A longer one gets exactly length `max` and keeps its direction. |
| `Vectors.Vec.Plus` | src/linalg/Vector2.ts:62-65 | p5's `add` behind `add`: subtracting either summand from the sum gives back the other. |
| `Vectors.Vec.Minus` | src/linalg/Vector2.ts:67-70 | p5's `sub` behind `subtract`: the difference is zero exactly when the two vectors are equal. |
| `Vectors.Vec.Scale` | src/linalg/Vector2.ts:52-55 | p5's `mult` behind `multiply`: the product is zero exactly when the factor or the vector is zero, and a factor of 1 changes nothing. |
| `Vectors.LenScale` | src/linalg/Vector2.ts:52-55 | `multiply(k)` scales the length by abs(k). |
| `Vectors.CappedIdempotent` | src/linalg/Vector2.ts:35-43 | For a bound >= 0, capping twice at that bound is the same as capping once. |
| `Vectors.PlusMinusInverse` | src/linalg/Vector2.ts:62-70 | `subtract` undoes `add`, and `add` undoes `subtract`. |
| `Vectors.Vector2.constructor` | src/linalg/Vector2.ts:6-8 | Holds the vector (x, y). |
| `Vectors.Vector2.Create` | src/linalg/Vector2.ts:72-74 | Returns a new object holding (x, y). |
| `Vectors.Vector2.Zero` | src/linalg/Vector2.ts:76-78 | Returns a new object holding the zero vector. |
| `Vectors.Vector2.Copy` | src/linalg/Vector2.ts:10-12 | Returns a new, distinct object holding an equal vector. |
| `Vectors.Vector2.SetLength` | src/linalg/Vector2.ts:30-33 | Changes this object in place to `WithLength(l)` of its old vector, and returns the object itself. |
| `Vectors.Vector2.CapLength` | src/linalg/Vector2.ts:35-43 | Changes this object in place to `Capped(max)` of its old vector, and returns the object itself. |
| `Vectors.Vector2.Multiply` | src/linalg/Vector2.ts:52-55 | Scales this object's vector in place. |
| `Vectors.Vector2.Add` | src/linalg/Vector2.ts:62-65 | Adds the other object's old vector into this one. The other object is unchanged unless it is this very object. |
| `Vectors.Vector2.Subtract` | src/linalg/Vector2.ts:67-70 | Subtracts the other object's old vector from this one. The other object is unchanged unless it is this very object. |
| `Vectors.Vector2.Sum` | src/linalg/Vector2.ts:80-83 | Static `add` returns a new object holding the sum of both vectors. |
| `Vectors.Vector2.Difference` | src/linalg/Vector2.ts:85-88 | Static `subtract` returns a new object holding the difference of both vectors. |
| `Segments.Create` | src/linalg/LineSegment.ts:9-14 | The segment keeps the endpoint values as they were at construction. |
| `Segments.LineSegment.AsVector` | src/linalg/LineSegment.ts:24-26 | `asVector` is `from - to`: adding `to` back gives `from`. |
| `Segments.LineSegment.SquaredLength` | src/linalg/LineSegment.ts:33 | The divisor of the projection is positive for a segment with distinct endpoints. |
| `Segments.LineSegment.Parameter` | src/linalg/LineSegment.ts:33 | The projection parameter t satisfies t * squared length == the dot product of (p - from) and (to - from). |
| `Segments.LineSegment.ClosestPoint` | src/linalg/LineSegment.ts:28-44 | The closest point always lies on the segment. |
| `Segments.LineSegment.DistanceFrom` | src/linalg/LineSegment.ts:46-49 | The distance is never negative. It is zero exactly when the point is its own closest point. |
| `Segments.ParameterOfPointAt` | src/linalg/LineSegment.ts:33 | The projection parameter of the point at fraction s is s itself. |
| `Segments.ClosestPointOnSegmentIsItself` | src/linalg/LineSegment.ts:28-44 | Projecting a point of the segment gives back that point. |
| `Segments.ClosestPointAtClampedParameter` | src/linalg/LineSegment.ts:35-43 | The two early returns and the interpolation together give the point at the clamped parameter. |
| `Segments.ClosestPointIsNearest` | src/linalg/LineSegment.ts:28-44 | No point of the segment is closer to p, in squared Euclidean distance, than the closest point. |
| `Segments.DistanceOnSegmentIsZero` | src/linalg/LineSegment.ts:46-49 | Every point of the segment is at distance 0. |
| `Segments.DistanceFromEndpointsIsZero` | src/linalg/LineSegment.ts:46-49 | Both endpoints are at distance 0. |
| `Segments.DistanceBeyondTheEnds` | src/linalg/LineSegment.ts:35-40 | When the projection falls before `from` (or after `to`), the distance is the distance to that endpoint. |
| `Field.CeilQuotient` | src/linalg/VectorField.ts:33-34 | `ceil(a / b)` is NaN exactly when an operand is NaN. Otherwise it is the least integer c with a <= c * b. |
| `Field.Rows` | src/linalg/VectorField.ts:33 | `rows` is a number exactly when the height and the cell size are, and then it is never negative. |
| `Field.Columns` | src/linalg/VectorField.ts:34 | `columns` is a number exactly when the width and the cell size are, and then it is never negative. |
| `Field.CellCount` | src/linalg/VectorField.ts:35-38 | The cell count is rows times columns, or 0 when that product is NaN. A field with cells has a cell size and at least one column. |
| `Field.GridCoversArea` | src/linalg/VectorField.ts:33-34 | The columns cover the width with the fewest cells, and so do the rows for the height. |
| `Field.Coordinates` | src/linalg/VectorField.ts:187-191 | `coordinatesFromIndex` gives a row >= 0 and a column within the columns such that row * columns + column is the index. |
| `Field.CoordinatesRoundTrip` | src/linalg/VectorField.ts:187-191 | Converting a grid position to its row-major index and back gives the same (row, column). |
| `Field.CellAt` | src/linalg/VectorField.ts:49-63 | The cell record carries the vector, the index, coordinates that invert the index, and the center of that row and column. |
| `Field.Cells` | src/linalg/VectorField.ts:67-84 | `map` visits every cell once, in index order. |
| `Field.CenterInsideCell` | src/linalg/VectorField.ts:52-55 | Every cell's center lies inside that cell's own rectangle. |
| `Field.PixelIndex` | src/linalg/VectorField.ts:87-89 | For a point inside the rectangle of (row, column), the computed index is columns * row + column. |
| `Field.LookUp` | src/linalg/VectorField.ts:86-98 | `getVectorAtPixelPosition` as written answers exactly when columns * floor(y / size) + floor(x / size) indexes the array, and then it returns that cell. |
| `Field.LookUpInsideCell` | src/linalg/VectorField.ts:86-98 | A point inside a cell's rectangle finds that cell. |
| `Field.LookUpWrapsPastRightEdge` | src/linalg/VectorField.ts:87-91 | In a 2 x 2 grid of 10-pixel cells, the point (20, 0) lies in no cell, yet the lookup finds cell 2. |
| `Field.LookUpWrapsPastLeftEdge` | src/linalg/VectorField.ts:87-91 | In a 2 x 2 grid of 10-pixel cells, the point (-5, 15) lies in no cell, yet the lookup finds cell 1. |
| `Field.CellAtPixel` | src/linalg/VectorField.ts:86-98 | The corrected lookup answers with the cell whose rectangle holds the point. It answers "no cell" exactly when no cell holds it. |
| `Field.LookUpAgreesWithinColumns` | src/linalg/VectorField.ts:86-98 | Inside the grid's columns, the lookup as written and the corrected lookup agree. |
| `Field.MeasureAll` | src/linalg/VectorField.ts:171-175 | Every cell gets its distance from the segment, in order, and nothing else. |
| `Field.CellsNearSegment` | src/linalg/VectorField.ts:142-177 | `getCellsNearSegment` returns exactly the cells inside the grown bounding box whose center is within the threshold, each measured. |
| `Field.NearPointInBox` | src/linalg/VectorField.ts:151-156 | A point within the threshold of the segment lies in the segment's bounding box grown by the threshold. |
| `Field.CellBounds` | src/linalg/VectorField.ts:151-163 | For a non-negative threshold, the floored bounds are ordered: top <= bottom and left <= right. |
| `Field.CellInBounds` | src/linalg/VectorField.ts:158-170 | A cell whose center lies in the grown box passes the floored bounds filter. |
| `Field.NearCellsNeedNoBox` | src/linalg/VectorField.ts:165-176 | The bounding-box filter only saves work. The result is exactly the cells within the threshold, with or without it. |
| `Field.NearIndices` | src/linalg/VectorField.ts:127-130 | A tunnel's near cells are, by index, exactly the cells whose center is within the threshold of it. |
| `Field.Shrunk` | src/linalg/VectorField.ts:105 | One cell of `decrease`: a zero vector stays zero. Any other vector keeps its direction and gets length max(0, length - amount). |
| `Field.DecreaseAll` | src/linalg/VectorField.ts:104-107 | `decrease(amount)` applies that to every cell, so for amount >= 0 no cell grows. |
| `Field.Blows` | src/linalg/VectorField.ts:118-120 | A tunnel that is not skipped (wind length at least 5) spans a proper segment, so its projection is defined. |
| `Field.TunnelSegment` | src/linalg/VectorField.ts:126 | A tunnel with non-zero wind spans a proper segment from `from` to `from + wind`. |
| `Field.InjectCells` | src/linalg/VectorField.ts:128-131 | Adding the capped wind to the near cells keeps the number of cells. Its effect on each cell is stated by `InjectCellsEffect`. |
| `Field.InjectCellsEffect` | src/linalg/VectorField.ts:128-131 | Cells a tunnel does not reach are unchanged. Every cell it reaches ends with length at most 12. |
| `Field.InjectOne` | src/linalg/VectorField.ts:128-131 | Handling one near cell adds the wind to that cell, caps it at 12, and pushes its index. |
| `Field.TunnelStep` | src/linalg/VectorField.ts:118-131 | One tunnel keeps the number of cells. |
| `Field.InjectTunnels` | src/linalg/VectorField.ts:117-132 | The tunnel loop keeps the number of cells. |
| `Field.InjectTunnelsEffect` | src/linalg/VectorField.ts:115-132 | After the tunnel loop, a cell is affected exactly when some tunnel of length at least 5 reaches it. Affected cells have length at most 12, and all other cells are unchanged. |
| `Field.DecayUntouched` | src/linalg/VectorField.ts:134-137 | Affected cells are kept. Every other cell decays by `decreaseSpeed` times its draw. |
| `Field.WindTunnelsResult` | src/linalg/VectorField.ts:109-140 | `applyWindTunnels` keeps the number of cells. |
| `Field.WindTunnelsOutcome` | src/linalg/VectorField.ts:109-140 | A cell some tunnel reaches ends with length at most 12. Every other cell has only decayed, by 3 * rate times its draw, so it never grows for a non-negative rate and draw. |
| `Field.DecayedNeverGrows` | src/linalg/VectorField.ts:137 | The decay never lengthens a vector when the speed and the draw are non-negative. |
| `Field.VectorField.constructor` | src/linalg/VectorField.ts:29-39 | Builds one zero vector per cell in a fresh array, with rows and columns derived from the options. |
| `Field.VectorField.Create` | src/linalg/VectorField.ts:205-207 | Builds a fresh field with those options. |
| `Field.VectorField.Empty` | src/linalg/VectorField.ts:209-215 | Builds a field with NaN dimensions, NaN rows and columns, and no cells. |
| `Field.VectorField.Copy` | src/linalg/VectorField.ts:41-46 | The copy has the same options and equal vectors in a fresh array, so changing it leaves the original alone. |
| `Field.VectorField.CellList` | src/linalg/VectorField.ts:48-84 | `forEach` and `map` enumerate one record per cell. |
| `Field.VectorField.GetVectorAtPixelPosition` | src/linalg/VectorField.ts:86-98 | A hit names a valid index and that cell's current vector. |
| `Field.VectorField.Decrease` | src/linalg/VectorField.ts:104-107 | The loop leaves the cells equal to `DecreaseAll` of the old cells and returns the field. |
| `Field.VectorField.ApplyWindTunnels` | src/linalg/VectorField.ts:109-140 | The loops leave the cells equal to `WindTunnelsResult` of the old cells and returns the field. |
| `Field.VectorField.BlowTunnel` | src/linalg/VectorField.ts:117-132 | One tunnel changes the cells and the affected list as `TunnelStep` says. |
| `Field.VectorField.InjectNear` | src/linalg/VectorField.ts:128-131 | The inner loop leaves the cells equal to `InjectCells` and appends the near cells' indices. |
| `Field.VectorField.DecayPass` | src/linalg/VectorField.ts:134-137 | The decay loop leaves the cells equal to `DecayUntouched`. |
| `Motion.CappedSpeed` | src/linalg/SimpleEntity.ts:28 | The speed after adding the acceleration is at most 3. It is left unchanged when it was within 3. |
| `Motion.Damping` | src/linalg/SimpleEntity.ts:33 | A draw in [0, 1) removes less than 0.02 of length. |
| `Motion.Step` | src/linalg/SimpleEntity.ts:27-36 | One `update`: the position moves by the capped speed. The acceleration gets length max(0, length - 0.05) with the same direction. The speed gets length max(0, capped - 0.02 r) with the same direction, and so stays within 3. |
| `Motion.AtRestStaysAtRest` | src/linalg/SimpleEntity.ts:27-36 | A body with no speed and no acceleration does not move. |
| `Motion.PushedAlongX` | src/linalg/SimpleEntity.ts:27-36 | A body at rest, pushed along x, stays on its row. It moves forward for a forward push, with speed at most 3. |
| `Motion.CappedAlongX` | src/linalg/SimpleEntity.ts:28 | The capped speed of a push along x lies along x, on the push's side. |
| `Motion.DampingIsSmall` | src/linalg/SimpleEntity.ts:33 | Damping removes at most 0.02 of the capped speed's length. |
| `Motion.AccelerationFades` | src/linalg/SimpleEntity.ts:30 | After n ticks the acceleration's length is max(0, initial - 0.05 n). |
| `Motion.SpeedStaysCapped` | src/linalg/SimpleEntity.ts:28-33 | A body within the speed cap stays within it on every later tick. |
| `Entity.SimpleEntity.constructor` | src/linalg/SimpleEntity.ts:8-12 | Starts at (x, y), at rest, with three distinct vector objects. |
| `Entity.SimpleEntity.X` | src/linalg/SimpleEntity.ts:14-16 | `x` is the position's x. |
| `Entity.SimpleEntity.Y` | src/linalg/SimpleEntity.ts:18-20 | `y` is the position's y. |
| `Entity.SimpleEntity.SetAcceleration` | src/linalg/SimpleEntity.ts:22-25 | The acceleration becomes a fresh copy of the argument scaled by the draw. The argument, the position and the speed are unchanged. |
| `Entity.SimpleEntity.Update` | src/linalg/SimpleEntity.ts:27-36 | The in-place updates on the three objects move the state by exactly `Step`, and the objects stay distinct. |
| `Trails.Trail.constructor` | src/linalg/Trail.ts:15-20 | Starts at (x, y) with tail and head one object, at rest, with the history [0]. |
| `Trails.Trail.X` | src/linalg/Trail.ts:22-24 | `x` is the head's x, which is also the tail's. |
| `Trails.Trail.Y` | src/linalg/Trail.ts:26-28 | `y` is the head's y, which is also the tail's. |
| `Trails.Trail.Sections` | src/linalg/Trail.ts:30-41 | The `sections` getter walks the history and always returns no sections. |
| `Trails.Trail.SetAcceleration` | src/linalg/Trail.ts:45-48 | As for `SimpleEntity`. The tail, the history and the history's vector are unchanged. |
| `Trails.Trail.CommitDisplacement` | src/linalg/Trail.ts:63-68 | Changes neither the state nor the history. |
| `Trails.Trail.Update` | src/linalg/Trail.ts:50-61 | The head moves by exactly `Step`. The tail, being the head, moves with it. The history keeps its entries, and its zero vector, a separate object, keeps its value. |
| `Reducer.Current` | src/state/reducer.ts:3-13 | With no state passed, the reducer starts from `initialState`: not initialized, every grid dimension NaN, no debug entries. A passed state is used as it is. |
| `Reducer.Reduce` | src/state/reducer.ts:13-41 | The state ends up initialized exactly when it was initialized or the action is `initialize`. The grid is the action's grid for `initialize` and is otherwise kept. `deltaTime` is recorded only for a frame of an initialized state. Other debug entries are kept, and every other action returns the state unchanged. |
| `Reducer.ReduceIdempotent` | src/state/reducer.ts:13-41 | Dispatching the same action twice has the same effect as dispatching it once. |
| `Reducer.RunAppend` | src/state/reducer.ts:13-41 | Dispatching one more action reduces the state reached so far. |
| `Reducer.InitializedIffInitializeDispatched` | src/state/reducer.ts:17-26 | After a run of actions, the state is initialized exactly when it was before or some action was `initialize`. |
| `Reducer.GridIsLatestInitialized` | src/state/reducer.ts:17-23 | After a run, the grid is the one carried by the last `initialize`, or the starting grid when there was none. |
| `Reducer.FramesBeforeInitializeIgnored` | src/state/reducer.ts:25-26 | Frames dispatched before initialization change nothing. |

## Left out

- `Vectors.Vec.Len`: uses the maximum norm max(|x|, |y|) instead of the Euclidean `mag()`, because Dafny has no square root.
  - Every contract relies only on the norm laws: non-negative, zero exactly for zero, and |k v| = |k| |v|.
  - It also bounds each component: |x| <= Len and |y| <= Len.
  - One consequence: which cells lie within 45 of a tunnel differs from the Euclidean answer near the corners of the 45-pixel band. For example, the point (10, 90) is 40 away from a tunnel from (50, 50) to (90, 50) in this norm, and about 56.6 away in the Euclidean norm.
  - Another: `capLength(12)` leaves (10, 10) unchanged, since its maximum norm is 10, while the source shortens it to Euclidean length 12.
  - Another: a wind of (4, 4) has maximum norm 4, so the model skips that tunnel, while the source, with Euclidean length about 5.66, applies it.
  - Projection optimality is proved Euclidean-wise, on squared distances.
- Floating point: numbers are exact reals, so rounding is not modelled. NaN is `None` where the source produces or stores it: the grid dimensions and the debug values.
- `Vectors.Vector2.CapLength`: the NaN guard on the length is not modelled, because a real length is never NaN.
- Vector2's `heading`, `setHeading`, `normalize` and static `normalize` are not modelled, because they need angles (trigonometry).
  - The core uses `setHeading` only as `acceleration.setHeading(acceleration.heading)` in `update`, which keeps the vector as it is. `Motion.Step` therefore omits it.
- Vector2's `x`, `y` and `length` getters are the fields and `Len` of the held `Vec`, so they have no contract of their own.
- `Segments.LineSegment.ClosestPoint` requires distinct endpoints. The source divides 0 by 0 there and returns a NaN point. Only `applyWindTunnels` builds segments, and never degenerate ones.
- `Field.Constructible` admits only NaN or non-negative dimensions and a NaN or positive cell size. For negative dimensions or a negative cell size, JavaScript throws a RangeError (negative array length) or builds a meaningless grid. A cell size of 0 is excluded too, although the source handles part of that case: with a width or height of 0, `Math.ceil(0 / 0)` is NaN and the source builds an empty field, and with both dimensions positive the array length is infinite and it throws a RangeError. The model does not cover the zero-cell-size empty field.
- `validateOrThrow` and `setCellVector` are not modelled, because both are dead code: one is never called, and the other has an empty body.
- `increaseNearbyVectors` is not modelled, because it sets each vector's heading (trigonometry).
- Cell identity: the field's cells are an `array<Vec>` changed in place by index. The source holds one `Vector2` object per cell and shares it.
  - `getVectorAtPixelPosition` returns the cell's own object (src/linalg/VectorField.ts:90-95), and `forEach` and `map` pass that same object to their callbacks (src/linalg/VectorField.ts:56-63, 75-82).
  - `applyWindTunnels` changes cells through those shared objects (src/linalg/VectorField.ts:128-129, 137). The model performs the same updates by index.
  - The model's `Hit.vector` and `CellInfo.vector` are value copies. A caller that later changes the cell through the returned object is not modelled.
- `forEach` and `map` with arbitrary callbacks are modelled by the list of cell records they enumerate (`Field.Cells`); the callbacks themselves are not modelled.
- `Field.VectorField.ApplyWindTunnels`: the random draws are indexed by tunnel and by cell, not by call order.
  - The source draws one decay number per non-zero unaffected cell, in index order. The model gives every cell index a draw of its own, which is a relabelling.
  - The source's `maxSpeed` draw is unused and is not modelled.
- `Field.VectorField.Decrease`, `Field.VectorField.ApplyWindTunnels` and the entity methods return the receiver as an out-parameter equal to `this`. Chained calls on the result are not modelled.
- `Trails.Trail.Sections`: the loop reads each pair of displacements and does nothing with them. The model's loop only counts, and its result is the empty list the source returns.
- `Reducer.State`: `debug` is `Record<string, any>`; the model keeps number values only, the only kind the reducer writes.
- The reducer's default branch covers any action type. `Reducer.Action.Other` stands for the types that `src/state/types.ts` does not list, such as the store's start-up action.
- Out of scope: the drawing code, the p5 sketch, input handling, the store wiring and the animation loop. They are I/O or framework code.

## Findings

| source | as written | input that shows it | evidently intended | confidence | as-written member | corrected member |
|---|---|---|---|---|---|---|
| src/linalg/VectorField.ts:86-98 | The index is `columns * floor(y / cellSize) + floor(x / cellSize)`, and the only check is whether the array has that index. A column at or past `columns` therefore wraps into the next row. | Any point whose column floor(x / cellSize) is at or past `columns` while the formed index still lies in the array, such as any x in [columns * cellSize, (columns + 1) * cellSize) on a row above the last. For example, in a 2 x 2 grid of 10-pixel cells, the point (20, 0) lies in no cell, yet cell 2, the first cell of the second row, is returned. | Answer "no cell" for every point outside the grid, by checking that the column is within `0 .. columns - 1` before forming the index. | not executed | `Field.LookUpWrapsPastRightEdge` | `Field.CellAtPixel` |
| src/linalg/VectorField.ts:86-98 | The same index formula lets a negative column on any row but the first wrap back into the previous row. | Any point whose column is negative while the formed index still lies in the array, such as any x in [-cellSize, 0) on a row from 1 to rows - 1. For example, in a 2 x 2 grid of 10-pixel cells, the point (-5, 15) lies in no cell, yet cell 1, the last cell of the first row, is returned. | Answer "no cell" for every point outside the grid, by checking that the column is within `0 .. columns - 1` before forming the index. | not executed | `Field.LookUpWrapsPastLeftEdge` | `Field.CellAtPixel` |
