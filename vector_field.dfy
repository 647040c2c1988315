// src/linalg/VectorField.ts: a row-major grid of wind vectors, one per square
// cell of a `width × height` pixel area. The grid arithmetic, the pixel lookup
// and the near-segment query are pure functions over the cell values; the class
// `VectorField` keeps the cells in an array that `decrease` and
// `applyWindTunnels` update in place, and each of those methods is proved equal
// to a specification function whose properties are proved as lemmas.

module Field {
  import opened Common
  import opened Vectors
  import opened Segments

  /** How close to a tunnel a cell center must be to feel it (src/linalg/VectorField.ts:110). */
  const DistanceThreshold: real := 45.0
  /** Scales `increaseRate` into the strongest wind a tunnel can inject (src/linalg/VectorField.ts:111-112). */
  const MaxWindSpeed: real := 12.0
  /** A tunnel whose wind is shorter than this is skipped (src/linalg/VectorField.ts:118). */
  const MinWindLength: real := 5.0
  /** Every cell a tunnel touches is capped at this length (src/linalg/VectorField.ts:129). */
  const CellCap: real := 12.0

  // ---------------------------------------------------------------------------
  // Dimensions

  /** `Math.ceil(a / b)`, NaN when either operand is NaN. */
  function CeilQuotient(a: Num, b: Num): (r: Option<int>)
    requires b.Some? ==> b.value > 0.0
    ensures r.Some? <==> a.Some? && b.Some?
    ensures r.Some? ==> (r.value - 1) as real * b.value < a.value <= r.value as real * b.value
    ensures r.Some? && a.value >= 0.0 ==> r.value >= 0
  {
    if a.Some? && b.Some? then
      var q := a.value / b.value;
      var c := Ceil(q);
      assert (c - 1) as real * b.value < a.value <= c as real * b.value by {
        QuotientBounds(a.value, b.value, (c - 1) as real, c as real);
      }
      Some(c)
    else None
  }

  /** For a positive `b`: `lo < a / b <= hi` scales to `lo * b < a <= hi * b`. */
  lemma QuotientBounds(a: real, b: real, lo: real, hi: real)
    requires b > 0.0 && lo < a / b <= hi
    ensures lo * b < a <= hi * b
  {
    assert (a / b) * b == a;
    assert lo * b < (a / b) * b;
    assert (a / b) * b <= hi * b;
  }

  /**
   * The options a field can be built from. JavaScript throws a RangeError for a
   * negative cell count and for the infinite count that a zero cell size gives,
   * so the model admits a cell size that is NaN or positive and dimensions that
   * are NaN or non-negative.
   */
  predicate Constructible(o: GridOptions)
  {
    (o.cellSize.Some? ==> o.cellSize.value > 0.0) &&
    (o.width.Some? ==> o.width.value >= 0.0) &&
    (o.height.Some? ==> o.height.value >= 0.0)
  }

  /** `rows = Math.ceil(height / cellSize)` (src/linalg/VectorField.ts:33). */
  function Rows(o: GridOptions): (r: Option<int>)
    requires Constructible(o)
    ensures r.Some? <==> o.height.Some? && o.cellSize.Some?
    ensures r.Some? ==> r.value >= 0
  {
    CeilQuotient(o.height, o.cellSize)
  }

  /** `columns = Math.ceil(width / cellSize)` (src/linalg/VectorField.ts:34). */
  function Columns(o: GridOptions): (r: Option<int>)
    requires Constructible(o)
    ensures r.Some? <==> o.width.Some? && o.cellSize.Some?
    ensures r.Some? ==> r.value >= 0
  {
    CeilQuotient(o.width, o.cellSize)
  }

  /**
   * The number of cells the constructor allocates (src/linalg/VectorField.ts:35-38):
   * `rows * columns`, or none at all when that product is NaN.
   */
  function CellCount(o: GridOptions): (n: nat)
    requires Constructible(o)
    ensures Rows(o).Some? && Columns(o).Some? ==> n == Rows(o).value * Columns(o).value
    ensures Rows(o).None? || Columns(o).None? ==> n == 0
    ensures n > 0 ==> o.cellSize.Some? && Columns(o).Some? && Columns(o).value > 0
  {
    match (Rows(o), Columns(o))
    case (Some(r), Some(c)) =>
      NonNegativeProduct(r, c);
      r * c
    case _ => 0
  }

  lemma NonNegativeProduct(a: int, b: int)
    requires a >= 0 && b >= 0
    ensures a * b >= 0
    ensures a * b > 0 ==> b > 0
  {
  }

  /**
   * The grid covers the whole pixel area with the fewest cells: `columns` cells
   * of side `cellSize` reach at least `width`, and one fewer would not.
   */
  lemma {:induction false} GridCoversArea(o: GridOptions)
    requires Constructible(o) && o.width.Some? && o.height.Some? && o.cellSize.Some?
    ensures Columns(o).Some? && Rows(o).Some?
    ensures (Columns(o).value - 1) as real * o.cellSize.value < o.width.value
    ensures o.width.value <= Columns(o).value as real * o.cellSize.value
    ensures (Rows(o).value - 1) as real * o.cellSize.value < o.height.value
    ensures o.height.value <= Rows(o).value as real * o.cellSize.value
  {
    var _ := CeilQuotient(o.width, o.cellSize);
    var _ := CeilQuotient(o.height, o.cellSize);
  }

  // ---------------------------------------------------------------------------
  // Cells

  /** What the cell enumeration needs to know of a field: its column count and cell size. */
  datatype Layout = Layout(columns: int, cellSize: real)

  /** `n` cells can be laid out: there are none, or the grid has columns and a positive cell size. */
  predicate Fits(lay: Layout, n: int)
  {
    n == 0 || (lay.columns > 0 && lay.cellSize > 0.0)
  }

  /**
   * `coordinatesFromIndex` (src/linalg/VectorField.ts:187-191): the row-major
   * (row, column) of a cell index.
   */
  function Coordinates(index: nat, columns: int): (rc: (int, int))
    requires columns > 0
    ensures 0 <= rc.0 && 0 <= rc.1 < columns
    ensures rc.0 * columns + rc.1 == index
  {
    (index / columns, index % columns)
  }

  /** Row-major indexing is the inverse of `Coordinates`: every (row, column) of the grid is one index. */
  lemma {:induction false} CoordinatesRoundTrip(row: int, column: int, columns: int)
    requires columns > 0 && row >= 0 && 0 <= column < columns
    ensures row * columns + column >= 0
    ensures Coordinates(row * columns + column, columns) == (row, column)
  {
    NonNegativeProduct(row, columns);
    var rc := Coordinates(row * columns + column, columns);
    if rc.0 > row {
      RowsApart(rc.0, row, columns);
      assert false;
    } else if rc.0 < row {
      RowsApart(row, rc.0, columns);
      assert false;
    }
  }

  /** Two different rows start at least a full row of indices apart. */
  lemma RowsApart(r1: int, r2: int, columns: int)
    requires r1 > r2 && columns >= 1
    ensures r1 * columns >= r2 * columns + columns
  {
    assert r1 * columns - r2 * columns == (r1 - r2) * columns;
    MultiplyAtLeast(r1 - r2, columns);
  }

  lemma MultiplyAtLeast(a: int, b: int)
    requires a >= 1 && b >= 1
    ensures a * b >= b
  {
  }

  /** The cell record the enumeration hands to its callbacks (src/linalg/VectorField.ts:10-17). */
  datatype CellInfo = CellInfo(vector: Vec, center: Vec, index: nat, row: int, column: int, cellSize: real)

  /** The pixel center of the cell at (row, column) (src/linalg/VectorField.ts:52-55). */
  function Center(row: int, column: int, cellSize: real): Vec
  {
    Vec(column as real * cellSize + cellSize / 2.0, row as real * cellSize + cellSize / 2.0)
  }

  /** The pixel center of the cell with a given index. */
  function CellCenter(index: nat, lay: Layout): Vec
    requires lay.columns > 0
  {
    var rc := Coordinates(index, lay.columns);
    Center(rc.0, rc.1, lay.cellSize)
  }

  /** One cell as `forEach` and `map` describe it (src/linalg/VectorField.ts:48-84). */
  function CellAt(v: Vec, index: nat, lay: Layout): (c: CellInfo)
    requires lay.columns > 0
    ensures c.vector == v && c.index == index && c.cellSize == lay.cellSize
    ensures 0 <= c.row && 0 <= c.column < lay.columns && c.row * lay.columns + c.column == index
    ensures c.center == CellCenter(index, lay) == Center(c.row, c.column, lay.cellSize)
  {
    var rc := Coordinates(index, lay.columns);
    CellInfo(v, Center(rc.0, rc.1, lay.cellSize), index, rc.0, rc.1, lay.cellSize)
  }

  /** `this.map(identity => identity)`: every cell, in index order. */
  function Cells(vs: seq<Vec>, lay: Layout): (cells: seq<CellInfo>)
    requires Fits(lay, |vs|)
    ensures |cells| == |vs|
    ensures forall i :: 0 <= i < |vs| ==> cells[i] == CellAt(vs[i], i, lay)
  {
    seq(|vs|, i requires 0 <= i < |vs| => CellAt(vs[i], i, lay))
  }

  /** The pixel rectangle of the cell with a given index (half-open on the right and bottom). */
  predicate InCell(p: Vec, index: nat, lay: Layout)
    requires lay.columns > 0
  {
    var rc := Coordinates(index, lay.columns);
    InRectangle(p, rc.0, rc.1, lay.cellSize)
  }

  /** The pixel rectangle of the cell at (row, column), half-open on the right and bottom. */
  predicate InRectangle(p: Vec, row: int, column: int, cellSize: real)
  {
    column as real * cellSize <= p.x < (column + 1) as real * cellSize &&
    row as real * cellSize <= p.y < (row + 1) as real * cellSize
  }

  /** Every cell's center lies inside its own rectangle. */
  lemma CenterInsideCell(index: nat, lay: Layout)
    requires lay.columns > 0 && lay.cellSize > 0.0
    ensures InCell(CellCenter(index, lay), index, lay)
  {
  }

  // ---------------------------------------------------------------------------
  // Pixel lookup

  /** The lookup's result: the cell's vector and its index. */
  datatype Hit = Hit(vector: Vec, index: int)

  /** `columns * floor(y / cellSize) + floor(x / cellSize)` (src/linalg/VectorField.ts:87-89). */
  function PixelIndex(p: Vec, lay: Layout): (r: int)
    requires lay.cellSize > 0.0
    ensures forall row: int, column: int :: InRectangle(p, row, column, lay.cellSize) ==> r == lay.columns * row + column
  {
    RectangleIsFloored(p, lay.cellSize);
    lay.columns * Floor(p.y / lay.cellSize) + Floor(p.x / lay.cellSize)
  }

  /** The only cell rectangle holding `p` is that of its floored row and column. */
  lemma RectangleIsFloored(p: Vec, cs: real)
    requires cs > 0.0
    ensures forall row: int, column: int :: InRectangle(p, row, column, cs) ==>
      row == Floor(p.y / cs) && column == Floor(p.x / cs)
  {
    forall row: int, column: int | InRectangle(p, row, column, cs)
      ensures row == Floor(p.y / cs) && column == Floor(p.x / cs)
    {
      FloorOfQuotient(p.x, cs, column);
      FloorOfQuotient(p.y, cs, row);
    }
  }

  /**
   * `getVectorAtPixelPosition` as written (src/linalg/VectorField.ts:86-98): the
   * cell at the row-major index of the point's row and column, or no cell when
   * that index is outside the array. The column is not checked against the
   * number of columns.
   */
  function LookUp(vs: seq<Vec>, lay: Layout, p: Vec): (r: Option<Hit>)
    requires Fits(lay, |vs|)
    ensures r.Some? <==> |vs| > 0 && 0 <= PixelIndex(p, lay) < |vs|
    ensures r.Some? ==> 0 <= r.value.index < |vs| && r.value.vector == vs[r.value.index]
    ensures r.Some? ==> r.value.index == PixelIndex(p, lay)
  {
    if |vs| == 0 then None
    else
      var index := PixelIndex(p, lay);
      if 0 <= index < |vs| then Some(Hit(vs[index], index)) else None
  }

  /** A point inside a cell's rectangle finds that cell. */
  lemma LookUpInsideCell(vs: seq<Vec>, lay: Layout, index: nat, p: Vec)
    requires Fits(lay, |vs|) && index < |vs| && InCell(p, index, lay)
    ensures LookUp(vs, lay, p) == Some(Hit(vs[index], index))
  {
    var rc := Coordinates(index, lay.columns);
    FloorOfQuotient(p.x, lay.cellSize, rc.1);
    FloorOfQuotient(p.y, lay.cellSize, rc.0);
  }

  /** `k * b <= a < (k + 1) * b` means `floor(a / b) == k`. */
  lemma FloorOfQuotient(a: real, b: real, k: int)
    requires b > 0.0 && k as real * b <= a < (k + 1) as real * b
    ensures Floor(a / b) == k
  {
    DivideBounds(a, b, k as real, (k + 1) as real);
  }

  /** For a positive `b`: `lo * b <= a < hi * b` divides to `lo <= a / b < hi`. */
  lemma DivideBounds(a: real, b: real, lo: real, hi: real)
    requires b > 0.0 && lo * b <= a < hi * b
    ensures lo <= a / b < hi
  {
    var q := a / b;
    assert q * b == a;
    FactorSign(q - lo, b, a - lo * b);
    FactorPositive(hi - q, b, hi * b - a);
  }

  lemma FactorSign(x: real, b: real, c: real)
    requires b > 0.0 && c == x * b && c >= 0.0
    ensures x >= 0.0
  {
  }

  lemma FactorPositive(x: real, b: real, c: real)
    requires b > 0.0 && c == x * b && c > 0.0
    ensures x > 0.0
  {
  }

  /** Integers whose multiples by a positive `b` are less than `b` apart keep their order. */
  lemma IntegerFactorAtMost(m: int, n: int, b: real, mb: real, nb: real)
    requires b > 0.0 && mb == m as real * b && nb == n as real * b && mb < nb + b
    ensures m <= n
  {
    FactorPositive((n - m + 1) as real, b, nb + b - mb);
  }

  /** Multiplying by a positive `b` keeps the order of integers. */
  lemma IntegerFactorOrder(m: int, n: int, b: real)
    requires b > 0.0 && m as real * b < n as real * b
    ensures m < n
  {
    FactorPositive((n - m) as real, b, n as real * b - m as real * b);
  }

  /**
   * The lookup as written wraps a point right of the grid into the next row: in
   * a 2 × 2 grid of 10-pixel cells, the point (20, 0) lies in no cell, yet it
   * finds cell 2, the first cell of the second row.
   */
  lemma LookUpWrapsPastRightEdge()
    ensures var vs := [ZeroVec, ZeroVec, ZeroVec, ZeroVec];
            var lay := Layout(2, 10.0);
            var p := Vec(20.0, 0.0);
            LookUp(vs, lay, p) == Some(Hit(ZeroVec, 2)) &&
            forall i: nat :: i < |vs| ==> !InCell(p, i, lay)
  {
    var lay := Layout(2, 10.0);
    var p := Vec(20.0, 0.0);
    assert Floor(p.x / lay.cellSize) == 2 by { FloorOfQuotient(p.x, lay.cellSize, 2); }
    assert Floor(p.y / lay.cellSize) == 0 by { FloorOfQuotient(p.y, lay.cellSize, 0); }
    forall i: nat | i < 4
      ensures !InCell(p, i, lay)
    {
      var rc := Coordinates(i, 2);
      assert rc.1 <= 1;
    }
  }

  /**
   * The lookup as written also wraps a point left of the grid into the row
   * above: in the same grid, the point (-5, 15) lies in no cell, yet it finds
   * cell 1, the last cell of the first row.
   */
  lemma LookUpWrapsPastLeftEdge()
    ensures var vs := [ZeroVec, ZeroVec, ZeroVec, ZeroVec];
            var lay := Layout(2, 10.0);
            var p := Vec(-5.0, 15.0);
            LookUp(vs, lay, p) == Some(Hit(ZeroVec, 1)) &&
            forall i: nat :: i < |vs| ==> !InCell(p, i, lay)
  {
    var lay := Layout(2, 10.0);
    var p := Vec(-5.0, 15.0);
    assert Floor(p.x / lay.cellSize) == -1 by { FloorOfQuotient(p.x, lay.cellSize, -1); }
    assert Floor(p.y / lay.cellSize) == 1 by { FloorOfQuotient(p.y, lay.cellSize, 1); }
    forall i: nat | i < 4
      ensures !InCell(p, i, lay)
    {
      var rc := Coordinates(i, 2);
      assert rc.1 >= 0;
    }
  }

  /**
   * The lookup as intended: the cell whose rectangle holds the point, or no
   * cell when none does. It checks the column against the number of columns
   * before forming the index.
   */
  function CellAtPixel(vs: seq<Vec>, lay: Layout, p: Vec): (r: Option<Hit>)
    requires Fits(lay, |vs|)
    ensures r.Some? ==> 0 <= r.value.index < |vs| && r.value.vector == vs[r.value.index]
    ensures r.Some? ==> InCell(p, r.value.index, lay)
    ensures r.None? ==> forall i: nat :: i < |vs| ==> !InCell(p, i, lay)
  {
    if |vs| == 0 then None
    else
      var row, column := Floor(p.y / lay.cellSize), Floor(p.x / lay.cellSize);
      if 0 <= row && 0 <= column < lay.columns && row * lay.columns + column < |vs| then
        var index := row * lay.columns + column;
        NonNegativeProduct(row, lay.columns);
        CoordinatesRoundTrip(row, column, lay.columns);
        InsideFlooredCell(p, lay, row, column);
        Some(Hit(vs[index], index))
      else
        OutsideEveryCell(vs, lay, p);
        None
  }

  /** A point whose floored row and column name no cell of the array lies in no cell. */
  lemma OutsideEveryCell(vs: seq<Vec>, lay: Layout, p: Vec)
    requires Fits(lay, |vs|) && |vs| > 0
    requires var row, column := Floor(p.y / lay.cellSize), Floor(p.x / lay.cellSize);
             !(0 <= row && 0 <= column < lay.columns && row * lay.columns + column < |vs|)
    ensures forall i: nat :: i < |vs| ==> !InCell(p, i, lay)
  {
    forall i: nat | i < |vs|
      ensures !InCell(p, i, lay)
    {
      if InCell(p, i, lay) {
        var rc := Coordinates(i, lay.columns);
        FloorOfQuotient(p.x, lay.cellSize, rc.1);
        FloorOfQuotient(p.y, lay.cellSize, rc.0);
        assert false;
      }
    }
  }

  /** A point lies in the rectangle of its floored row and column. */
  lemma InsideFlooredCell(p: Vec, lay: Layout, row: int, column: int)
    requires lay.cellSize > 0.0 && row == Floor(p.y / lay.cellSize) && column == Floor(p.x / lay.cellSize)
    ensures column as real * lay.cellSize <= p.x < (column + 1) as real * lay.cellSize
    ensures row as real * lay.cellSize <= p.y < (row + 1) as real * lay.cellSize
  {
    ScaleFloor(p.x, lay.cellSize, column);
    ScaleFloor(p.y, lay.cellSize, row);
  }

  /** `floor(a / b) == k` scales to `k * b <= a < (k + 1) * b`. */
  lemma ScaleFloor(a: real, b: real, k: int)
    requires b > 0.0 && k == Floor(a / b)
    ensures k as real * b <= a < (k + 1) as real * b
  {
    var q := a / b;
    assert q * b == a;
    ProductNonNegative(q - k as real, b, (q - k as real) * b);
    ProductPositive((k + 1) as real - q, b, ((k + 1) as real - q) * b);
  }

  /** Inside the grid's columns, the lookup as written and the intended lookup agree. */
  lemma LookUpAgreesWithinColumns(vs: seq<Vec>, lay: Layout, p: Vec)
    requires Fits(lay, |vs|) && |vs| > 0
    requires 0.0 <= p.x < lay.columns as real * lay.cellSize
    ensures LookUp(vs, lay, p) == CellAtPixel(vs, lay, p)
  {
    var row, column := Floor(p.y / lay.cellSize), Floor(p.x / lay.cellSize);
    InsideFlooredCell(p, lay, row, column);
    IntegerFactorOrder(0, column + 1, lay.cellSize);
    IntegerFactorOrder(column, lay.columns, lay.cellSize);
    if row < 0 {
      NegativeRowBelowZero(row, column, lay.columns);
    }
  }

  lemma NegativeRowBelowZero(row: int, column: int, columns: int)
    requires row < 0 && 0 <= column < columns
    ensures row * columns + column < 0
  {
    RowsApart(0, row, columns);
  }

  // ---------------------------------------------------------------------------
  // Cells near a segment

  /** Row and column ranges, inclusive at both ends. */
  datatype Bounds = Bounds(top: int, bottom: int, left: int, right: int)

  /**
   * The segment's bounding box grown by `threshold` on every side, in cells
   * (src/linalg/VectorField.ts:151-163): each pixel bound divided by the cell
   * size and floored.
   */
  function CellBounds(seg: LineSegment, threshold: real, cellSize: real): (b: Bounds)
    requires cellSize > 0.0
    ensures threshold >= 0.0 ==> b.top <= b.bottom && b.left <= b.right
  {
    FloorQuotientMonotone(Min(seg.from.y, seg.to.y) - threshold, Max(seg.from.y, seg.to.y) + threshold, cellSize);
    FloorQuotientMonotone(Min(seg.from.x, seg.to.x) - threshold, Max(seg.from.x, seg.to.x) + threshold, cellSize);
    Bounds(
      Floor((Min(seg.from.y, seg.to.y) - threshold) / cellSize),
      Floor((Max(seg.from.y, seg.to.y) + threshold) / cellSize),
      Floor((Min(seg.from.x, seg.to.x) - threshold) / cellSize),
      Floor((Max(seg.from.x, seg.to.x) + threshold) / cellSize))
  }

  /** Dividing by a positive `b` and flooring keeps the order. */
  lemma FloorQuotientMonotone(lo: real, hi: real, b: real)
    requires b > 0.0
    ensures lo <= hi ==> Floor(lo / b) <= Floor(hi / b)
  {
    var q, r := lo / b, hi / b;
    assert q * b == lo && r * b == hi;
    if lo <= hi && q > r {
      FactorPositive(q - r, b, lo - hi);
    }
  }

  predicate InBounds(c: CellInfo, b: Bounds)
  {
    b.left <= c.column <= b.right && b.top <= c.row <= b.bottom
  }

  /** A cell record extended with its distance from the segment (src/linalg/VectorField.ts:144-147). */
  datatype NearCell = NearCell(cell: CellInfo, distanceFromSegment: real, distanceFromStart: real)

  /** The record `getCellsNearSegment` builds for one cell (src/linalg/VectorField.ts:171-175). */
  function Measured(c: CellInfo, seg: LineSegment): NearCell
    requires seg.from != seg.to
  {
    NearCell(c, seg.DistanceFrom(c.center), 0.0)
  }

  /** The `.map` step: every cell with its distance, in order. */
  function MeasureAll(cells: seq<CellInfo>, seg: LineSegment): (r: seq<NearCell>)
    requires seg.from != seg.to
    ensures |r| == |cells|
    ensures forall n :: n in r <==> n.cell in cells && n == Measured(n.cell, seg)
    ensures forall i :: 0 <= i < |cells| ==> r[i] == Measured(cells[i], seg)
  {
    if cells == [] then []
    else [Measured(cells[0], seg)] + MeasureAll(cells[1..], seg)
  }

  /**
   * `getCellsNearSegment` (src/linalg/VectorField.ts:142-177): the cells inside
   * the grown bounding box, measured, then those within `threshold` of the
   * segment. Without cells the source's bounds are NaN and nothing passes.
   */
  function CellsNearSegment(vs: seq<Vec>, lay: Layout, seg: LineSegment, threshold: real): (r: seq<NearCell>)
    requires Fits(lay, |vs|) && seg.from != seg.to
    ensures forall n :: n in r <==>
      n.cell in Cells(vs, lay) && n == Measured(n.cell, seg) && n.distanceFromSegment <= threshold &&
      InBounds(n.cell, CellBounds(seg, threshold, lay.cellSize))
    ensures forall n :: n in r ==> 0 <= n.cell.index < |vs| && n.cell == CellAt(vs[n.cell.index], n.cell.index, lay)
  {
    if |vs| == 0 then []
    else
      var bounds := CellBounds(seg, threshold, lay.cellSize);
      var boxed := Filter(Cells(vs, lay), (c: CellInfo) => InBounds(c, bounds));
      Filter(MeasureAll(boxed, seg), (n: NearCell) => n.distanceFromSegment <= threshold)
  }

  /** A point of the segment lies between its endpoints on each axis. */
  lemma BetweenEndpoints(a: real, b: real, s: real)
    requires 0.0 <= s <= 1.0
    ensures Min(a, b) <= a + s * (b - a) <= Max(a, b)
  {
    if a <= b {
      ProductNonNegative(s, b - a, s * (b - a));
      ProductNonNegative(1.0 - s, b - a, (1.0 - s) * (b - a));
    } else {
      ProductNonNegative(s, a - b, s * (a - b));
      ProductNonNegative(1.0 - s, a - b, (1.0 - s) * (a - b));
    }
  }

  /** A cell whose center is within `lo .. hi` on an axis has its floored index within `lo / cs .. hi / cs`. */
  lemma CenterWithin(c: int, cs: real, lo: real, hi: real, center: real)
    requires cs > 0.0 && center == c as real * cs + cs / 2.0 && lo <= center <= hi
    ensures Floor(lo / cs) <= c <= Floor(hi / cs)
  {
    var f, g := Floor(lo / cs), Floor(hi / cs);
    ScaleFloor(lo, cs, f);
    ScaleFloor(hi, cs, g);
    IntegerFactorAtMost(f, c, cs, f as real * cs, c as real * cs);
    IntegerFactorOrder(c, g + 1, cs);
  }

  /** A point within `threshold` of the segment lies inside the segment's grown bounding box. */
  lemma NearPointInBox(seg: LineSegment, p: Vec, threshold: real)
    requires seg.from != seg.to && seg.DistanceFrom(p) <= threshold
    ensures Min(seg.from.x, seg.to.x) - threshold <= p.x <= Max(seg.from.x, seg.to.x) + threshold
    ensures Min(seg.from.y, seg.to.y) - threshold <= p.y <= Max(seg.from.y, seg.to.y) + threshold
  {
    ClosestPointInBox(seg, p);
    DistanceBoundsAxes(seg, p);
  }

  /** The closest point lies in the segment's bounding box. */
  lemma ClosestPointInBox(seg: LineSegment, p: Vec)
    requires seg.from != seg.to
    ensures Min(seg.from.x, seg.to.x) <= seg.ClosestPoint(p).x <= Max(seg.from.x, seg.to.x)
    ensures Min(seg.from.y, seg.to.y) <= seg.ClosestPoint(p).y <= Max(seg.from.y, seg.to.y)
  {
    ClosestPointAtClampedParameter(seg, p);
    PointAtInBox(seg, Clamp(seg.Parameter(p)));
  }

  /** Every point of the segment lies in its bounding box. */
  lemma PointAtInBox(seg: LineSegment, s: real)
    requires 0.0 <= s <= 1.0
    ensures Min(seg.from.x, seg.to.x) <= seg.PointAt(s).x <= Max(seg.from.x, seg.to.x)
    ensures Min(seg.from.y, seg.to.y) <= seg.PointAt(s).y <= Max(seg.from.y, seg.to.y)
  {
    BetweenEndpoints(seg.from.x, seg.to.x, s);
    BetweenEndpoints(seg.from.y, seg.to.y, s);
  }

  /** The distance to the segment bounds the gap to the closest point on each axis. */
  lemma DistanceBoundsAxes(seg: LineSegment, p: Vec)
    requires seg.from != seg.to
    ensures Abs(p.x - seg.ClosestPoint(p).x) <= seg.DistanceFrom(p)
    ensures Abs(p.y - seg.ClosestPoint(p).y) <= seg.DistanceFrom(p)
  {
    var d := p.Minus(seg.ClosestPoint(p));
    assert seg.DistanceFrom(p) == d.Len();
  }

  /** A cell whose center lies in the grown bounding box passes the bounding-box filter. */
  lemma CellInBounds(c: CellInfo, lay: Layout, seg: LineSegment, threshold: real)
    requires lay.cellSize > 0.0 && c.center == Center(c.row, c.column, lay.cellSize)
    requires Min(seg.from.x, seg.to.x) - threshold <= c.center.x <= Max(seg.from.x, seg.to.x) + threshold
    requires Min(seg.from.y, seg.to.y) - threshold <= c.center.y <= Max(seg.from.y, seg.to.y) + threshold
    ensures InBounds(c, CellBounds(seg, threshold, lay.cellSize))
  {
    ColumnWithin(c, lay.cellSize, Min(seg.from.x, seg.to.x) - threshold, Max(seg.from.x, seg.to.x) + threshold);
    RowWithin(c, lay.cellSize, Min(seg.from.y, seg.to.y) - threshold, Max(seg.from.y, seg.to.y) + threshold);
  }

  lemma ColumnWithin(c: CellInfo, cs: real, lo: real, hi: real)
    requires cs > 0.0 && c.center == Center(c.row, c.column, cs) && lo <= c.center.x <= hi
    ensures Floor(lo / cs) <= c.column <= Floor(hi / cs)
  {
    CenterWithin(c.column, cs, lo, hi, c.center.x);
  }

  lemma RowWithin(c: CellInfo, cs: real, lo: real, hi: real)
    requires cs > 0.0 && c.center == Center(c.row, c.column, cs) && lo <= c.center.y <= hi
    ensures Floor(lo / cs) <= c.row <= Floor(hi / cs)
  {
    CenterWithin(c.row, cs, lo, hi, c.center.y);
  }

  /**
   * The bounding-box filter only saves work: a cell is near the segment exactly
   * when its center is within `threshold` of it, whether or not the box is
   * consulted.
   */
  lemma {:induction false} NearCellsNeedNoBox(vs: seq<Vec>, lay: Layout, seg: LineSegment, threshold: real)
    requires Fits(lay, |vs|) && seg.from != seg.to
    ensures forall n :: n in CellsNearSegment(vs, lay, seg, threshold) <==>
      n.cell in Cells(vs, lay) && n == Measured(n.cell, seg) && n.distanceFromSegment <= threshold
  {
    var r := CellsNearSegment(vs, lay, seg, threshold);
    forall n: NearCell | n.cell in Cells(vs, lay) && n == Measured(n.cell, seg) && n.distanceFromSegment <= threshold
      ensures n in r
    {
      var i :| 0 <= i < |vs| && Cells(vs, lay)[i] == n.cell;
      NearPointInBox(seg, n.cell.center, threshold);
      CellInBounds(n.cell, lay, seg, threshold);
    }
  }

  /** The indices of a list of near cells, in order (the source pushes them into `affectedCells`). */
  function Indices(near: seq<NearCell>): (r: seq<int>)
    ensures |r| == |near| && forall k :: 0 <= k < |near| ==> r[k] == near[k].cell.index
  {
    seq(|near|, k requires 0 <= k < |near| => near[k].cell.index)
  }

  /** The cells a segment reaches, by index: exactly those whose center is within `threshold` of it. */
  lemma NearIndices(vs: seq<Vec>, lay: Layout, seg: LineSegment, threshold: real, i: int)
    requires Fits(lay, |vs|) && seg.from != seg.to
    ensures i in Indices(CellsNearSegment(vs, lay, seg, threshold)) <==>
      0 <= i < |vs| && seg.DistanceFrom(CellCenter(i, lay)) <= threshold
  {
    var r := CellsNearSegment(vs, lay, seg, threshold);
    NearCellsNeedNoBox(vs, lay, seg, threshold);
    if i in Indices(r) {
      var k :| 0 <= k < |r| && Indices(r)[k] == i;
      assert r[k] in r;
    }
    if 0 <= i < |vs| && seg.DistanceFrom(CellCenter(i, lay)) <= threshold {
      var c := CellAt(vs[i], i, lay);
      assert c == Cells(vs, lay)[i];
      var n := Measured(c, seg);
      assert n in r;
      var k :| 0 <= k < |r| && r[k] == n;
      assert Indices(r)[k] == i;
    }
  }

  // ---------------------------------------------------------------------------
  // Decay

  /**
   * One cell of `decrease` (src/linalg/VectorField.ts:105): a non-zero vector
   * keeps its direction and gets length max(0, length - amount); a zero vector
   * is left alone.
   */
  function Shrunk(v: Vec, amount: real): (r: Vec)
    ensures v == ZeroVec ==> r == ZeroVec
    ensures v != ZeroVec ==> r.Len() == Max(0.0, v.Len() - amount)
    ensures Parallel(r, v)
  {
    if v.Len() > 0.0 then v.WithLength(Max(0.0, v.Len() - amount)) else assert v == v.Scale(1.0); v
  }

  /** Every cell of the field after `decrease(amount)` (src/linalg/VectorField.ts:104-107). */
  function DecreaseAll(vs: seq<Vec>, amount: real): (r: seq<Vec>)
    ensures |r| == |vs|
    ensures forall i :: 0 <= i < |vs| && vs[i] == ZeroVec ==> r[i] == ZeroVec
    ensures forall i :: 0 <= i < |vs| && vs[i] != ZeroVec ==> r[i].Len() == Max(0.0, vs[i].Len() - amount)
    ensures forall i :: 0 <= i < |vs| ==> Parallel(r[i], vs[i])
    ensures amount >= 0.0 ==> forall i :: 0 <= i < |vs| ==> r[i].Len() <= vs[i].Len()
  {
    seq(|vs|, i requires 0 <= i < |vs| => Shrunk(vs[i], amount))
  }

  // ---------------------------------------------------------------------------
  // Wind tunnels

  /** A wind source: where it starts and the wind it blows (the fields `applyWindTunnels` reads). */
  datatype WindTunnel = WindTunnel(from: Vec, wind: Vec)

  /** `LineSegment.create(from, Vector2.add(from, wind))` (src/linalg/VectorField.ts:126). */
  function TunnelSegment(t: WindTunnel): (seg: LineSegment)
    ensures t.wind != ZeroVec ==> seg.from != seg.to
  {
    LineSegment(t.from, t.from.Plus(t.wind))
  }

  /** A tunnel strong enough not to be skipped (src/linalg/VectorField.ts:118-120). */
  predicate Blows(t: WindTunnel)
    ensures Blows(t) ==> TunnelSegment(t).from != TunnelSegment(t).to
  {
    t.wind.Len() >= MinWindLength
  }

  /** A tunnel reaches a cell when it blows and the cell's center is within the threshold of it. */
  predicate Reaches(t: WindTunnel, i: int, lay: Layout)
  {
    lay.columns > 0 && i >= 0 && Blows(t) && TunnelSegment(t).DistanceFrom(CellCenter(i, lay)) <= DistanceThreshold
  }

  /** The length a tunnel's wind is capped at: `increaseSpeed * Math.random()` (src/linalg/VectorField.ts:124). */
  function WindCap(increaseSpeed: real, draw: real): real
  {
    increaseSpeed * draw
  }

  /** Some tunnel of the list reaches cell `i`. */
  predicate ReachedByAny(ts: seq<WindTunnel>, i: int, lay: Layout)
  {
    exists k :: 0 <= k < |ts| && Reaches(ts[k], i, lay)
  }

  /** The cell vectors and the indices pushed into `affectedCells` so far. */
  datatype Injection = Injection(vectors: seq<Vec>, affected: seq<int>)

  /**
   * One tunnel's cells, in order: each gets the wind component added and is
   * capped at 12 (src/linalg/VectorField.ts:128-131).
   */
  function InjectCells(vs: seq<Vec>, near: seq<NearCell>, w: Vec): (r: seq<Vec>)
    requires forall n :: n in near ==> 0 <= n.cell.index < |vs|
    ensures |r| == |vs|
    decreases |near|
  {
    if near == [] then vs
    else
      var k := near[0].cell.index;
      InjectCells(vs[k := vs[k].Plus(w).Capped(CellCap)], near[1..], w)
  }

  /** Cells a tunnel does not reach are unchanged, and every cell it reaches ends at length at most 12. */
  lemma {:induction false} InjectCellsEffect(vs: seq<Vec>, near: seq<NearCell>, w: Vec)
    requires forall n :: n in near ==> 0 <= n.cell.index < |vs|
    ensures forall i :: 0 <= i < |vs| && i !in Indices(near) ==> InjectCells(vs, near, w)[i] == vs[i]
    ensures forall i :: 0 <= i < |vs| && i in Indices(near) ==> InjectCells(vs, near, w)[i].Len() <= CellCap
    decreases |near|
  {
    if near != [] {
      var k := near[0].cell.index;
      var next := vs[k := vs[k].Plus(w).Capped(CellCap)];
      InjectCellsEffect(next, near[1..], w);
      assert Indices(near) == [k] + Indices(near[1..]);
    }
  }

  /** Processing near cell `j` of a tunnel: one step of `InjectCells`, and one more index recorded. */
  lemma InjectOne(vs: seq<Vec>, near: seq<NearCell>, j: int, w: Vec)
    requires 0 <= j < |near| && forall n :: n in near ==> 0 <= n.cell.index < |vs|
    ensures var k := near[j].cell.index;
      && InjectCells(vs, near[j..], w) == InjectCells(vs[k := vs[k].Plus(w).Capped(CellCap)], near[j + 1..], w)
      && Indices(near[..j + 1]) == Indices(near[..j]) + [k]
  {
    assert near[j..][0] == near[j] && near[j..][1..] == near[j + 1..];
  }

  /**
   * The tunnel loop of `applyWindTunnels` (src/linalg/VectorField.ts:117-132),
   * from a given state onward. `capDraws[k]` is the `Math.random()` that sizes
   * tunnel k's wind component; `increaseSpeed` is `12 * increaseRate`.
   */
  function InjectTunnels(acc: Injection, ts: seq<WindTunnel>, capDraws: seq<real>, increaseSpeed: real, lay: Layout): (r: Injection)
    requires |capDraws| == |ts| && Fits(lay, |acc.vectors|)
    ensures |r.vectors| == |acc.vectors|
    decreases |ts|
  {
    if ts == [] then acc
    else InjectTunnels(TunnelStep(acc, ts[0], capDraws[0], increaseSpeed, lay), ts[1..], capDraws[1..], increaseSpeed, lay)
  }

  /**
   * One pass of the tunnel loop's body (src/linalg/VectorField.ts:118-131): a
   * weak tunnel is skipped; otherwise its near cells receive the capped wind
   * and their indices are recorded.
   */
  function TunnelStep(acc: Injection, t: WindTunnel, capDraw: real, increaseSpeed: real, lay: Layout): (r: Injection)
    requires Fits(lay, |acc.vectors|)
    ensures |r.vectors| == |acc.vectors|
  {
    if !Blows(t) then acc
    else
      var w := t.wind.Capped(WindCap(increaseSpeed, capDraw));
      var near := CellsNearSegment(acc.vectors, lay, TunnelSegment(t), DistanceThreshold);
      Injection(InjectCells(acc.vectors, near, w), acc.affected + Indices(near))
  }

  /**
   * What the tunnel loop does to each cell: a cell ends up in `affected` exactly
   * when it was there already or some tunnel reaches it; every affected cell is
   * capped at 12 (provided the ones affected earlier were); every other cell is
   * left as it was.
   */
  lemma {:induction false} InjectTunnelsEffect(acc: Injection, ts: seq<WindTunnel>, capDraws: seq<real>, increaseSpeed: real, lay: Layout, i: int)
    requires |capDraws| == |ts| && Fits(lay, |acc.vectors|) && 0 <= i < |acc.vectors|
    requires forall j :: 0 <= j < |acc.vectors| && j in acc.affected ==> acc.vectors[j].Len() <= CellCap
    ensures var r := InjectTunnels(acc, ts, capDraws, increaseSpeed, lay);
      && (i in r.affected <==> i in acc.affected || ReachedByAny(ts, i, lay))
      && (i in r.affected ==> r.vectors[i].Len() <= CellCap)
      && (i !in r.affected ==> r.vectors[i] == acc.vectors[i])
    decreases |ts|
  {
    if ts != [] {
      var t := ts[0];
      var next := TunnelStep(acc, t, capDraws[0], increaseSpeed, lay);
      if Blows(t) {
        var w := t.wind.Capped(WindCap(increaseSpeed, capDraws[0]));
        var seg := TunnelSegment(t);
        var near := CellsNearSegment(acc.vectors, lay, seg, DistanceThreshold);
        assert next == Injection(InjectCells(acc.vectors, near, w), acc.affected + Indices(near));
        InjectCellsEffect(acc.vectors, near, w);
        NearIndices(acc.vectors, lay, seg, DistanceThreshold, i);
      }
      forall j | 0 <= j < |next.vectors| && j in next.affected
        ensures next.vectors[j].Len() <= CellCap
      {
      }
      InjectTunnelsEffect(next, ts[1..], capDraws[1..], increaseSpeed, lay, i);
      ReachesShifted(ts, i, lay);
    }
  }

  /** Some tunnel of a non-empty list reaches a cell exactly when the first one or one of the rest does. */
  lemma ReachesShifted(ts: seq<WindTunnel>, i: int, lay: Layout)
    requires ts != []
    ensures ReachedByAny(ts, i, lay) <==>
      Reaches(ts[0], i, lay) || ReachedByAny(ts[1..], i, lay)
  {
    if ReachedByAny(ts, i, lay) {
      var k :| 0 <= k < |ts| && Reaches(ts[k], i, lay);
      if k > 0 {
        assert ts[1..][k - 1] == ts[k];
      }
    }
    if ReachedByAny(ts[1..], i, lay) {
      var k :| 0 <= k < |ts[1..]| && Reaches(ts[1..][k], i, lay);
      assert ts[k + 1] == ts[1..][k];
    }
  }

  /**
   * The decay pass (src/linalg/VectorField.ts:134-137): every cell not in
   * `affected` shrinks by `decreaseSpeed` times its own draw.
   */
  function DecayUntouched(vs: seq<Vec>, affected: seq<int>, decreaseSpeed: real, draws: seq<real>): (r: seq<Vec>)
    requires |draws| == |vs|
    ensures |r| == |vs|
    ensures forall i :: 0 <= i < |vs| && i in affected ==> r[i] == vs[i]
    ensures forall i :: 0 <= i < |vs| && i !in affected ==> r[i] == Decayed(vs[i], decreaseSpeed, draws[i])
  {
    seq(|vs|, i requires 0 <= i < |vs| => if i in affected then vs[i] else Decayed(vs[i], decreaseSpeed, draws[i]))
  }

  /** `setLength(Math.max(0, length - decreaseSpeed * Math.random()))` on a non-zero cell. */
  function Decayed(v: Vec, decreaseSpeed: real, draw: real): Vec
  {
    Shrunk(v, decreaseSpeed * draw)
  }

  /**
   * All of `applyWindTunnels` (src/linalg/VectorField.ts:109-140): the tunnel
   * loop, then the decay of the cells no tunnel touched. `decayDraws[i]` is
   * the `Math.random()` that scales cell i's decay.
   */
  function WindTunnelsResult(vs: seq<Vec>, ts: seq<WindTunnel>, capDraws: seq<real>, decayDraws: seq<real>,
                             increaseRate: real, lay: Layout): (r: seq<Vec>)
    requires |capDraws| == |ts| && |decayDraws| == |vs| && Fits(lay, |vs|)
    ensures |r| == |vs|
  {
    var inj := InjectTunnels(Injection(vs, []), ts, capDraws, MaxWindSpeed * increaseRate, lay);
    DecayUntouched(inj.vectors, inj.affected, DecreaseSpeed(increaseRate), decayDraws)
  }

  /** `decreaseSpeed = increaseSpeed / 4` with `increaseSpeed = 12 * increaseRate` (src/linalg/VectorField.ts:112-113). */
  function DecreaseSpeed(increaseRate: real): real
  {
    MaxWindSpeed * increaseRate / 4.0
  }

  /**
   * The outcome for each cell: a cell some tunnel reaches ends with length at
   * most 12; every other cell has only decayed, by `3 * increaseRate` times
   * its draw, so for a non-negative rate and draws in [0, 1) it never grows.
   */
  lemma WindTunnelsOutcome(vs: seq<Vec>, ts: seq<WindTunnel>, capDraws: seq<real>, decayDraws: seq<real>,
                           increaseRate: real, lay: Layout, i: int)
    requires |capDraws| == |ts| && |decayDraws| == |vs| && Fits(lay, |vs|) && 0 <= i < |vs|
    ensures var r := WindTunnelsResult(vs, ts, capDraws, decayDraws, increaseRate, lay);
      && (ReachedByAny(ts, i, lay) ==> r[i].Len() <= CellCap)
      && (!ReachedByAny(ts, i, lay) ==>
            r[i] == Decayed(vs[i], DecreaseSpeed(increaseRate), decayDraws[i]))
      && (!ReachedByAny(ts, i, lay) && increaseRate >= 0.0 && decayDraws[i] >= 0.0 ==>
            r[i].Len() <= vs[i].Len())
  {
    var inj := InjectTunnels(Injection(vs, []), ts, capDraws, MaxWindSpeed * increaseRate, lay);
    InjectTunnelsEffect(Injection(vs, []), ts, capDraws, MaxWindSpeed * increaseRate, lay, i);
    var r := WindTunnelsResult(vs, ts, capDraws, decayDraws, increaseRate, lay);
    assert r == DecayUntouched(inj.vectors, inj.affected, DecreaseSpeed(increaseRate), decayDraws);
    if increaseRate >= 0.0 && decayDraws[i] >= 0.0 {
      DecayedNeverGrows(vs[i], DecreaseSpeed(increaseRate), decayDraws[i]);
    }
  }

  /** With a non-negative speed and draw, decay never lengthens a vector. */
  lemma DecayedNeverGrows(v: Vec, decreaseSpeed: real, draw: real)
    requires decreaseSpeed >= 0.0 && draw >= 0.0
    ensures Decayed(v, decreaseSpeed, draw).Len() <= v.Len()
  {
    ProductNonNegative(decreaseSpeed, draw, decreaseSpeed * draw);
  }

  // ---------------------------------------------------------------------------
  // The field object

  /**
   * src/linalg/VectorField.ts:21-250. The dimensions are fixed at construction;
   * `decrease` and `applyWindTunnels` rewrite the cells of `vectors` in place.
   */
  class VectorField {
    var width: Num
    var height: Num
    var cellSize: Num
    var rows: Option<int>
    var columns: Option<int>
    var vectors: array<Vec>

    /** The dimensions are constructible, `rows`/`columns` derive from them and there is one vector per cell. */
    ghost predicate Valid()
      reads this
    {
      var o := GridOptions(width, height, cellSize);
      Constructible(o) && rows == Rows(o) && columns == Columns(o) && vectors.Length == CellCount(o)
    }

    function Options(): GridOptions
      reads this
    {
      GridOptions(width, height, cellSize)
    }

    /** The column count and cell size the cell enumeration uses (both irrelevant when there are no cells). */
    function Geometry(): (lay: Layout)
      reads this
      requires Valid()
      ensures Fits(lay, vectors.Length)
    {
      Layout(if columns.Some? then columns.value else 0, if cellSize.Some? then cellSize.value else 0.0)
    }

    /** The constructor (src/linalg/VectorField.ts:29-39): one zero vector per cell, or none when the count is NaN. */
    constructor (o: GridOptions)
      requires Constructible(o)
      ensures Valid() && Options() == o && fresh(vectors)
      ensures vectors.Length == CellCount(o)
      ensures forall i :: 0 <= i < vectors.Length ==> vectors[i] == ZeroVec
    {
      width, height, cellSize := o.width, o.height, o.cellSize;
      rows, columns := Rows(o), Columns(o);
      vectors := new Vec[CellCount(o)](_ => ZeroVec);
    }

    /** `VectorField.create` (src/linalg/VectorField.ts:205-207). */
    static method Create(o: GridOptions) returns (f: VectorField)
      requires Constructible(o)
      ensures fresh(f) && fresh(f.vectors) && f.Valid() && f.Options() == o
      ensures f.vectors.Length == CellCount(o)
      ensures forall i :: 0 <= i < f.vectors.Length ==> f.vectors[i] == ZeroVec
    {
      f := new VectorField(o);
    }

    /** `VectorField.empty` (src/linalg/VectorField.ts:209-215): NaN dimensions and no cells at all. */
    static method Empty() returns (f: VectorField)
      ensures fresh(f) && fresh(f.vectors) && f.Valid()
      ensures f.Options() == GridOptions(None, None, None) && f.rows.None? && f.columns.None?
      ensures f.vectors.Length == 0
    {
      f := new VectorField(GridOptions(None, None, None));
    }

    /**
     * `copy` (src/linalg/VectorField.ts:41-46): a new field with the same
     * options and equal vectors in a fresh array, so that changing the copy's
     * cells leaves this field's cells alone.
     */
    method Copy() returns (f: VectorField)
      requires Valid()
      ensures fresh(f) && fresh(f.vectors) && f.Valid()
      ensures f.Options() == Options() && f.vectors[..] == vectors[..]
    {
      var copied := new Vec[vectors.Length];
      var i := 0;
      while i < vectors.Length
        invariant 0 <= i <= vectors.Length
        invariant forall k :: 0 <= k < i ==> copied[k] == vectors[k]
      {
        copied[i] := vectors[i];
        i := i + 1;
      }
      assert copied[..] == vectors[..];
      f := new VectorField(Options());
      f.vectors := copied;
    }

    /** Every cell with its coordinates and center, in index order: what `forEach` and `map` enumerate. */
    function CellList(): (cells: seq<CellInfo>)
      reads this, vectors
      requires Valid()
      ensures |cells| == vectors.Length
    {
      Cells(vectors[..], Geometry())
    }

    /** `getVectorAtPixelPosition` (src/linalg/VectorField.ts:86-98), as written. */
    function GetVectorAtPixelPosition(p: Vec): (r: Option<Hit>)
      reads this, vectors
      requires Valid()
      ensures r.Some? ==> 0 <= r.value.index < vectors.Length && r.value.vector == vectors[r.value.index]
    {
      LookUp(vectors[..], Geometry(), p)
    }

    /** `decrease` (src/linalg/VectorField.ts:104-107). */
    method Decrease(amount: real) returns (self: VectorField)
      requires Valid()
      modifies vectors
      ensures self == this && Valid()
      ensures vectors[..] == DecreaseAll(old(vectors[..]), amount)
    {
      var i := 0;
      while i < vectors.Length
        invariant 0 <= i <= vectors.Length
        invariant forall k :: 0 <= k < i ==> vectors[k] == Shrunk(old(vectors[k]), amount)
        invariant forall k :: i <= k < vectors.Length ==> vectors[k] == old(vectors[k])
      {
        if vectors[i].Len() > 0.0 {
          vectors[i] := vectors[i].WithLength(Max(0.0, vectors[i].Len() - amount));
        }
        assert vectors[i] == Shrunk(old(vectors[i]), amount);
        i := i + 1;
      }
      self := this;
    }

    /**
     * `applyWindTunnels` (src/linalg/VectorField.ts:109-140). `capDraws[k]` is
     * the `Math.random()` that sizes tunnel k's wind component and
     * `decayDraws[i]` the one that scales cell i's decay.
     */
    method ApplyWindTunnels(tunnels: seq<WindTunnel>, increaseRate: real, capDraws: seq<real>, decayDraws: seq<real>)
      returns (self: VectorField)
      requires Valid() && |capDraws| == |tunnels| && |decayDraws| == vectors.Length
      modifies vectors
      ensures self == this && Valid()
      ensures vectors[..] == WindTunnelsResult(old(vectors[..]), tunnels, capDraws, decayDraws, increaseRate, Geometry())
    {
      var increaseSpeed := MaxWindSpeed * increaseRate;
      var decreaseSpeed := increaseSpeed / 4.0;
      assert decreaseSpeed == DecreaseSpeed(increaseRate);
      var lay := Geometry();
      ghost var goal := InjectTunnels(Injection(vectors[..], []), tunnels, capDraws, increaseSpeed, lay);
      var affected: seq<int> := [];
      var i := 0;
      while i < |tunnels|
        invariant 0 <= i <= |tunnels|
        invariant InjectTunnels(Injection(vectors[..], affected), tunnels[i..], capDraws[i..], increaseSpeed, lay) == goal
      {
        assert tunnels[i..][1..] == tunnels[i + 1..] && capDraws[i..][1..] == capDraws[i + 1..];
        affected := BlowTunnel(tunnels[i], capDraws[i], increaseSpeed, lay, affected);
        i := i + 1;
      }
      DecayPass(affected, decreaseSpeed, decayDraws);
      self := this;
    }

    /** One pass of the tunnel loop's body (src/linalg/VectorField.ts:117-132). */
    method BlowTunnel(t: WindTunnel, capDraw: real, increaseSpeed: real, lay: Layout, affected: seq<int>)
      returns (affected': seq<int>)
      requires Fits(lay, vectors.Length)
      modifies vectors
      ensures Injection(vectors[..], affected') == TunnelStep(Injection(old(vectors[..]), affected), t, capDraw, increaseSpeed, lay)
    {
      affected' := affected;
      if t.wind.Len() >= MinWindLength {
        var windComponent := t.wind.Capped(WindCap(increaseSpeed, capDraw));
        var near := CellsNearSegment(vectors[..], lay, TunnelSegment(t), DistanceThreshold);
        affected' := InjectNear(near, windComponent, affected);
      }
    }

    /**
     * The inner loop of `applyWindTunnels` (src/linalg/VectorField.ts:128-131):
     * each near cell gets the wind component and is capped at 12, and its
     * index is pushed onto `affected`.
     */
    method InjectNear(near: seq<NearCell>, windComponent: Vec, affected: seq<int>) returns (affected': seq<int>)
      requires forall n :: n in near ==> 0 <= n.cell.index < vectors.Length
      modifies vectors
      ensures vectors[..] == InjectCells(old(vectors[..]), near, windComponent)
      ensures affected' == affected + Indices(near)
    {
      affected' := affected;
      var j := 0;
      while j < |near|
        invariant 0 <= j <= |near|
        invariant InjectCells(vectors[..], near[j..], windComponent) == InjectCells(old(vectors[..]), near, windComponent)
        invariant affected' == affected + Indices(near[..j])
      {
        var k := near[j].cell.index;
        var before := vectors[..];
        InjectOne(before, near, j, windComponent);
        vectors[k] := before[k].Plus(windComponent).Capped(CellCap);
        assert vectors[..] == before[k := before[k].Plus(windComponent).Capped(CellCap)];
        affected' := affected' + [k];
        j := j + 1;
      }
      assert near[..j] == near;
    }

    /**
     * The decay pass of `applyWindTunnels` (src/linalg/VectorField.ts:134-137):
     * each non-zero cell outside `affected` shrinks by `decreaseSpeed` times its draw.
     */
    method DecayPass(affected: seq<int>, decreaseSpeed: real, draws: seq<real>)
      requires |draws| == vectors.Length
      modifies vectors
      ensures vectors[..] == DecayUntouched(old(vectors[..]), affected, decreaseSpeed, draws)
    {
      var k := 0;
      while k < vectors.Length
        invariant 0 <= k <= vectors.Length
        invariant forall m :: 0 <= m < k && m in affected ==> vectors[m] == old(vectors[m])
        invariant forall m :: 0 <= m < k && m !in affected ==> vectors[m] == Decayed(old(vectors[m]), decreaseSpeed, draws[m])
        invariant forall m :: k <= m < vectors.Length ==> vectors[m] == old(vectors[m])
      {
        if k !in affected && vectors[k].Len() > 0.0 {
          vectors[k] := vectors[k].WithLength(Max(0.0, vectors[k].Len() - decreaseSpeed * draws[k]));
        }
        assert k !in affected ==> vectors[k] == Decayed(old(vectors[k]), decreaseSpeed, draws[k]);
        k := k + 1;
      }
    }
  }
}
