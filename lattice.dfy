/**
 * The lattice passes of the sketch: `drawAlternatingLattice` (a wide pass and
 * a narrow pass over the silhouette) and `drawBackgroundLattice` (a full-bleed
 * backdrop), with the per-cell decisions they make.
 *
 * The trigonometry of the sketch is not modelled; a `Geometry` value supplies
 * its results: the ray directions of `localThickness`, the constant
 * sqrt(3)/2, the projection of a point on the boundary normal obtained from a
 * gradient (atan2, cos and sin), and the placement of a triangle
 * (`equiVertsFromSide` followed by `rotAbout` about the pivot).
 */
module Lattice {
  import opened Mask
  import opened RayThickness
  import opened Margin

  // Configuration of the sketch.
  const SPACING: real := 2.0
  const WIDTH_SWITCH: int := 28
  const BASE_SIDE: real := 18.0
  const SIDE: real := BASE_SIDE - 2.0 * SPACING
  const SMALL_BASE_SIDE: real := 14.0
  const SMALL_SIDE: real := SMALL_BASE_SIDE - 2.0 * SPACING
  const BG_SPACING: real := 3.0
  const BG_BASE_SIDE: real := 20.0
  const BG_SIDE: real := BG_BASE_SIDE - 2.0 * BG_SPACING
  const PIVOT_FRAC: real := 0.12
  /** Search radius of the thickness that classifies a cell. */
  const CLASSIFY_RADIUS: int := 40
  /** Probe distance of the gradient that orients a narrow cell. */
  const GRADIENT_RADIUS: real := 2.0
  /** Margin of the acceptance test: half the spacing. */
  const MARGIN: real := SPACING * 0.5

  /** The drawn sides are positive: each lattice's base exceeds twice its spacing. */
  lemma ConfiguredSidesPositive()
    ensures SIDE == 14.0 && SMALL_SIDE == 10.0 && BG_SIDE == 14.0
    ensures SIDE > 0.0 && SMALL_SIDE > 0.0 && BG_SIDE > 0.0
    ensures MARGIN == 1.0
  {
  }

  /**
   * The angle a triangle is built at: a fixed angle in degrees, or the
   * direction atan2(g.gy, g.gx) of the estimated gradient `g` (the boundary
   * normal) plus some degrees.
   */
  datatype Orientation = Fixed(degrees: int) | AlongNormal(g: Gradient, extraDegrees: int)

  datatype Geometry = Geometry(
    dirs: seq<Point>,
    halfRoot3: real,
    project: (Gradient, Point) -> real,
    place: (Point, real, Orientation, Point, int) -> Triangle)

  /** Drawn side, base side, row step and column step of a lattice. */
  datatype Lattice = Lattice(side: real, base: real, rowStep: real, colStep: real)

  /** The p5 canvas dimensions `width` and `height`. */
  datatype Canvas = Canvas(width: int, height: int)

  /** One call of `drawAlternatingLattice`: its lattice, its mode and the rotation angle in degrees. */
  datatype Pass = Pass(lat: Lattice, narrow: bool, angle: int)

  /** JavaScript's `x % 2` on integers: the remainder of division by 2 truncated toward zero, with the sign of `x`. */
  function JsRemTwo(x: int): (r: int)
    ensures x >= 0 ==> r == 0 || r == 1
    ensures x < 0 ==> r == 0 || r == -1
    ensures (x - r) % 2 == 0
  {
    if x >= 0 then x % 2 else -((-x) % 2)
  }

  /** An integer is even by JavaScript's `%` exactly when it is even by Dafny's. */
  lemma JsEvenAgrees(x: int)
    ensures JsRemTwo(x) == 0 <==> x % 2 == 0
  {
  }

  /** The base orientation of cell (r, c): -90 degrees when r + c is even, +90 degrees when odd. */
  function BaseDegrees(r: int, c: int): int {
    if JsRemTwo(r + c) == 0 then -90 else 90
  }

  /** Neighbouring cells of a row or of a column have opposite base orientations; diagonal ones share it. */
  lemma BaseAlternates(r: int, c: int)
    ensures BaseDegrees(r, c) == -90 || BaseDegrees(r, c) == 90
    ensures BaseDegrees(r, c + 1) == -BaseDegrees(r, c)
    ensures BaseDegrees(r + 1, c) == -BaseDegrees(r, c)
    ensures BaseDegrees(r + 1, c + 1) == BaseDegrees(r, c)
  {
    JsEvenAgrees(r + c);
    JsEvenAgrees(r + c + 1);
    JsEvenAgrees(r + c + 2);
  }

  /** (cos, sin) of -90 or +90 degrees. */
  function RightAngleUnit(deg: int): Point
    requires deg == -90 || deg == 90
  {
    if deg == -90 then Point(0.0, -1.0) else Point(0.0, 1.0)
  }

  /** `offCenterPivot`: the cell's center moved by side * PIVOT_FRAC along its grid-parity direction. */
  function OffCenterPivot(center: Point, side: real, r: int, c: int): Point {
    var dir := if JsRemTwo(r + c) == 0 then -90 else 90;
    var mag := side * PIVOT_FRAC;
    var u := RightAngleUnit(dir);
    Point(center.x + mag * u.x, center.y + mag * u.y)
  }

  /** The pivot sits straight above the center (smaller y) for a -90 degree cell and straight below for a +90 degree cell. */
  lemma PivotFollowsBaseOrientation(center: Point, side: real, r: int, c: int)
    ensures OffCenterPivot(center, side, r, c).x == center.x
    ensures BaseDegrees(r, c) == -90 ==> OffCenterPivot(center, side, r, c).y == center.y - side * PIVOT_FRAC
    ensures BaseDegrees(r, c) == 90 ==> OffCenterPivot(center, side, r, c).y == center.y + side * PIVOT_FRAC
  {
  }

  /** The coordinate of loop index n: `step` added n times to 0, as the loops accumulate it. */
  function Coord(n: nat, step: real): real {
    if n == 0 then 0.0 else Coord(n - 1, step) + step
  }

  /** Accumulating `step` n times gives n * step. */
  lemma {:induction false} CoordIsProduct(n: nat, step: real)
    ensures Coord(n, step) == n as real * step
  {
    if n > 0 {
      CoordIsProduct(n - 1, step);
      assert n as real * step == (n - 1) as real * step + step;
    }
  }

  /** The nominal center of cell (r, c): (c * colStep, r * rowStep). */
  function CellCenter(lat: Lattice, r: nat, c: nat): Point {
    Point(Coord(c, lat.colStep), Coord(r, lat.rowStep))
  }

  /**
   * The orientation of a cell: the base orientation, or in narrow mode the
   * boundary normal, flipped by half a turn when the band index
   * floor(q / (base / 2)) is odd. With base 0 the JavaScript quotient is not a
   * number, its parity test fails, and the flipped normal is chosen.
   */
  function CellOrientation(m: Mask, geo: Geometry, base: real, narrow: bool, r: int, c: int, p: Point): Orientation
    requires m.Valid()
  {
    if !narrow then Fixed(BaseDegrees(r, c))
    else
      var g := EstimateGradient(m, p, GRADIENT_RADIUS);
      var q := geo.project(g, p);
      if base == 0.0 then AlongNormal(g, 180)
      else if JsRemTwo(Floor(q / (base * 0.5))) == 0 then AlongNormal(g, 0)
      else AlongNormal(g, 180)
  }

  /** A wide cell keeps its grid-parity orientation; a narrow cell faces along the normal exactly when its band index is even. */
  lemma OrientationByMode(m: Mask, geo: Geometry, base: real, narrow: bool, r: int, c: int, p: Point)
    requires m.Valid()
    ensures !narrow ==> CellOrientation(m, geo, base, narrow, r, c, p) == Fixed(BaseDegrees(r, c))
    ensures narrow && base != 0.0 ==>
              var g := EstimateGradient(m, p, GRADIENT_RADIUS);
              var band := Floor(geo.project(g, p) / (base * 0.5));
              CellOrientation(m, geo, base, narrow, r, c, p) ==
                (if band % 2 == 0 then AlongNormal(g, 0) else AlongNormal(g, 180))
  {
    if narrow && base != 0.0 {
      JsEvenAgrees(Floor(geo.project(EstimateGradient(m, p, GRADIENT_RADIUS), p) / (base * 0.5)));
    }
  }

  /** The triangle of a cell, built at `rot` and turned by `angle` degrees about the cell's pivot. */
  function PlaceTriangle(geo: Geometry, lat: Lattice, rot: Orientation, angle: int, r: int, c: int, p: Point): Triangle {
    geo.place(p, lat.side, rot, OffCenterPivot(p, lat.side, r, c), angle)
  }

  /** What a pass does with one cell. */
  datatype Decision = OutsideMask | OtherPass | OffMargin | Draw(tri: Triangle)

  /** The body of the cell loop of `drawAlternatingLattice`, as a value. */
  function CellDecision(m: Mask, geo: Geometry, pass: Pass, r: int, c: int, p: Point): Decision
    requires m.Valid()
  {
    if SampleAlpha(m, p) <= OUTSIDE_ALPHA then OutsideMask
    else
      var thick := Thickness(m, p, geo.dirs, CLASSIFY_RADIUS);
      if pass.narrow && thick >= WIDTH_SWITCH then OtherPass
      else if !pass.narrow && thick < WIDTH_SWITCH then OtherPass
      else
        var rot := CellOrientation(m, geo, pass.lat.base, pass.narrow, r, c, p);
        var tri := PlaceTriangle(geo, pass.lat, rot, pass.angle, r, c, p);
        if InsideWithMargin(m, geo.dirs, tri, MARGIN) then Draw(tri) else OffMargin
  }

  /**
   * The wide and the narrow pass split the cells by thickness: at a point
   * outside the mask both skip it; at a point inside it exactly one of them
   * gets past classification (the narrow one when the thickness is below
   * WIDTH_SWITCH), so no point is drawn by both.
   */
  lemma PassesPartitionCells(m: Mask, geo: Geometry, wide: Pass, narrow: Pass, r: int, c: int, r': int, c': int, p: Point)
    requires m.Valid()
    requires !wide.narrow && narrow.narrow
    ensures SampleAlpha(m, p) <= OUTSIDE_ALPHA ==>
              CellDecision(m, geo, wide, r, c, p) == OutsideMask && CellDecision(m, geo, narrow, r', c', p) == OutsideMask
    ensures SampleAlpha(m, p) > OUTSIDE_ALPHA ==>
              (CellDecision(m, geo, narrow, r', c', p) != OtherPass <==> Thickness(m, p, geo.dirs, CLASSIFY_RADIUS) < WIDTH_SWITCH)
    ensures SampleAlpha(m, p) > OUTSIDE_ALPHA ==>
              (CellDecision(m, geo, wide, r, c, p) != OtherPass <==> Thickness(m, p, geo.dirs, CLASSIFY_RADIUS) >= WIDTH_SWITCH)
    ensures !(CellDecision(m, geo, wide, r, c, p).Draw? && CellDecision(m, geo, narrow, r', c', p).Draw?)
  {
  }

  /** A drawn cell has its center inside the mask, its thickness on its pass's side, and its triangle inside with margin. */
  lemma DrawnCellIsSound(m: Mask, geo: Geometry, pass: Pass, r: int, c: int, p: Point)
    requires m.Valid()
    requires CellDecision(m, geo, pass, r, c, p).Draw?
    ensures SampleAlpha(m, p) > OUTSIDE_ALPHA
    ensures pass.narrow <==> Thickness(m, p, geo.dirs, CLASSIFY_RADIUS) < WIDTH_SWITCH
    ensures InsideWithMargin(m, geo.dirs, CellDecision(m, geo, pass, r, c, p).tri, MARGIN)
    ensures forall j :: 0 <= j < 6 ==> SampleAlpha(m, ProbePoints(CellDecision(m, geo, pass, r, c, p).tri)[j]) > OUTSIDE_ALPHA
  {
  }

  /** The cell loop body of `drawAlternatingLattice`, with `continue` as an early return. */
  method DecideCell(m: Mask, geo: Geometry, pass: Pass, r: int, c: int, p: Point) returns (d: Decision)
    requires m.Valid()
    ensures d == CellDecision(m, geo, pass, r, c, p)
  {
    if SampleAlpha(m, p) <= OUTSIDE_ALPHA {
      return OutsideMask;
    }
    var thick := LocalThickness(m, p, geo.dirs, CLASSIFY_RADIUS);
    if pass.narrow {
      if thick >= WIDTH_SWITCH {
        return OtherPass;
      }
    } else {
      if thick < WIDTH_SWITCH {
        return OtherPass;
      }
    }
    var rot := CellOrientation(m, geo, pass.lat.base, pass.narrow, r, c, p);
    var tri := PlaceTriangle(geo, pass.lat, rot, pass.angle, r, c, p);
    var inside := TriangleInsideMaskWithMargin(m, geo.dirs, tri, MARGIN);
    if !inside {
      return OffMargin;
    }
    return Draw(tri);
  }

  /** The number of loop indices n >= 0 whose coordinate n * step stays within `bound`. */
  function StepCount(bound: real, step: real): nat
    requires step > 0.0
  {
    if bound < 0.0 then 0 else Floor(bound / step) + 1
  }

  /** Index n is visited by a loop `for (v = 0; v <= bound; v += step)` exactly when n is below StepCount. */
  lemma StepCountExact(bound: real, step: real, n: nat)
    requires step > 0.0
    ensures Coord(n, step) <= bound <==> n < StepCount(bound, step)
  {
    CoordIsProduct(n, step);
    if bound >= 0.0 {
      var f := Floor(bound / step);
      assert bound / step * step == bound;
      if n <= f {
        assert n as real <= bound / step;
        assert n as real * step <= bound / step * step;
      } else {
        assert n as real > bound / step;
        assert n as real * step > bound / step * step;
      }
    }
  }

  /** Rows visited: `y <= height + rowStep`. */
  function RowCount(lat: Lattice, canvas: Canvas): nat
    requires lat.rowStep > 0.0
  {
    StepCount(canvas.height as real + lat.rowStep, lat.rowStep)
  }

  /** Columns visited in each row: `x <= width + base`. */
  function ColCount(lat: Lattice, canvas: Canvas): nat
    requires lat.colStep > 0.0
  {
    StepCount(canvas.width as real + lat.base, lat.colStep)
  }

  /** The cells (r, 0) .. (r, cols - 1) of a row, each mapped by `f`, in the order the column loop visits them. */
  function RowCells<T>(r: nat, cols: nat, f: (nat, nat) -> T): seq<T> {
    if cols == 0 then [] else RowCells(r, cols - 1, f) + [f(r, cols - 1)]
  }

  /** The cells of a `rows` x `cols` grid, each mapped by `f`, in the order the nested row and column loops visit them. */
  function GridCells<T>(rows: nat, cols: nat, f: (nat, nat) -> T): seq<T> {
    if rows == 0 then [] else GridCells(rows - 1, cols, f) + RowCells(rows - 1, cols, f)
  }

  /** A row holds one entry per column, in column order, and nothing else. */
  lemma {:induction false} RowCellsAt<T>(r: nat, cols: nat, f: (nat, nat) -> T)
    ensures |RowCells(r, cols, f)| == cols
    ensures forall c :: 0 <= c < cols ==> RowCells(r, cols, f)[c] == f(r, c)
    ensures forall x :: x in RowCells(r, cols, f) ==> exists c :: 0 <= c < cols && f(r, c) == x
  {
    if cols > 0 {
      RowCellsAt(r, cols - 1, f);
    }
  }

  /** The row-major step: a lower row number gives a lower position, whatever the columns. */
  lemma RowMajorStep(r: int, c: int, rows: int, cols: int)
    requires 0 <= r < rows - 1 && 0 <= c < cols
    ensures r * cols + c < (rows - 1) * cols
  {
    assert (rows - 1) * cols - r * cols == (rows - 1 - r) * cols;
    assert (rows - 1 - r) * cols >= cols by {
      assert (rows - 1 - r) * cols - cols == (rows - 2 - r) * cols;
    }
  }

  /** A grid holds one entry per cell. */
  lemma {:induction false} GridCellsLength<T>(rows: nat, cols: nat, f: (nat, nat) -> T)
    ensures |GridCells(rows, cols, f)| == rows * cols
  {
    if rows > 0 {
      GridCellsLength(rows - 1, cols, f);
      RowCellsAt(rows - 1, cols, f);
      assert (rows - 1) * cols + cols == rows * cols;
    }
  }

  /** Cell (r, c) of a grid sits at position r * cols + c. */
  lemma {:induction false} GridCellsAt<T>(rows: nat, cols: nat, f: (nat, nat) -> T, r: int, c: int)
    requires 0 <= r < rows && 0 <= c < cols
    ensures |GridCells(rows, cols, f)| == rows * cols
    ensures 0 <= r * cols + c < |GridCells(rows, cols, f)|
    ensures GridCells(rows, cols, f)[r * cols + c] == f(r, c)
  {
    GridCellsLength(rows, cols, f);
    GridCellsLength(rows - 1, cols, f);
    RowCellsAt(rows - 1, cols, f);
    var front := GridCells(rows - 1, cols, f);
    if r < rows - 1 {
      GridCellsAt(rows - 1, cols, f, r, c);
      RowMajorStep(r, c, rows, cols);
    } else {
      assert r * cols + c - |front| == c;
    }
  }

  /** Every entry of a grid is the image of one of its cells. */
  lemma {:induction false} GridCellsMember<T>(rows: nat, cols: nat, f: (nat, nat) -> T, x: T)
    requires x in GridCells(rows, cols, f)
    ensures exists r, c :: 0 <= r < rows && 0 <= c < cols && f(r, c) == x
  {
    var front, last := GridCells(rows - 1, cols, f), RowCells(rows - 1, cols, f);
    if x in front {
      GridCellsMember(rows - 1, cols, f, x);
      var r, c :| 0 <= r < rows - 1 && 0 <= c < cols && f(r, c) == x;
    } else {
      RowCellsAt(rows - 1, cols, f);
      var c :| 0 <= c < cols && f(rows - 1, c) == x;
    }
  }

  function Emitted(d: Decision): seq<Triangle> {
    if d.Draw? then [d.tri] else []
  }

  /** The triangles of the `Draw` decisions of `ds`, in order. */
  function Drawn(ds: seq<Decision>): seq<Triangle> {
    if ds == [] then [] else Drawn(ds[..|ds| - 1]) + Emitted(ds[|ds| - 1])
  }

  /** Collecting drawn triangles distributes over concatenation. */
  lemma {:induction false} DrawnAppend(a: seq<Decision>, b: seq<Decision>)
    ensures Drawn(a + b) == Drawn(a) + Drawn(b)
    decreases |b|
  {
    if b != [] {
      assert (a + b)[..|a + b| - 1] == a + b[..|b| - 1];
      DrawnAppend(a, b[..|b| - 1]);
    } else {
      assert a + b == a;
    }
  }

  /** A triangle is collected exactly when it is the triangle of some `Draw` decision. */
  lemma {:induction false} DrawnMember(ds: seq<Decision>, t: Triangle)
    ensures t in Drawn(ds) <==> Draw(t) in ds
  {
    if ds != [] {
      var front := ds[..|ds| - 1];
      DrawnMember(front, t);
      assert ds == front + [ds[|ds| - 1]];
    }
  }

  /** The decision of each cell of a pass, at the cell's nominal center. */
  function PassCell(m: Mask, geo: Geometry, pass: Pass): (nat, nat) -> Decision
    requires m.Valid()
  {
    (r: nat, c: nat) => CellDecision(m, geo, pass, r, c, CellCenter(pass.lat, r, c))
  }

  /** The triangles a pass draws over a `rows` x `cols` grid, row by row. */
  function PassOutput(m: Mask, geo: Geometry, pass: Pass, rows: nat, cols: nat): seq<Triangle>
    requires m.Valid()
  {
    Drawn(GridCells(rows, cols, PassCell(m, geo, pass)))
  }

  /** Every triangle a pass draws is the triangle of a grid cell whose decision is to draw it. */
  lemma PassOutputDrawn(m: Mask, geo: Geometry, pass: Pass, rows: nat, cols: nat, t: Triangle)
    requires m.Valid()
    requires t in PassOutput(m, geo, pass, rows, cols)
    ensures exists r, c :: 0 <= r < rows && 0 <= c < cols && CellDecision(m, geo, pass, r, c, CellCenter(pass.lat, r, c)) == Draw(t)
  {
    var cells := GridCells(rows, cols, PassCell(m, geo, pass));
    DrawnMember(cells, t);
    GridCellsMember(rows, cols, PassCell(m, geo, pass), Draw(t));
    var r, c :| 0 <= r < rows && 0 <= c < cols && PassCell(m, geo, pass)(r, c) == Draw(t);
  }

  /** A grid cell whose decision is to draw contributes its triangle to what the grid draws. */
  lemma GridDrawnComplete(rows: nat, cols: nat, f: (nat, nat) -> Decision, r: nat, c: nat)
    requires r < rows && c < cols
    requires f(r, c).Draw?
    ensures f(r, c).tri in Drawn(GridCells(rows, cols, f))
  {
    var cells, d, i := GridCells(rows, cols, f), f(r, c), r * cols + c;
    GridCellsAt(rows, cols, f, r, c);
    assert 0 <= i < |cells| && cells[i] == d;
    assert Draw(d.tri) in cells;
    DrawnMember(cells, d.tri);
  }

  /** Every cell of the grid whose decision is to draw contributes its triangle to the pass's output. */
  lemma PassOutputComplete(m: Mask, geo: Geometry, pass: Pass, rows: nat, cols: nat, r: nat, c: nat)
    requires m.Valid()
    requires r < rows && c < cols
    requires CellDecision(m, geo, pass, r, c, CellCenter(pass.lat, r, c)).Draw?
    ensures CellDecision(m, geo, pass, r, c, CellCenter(pass.lat, r, c)).tri in PassOutput(m, geo, pass, rows, cols)
  {
    GridDrawnComplete(rows, cols, PassCell(m, geo, pass), r, c);
  }

  /** Every triangle a pass draws lies inside the mask with the configured margin. */
  lemma PassOutputInsideMask(m: Mask, geo: Geometry, pass: Pass, rows: nat, cols: nat)
    requires m.Valid()
    ensures forall t :: t in PassOutput(m, geo, pass, rows, cols) ==> InsideWithMargin(m, geo.dirs, t, MARGIN)
  {
    forall t | t in PassOutput(m, geo, pass, rows, cols) ensures InsideWithMargin(m, geo.dirs, t, MARGIN) {
      PassOutputDrawn(m, geo, pass, rows, cols, t);
      var r, c :| 0 <= r < rows && 0 <= c < cols && CellDecision(m, geo, pass, r, c, CellCenter(pass.lat, r, c)) == Draw(t);
      DrawnCellIsSound(m, geo, pass, r, c, CellCenter(pass.lat, r, c));
    }
  }

  /** One more column adds the triangle of that column's cell, if it is drawn. */
  lemma DrawnRowStep(r: nat, c: nat, f: (nat, nat) -> Decision)
    ensures Drawn(RowCells(r, c + 1, f)) == Drawn(RowCells(r, c, f)) + Emitted(f(r, c))
  {
    var front := RowCells(r, c, f);
    assert RowCells(r, c + 1, f)[..|front|] == front;
  }

  /** `cell` gives the decision of a pass at cell (r, c). */
  ghost predicate DecidesCell(m: Mask, geo: Geometry, pass: Pass, cell: (nat, nat) -> Decision, r: nat, c: nat)
    requires m.Valid()
  {
    cell(r, c) == CellDecision(m, geo, pass, r, c, CellCenter(pass.lat, r, c))
  }

  /** `cell` gives the decision of a pass at every cell. */
  ghost predicate DecidesPass(m: Mask, geo: Geometry, pass: Pass, cell: (nat, nat) -> Decision)
    requires m.Valid()
  {
    forall r: nat, c: nat :: DecidesCell(m, geo, pass, cell, r, c)
  }

  lemma PassCellDecides(m: Mask, geo: Geometry, pass: Pass)
    requires m.Valid()
    ensures DecidesPass(m, geo, pass, PassCell(m, geo, pass))
  {
    forall r: nat, c: nat ensures DecidesCell(m, geo, pass, PassCell(m, geo, pass), r, c) {
    }
  }

  /**
   * The body of the column loop at loop coordinates (x, y), the nominal center
   * of cell (r, c): decide the cell and append its triangle when it is drawn.
   */
  method EmitCell(m: Mask, geo: Geometry, pass: Pass, ghost cell: (nat, nat) -> Decision, r: nat, c: nat, x: real, y: real, row: seq<Triangle>)
    returns (row': seq<Triangle>)
    requires m.Valid() && DecidesPass(m, geo, pass, cell)
    requires x == Coord(c, pass.lat.colStep) && y == Coord(r, pass.lat.rowStep)
    requires row == Drawn(RowCells(r, c, cell))
    ensures row' == Drawn(RowCells(r, c + 1, cell))
  {
    var d := DecideCell(m, geo, pass, r, c, Point(x, y));
    assert DecidesCell(m, geo, pass, cell, r, c);
    DrawnRowStep(r, c, cell);
    row' := row;
    if d.Draw? {
      row' := row' + [d.tri];
    }
  }

  /** The column loop of `drawAlternatingLattice` over row r, whose cells have y coordinate `y`; `cell` names the pass's decisions. */
  method DrawLatticeRow(m: Mask, geo: Geometry, pass: Pass, ghost cell: (nat, nat) -> Decision, canvas: Canvas, r: nat, y: real)
    returns (row: seq<Triangle>)
    requires m.Valid() && DecidesPass(m, geo, pass, cell)
    requires pass.lat.colStep > 0.0
    requires y == Coord(r, pass.lat.rowStep)
    ensures row == Drawn(RowCells(r, ColCount(pass.lat, canvas), cell))
  {
    var colStep := pass.lat.colStep;
    var colBound := canvas.width as real + pass.lat.base;
    ghost var cols := ColCount(pass.lat, canvas);
    row := [];
    var c, x := 0, 0.0;
    while x <= colBound
      invariant x == Coord(c, colStep)
      invariant c <= cols
      invariant row == Drawn(RowCells(r, c, cell))
      decreases cols - c
    {
      assert c < cols by { StepCountExact(colBound, colStep, c); }
      row := EmitCell(m, geo, pass, cell, r, c, x, y, row);
      c, x := c + 1, x + colStep;
    }
    assert c == cols by { StepCountExact(colBound, colStep, c); }
  }

  /** `drawAlternatingLattice`: walks the grid row by row and emits the triangles of the cells that pass. */
  method DrawAlternatingLattice(m: Mask, geo: Geometry, pass: Pass, canvas: Canvas) returns (drawn: seq<Triangle>)
    requires m.Valid()
    requires pass.lat.rowStep > 0.0 && pass.lat.colStep > 0.0
    ensures drawn == PassOutput(m, geo, pass, RowCount(pass.lat, canvas), ColCount(pass.lat, canvas))
    ensures forall t :: t in drawn ==> InsideWithMargin(m, geo.dirs, t, MARGIN)
  {
    var lat := pass.lat;
    var rowBound := canvas.height as real + lat.rowStep;
    ghost var rows, cols := RowCount(lat, canvas), ColCount(lat, canvas);
    ghost var cell := PassCell(m, geo, pass);
    PassCellDecides(m, geo, pass);
    drawn := [];
    var r, y := 0, 0.0;
    while y <= rowBound
      invariant y == Coord(r, lat.rowStep)
      invariant r <= rows
      invariant drawn == Drawn(GridCells(r, cols, cell))
      decreases rows - r
    {
      assert r < rows by { StepCountExact(rowBound, lat.rowStep, r); }
      var row := DrawLatticeRow(m, geo, pass, cell, canvas, r, y);
      DrawnAppend(GridCells(r, cols, cell), RowCells(r, cols, cell));
      drawn := drawn + row;
      r, y := r + 1, y + lat.rowStep;
    }
    assert r == rows by { StepCountExact(rowBound, lat.rowStep, r); }
    PassOutputInsideMask(m, geo, pass, rows, cols);
  }

  /** The triangle of each background cell: base orientation, no mask test. */
  function BackgroundCell(geo: Geometry, lat: Lattice, angle: int): (nat, nat) -> Triangle {
    (r: nat, c: nat) => PlaceTriangle(geo, lat, Fixed(BaseDegrees(r, c)), angle, r, c, CellCenter(lat, r, c))
  }

  /** `drawBackgroundLattice`: one triangle for every cell of the grid, unconditionally, cell (r, c) at position r * cols + c. */
  method DrawBackgroundLattice(geo: Geometry, lat: Lattice, angle: int, canvas: Canvas) returns (drawn: seq<Triangle>)
    requires lat.rowStep > 0.0 && lat.colStep > 0.0
    ensures drawn == GridCells(RowCount(lat, canvas), ColCount(lat, canvas), BackgroundCell(geo, lat, angle))
    ensures |drawn| == RowCount(lat, canvas) * ColCount(lat, canvas)
  {
    var rowBound, colBound := canvas.height as real + lat.rowStep, canvas.width as real + lat.base;
    ghost var rows, cols := RowCount(lat, canvas), ColCount(lat, canvas);
    ghost var cell := BackgroundCell(geo, lat, angle);
    drawn := [];
    var r, y := 0, 0.0;
    while y <= rowBound
      invariant y == Coord(r, lat.rowStep)
      invariant r <= rows
      invariant drawn == GridCells(r, cols, cell)
      decreases rows - r
    {
      assert r < rows by { StepCountExact(rowBound, lat.rowStep, r); }
      var row := [];
      var c, x := 0, 0.0;
      while x <= colBound
        invariant x == Coord(c, lat.colStep)
        invariant c <= cols
        invariant row == RowCells(r, c, cell)
        decreases cols - c
      {
        assert c < cols by { StepCountExact(colBound, lat.colStep, c); }
        var baseRot := Fixed(BaseDegrees(r, c));
        var pivot := OffCenterPivot(Point(x, y), lat.side, r, c);
        assert Point(x, y) == CellCenter(lat, r, c);
        row := row + [geo.place(Point(x, y), lat.side, baseRot, pivot, angle)];
        c, x := c + 1, x + lat.colStep;
      }
      assert c == cols by { StepCountExact(colBound, lat.colStep, c); }
      drawn := drawn + row;
      r, y := r + 1, y + lat.rowStep;
    }
    assert r == rows by { StepCountExact(rowBound, lat.rowStep, r); }
    GridCellsLength(rows, cols, cell);
  }
}
