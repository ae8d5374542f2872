/**
 * One frame of the sketch (`draw`): step the rotation, then draw the
 * background lattice, the wide pass and the narrow pass, all turned by the
 * current angle. Each pass's emitted triangles are returned as a sequence.
 */
module Frame {
  import opened Mask
  import opened Margin
  import opened Lattice
  import opened Rotation

  /** The lattice of the wide pass: rows sqrt(3)/2 * BASE_SIDE apart (`H`), columns BASE_SIDE / 2 apart (`DX`). */
  function MainLattice(geo: Geometry): Lattice {
    Lattice(SIDE, BASE_SIDE, geo.halfRoot3 * BASE_SIDE, BASE_SIDE / 2.0)
  }

  /** The lattice of the narrow pass (`SMALL_H`, `SMALL_DX`). */
  function SmallLattice(geo: Geometry): Lattice {
    Lattice(SMALL_SIDE, SMALL_BASE_SIDE, geo.halfRoot3 * SMALL_BASE_SIDE, SMALL_BASE_SIDE / 2.0)
  }

  /** The background lattice (`BG_H`, `BG_DX`). */
  function BackgroundLattice(geo: Geometry): Lattice {
    Lattice(BG_SIDE, BG_BASE_SIDE, geo.halfRoot3 * BG_BASE_SIDE, BG_BASE_SIDE / 2.0)
  }

  /** With a positive sqrt(3)/2 every lattice steps forward in both directions, as the grid walks of a frame require. */
  lemma LatticeStepsPositive(geo: Geometry)
    requires geo.halfRoot3 > 0.0
    ensures MainLattice(geo).rowStep > 0.0 && MainLattice(geo).colStep == 9.0
    ensures SmallLattice(geo).rowStep > 0.0 && SmallLattice(geo).colStep == 7.0
    ensures BackgroundLattice(geo).rowStep > 0.0 && BackgroundLattice(geo).colStep == 10.0
    ensures SmallLattice(geo).rowStep < MainLattice(geo).rowStep < BackgroundLattice(geo).rowStep
  {
  }

  /** What one frame draws, in order: the background, then the wide pass, then the narrow pass. */
  datatype FrameOutput = FrameOutput(background: seq<Triangle>, wide: seq<Triangle>, narrow: seq<Triangle>)

  /** The triangles of a frame drawn at `angle` degrees. */
  function FrameAt(m: Mask, geo: Geometry, canvas: Canvas, angle: int): FrameOutput
    requires m.Valid()
    requires geo.halfRoot3 > 0.0
  {
    var bg, main, small := BackgroundLattice(geo), MainLattice(geo), SmallLattice(geo);
    FrameOutput(
      GridCells(RowCount(bg, canvas), ColCount(bg, canvas), BackgroundCell(geo, bg, angle)),
      PassOutput(m, geo, Pass(main, false, angle), RowCount(main, canvas), ColCount(main, canvas)),
      PassOutput(m, geo, Pass(small, true, angle), RowCount(small, canvas), ColCount(small, canvas)))
  }

  /**
   * Every pattern triangle of a frame, wide or narrow, lies inside the mask
   * with the configured margin, and the background has one triangle per cell
   * of its grid.
   */
  lemma FramePatternInsideMask(m: Mask, geo: Geometry, canvas: Canvas, angle: int)
    requires m.Valid()
    requires geo.halfRoot3 > 0.0
    ensures var f := FrameAt(m, geo, canvas, angle);
            forall t :: t in f.wide + f.narrow ==> InsideWithMargin(m, geo.dirs, t, MARGIN)
    ensures |FrameAt(m, geo, canvas, angle).background| ==
              RowCount(BackgroundLattice(geo), canvas) * ColCount(BackgroundLattice(geo), canvas)
  {
    var bg, main, small := BackgroundLattice(geo), MainLattice(geo), SmallLattice(geo);
    PassOutputInsideMask(m, geo, Pass(main, false, angle), RowCount(main, canvas), ColCount(main, canvas));
    PassOutputInsideMask(m, geo, Pass(small, true, angle), RowCount(small, canvas), ColCount(small, canvas));
    GridCellsLength(RowCount(bg, canvas), ColCount(bg, canvas), BackgroundCell(geo, bg, angle));
  }

  /** `draw`: one tick of the stepper at time `now`, then the three lattices at the new angle. */
  method DrawFrame(stepper: RotationStepper, m: Mask, geo: Geometry, canvas: Canvas, now: real) returns (out: FrameOutput)
    requires stepper.Valid() && m.Valid()
    requires geo.halfRoot3 > 0.0
    modifies stepper
    ensures stepper.Valid()
    ensures stepper.State() == TickState(old(stepper.State()), stepper.rate, now)
    ensures out == FrameAt(m, geo, canvas, stepper.angleOffsetDegrees)
  {
    stepper.Tick(now);
    var angle := stepper.angleOffsetDegrees;
    var bg, main, small := BackgroundLattice(geo), MainLattice(geo), SmallLattice(geo);
    LatticeStepsPositive(geo);
    var background := DrawBackgroundLattice(geo, bg, angle, canvas);
    var wide := DrawAlternatingLattice(m, geo, Pass(main, false, angle), canvas);
    var narrow := DrawAlternatingLattice(m, geo, Pass(small, true, angle), canvas);
    out := FrameOutput(background, wide, narrow);
  }
}
