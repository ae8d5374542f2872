/**
 * `triangleInsideMaskWithMargin`: a triangle is kept when its three vertices
 * and its three edge midpoints all lie inside the mask and none of them is
 * closer to the outside than the margin.
 */
module Margin {
  import opened Mask
  import opened RayThickness

  /** Three canvas points, in the order the triangle renderer receives them. */
  datatype Triangle = Triangle(a: Point, b: Point, c: Point)

  function Midpoint(p: Point, q: Point): Point {
    Point((p.x + q.x) / 2.0, (p.y + q.y) / 2.0)
  }

  /** The smallest integer not below `x` (p5's `ceil`). */
  function Ceil(x: real): (n: int)
    ensures x <= n as real < x + 1.0
  {
    -Floor(-x)
  }

  /** The six probe points: the vertices, then the midpoints of ab, bc and ca. */
  function ProbePoints(t: Triangle): (pts: seq<Point>)
    ensures |pts| == 6
  {
    [t.a, t.b, t.c, Midpoint(t.a, t.b), Midpoint(t.b, t.c), Midpoint(t.c, t.a)]
  }

  /** One probe point passes: inside the mask, and its thickness within ceil(2 * margin) is not below the margin. */
  predicate ProbeClear(m: Mask, dirs: seq<Point>, p: Point, margin: real)
    requires m.Valid()
  {
    SampleAlpha(m, p) > OUTSIDE_ALPHA && Thickness(m, p, dirs, Ceil(margin * 2.0)) as real >= margin
  }

  /** Every probe point of the triangle passes. */
  predicate InsideWithMargin(m: Mask, dirs: seq<Point>, t: Triangle, margin: real)
    requires m.Valid()
  {
    forall j :: 0 <= j < 6 ==> ProbeClear(m, dirs, ProbePoints(t)[j], margin)
  }

  /** `triangleInsideMaskWithMargin`: probes the six points in order and rejects at the first failure. */
  method TriangleInsideMaskWithMargin(m: Mask, dirs: seq<Point>, t: Triangle, margin: real) returns (inside: bool)
    requires m.Valid()
    ensures inside == InsideWithMargin(m, dirs, t, margin)
  {
    var pts := ProbePoints(t);
    var i := 0;
    while i < |pts|
      invariant 0 <= i <= |pts|
      invariant forall j :: 0 <= j < i ==> ProbeClear(m, dirs, pts[j], margin)
    {
      var p := pts[i];
      if SampleAlpha(m, p) <= OUTSIDE_ALPHA {
        return false;
      }
      var thick := LocalThickness(m, p, dirs, Ceil(margin * 2.0));
      if (thick as real) < margin {
        return false;
      }
      i := i + 1;
    }
    return true;
  }

  /** A triangle with a vertex or an edge midpoint outside the mask is rejected, whatever the margin. */
  lemma OutsideProbeRejects(m: Mask, dirs: seq<Point>, t: Triangle, margin: real, j: int)
    requires m.Valid()
    requires 0 <= j < 6 && SampleAlpha(m, ProbePoints(t)[j]) <= OUTSIDE_ALPHA
    ensures !InsideWithMargin(m, dirs, t, margin)
  {
  }

  /**
   * With a margin of 1 the thickness clause cannot reject: the search radius
   * is ceil(2) = 2 and a thickness over a radius of at least 1 is at least 1.
   * The test then only asks that the six probe points be inside the mask.
   */
  lemma UnitMarginOnlyChecksAlpha(m: Mask, dirs: seq<Point>, t: Triangle)
    requires m.Valid()
    ensures InsideWithMargin(m, dirs, t, 1.0) <==>
              forall j :: 0 <= j < 6 ==> SampleAlpha(m, ProbePoints(t)[j]) > OUTSIDE_ALPHA
  {
    assert Ceil(1.0 * 2.0) == 2;
    forall j | 0 <= j < 6
      ensures Thickness(m, ProbePoints(t)[j], dirs, 2) as real >= 1.0
    {
      ThicknessIsLeastExit(m, ProbePoints(t)[j], dirs, 2);
    }
  }
}
