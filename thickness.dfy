/**
 * `localThickness`: from a point, walk outwards along each ray direction in
 * unit steps and keep the smallest step at which a ray first leaves the mask,
 * or the search radius when no ray leaves it earlier.
 *
 * The directions (cos a, sin a) for a = 0, 2pi/16, ... are a parameter: the
 * model holds for any table of directions.
 */
module RayThickness {
  import opened Mask

  datatype Option<T> = None | Some(value: T)

  /** The sample point `d` unit steps from `p` along direction `v`. */
  function RayPoint(p: Point, v: Point, d: int): Point {
    Point(p.x + d as real * v.x, p.y + d as real * v.y)
  }

  /** The ray along `v` is outside the mask at step `d`. */
  predicate ExitsAt(m: Mask, p: Point, v: Point, d: int)
    requires m.Valid()
  {
    SampleAlpha(m, RayPoint(p, v, d)) <= OUTSIDE_ALPHA
  }

  /** Some ray of `dirs` is outside the mask at step `d`. */
  predicate AnyExitAt(m: Mask, p: Point, dirs: seq<Point>, d: int)
    requires m.Valid()
  {
    exists k :: 0 <= k < |dirs| && ExitsAt(m, p, dirs[k], d)
  }

  /** The inner loop of `localThickness`: the first step in [from, maxR] at which the ray is outside. */
  function FirstExit(m: Mask, p: Point, v: Point, from: int, maxR: int): Option<int>
    requires m.Valid()
    decreases maxR - from
  {
    if from > maxR then None
    else if ExitsAt(m, p, v, from) then Some(from)
    else FirstExit(m, p, v, from + 1, maxR)
  }

  /** What `localThickness` computes, direction by direction in table order: `maxR`, lowered to each ray's first exit step. */
  function Thickness(m: Mask, p: Point, dirs: seq<Point>, maxR: int): int
    requires m.Valid()
    decreases |dirs|
  {
    if dirs == [] then maxR
    else
      var t := Thickness(m, p, dirs[..|dirs| - 1], maxR);
      match FirstExit(m, p, dirs[|dirs| - 1], 1, maxR)
      case None => t
      case Some(d) => Min(t, d)
  }

  /** The inner loop finds the first exit: it is outside, in range, and every earlier step is inside. */
  lemma {:induction false} FirstExitIsFirst(m: Mask, p: Point, v: Point, from: int, maxR: int)
    requires m.Valid()
    ensures FirstExit(m, p, v, from, maxR).Some? ==>
              var d := FirstExit(m, p, v, from, maxR).value;
              from <= d <= maxR && ExitsAt(m, p, v, d) &&
              forall e :: from <= e < d ==> !ExitsAt(m, p, v, e)
    ensures FirstExit(m, p, v, from, maxR).None? ==>
              forall e :: from <= e <= maxR ==> !ExitsAt(m, p, v, e)
    decreases maxR - from
  {
    if from <= maxR && !ExitsAt(m, p, v, from) {
      FirstExitIsFirst(m, p, v, from + 1, maxR);
    }
  }

  /**
   * The thickness is the least step at which some ray is outside the mask, or
   * `maxR` when no ray is outside before step `maxR`; it lies in [1, maxR]
   * when `maxR >= 1` and equals `maxR` otherwise.
   */
  lemma {:induction false} ThicknessIsLeastExit(m: Mask, p: Point, dirs: seq<Point>, maxR: int)
    requires m.Valid()
    ensures Thickness(m, p, dirs, maxR) <= maxR
    ensures maxR >= 1 ==> Thickness(m, p, dirs, maxR) >= 1
    ensures maxR < 1 ==> Thickness(m, p, dirs, maxR) == maxR
    ensures forall d :: 1 <= d < Thickness(m, p, dirs, maxR) ==> !AnyExitAt(m, p, dirs, d)
    ensures Thickness(m, p, dirs, maxR) < maxR ==> AnyExitAt(m, p, dirs, Thickness(m, p, dirs, maxR))
    decreases |dirs|
  {
    if dirs != [] {
      var front, v := dirs[..|dirs| - 1], dirs[|dirs| - 1];
      ThicknessIsLeastExit(m, p, front, maxR);
      FirstExitIsFirst(m, p, v, 1, maxR);
      var t := Thickness(m, p, front, maxR);
      var t' := Thickness(m, p, dirs, maxR);
      forall d | 1 <= d < t' ensures !AnyExitAt(m, p, dirs, d) {
        assert !AnyExitAt(m, p, front, d);
        forall k | 0 <= k < |dirs| ensures !ExitsAt(m, p, dirs[k], d) {
          if k < |front| {
            assert dirs[k] == front[k];
          }
        }
      }
      if t' < maxR {
        if t' == t {
          var k :| 0 <= k < |front| && ExitsAt(m, p, front[k], t);
          assert dirs[k] == front[k];
        } else {
          assert ExitsAt(m, p, dirs[|dirs| - 1], t');
        }
      }
    }
  }

  /** The thickness is exactly `maxR` when (and only when) no ray is outside at a step below `maxR`. */
  lemma ThicknessIsMaxRIff(m: Mask, p: Point, dirs: seq<Point>, maxR: int)
    requires m.Valid()
    ensures Thickness(m, p, dirs, maxR) == maxR <==> forall d :: 1 <= d < maxR ==> !AnyExitAt(m, p, dirs, d)
  {
    ThicknessIsLeastExit(m, p, dirs, maxR);
    var t := Thickness(m, p, dirs, maxR);
    if t != maxR {
      assert t < maxR && 1 <= t;
      assert AnyExitAt(m, p, dirs, t);
    }
  }

  /** Searching farther never makes the thickness smaller. */
  lemma ThicknessMonotone(m: Mask, p: Point, dirs: seq<Point>, maxR: int, maxR': int)
    requires m.Valid()
    requires maxR <= maxR'
    ensures Thickness(m, p, dirs, maxR) <= Thickness(m, p, dirs, maxR')
  {
    ThicknessIsLeastExit(m, p, dirs, maxR);
    ThicknessIsLeastExit(m, p, dirs, maxR');
    var t, t' := Thickness(m, p, dirs, maxR), Thickness(m, p, dirs, maxR');
    if 1 <= maxR' && t' < maxR' {
      // some ray leaves at t', and none leaves before t, so t' is not below t
      assert AnyExitAt(m, p, dirs, t');
    }
  }

  /** `localThickness`: the nested search with an early exit from each ray. */
  method LocalThickness(m: Mask, p: Point, dirs: seq<Point>, maxR: int) returns (minD: int)
    requires m.Valid()
    ensures minD == Thickness(m, p, dirs, maxR)
  {
    minD := maxR;
    var k := 0;
    while k < |dirs|
      invariant 0 <= k <= |dirs|
      invariant minD == Thickness(m, p, dirs[..k], maxR)
    {
      var v := dirs[k];
      assert dirs[..k + 1][..k] == dirs[..k];
      var d := 1;
      while d <= maxR
        invariant 1 <= d
        invariant FirstExit(m, p, v, d, maxR) == FirstExit(m, p, v, 1, maxR)
        invariant minD == Thickness(m, p, dirs[..k], maxR)
      {
        if SampleAlpha(m, RayPoint(p, v, d)) <= OUTSIDE_ALPHA {
          minD := Min(minD, d);
          break;
        }
        d := d + 1;
      }
      k := k + 1;
    }
    assert dirs[..k] == dirs;
  }
}
