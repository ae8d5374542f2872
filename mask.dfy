/**
 * The occupancy mask of the sketch: an RGBA pixel buffer (one byte per
 * channel, row-major, four bytes per pixel) and the point queries made on it,
 * `sampleAlpha` and `estimateGradient`.
 */
module Mask {

  /** One channel of a pixel, as stored in a clamped byte array. */
  type Byte = x: int | 0 <= x < 256

  /** A canvas coordinate; x grows to the right and y grows downwards. */
  datatype Point = Point(x: real, y: real)

  /** An alpha at or below this value counts as outside the silhouette. */
  const OUTSIDE_ALPHA: int := 1

  /** A pixel buffer of `width` x `height` RGBA pixels. */
  datatype Mask = Mask(width: int, height: int, pixels: seq<Byte>)
  {
    ghost predicate Valid() {
      width >= 1 && height >= 1 && |pixels| == 4 * width * height
    }
  }

  function Min(a: int, b: int): int { if a <= b then a else b }
  function Max(a: int, b: int): int { if a <= b then b else a }

  /** Distance between two integers. */
  function Dist(a: int, b: int): nat { if a <= b then b - a else a - b }

  /** The largest integer not above `x`. */
  function Floor(x: real): (n: int)
    ensures n as real <= x < n as real + 1.0
  {
    x.Floor
  }

  /** Keeps `n` inside [low, high] (p5's `constrain` on an integer); `n` itself when it is in range. */
  function Constrain(n: int, low: int, high: int): (r: int)
    requires low <= high
    ensures low <= r <= high
    ensures low <= n <= high ==> r == n
  {
    Max(Min(n, high), low)
  }

  /** The clamped value is the value of the range nearest to `n`. */
  lemma ConstrainIsNearest(n: int, low: int, high: int, z: int)
    requires low <= high && low <= z <= high
    ensures Dist(Constrain(n, low, high), n) <= Dist(z, n)
  {
  }

  /** Row-major pixel numbering stays below the pixel count. */
  lemma RowMajorInRange(ix: int, iy: int, w: int, h: int)
    requires 0 <= ix < w && 0 <= iy < h
    ensures 0 <= iy * w + ix < w * h
  {
    assert iy * w <= (h - 1) * w by {
      assert (h - 1) * w - iy * w == (h - 1 - iy) * w;
    }
  }

  /** Index of the alpha byte of pixel (ix, iy) in the buffer. */
  function AlphaIndex(m: Mask, ix: int, iy: int): (i: nat)
    requires m.Valid()
    requires 0 <= ix < m.width && 0 <= iy < m.height
    ensures i < |m.pixels|
    ensures i % 4 == 3
  {
    RowMajorInRange(ix, iy, m.width, m.height);
    4 * (iy * m.width + ix) + 3
  }

  /** A lower row number means a lower row-major number, whatever the columns. */
  lemma RowMajorOrdered(ix: int, iy: int, jx: int, jy: int, w: int)
    requires 0 <= ix < w && 0 <= jx < w && iy < jy
    ensures iy * w + ix < jy * w + jx
  {
    assert jy * w - iy * w == (jy - iy) * w;
    assert (jy - iy) * w >= w by {
      assert (jy - iy) * w - w == (jy - iy - 1) * w;
    }
  }

  /** Distinct pixels own distinct alpha bytes. */
  lemma AlphaIndexInjective(m: Mask, ix: int, iy: int, jx: int, jy: int)
    requires m.Valid()
    requires 0 <= ix < m.width && 0 <= iy < m.height
    requires 0 <= jx < m.width && 0 <= jy < m.height
    requires AlphaIndex(m, ix, iy) == AlphaIndex(m, jx, jy)
    ensures ix == jx && iy == jy
  {
    if iy < jy {
      RowMajorOrdered(ix, iy, jx, jy, m.width);
    } else if jy < iy {
      RowMajorOrdered(jx, jy, ix, iy, m.width);
    }
  }

  /** The alpha of pixel (ix, iy). */
  function PixelAlpha(m: Mask, ix: int, iy: int): Byte
    requires m.Valid()
    requires 0 <= ix < m.width && 0 <= iy < m.height
  {
    m.pixels[AlphaIndex(m, ix, iy)]
  }

  /** `sampleAlpha`: the alpha of the pixel under `p`, coordinates clamped to the mask. */
  function SampleAlpha(m: Mask, p: Point): Byte
    requires m.Valid()
  {
    var ix := Constrain(Floor(p.x), 0, m.width - 1);
    var iy := Constrain(Floor(p.y), 0, m.height - 1);
    m.pixels[AlphaIndex(m, ix, iy)]
  }

  /** Inside the canvas a sample reads the pixel that contains the point. */
  lemma SampleAlphaInCanvas(m: Mask, p: Point)
    requires m.Valid()
    requires 0.0 <= p.x < m.width as real && 0.0 <= p.y < m.height as real
    ensures 0 <= Floor(p.x) < m.width && 0 <= Floor(p.y) < m.height
    ensures SampleAlpha(m, p) == PixelAlpha(m, Floor(p.x), Floor(p.y))
  {
  }

  /** Beyond an edge a sample reads the nearest edge pixel: moving the point onto the edge does not change the sample. */
  lemma SampleAlphaBeyondEdges(m: Mask, p: Point)
    requires m.Valid()
    ensures p.x < 0.0 ==> SampleAlpha(m, p) == SampleAlpha(m, Point(0.0, p.y))
    ensures p.x >= m.width as real ==> SampleAlpha(m, p) == SampleAlpha(m, Point((m.width - 1) as real, p.y))
    ensures p.y < 0.0 ==> SampleAlpha(m, p) == SampleAlpha(m, Point(p.x, 0.0))
    ensures p.y >= m.height as real ==> SampleAlpha(m, p) == SampleAlpha(m, Point(p.x, (m.height - 1) as real))
  {
  }

  /** The pair returned by `estimateGradient`. */
  datatype Gradient = Gradient(gx: int, gy: int)

  /** `estimateGradient`: central differences of the alpha `r` pixels away along each axis. */
  function EstimateGradient(m: Mask, p: Point, r: real): (g: Gradient)
    requires m.Valid()
    ensures -255 <= g.gx <= 255 && -255 <= g.gy <= 255
  {
    var ax1 := SampleAlpha(m, Point(p.x + r, p.y));
    var ax0 := SampleAlpha(m, Point(p.x - r, p.y));
    var ay1 := SampleAlpha(m, Point(p.x, p.y + r));
    var ay0 := SampleAlpha(m, Point(p.x, p.y - r));
    Gradient(ax1 - ax0, ay1 - ay0)
  }

  /** Probing on the other side of the point (a negated radius) negates both components. */
  lemma GradientAntisymmetric(m: Mask, p: Point, r: real)
    requires m.Valid()
    ensures EstimateGradient(m, p, -r) == Gradient(-EstimateGradient(m, p, r).gx, -EstimateGradient(m, p, r).gy)
  {
    assert p.x + -r == p.x - r && p.x - -r == p.x + r;
    assert p.y + -r == p.y - r && p.y - -r == p.y + r;
  }

  /** Where every pixel has the same alpha the estimated gradient vanishes. */
  lemma GradientOfUniformMask(m: Mask, p: Point, r: real, a: Byte)
    requires m.Valid()
    requires forall ix, iy :: 0 <= ix < m.width && 0 <= iy < m.height ==> PixelAlpha(m, ix, iy) == a
    ensures EstimateGradient(m, p, r) == Gradient(0, 0)
  {
    forall q: Point ensures SampleAlpha(m, q) == a {
      var ix := Constrain(Floor(q.x), 0, m.width - 1);
      var iy := Constrain(Floor(q.y), 0, m.height - 1);
      assert SampleAlpha(m, q) == PixelAlpha(m, ix, iy);
    }
  }
}
