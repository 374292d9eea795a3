/** The pixel-level steps of `create_captcha_image` (main.py:28-80) that are
    not font rendering: the background fill, the random warp of
    `warp_image` (main.py:50-60) and the noise dots (main.py:66-69). An
    image is a `rows x cols` array of RGBA pixels, indexed `[row, column]`
    as numpy indexes `np.array(image)`. The uniform samples of
    `np.random.rand` and the coordinates of `random.randint` are inputs. */
module Warp {
  import opened Palette

  /** Number of noise dots drawn (main.py:66). */
  const NoiseDots: nat := 100

  /** `np.clip` of one value. */
  function Clip(v: real, lo: real, hi: real): (w: real)
    requires lo <= hi
    ensures lo <= w <= hi
    ensures lo <= v <= hi ==> w == v
  {
    if v < lo then lo else if v > hi then hi else v
  }

  /** `astype(int)`: truncation toward zero. */
  function Trunc(v: real): (i: int)
    ensures 0.0 <= v ==> i == v.Floor
    ensures v < 0.0 ==> i == -((-v).Floor)
  {
    if 0.0 <= v then v.Floor else -((-v).Floor)
  }

  function ClampInt(i: int, lo: int, hi: int): int
    requires lo <= hi
  {
    if i < lo then lo else if i > hi then hi else i
  }

  /** `(np.random.rand(...) - 0.5) * 5`: a sample of `[0, 1)` becomes a
      displacement of `[-2.5, 2.5)`. */
  function Displacement(u: real): (d: real)
    ensures 0.0 <= u < 1.0 ==> -2.5 <= d < 2.5
  {
    (u - 0.5) * 5.0
  }

  /** `np.clip(p + d, 0, n - 1).astype(int)`: the coordinate sampled along an
      axis of length `n` for position `p` displaced by `d`. */
  function SampleIndex(p: int, d: real, n: nat): (q: int)
    requires n > 0
    ensures 0 <= q < n
  {
    Trunc(Clip(p as real + d, 0.0, (n - 1) as real))
  }

  /** Clipping before truncating is clamping the floor of the displaced
      position: the sampled index is the pixel the displaced point falls in,
      or the nearest edge pixel. */
  lemma SampleIndexIsClampedFloor(p: int, d: real, n: nat)
    requires n > 0
    ensures SampleIndex(p, d, n) == ClampInt(p + d.Floor, 0, n - 1)
  {
    var v := p as real + d;
    assert v.Floor == p + d.Floor;
    if v < 0.0 {
      assert SampleIndex(p, d, n) == 0;
    } else if v > (n - 1) as real {
      assert SampleIndex(p, d, n) == n - 1;
    } else {
      assert SampleIndex(p, d, n) == v.Floor;
    }
  }

  /** With a sample of `[0, 1)`, a pixel is taken from at most three rows or
      columns before and two after its own position. */
  lemma SampleIndexNear(p: int, u: real, n: nat)
    requires n > 0 && 0 <= p < n
    requires 0.0 <= u < 1.0
    ensures p - 3 <= SampleIndex(p, Displacement(u), n) <= p + 2
  {
    var d := Displacement(u);
    SampleIndexIsClampedFloor(p, d, n);
    assert -3 <= d.Floor <= 2;
  }

  /** A zero displacement samples the pixel itself. */
  lemma SampleIndexStill(p: int, n: nat)
    requires 0 <= p < n
    ensures SampleIndex(p, 0.0, n) == p
  {
  }

  /** `Image.new('RGBA', (width, height), color)` (main.py:34). */
  method NewImage(width: nat, height: nat, color: Rgba) returns (img: array2<Rgba>)
    ensures fresh(img)
    ensures img.Length0 == height && img.Length1 == width
    ensures forall r, c :: 0 <= r < height && 0 <= c < width ==> img[r, c] == color
  {
    img := new Rgba[height, width];
    for r := 0 to height
      invariant forall i, j :: 0 <= i < r && 0 <= j < width ==> img[i, j] == color
    {
      for c := 0 to width
        invariant forall i, j :: 0 <= i < r && 0 <= j < width ==> img[i, j] == color
        invariant forall j :: 0 <= j < c ==> img[r, j] == color
      {
        img[r, c] := color;
      }
    }
  }

  /** The pixel of `img` that `warp_image` puts at `[r, c]`, for the samples
      `ux` (column displacements) and `uy` (row displacements). */
  function WarpedPixel(img: array2<Rgba>, ux: array2<real>, uy: array2<real>, r: int, c: int): Rgba
    requires ux.Length0 == uy.Length0 == img.Length0
    requires ux.Length1 == uy.Length1 == img.Length1
    requires 0 <= r < img.Length0 && 0 <= c < img.Length1
    reads img, ux, uy
  {
    img[SampleIndex(r, Displacement(uy[r, c]), img.Length0),
        SampleIndex(c, Displacement(ux[r, c]), img.Length1)]
  }

  /** `warp_image(np_img)`: a new image of the same shape whose pixel
      `[r, c]` is the input pixel at the clipped, truncated displaced
      coordinates. The input is not changed. */
  method WarpImage(img: array2<Rgba>, ux: array2<real>, uy: array2<real>) returns (warped: array2<Rgba>)
    requires ux.Length0 == uy.Length0 == img.Length0
    requires ux.Length1 == uy.Length1 == img.Length1
    ensures fresh(warped)
    ensures warped.Length0 == img.Length0 && warped.Length1 == img.Length1
    ensures forall r, c :: 0 <= r < img.Length0 && 0 <= c < img.Length1 ==>
      warped[r, c] == WarpedPixel(img, ux, uy, r, c)
  {
    var rows, cols := img.Length0, img.Length1;
    warped := new Rgba[rows, cols];
    for r := 0 to rows
      invariant forall i, j :: 0 <= i < r && 0 <= j < cols ==> warped[i, j] == WarpedPixel(img, ux, uy, i, j)
    {
      for c := 0 to cols
        invariant forall i, j :: 0 <= i < r && 0 <= j < cols ==> warped[i, j] == WarpedPixel(img, ux, uy, i, j)
        invariant forall j :: 0 <= j < c ==> warped[r, j] == WarpedPixel(img, ux, uy, r, j)
      {
        warped[r, c] := WarpedPixel(img, ux, uy, r, c);
      }
    }
  }

  /** Every pixel of a warped image is a pixel of the input: the warp moves
      colours and never invents one. */
  lemma WarpedPixelFromInput(img: array2<Rgba>, ux: array2<real>, uy: array2<real>, r: int, c: int)
    requires ux.Length0 == uy.Length0 == img.Length0
    requires ux.Length1 == uy.Length1 == img.Length1
    requires 0 <= r < img.Length0 && 0 <= c < img.Length1
    ensures exists i, j :: 0 <= i < img.Length0 && 0 <= j < img.Length1 && WarpedPixel(img, ux, uy, r, c) == img[i, j]
  {
    var i := SampleIndex(r, Displacement(uy[r, c]), img.Length0);
    var j := SampleIndex(c, Displacement(ux[r, c]), img.Length1);
    assert WarpedPixel(img, ux, uy, r, c) == img[i, j];
  }

  /** A uniformly coloured image is unchanged by any warp. */
  lemma WarpUniform(img: array2<Rgba>, ux: array2<real>, uy: array2<real>, color: Rgba, r: int, c: int)
    requires ux.Length0 == uy.Length0 == img.Length0
    requires ux.Length1 == uy.Length1 == img.Length1
    requires forall i, j :: 0 <= i < img.Length0 && 0 <= j < img.Length1 ==> img[i, j] == color
    requires 0 <= r < img.Length0 && 0 <= c < img.Length1
    ensures WarpedPixel(img, ux, uy, r, c) == color
  {
  }

  /** `random.randint(0, bound)`: a coordinate is a draw if it lies in the
      closed range, so the bound itself, one past the last pixel, can be
      drawn. */
  predicate IsDraw(v: int, bound: nat) { 0 <= v <= bound }

  /** The noise loop (main.py:66-69): `draw.point((x, y), fill=noise)` for
      each of the `NoiseDots` drawn points `(x, y)`. A point outside the image
      is dropped; with draws from the closed ranges, those are the points on
      the far edge, `x == width` or `y == height`. */
  method DrawPoints(img: array2<Rgba>, points: seq<(int, int)>, noise: Rgba)
    requires |points| == NoiseDots
    requires forall k :: 0 <= k < |points| ==> IsDraw(points[k].0, img.Length1) && IsDraw(points[k].1, img.Length0)
    modifies img
    ensures forall r, c :: 0 <= r < img.Length0 && 0 <= c < img.Length1 ==>
      img[r, c] == (if (c, r) in points then noise else old(img[r, c]))
    ensures (forall k :: 0 <= k < |points| ==> points[k].0 == img.Length1 || points[k].1 == img.Length0) ==>
      forall r, c :: 0 <= r < img.Length0 && 0 <= c < img.Length1 ==> img[r, c] == old(img[r, c])
  {
    for k := 0 to |points|
      invariant forall r, c :: 0 <= r < img.Length0 && 0 <= c < img.Length1 ==>
        img[r, c] == (if (c, r) in points[..k] then noise else old(img[r, c]))
    {
      var (x, y) := points[k];
      assert points[..k + 1] == points[..k] + [(x, y)];
      if 0 <= y < img.Length0 && 0 <= x < img.Length1 {
        img[y, x] := noise;
      }
    }
    assert points[..|points|] == points;
  }
}
