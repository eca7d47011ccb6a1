/// The per-cell stages that turn a colour grid into the angle/magnitude grid that
/// propagation starts from: grayscale intensity, the 3x3 Sobel gradient and its
/// squared magnitude, all in the source's fixed-width integers, then the polar form.
module Stages {
  import opened Grids

  /** Rust's `u8`, `i16` and `i32`: an operation whose result leaves the range
      is an overflow, which Dafny rejects at that operation. */
  newtype uint8 = x: int | 0 <= x < 0x100
  newtype int16 = x: int | -0x8000 <= x < 0x8000
  newtype int32 = x: int | -0x8000_0000 <= x < 0x8000_0000

  datatype Rgb = Rgb(r: uint8, g: uint8, b: uint8)

  /** The horizontal and vertical Sobel responses at one cell. */
  datatype Gradient = Gradient(gx: int16, gy: int16)

  /** The direction and normalised strength of the gradient at one cell. */
  datatype AngleMag = AngleMag(angle: real, mag: real)

  type NonNegReal = r: real | 0.0 <= r

  /** Largest intensity: three channels of 255. */
  const MaxIntensity: int := 3 * 255

  /** Largest absolute Sobel component: weights 1, 2, 1 on the bright side. */
  const MaxComponent: int := 4 * MaxIntensity

  /** The magnitude divisor `255 * 3 * 3`, deliberately looser than the true maximum. */
  const MagnitudeScale: real := 255.0 * 3.0 * 3.0

  /** Grayscale: the sum (not the mean) of the three channels, computed in `i16`. */
  function Grayscale(v: View<Rgb>): (i: int16)
    requires v.grid.Valid()
    ensures i as int == v.Get(0, 0).r as int + v.Get(0, 0).g as int + v.Get(0, 0).b as int
    ensures 0 <= i as int <= MaxIntensity
  {
    var c := v.Get(0, 0);
    c.r as int16 + c.g as int16 + c.b as int16
  }

  /** Every cell is an intensity the grayscale stage can produce. */
  ghost predicate IsIntensityGrid(g: Grid<int16>) {
    forall k | 0 <= k < |g.data| :: 0 <= g.data[k] as int <= MaxIntensity
  }

  /** The Sobel kernels, listed in `Offsets` order (dx outer, dy inner). */
  const KernelX: seq<int> := [-1, -2, -1, 0, 0, 0, 1, 2, 1]
  const KernelY: seq<int> := [-1, 0, 1, -2, 0, 2, -1, 0, 1]

  /** The kernel-weighted sum of a 3x3 neighbourhood. */
  function Convolve(kernel: seq<int>, n: seq<int16>): int
    requires |kernel| == |n| == |Offsets|
  {
    kernel[0] * n[0] as int + kernel[1] * n[1] as int + kernel[2] * n[2] as int +
    kernel[3] * n[3] as int + kernel[4] * n[4] as int + kernel[5] * n[5] as int +
    kernel[6] * n[6] as int + kernel[7] * n[7] as int + kernel[8] * n[8] as int
  }

  /** The Sobel gradient through view offsets, computed in `i16`: it is the
      convolution of the neighbourhood with the two kernels, and on intensities
      each component stays within 4 * 765, so no operation overflows. */
  function Sobel(v: View<int16>): (d: Gradient)
    requires v.grid.Valid() && IsIntensityGrid(v.grid)
    ensures -MaxComponent <= d.gx as int <= MaxComponent
    ensures -MaxComponent <= d.gy as int <= MaxComponent
  {
    var n := Neighbourhood(v);
    IntensityNeighbours(v);
    var (nw, w, sw) := (n[0], n[1], n[2]);
    var (north, south) := (n[3], n[5]);
    var (ne, e, se) := (n[6], n[7], n[8]);
    Gradient(-(nw + 2 * w + sw) + (ne + 2 * e + se), -(nw + 2 * north + ne) + (sw + 2 * south + se))
  }

  /** Every neighbour read on an intensity grid is an intensity. */
  lemma {:induction false} IntensityNeighbours(v: View<int16>)
    requires v.grid.Valid() && IsIntensityGrid(v.grid)
    ensures forall i | 0 <= i < |Offsets| :: 0 <= Neighbourhood(v)[i] as int <= MaxIntensity
  {
    forall i | 0 <= i < |Offsets|
      ensures 0 <= Neighbourhood(v)[i] as int <= MaxIntensity
    {
      NeighbourAt(v, i);
    }
  }

  /** The Sobel stage is the convolution of the neighbourhood with the two kernels. */
  lemma {:induction false} SobelIsConvolution(v: View<int16>)
    requires v.grid.Valid() && IsIntensityGrid(v.grid)
    ensures Sobel(v).gx as int == Convolve(KernelX, Neighbourhood(v))
    ensures Sobel(v).gy as int == Convolve(KernelY, Neighbourhood(v))
  {
    assert KernelX[0] == -1 && KernelX[1] == -2 && KernelX[2] == -1;
    assert KernelX[3] == 0 && KernelX[4] == 0 && KernelX[5] == 0;
    assert KernelX[6] == 1 && KernelX[7] == 2 && KernelX[8] == 1;
    assert KernelY[0] == -1 && KernelY[1] == 0 && KernelY[2] == 1;
    assert KernelY[3] == -2 && KernelY[4] == 0 && KernelY[5] == 2;
    assert KernelY[6] == -1 && KernelY[7] == 0 && KernelY[8] == 1;
  }

  /** Every cell is a gradient the Sobel stage can produce. */
  ghost predicate IsSobelGrid(g: Grid<Gradient>) {
    forall k | 0 <= k < |g.data| ::
      -MaxComponent <= g.data[k].gx as int <= MaxComponent &&
      -MaxComponent <= g.data[k].gy as int <= MaxComponent
  }

  lemma SquareBound(a: int, m: int)
    requires 0 <= m && -m <= a <= m
    ensures 0 <= a * a <= m * m
  {
    if a >= 0 {
      assert a * a <= a * m <= m * m;
    } else {
      assert a * a == (-a) * (-a) <= (-a) * m <= m * m;
    }
  }

  /** `gx * gx + gy * gy` in `i32`: for Sobel components the exact sum of squares,
      at most 2 * 3060 * 3060, well inside `i32`. */
  function SquaredMagnitude(d: Gradient): (s: int32)
    requires -MaxComponent <= d.gx as int <= MaxComponent
    requires -MaxComponent <= d.gy as int <= MaxComponent
    ensures s as int == d.gx as int * d.gx as int + d.gy as int * d.gy as int
    ensures 0 <= s as int <= 2 * MaxComponent * MaxComponent
  {
    SquareBound(d.gx as int, MaxComponent);
    SquareBound(d.gy as int, MaxComponent);
    var gx, gy := d.gx as int32, d.gy as int32;
    gx * gx + gy * gy
  }

  /** The angle/magnitude stage: `atan2(gy, gx)` and the root of the squared
      magnitude over `MagnitudeScale`; both transcendentals are parameters. */
  function Polar(v: View<Gradient>, atan2: (real, real) -> real, sqrt: real -> NonNegReal): (c: AngleMag)
    requires v.grid.Valid() && IsSobelGrid(v.grid)
    ensures c.angle == atan2(v.Get(0, 0).gy as real, v.Get(0, 0).gx as real)
    ensures c.mag == sqrt(SquaredMagnitude(v.Get(0, 0)) as real) / MagnitudeScale
    ensures 0.0 <= c.mag
  {
    var d := v.Get(0, 0);
    AngleMag(atan2(d.gy as real, d.gx as real), sqrt(SquaredMagnitude(d) as real) / MagnitudeScale)
  }

  /** The closure of the angle/magnitude stage, as handed to `Map`. */
  function PolarStage(atan2: (real, real) -> real, sqrt: real -> NonNegReal): View<Gradient> --> AngleMag {
    (v: View<Gradient>) requires v.grid.Valid() && IsSobelGrid(v.grid) => Polar(v, atan2, sqrt)
  }

  /** The grayscale grid of a colour grid holds intensities only. */
  lemma {:induction false} GrayscaleGrid(g: Grid<Rgb>)
    requires g.Shaped()
    ensures AcceptsAll(g, Grayscale)
    ensures IsIntensityGrid(Mapped(g, Grayscale))
    ensures Mapped(g, Grayscale).Shaped()
  {
    CellsValid(g);
    CellsAt(g);
    MappedData(g, Grayscale);
  }

  /** The Sobel grid of an intensity grid holds bounded gradients only. */
  lemma {:induction false} SobelGrid(g: Grid<int16>)
    requires g.Shaped() && IsIntensityGrid(g)
    ensures AcceptsAll(g, Sobel)
    ensures IsSobelGrid(Mapped(g, Sobel))
  {
    CellsValid(g);
    CellsAt(g);
    MappedData(g, Sobel);
  }

  /** On a grid of one intensity both components vanish at every cell, borders
      included, because clamped neighbours all read that intensity. */
  lemma {:induction false} SobelUniform(g: Grid<int16>, c: int16)
    requires g.Valid() && 0 <= c as int <= MaxIntensity
    requires forall k | 0 <= k < |g.data| :: g.data[k] == c
    ensures AcceptsAll(g, Sobel)
    ensures forall k | 0 <= k < |g.data| :: Mapped(g, Sobel).data[k] == Gradient(0, 0)
  {
    CellsValid(g);
    CellsAt(g);
    assert IsIntensityGrid(g);
    MappedData(g, Sobel);
    forall k | 0 <= k < |g.data|
      ensures Mapped(g, Sobel).data[k] == Gradient(0, 0)
    {
      var v := Cells(g)[k];
      var n := Neighbourhood(v);
      forall i | 0 <= i < |n| ensures n[i] == c {
        NeighbourAt(v, i);
      }
    }
  }

  /** A vertical edge: columns of intensity 0, 128 and 255 in a 3x3 grid. At the
      centre cell the horizontal response is 255 + 2 * 255 + 255 and the vertical
      one is zero. */
  lemma SobelVerticalEdge(g: Grid<int16>)
    requires g.width == 3 && g.height == 3 && |g.data| == 9
    requires forall k | 0 <= k < 9 :: g.data[k] == [0, 128, 255][k % 3]
    ensures IsIntensityGrid(g) && Sobel(View(g, 1, 1)) == Gradient(1020, 0)
  {
    var v := View(g, 1, 1);
    NeighbourhoodReads(v);
    assert g.data[0] == 0 && g.data[3] == 0 && g.data[6] == 0;
    assert g.data[1] == 128 && g.data[7] == 128;
    assert g.data[2] == 255 && g.data[5] == 255 && g.data[8] == 255;
    assert v.Get(-1, -1) == 0 && v.Get(-1, 0) == 0 && v.Get(-1, 1) == 0;
    assert v.Get(1, -1) == 255 && v.Get(1, 0) == 255 && v.Get(1, 1) == 255;
    assert v.Get(0, -1) == 128 && v.Get(0, 1) == 128;
  }
}
