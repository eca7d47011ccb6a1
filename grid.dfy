/// Row-major grids with replicate-border (clamped) indexing, views anchored at a
/// cell that read neighbours by signed offset, the cell-by-cell `Map` that every
/// stage of the pipeline is built from, and the conversions to and from images.
module Grids {

  /** `min(i, n - 1)`: the clamp applied to each coordinate before a lookup. */
  function Clamp(i: nat, n: nat): (c: nat)
    requires n > 0
    ensures c < n
    ensures i < n ==> c == i
    ensures n <= i ==> c == n - 1
  {
    if i < n - 1 then i else n - 1
  }

  /** The number of cells in `h` rows of `w` cells, counted row by row; the
      cells of the rows above row y are the first `Area(w, y)` of a grid. */
  function Area(w: nat, h: nat): nat {
    if h == 0 then 0 else Area(w, h - 1) + w
  }

  /** `Area` is the product `w * h`. */
  lemma {:induction false} AreaIsProduct(w: nat, h: nat)
    ensures Area(w, h) == w * h
  {
    if h > 0 {
      AreaIsProduct(w, h - 1);
      assert w * h == w * (h - 1) + w;
    }
  }

  /** Every cell of row y comes before the cells of any later row. */
  lemma {:induction false} AreaGrows(w: nat, y: nat, h: nat)
    requires y < h
    ensures Area(w, y) + w <= Area(w, h)
  {
    if y < h - 1 {
      AreaGrows(w, y, h - 1);
    }
  }

  lemma {:induction false} AreaMonotone(w: nat, a: nat, b: nat)
    requires a <= b
    ensures Area(w, a) <= Area(w, b)
  {
    if a < b {
      AreaGrows(w, a, b);
    }
  }

  /** The position Area(w, y) + x of a column x < w identifies its column and row. */
  lemma {:induction false} RowMajorUnique(w: nat, x: nat, y: nat, x': nat, y': nat)
    requires x < w && x' < w && Area(w, y) + x == Area(w, y') + x'
    ensures x == x' && y == y'
  {
    if y < y' {
      AreaGrows(w, y, y');
    } else if y' < y {
      AreaGrows(w, y', y);
    }
  }

  /** A rectangular buffer of `width * height` cells stored row by row. */
  datatype Grid<T> = Grid(width: nat, height: nat, data: seq<T>) {

    /** The buffer holds exactly one cell per coordinate. */
    predicate Shaped() {
      |data| == Area(width, height)
    }

    /** A grid that can be indexed: a shaped grid with at least one row and column. */
    predicate Valid() {
      width > 0 && height > 0 && Shaped()
    }

    /** The buffer position that coordinate (x, y) reads after clamping. */
    function Offset(x: nat, y: nat): (k: nat)
      requires Valid()
      ensures k < |data|
      ensures x < width && y < height ==> k == Area(width, y) + x
    {
      AreaGrows(width, Clamp(y, height), height);
      Area(width, Clamp(y, height)) + Clamp(x, width)
    }

    /** `grid[(x, y)]`: the cell at the clamped coordinate. */
    function At(x: nat, y: nat): T
      requires Valid()
    {
      data[Offset(x, y)]
    }
  }

  /** `saturating_sub` for a negative offset, plain addition otherwise. */
  function Shift(base: nat, offset: int): (r: nat)
    ensures r == if base + offset < 0 then 0 else base + offset
  {
    if offset < 0 then
      if base >= -offset then base - -offset else 0
    else
      base + offset
  }

  /** A read-only window on `grid` anchored at (x, y). */
  datatype View<T> = View(grid: Grid<T>, x: nat, y: nat) {

    /** `view[(dx, dy)]`: the cell at the shifted anchor, clamped by the grid. */
    function Get(dx: int, dy: int): T
      requires grid.Valid()
    {
      grid.At(Shift(x, dx), Shift(y, dy))
    }
  }

  /** The nine offsets of a 3x3 neighbourhood, dx outer and dy inner. */
  const Offsets: seq<(int, int)> :=
    [(-1, -1), (-1, 0), (-1, 1), (0, -1), (0, 0), (0, 1), (1, -1), (1, 0), (1, 1)]

  /** The neighbours a view reads at `Offsets[i..]`, in that order. */
  function NeighboursUpTo<T>(v: View<T>, n: nat): (ns: seq<T>)
    requires v.grid.Valid() && n <= |Offsets|
    ensures |ns| == n
  {
    if n == 0 then [] else NeighboursUpTo(v, n - 1) + [v.Get(Offsets[n - 1].0, Offsets[n - 1].1)]
  }

  /** The 3x3 neighbourhood of a view's anchor, itself included, in `Offsets` order. */
  function Neighbourhood<T>(v: View<T>): (n: seq<T>)
    requires v.grid.Valid()
    ensures |n| == |Offsets|
  {
    NeighboursUpTo(v, |Offsets|)
  }

  lemma {:induction false} NeighboursUpToAt<T>(v: View<T>, n: nat, i: nat)
    requires v.grid.Valid() && i < n <= |Offsets|
    ensures NeighboursUpTo(v, n)[i] == v.Get(Offsets[i].0, Offsets[i].1)
  {
    if i < n - 1 {
      NeighboursUpToAt(v, n - 1, i);
    }
  }

  /** Neighbour i is the value the view reads at offset `Offsets[i]`. */
  lemma {:induction false} NeighbourAt<T>(v: View<T>, i: nat)
    requires v.grid.Valid() && i < |Offsets|
    ensures Neighbourhood(v)[i] == v.Get(Offsets[i].0, Offsets[i].1)
  {
    NeighboursUpToAt(v, |Offsets|, i);
  }

  /** The whole neighbourhood, read offset by offset. */
  lemma {:induction false} NeighbourhoodReads<T>(v: View<T>)
    requires v.grid.Valid()
    ensures forall i | 0 <= i < |Offsets| :: Neighbourhood(v)[i] == v.Get(Offsets[i].0, Offsets[i].1)
  {
    forall i | 0 <= i < |Offsets|
      ensures Neighbourhood(v)[i] == v.Get(Offsets[i].0, Offsets[i].1)
    {
      NeighbourAt(v, i);
    }
  }

  /** The first n views of row y that `map` hands to its closure: anchors (0, y)
      to (n - 1, y), left to right. */
  function RowCells<T>(g: Grid<T>, y: nat, n: nat): (vs: seq<View<T>>)
    ensures |vs| == n
  {
    if n == 0 then [] else RowCells(g, y, n - 1) + [View(g, n - 1, y)]
  }

  lemma {:induction false} RowCellsAt<T>(g: Grid<T>, y: nat, n: nat)
    ensures forall x | 0 <= x < n :: RowCells(g, y, n)[x] == View(g, x, y)
  {
    if n > 0 {
      RowCellsAt(g, y, n - 1);
    }
  }

  /** The views of rows 0 to n - 1, row after row. */
  function CellsUpTo<T>(g: Grid<T>, n: nat): (vs: seq<View<T>>)
    ensures |vs| == Area(g.width, n)
  {
    if n == 0 then [] else CellsUpTo(g, n - 1) + RowCells(g, n - 1, g.width)
  }

  /** View k of the first n rows is anchored at the column and row whose
      row-major position is k. */
  lemma {:induction false} CellsUpToAt<T>(g: Grid<T>, n: nat)
    ensures forall k | 0 <= k < |CellsUpTo(g, n)| ::
      CellsUpTo(g, n)[k].grid == g && CellsUpTo(g, n)[k].x < g.width && CellsUpTo(g, n)[k].y < n &&
      Area(g.width, CellsUpTo(g, n)[k].y) + CellsUpTo(g, n)[k].x == k
  {
    if n > 0 {
      var m := n - 1;
      CellsUpToAt(g, m);
      RowCellsAt(g, m, g.width);
      var prev, row := CellsUpTo(g, m), RowCells(g, m, g.width);
      assert CellsUpTo(g, n) == prev + row;
      forall k | 0 <= k < |CellsUpTo(g, n)|
        ensures CellsUpTo(g, n)[k].grid == g && CellsUpTo(g, n)[k].x < g.width && CellsUpTo(g, n)[k].y < n &&
          Area(g.width, CellsUpTo(g, n)[k].y) + CellsUpTo(g, n)[k].x == k
      {
        if k < |prev| {
          assert CellsUpTo(g, n)[k] == prev[k];
        } else {
          assert CellsUpTo(g, n)[k] == row[k - |prev|];
        }
      }
    }
  }

  /** The views that `map` hands to its closure, in the order it hands them over:
      rows top to bottom, each row left to right. */
  function Cells<T>(g: Grid<T>): (vs: seq<View<T>>)
    ensures |vs| == Area(g.width, g.height)
  {
    CellsUpTo(g, g.height)
  }

  /** View k of the visit order is anchored at the column and row whose row-major
      position is k. */
  lemma {:induction false} CellsAt<T>(g: Grid<T>)
    ensures forall k | 0 <= k < |Cells(g)| ::
      Cells(g)[k].grid == g && Cells(g)[k].x < g.width && Cells(g)[k].y < g.height &&
      Area(g.width, Cells(g)[k].y) + Cells(g)[k].x == k
  {
    CellsUpToAt(g, g.height);
  }

  /** View Area(width, y) + x of the visit order is the view anchored at (x, y). */
  lemma {:induction false} CellAt<T>(g: Grid<T>, x: nat, y: nat)
    requires x < g.width && y < g.height
    ensures Area(g.width, y) + x < |Cells(g)|
    ensures Cells(g)[Area(g.width, y) + x] == View(g, x, y)
  {
    AreaGrows(g.width, y, g.height);
    CellsAt(g);
    var v := Cells(g)[Area(g.width, y) + x];
    RowMajorUnique(g.width, x, y, v.x, v.y);
  }

  /** The view that `map` hands over for cell k reads that very cell at offset (0, 0). */
  lemma {:induction false} CellCentre<T>(g: Grid<T>, k: nat)
    requires g.Shaped() && k < |Cells(g)|
    ensures g.Valid() && Cells(g)[k].grid == g
    ensures Cells(g)[k].Get(0, 0) == g.data[k]
  {
    CellsAt(g);
  }

  /** Every view that `map` hands over for a shaped grid sees a grid it can index. */
  lemma {:induction false} CellsValid<T>(g: Grid<T>)
    requires g.Shaped()
    ensures forall k | 0 <= k < |Cells(g)| :: Cells(g)[k].grid.Valid()
  {
    CellsAt(g);
  }

  /** `f` may be applied to every view that `map` hands over. */
  ghost predicate AcceptsAll<T, U>(g: Grid<T>, f: View<T> --> U) {
    forall k | 0 <= k < |Cells(g)| :: f.requires(Cells(g)[k])
  }

  /** `f` applied to the first n views of the visit order, in that order. */
  function MapViews<T, U>(g: Grid<T>, f: View<T> --> U, n: nat): (us: seq<U>)
    requires AcceptsAll(g, f) && n <= |Cells(g)|
    ensures |us| == n
  {
    if n == 0 then [] else MapViews(g, f, n - 1) + [f(Cells(g)[n - 1])]
  }

  /** Result k of the prefix is `f` applied to view k. */
  lemma {:induction false} MapViewsAt<T, U>(g: Grid<T>, f: View<T> --> U, n: nat)
    requires AcceptsAll(g, f) && n <= |Cells(g)|
    ensures forall k | 0 <= k < n :: MapViews(g, f, n)[k] == f(Cells(g)[k])
  {
    if n > 0 {
      MapViewsAt(g, f, n - 1);
    }
  }

  /** The grid that `g.map(f)` returns: the grid's size, with `f` applied to the
      views in the order `map` visits them. */
  function Mapped<T, U>(g: Grid<T>, f: View<T> --> U): (r: Grid<U>)
    requires AcceptsAll(g, f)
    ensures r.width == g.width && r.height == g.height && r.Shaped()
  {
    Grid(g.width, g.height, MapViews(g, f, |Cells(g)|))
  }

  /** Cell k of `g.map(f)` is `f` applied to the k-th view `map` hands over. */
  lemma {:induction false} MappedData<T, U>(g: Grid<T>, f: View<T> --> U)
    requires AcceptsAll(g, f)
    ensures |Mapped(g, f).data| == |Cells(g)|
    ensures forall k | 0 <= k < |Cells(g)| :: Mapped(g, f).data[k] == f(Cells(g)[k])
  {
    MapViewsAt(g, f, |Cells(g)|);
  }

  /** `g.map(f)`: fills a fresh buffer row by row, calling `f` on the view at each cell. */
  method Map<T, U>(g: Grid<T>, f: View<T> --> U) returns (r: Grid<U>)
    requires AcceptsAll(g, f)
    ensures r.width == g.width && r.height == g.height && |r.data| == |Cells(g)|
    ensures forall k | 0 <= k < |r.data| :: r.data[k] == f(Cells(g)[k])
    ensures r == Mapped(g, f)
  {
    var data: seq<U> := [];
    var y := 0;
    while y < g.height
      invariant y <= g.height
      invariant |data| == Area(g.width, y) <= |Cells(g)|
      invariant forall k | 0 <= k < |data| :: data[k] == f(Cells(g)[k])
    {
      var x := 0;
      while x < g.width
        invariant x <= g.width
        invariant |data| == Area(g.width, y) + x <= |Cells(g)|
        invariant forall k | 0 <= k < |data| :: data[k] == f(Cells(g)[k])
      {
        CellAt(g, x, y);
        data := data + [f(View(g, x, y))];
        x := x + 1;
      }
      y := y + 1;
    }
    r := Grid(g.width, g.height, data);
    MappedData(g, f);
  }

  /** Cell (x, y) of `g.map(f)` is `f` applied to the view anchored at (x, y). */
  lemma {:induction false} MappedAt<T, U>(g: Grid<T>, f: View<T> --> U, x: nat, y: nat)
    requires AcceptsAll(g, f) && g.Shaped() && x < g.width && y < g.height
    ensures Mapped(g, f).Valid()
    ensures f.requires(View(g, x, y))
    ensures Mapped(g, f).At(x, y) == f(View(g, x, y))
  {
    CellAt(g, x, y);
    MappedData(g, f);
  }

  /** An RGB raster as the image library stores it, row after row. */
  datatype Image<P> = Image(width: nat, height: nat, pixels: seq<P>)

  /** `Grid::from(img)`: the image's pixels, taken in row-major order. */
  function FromImage<P>(img: Image<P>): (g: Grid<P>)
    ensures g.width == img.width && g.height == img.height
    ensures |img.pixels| == Area(img.width, img.height) ==> g.Shaped()
  {
    Grid(img.width, img.height, img.pixels)
  }

  /** The first n rows of the image built from `g`, pixel (x, y) being `g[(x, y)]`. */
  function ImageRows<P>(g: Grid<P>, n: nat): (pixels: seq<P>)
    requires g.Shaped() && n <= g.height
    ensures |pixels| == Area(g.width, n) <= |g.data|
    ensures forall k | 0 <= k < |pixels| :: pixels[k] == g.data[k]
  {
    if n == 0 then []
    else
      var row := seq(g.width, x requires 0 <= x < g.width => g.At(x, n - 1));
      AreaGrows(g.width, n - 1, g.height);
      AreaMonotone(g.width, n, g.height);
      ImageRows(g, n - 1) + row
  }

  /** `grid.into()`: an image of the grid's size whose pixel at (x, y) is
      `grid[(x, y)]`; it holds exactly the grid's cells. */
  function IntoImage<P>(g: Grid<P>): (img: Image<P>)
    requires g.Shaped()
    ensures img.width == g.width && img.height == g.height
    ensures img.pixels == g.data
  {
    Image(g.width, g.height, ImageRows(g, g.height))
  }

  /** Turning an image into a grid and back gives the image unchanged. */
  lemma ImageRoundTrip<P>(img: Image<P>)
    requires |img.pixels| == Area(img.width, img.height)
    ensures IntoImage(FromImage(img)) == img
  {
  }

  /** Beyond the last column or row, the nearest edge cell is read: every
      coordinate reads what its clamped coordinate reads. */
  lemma {:induction false} AtClampsToEdge<T>(g: Grid<T>, x: nat, y: nat)
    requires g.Valid()
    ensures g.At(x, y) == g.At(Clamp(x, g.width), Clamp(y, g.height))
    ensures g.width <= x ==> g.At(x, y) == g.At(g.width - 1, y)
    ensures g.height <= y ==> g.At(x, y) == g.At(x, g.height - 1)
  {
    var cx, cy := Clamp(x, g.width), Clamp(y, g.height);
    assert Clamp(cx, g.width) == cx && Clamp(cy, g.height) == cy;
  }

  /** An in-range coordinate reads its own cell, y * width + x. */
  lemma {:induction false} AtInRange<T>(g: Grid<T>, x: nat, y: nat)
    requires g.Valid() && x < g.width && y < g.height
    ensures |g.data| == g.width * g.height
    ensures y * g.width + x < |g.data|
    ensures g.At(x, y) == g.data[y * g.width + x]
  {
    AreaIsProduct(g.width, g.height);
    AreaIsProduct(g.width, y);
    AreaGrows(g.width, y, g.height);
  }

  /** A view reads its anchor at offset (0, 0); a negative offset saturates at the
      first row and column, so a view at (0, 0) reads (0, 0) at offset (-1, -1). */
  lemma ViewOffsets<T>(v: View<T>, dx: int, dy: int)
    requires v.grid.Valid()
    ensures v.Get(0, 0) == v.grid.At(v.x, v.y)
    ensures v.Get(dx, dy) == v.grid.At(if v.x + dx < 0 then 0 else v.x + dx,
                                        if v.y + dy < 0 then 0 else v.y + dy)
    ensures v.x == 0 && v.y == 0 && dx <= 0 && dy <= 0 ==> v.Get(dx, dy) == v.grid.At(0, 0)
  {
  }
}
