/// `process`: the colour image goes through the grayscale, Sobel and angle/magnitude
/// stages, then the propagation step is repeated, one rendered frame per round,
/// until a round changes no cell.
module Pipeline {
  import opened Grids
  import opened Stages
  import opened Propagation

  /** The angle/magnitude grid that propagation starts from. Every magnitude is a
      square root over a positive scale, so none is negative. */
  function Initial(img: Image<Rgb>, atan2: (real, real) -> real, sqrt: real -> NonNegReal): (g: Grid<AngleMag>)
    requires |img.pixels| == Area(img.width, img.height)
    ensures g.width == img.width && g.height == img.height && g.Shaped()
    ensures forall k | 0 <= k < |g.data| :: 0.0 <= g.data[k].mag
  {
    var colour := FromImage(img);
    GrayscaleGrid(colour);
    var gray := Mapped(colour, Grayscale);
    SobelGrid(gray);
    var sobel := Mapped(gray, Sobel);
    CellsAt(sobel);
    MappedData(sobel, PolarStage(atan2, sqrt));
    Mapped(sobel, PolarStage(atan2, sqrt))
  }

  /** The closure that renders one cell; `colour` stands for the HSL mapping of the
      cell's angle and magnitude. */
  function RenderStage(colour: AngleMag -> Rgb): View<AngleMag> --> Rgb {
    (v: View<AngleMag>) requires v.grid.Valid() => colour(v.Get(0, 0))
  }

  /** Every view that `map` hands over reads its own cell at offset (0, 0). */
  lemma {:induction false} CellsCentre<T>(g: Grid<T>)
    requires g.Shaped()
    ensures forall k | 0 <= k < |Cells(g)| :: Cells(g)[k].grid.Valid() && Cells(g)[k].Get(0, 0) == g.data[k]
  {
    CellsValid(g);
    forall k | 0 <= k < |Cells(g)|
      ensures Cells(g)[k].grid.Valid() && Cells(g)[k].Get(0, 0) == g.data[k]
    {
      CellCentre(g, k);
    }
  }

  /** The colours of the first n cells, in order. */
  function Colours(data: seq<AngleMag>, colour: AngleMag -> Rgb, n: nat): (pixels: seq<Rgb>)
    requires n <= |data|
    ensures |pixels| == n
  {
    if n == 0 then [] else Colours(data, colour, n - 1) + [colour(data[n - 1])]
  }

  /** Pixel k of the first n colours is the colour of cell k. */
  lemma {:induction false} ColoursAt(data: seq<AngleMag>, colour: AngleMag -> Rgb, n: nat)
    requires n <= |data|
    ensures forall k | 0 <= k < n :: Colours(data, colour, n)[k] == colour(data[k])
  {
    if n > 0 {
      ColoursAt(data, colour, n - 1);
    }
  }

  /** The frame pushed for a grid: an image of the grid's size whose pixel k is
      the colour of cell k. */
  function Render(g: Grid<AngleMag>, colour: AngleMag -> Rgb): (frame: Image<Rgb>)
    ensures frame.width == g.width && frame.height == g.height
    ensures |frame.pixels| == |g.data|
  {
    Image(g.width, g.height, Colours(g.data, colour, |g.data|))
  }

  /** The three stages before the loop, each a `map` over the previous grid. */
  method Prepare(img: Image<Rgb>, atan2: (real, real) -> real, sqrt: real -> NonNegReal)
    returns (g: Grid<AngleMag>)
    requires |img.pixels| == Area(img.width, img.height)
    ensures g == Initial(img, atan2, sqrt)
  {
    var input := FromImage(img);
    GrayscaleGrid(input);
    var gray := Map(input, Grayscale);
    SobelGrid(gray);
    var sobel := Map(gray, Sobel);
    CellsAt(sobel);
    g := Map(sobel, PolarStage(atan2, sqrt));
  }

  /** The frame of one round: the rendering `map`, turned into an image, holds
      the colour of every cell at that cell's position. */
  method Frame(g: Grid<AngleMag>, colour: AngleMag -> Rgb) returns (frame: Image<Rgb>)
    requires g.Shaped()
    ensures frame == Render(g, colour)
  {
    CellsCentre(g);
    var pixels := Map(g, RenderStage(colour));
    frame := IntoImage(pixels);
    ColoursAt(g.data, colour, |g.data|);
    assert frame.pixels == Render(g, colour).pixels;
  }

  /** `states` are the grids of successive rounds from `init`: each after the first
      is one propagation step from the one before. */
  ghost predicate Rounds(init: Grid<AngleMag>, states: seq<Grid<AngleMag>>) {
    (|states| > 0 ==> states[0] == init) &&
    (forall j | 0 <= j < |states| :: states[j].Shaped()) &&
    (forall j | 0 <= j < |states| - 1 :: states[j + 1] == StepGrid(states[j]))
  }

  method Run(init: Grid<AngleMag>, colour: AngleMag -> Rgb, fuel: nat)
    returns (frames: seq<Image<Rgb>>, converged: bool, ghost states: seq<Grid<AngleMag>>)
    requires init.Shaped()
    ensures |states| == |frames| <= fuel
    ensures fuel > 0 ==> |frames| > 0
    ensures !converged ==> |frames| == fuel
    ensures Rounds(init, states)
    ensures forall j | 0 <= j < |frames| :: frames[j] == Render(states[j], colour)
    ensures forall j | 0 <= j < |states| - 1 :: Changed(states[j])
    ensures converged <==> |states| > 0 && !Changed(states[|states| - 1])
  {
    var state := init;
    frames, converged, states := [], false, [];
    while !converged && |frames| < fuel
      invariant |states| == |frames| <= fuel
      invariant Rounds(init, states)
      invariant state.Shaped()
      invariant |states| > 0 ==> state == StepGrid(states[|states| - 1])
      invariant |states| == 0 ==> state == init
      invariant forall j | 0 <= j < |frames| :: frames[j] == Render(states[j], colour)
      invariant forall j | 0 <= j < |states| - 1 :: Changed(states[j])
      invariant converged <==> |states| > 0 && !Changed(states[|states| - 1])
      decreases fuel - |frames|
    {
      var frame := Frame(state, colour);
      var next, changed := Step(state);
      RoundsExtend(init, states, state);
      FramesExtend(colour, states, frames, state, frame);
      ChangesExtend(states, state);
      frames := frames + [frame];
      states := states + [state];
      state := next;
      if !changed {
        converged := true;
      }
    }
  }

  /** One more round keeps `Rounds`. */
  lemma RoundsExtend(init: Grid<AngleMag>, states: seq<Grid<AngleMag>>, state: Grid<AngleMag>)
    requires state.Shaped() && Rounds(init, states)
    requires |states| > 0 ==> state == StepGrid(states[|states| - 1])
    requires |states| == 0 ==> state == init
    ensures Rounds(init, states + [state])
  {
    var next := states + [state];
    forall j | 0 <= j < |next| - 1
      ensures next[j + 1] == StepGrid(next[j])
    {
      if j + 1 < |states| {
        assert next[j + 1] == states[j + 1] && next[j] == states[j];
      }
    }
  }

  /** One more round keeps every frame the rendering of its round's grid. */
  lemma FramesExtend(colour: AngleMag -> Rgb, states: seq<Grid<AngleMag>>, frames: seq<Image<Rgb>>,
                     state: Grid<AngleMag>, frame: Image<Rgb>)
    requires |frames| == |states| && frame == Render(state, colour)
    requires forall j | 0 <= j < |frames| :: frames[j] == Render(states[j], colour)
    ensures forall j | 0 <= j < |frames| + 1 :: (frames + [frame])[j] == Render((states + [state])[j], colour)
  {
  }

  /** A round that did not converge keeps "every round but the last changed". */
  lemma ChangesExtend(states: seq<Grid<AngleMag>>, state: Grid<AngleMag>)
    requires forall j | 0 <= j < |states| :: states[j].Shaped()
    requires forall j | 0 <= j < |states| - 1 :: Changed(states[j])
    requires |states| > 0 ==> Changed(states[|states| - 1])
    ensures forall j | 0 <= j < |states| :: (states + [state])[j].Shaped() && Changed((states + [state])[j])
  {
  }

  /** Round j of a run renders the grid after j propagation steps. */
  lemma {:induction false} RoundsAreIterates(init: Grid<AngleMag>, states: seq<Grid<AngleMag>>)
    requires init.Shaped() && Rounds(init, states)
    ensures forall j | 0 <= j < |states| :: states[j] == Iterate(init, j)
  {
    if |states| > 1 {
      var prefix := states[..|states| - 1];
      RoundsAreIterates(init, prefix);
      var m := |states| - 2;
      assert states[m] == prefix[m] == Iterate(init, m);
      IterateSucc(init, m);
    }
  }

  /** A run that converged stopped at a grid where no cell is below 0.9 times
      any magnitude in its 3x3 neighbourhood. */
  lemma {:induction false} ConvergedIsLocallyMaximal(init: Grid<AngleMag>, states: seq<Grid<AngleMag>>)
    requires init.Valid() && Rounds(init, states) && |states| > 0
    requires !Changed(states[|states| - 1])
    ensures states[|states| - 1].Valid() && LocallyMaximal(states[|states| - 1])
  {
    RoundsAreIterates(init, states);
    StableIffLocallyMaximal(states[|states| - 1]);
  }

  /** On a 1x1 image the loop stops after its first round: one frame, showing the
      initial grid, and a converged run. */
  lemma {:induction false} SingleCellOneFrame(init: Grid<AngleMag>, states: seq<Grid<AngleMag>>)
    requires init.width == 1 && init.height == 1 && |init.data| == 1 && 0.0 <= init.data[0].mag
    requires Rounds(init, states) && |states| > 0
    requires forall j | 0 <= j < |states| - 1 :: Changed(states[j])
    ensures |states| == 1 && states[0] == init && !Changed(states[0])
  {
    SingleCellIsStable(init);
  }

  /** `process`: the three stages, then the frame loop from the grid they produce. */
  method Process(img: Image<Rgb>, atan2: (real, real) -> real, sqrt: real -> NonNegReal,
                 colour: AngleMag -> Rgb, fuel: nat)
    returns (frames: seq<Image<Rgb>>, converged: bool, ghost states: seq<Grid<AngleMag>>)
    requires |img.pixels| == Area(img.width, img.height)
    ensures |states| == |frames| <= fuel
    ensures fuel > 0 ==> |frames| > 0
    ensures !converged ==> |frames| == fuel
    ensures Rounds(Initial(img, atan2, sqrt), states)
    ensures forall j | 0 <= j < |frames| :: frames[j] == Render(states[j], colour)
    ensures forall j | 0 <= j < |states| - 1 :: Changed(states[j])
    ensures converged <==> |states| > 0 && !Changed(states[|states| - 1])
  {
    var init := Prepare(img, atan2, sqrt);
    frames, converged, states := Run(init, colour, fuel);
  }
}
