/// One propagation step over the angle/magnitude grid: every cell looks at its 3x3
/// neighbourhood, takes the strongest neighbour (the last of equal maxima, as
/// `Iterator::max_by` does) and adopts its angle with 0.9 of its magnitude when that
/// beats its own magnitude. The step is repeated until no cell adopts.
module Propagation {
  import opened Grids
  import opened Stages

  /** A magnitude spreading to a neighbour keeps 0.9 of its value. */
  function Decayed(m: real): real {
    m * 0.9
  }

  function Max(a: real, b: real): real {
    if a < b then b else a
  }

  /** The largest magnitude among the first n elements. */
  function MaxMagUpTo(s: seq<AngleMag>, n: nat): real
    requires 0 < n <= |s|
  {
    if n == 1 then s[0].mag else Max(MaxMagUpTo(s, n - 1), s[n - 1].mag)
  }

  /** The largest magnitude in a non-empty sequence. */
  function MaxMag(s: seq<AngleMag>): real
    requires |s| > 0
  {
    MaxMagUpTo(s, |s|)
  }

  /** `MaxMagUpTo` bounds the first n magnitudes and is one of them. */
  lemma {:induction false} MaxMagUpToIsMax(s: seq<AngleMag>, n: nat)
    requires 0 < n <= |s|
    ensures forall j | 0 <= j < n :: s[j].mag <= MaxMagUpTo(s, n)
    ensures exists j | 0 <= j < n :: s[j].mag == MaxMagUpTo(s, n)
  {
    if n == 1 {
      assert s[0].mag == MaxMagUpTo(s, n);
    } else {
      MaxMagUpToIsMax(s, n - 1);
      if MaxMagUpTo(s, n - 1) < s[n - 1].mag {
        assert s[n - 1].mag == MaxMagUpTo(s, n);
      } else {
        var j :| 0 <= j < n - 1 && s[j].mag == MaxMagUpTo(s, n - 1);
        assert s[j].mag == MaxMagUpTo(s, n);
      }
    }
  }

  /** `max_by` on the magnitudes of the first n elements: the fold keeps its
      current best only when that is strictly greater than the next element. */
  function LastMaxUpTo(s: seq<AngleMag>, n: nat): (i: nat)
    requires 0 < n <= |s|
    ensures i < n
  {
    if n == 1 then 0
    else
      var i := LastMaxUpTo(s, n - 1);
      if s[i].mag > s[n - 1].mag then i else n - 1
  }

  /** The index `max_by` picks in a non-empty sequence. */
  function LastMax(s: seq<AngleMag>): (i: nat)
    requires |s| > 0
    ensures i < |s|
  {
    LastMaxUpTo(s, |s|)
  }

  /** Among the first n elements, the one the fold keeps holds the largest
      magnitude and every later one is strictly smaller. */
  lemma {:induction false} LastMaxUpToIsMax(s: seq<AngleMag>, n: nat)
    requires 0 < n <= |s|
    ensures forall j | 0 <= j < n :: s[j].mag <= s[LastMaxUpTo(s, n)].mag
    ensures forall j | LastMaxUpTo(s, n) < j < n :: s[j].mag < s[LastMaxUpTo(s, n)].mag
  {
    if n > 1 {
      LastMaxUpToIsMax(s, n - 1);
    }
  }

  /** The element `max_by` returns holds the largest magnitude, and every element
      after it is strictly smaller: it is the last of equal maxima. */
  lemma {:induction false} LastMaxIsMax(s: seq<AngleMag>)
    requires |s| > 0
    ensures forall j | 0 <= j < |s| :: s[j].mag <= s[LastMax(s)].mag
    ensures forall j | LastMax(s) < j < |s| :: s[j].mag < s[LastMax(s)].mag
    ensures s[LastMax(s)].mag == MaxMag(s)
  {
    LastMaxUpToIsMax(s, |s|);
    MaxMagUpToIsMax(s, |s|);
    var j :| 0 <= j < |s| && s[j].mag == MaxMag(s);
  }

  /** The neighbour chosen by the scan in `Offsets` order. */
  function Best(v: View<AngleMag>): AngleMag
    requires v.grid.Valid()
  {
    var n := Neighbourhood(v);
    n[LastMax(n)]
  }

  /** The cell takes its strongest neighbour's decayed value. */
  predicate Adopts(v: View<AngleMag>)
    requires v.grid.Valid()
  {
    Decayed(Best(v).mag) > v.Get(0, 0).mag
  }

  /** The per-cell closure of the propagation step. Its new magnitude is the larger
      of its own and 0.9 times the neighbourhood's maximum; it is either unchanged
      or the chosen neighbour's angle with the decayed magnitude, and it differs
      from the old value exactly when it adopts. */
  function Propagate(v: View<AngleMag>): AngleMag
    requires v.grid.Valid()
  {
    var best := Best(v);
    var r := AngleMag(best.angle, Decayed(best.mag));
    if r.mag > v.Get(0, 0).mag then r else v.Get(0, 0)
  }

  lemma {:induction false} PropagateCell(v: View<AngleMag>)
    requires v.grid.Valid()
    ensures Propagate(v).mag == Max(v.Get(0, 0).mag, Decayed(MaxMag(Neighbourhood(v))))
    ensures Propagate(v) == v.Get(0, 0) || Propagate(v) == AngleMag(Best(v).angle, Decayed(Best(v).mag))
    ensures Propagate(v) != v.Get(0, 0) <==> Adopts(v)
  {
    LastMaxIsMax(Neighbourhood(v));
  }

  /** The grid one propagation step produces: `g.map` with the per-cell closure. */
  function StepGrid(g: Grid<AngleMag>): (r: Grid<AngleMag>)
    requires g.Shaped()
    ensures r.width == g.width && r.height == g.height && r.Shaped() && |r.data| == |g.data|
  {
    CellsValid(g);
    Mapped(g, Propagate)
  }

  /** The `changed` flag after the closure has run on `views` in order: raised
      when one of them adopts, never lowered. */
  predicate AnyAdopts(views: seq<View<AngleMag>>)
    requires forall k | 0 <= k < |views| :: views[k].grid.Valid()
  {
    if |views| == 0 then false
    else AnyAdopts(views[..|views| - 1]) || Adopts(views[|views| - 1])
  }

  /** The flag is raised exactly when one of the views adopts. */
  lemma {:induction false} AnyAdoptsIff(views: seq<View<AngleMag>>)
    requires forall k | 0 <= k < |views| :: views[k].grid.Valid()
    ensures AnyAdopts(views) <==> exists k | 0 <= k < |views| :: Adopts(views[k])
  {
    if |views| > 0 {
      var prefix := views[..|views| - 1];
      AnyAdoptsIff(prefix);
      assert forall k | 0 <= k < |prefix| :: prefix[k] == views[k];
    }
  }

  /** The `changed` flag once the step's `map` has visited every cell. */
  predicate Changed(g: Grid<AngleMag>)
    requires g.Shaped()
  {
    CellsValid(g);
    AnyAdopts(Cells(g))
  }

  /** Some cell adopts exactly when the step raises the flag. */
  lemma {:induction false} ChangedIffSomeAdopts(g: Grid<AngleMag>)
    requires g.Shaped()
    ensures forall k | 0 <= k < |Cells(g)| :: Cells(g)[k].grid.Valid()
    ensures Changed(g) <==> exists k | 0 <= k < |Cells(g)| :: Adopts(Cells(g)[k])
  {
    CellsValid(g);
    AnyAdoptsIff(Cells(g));
  }

  /** Cell k after one step: either its old value, or the angle of the chosen
      neighbour with 0.9 of that neighbour's magnitude, which then beats the old
      magnitude; it differs from the old value exactly when the cell adopts. */
  lemma {:induction false} StepCell(g: Grid<AngleMag>, k: nat)
    requires g.Shaped() && k < |g.data|
    ensures g.Valid() && |StepGrid(g).data| == |g.data| && Cells(g)[k].grid == g
    ensures var best := Best(Cells(g)[k]);
      StepGrid(g).data[k] == g.data[k] ||
      (StepGrid(g).data[k] == AngleMag(best.angle, Decayed(best.mag)) && Decayed(best.mag) > g.data[k].mag)
    ensures StepGrid(g).data[k] != g.data[k] <==> Adopts(Cells(g)[k])
  {
    CellCentre(g, k);
    CellsValid(g);
    MappedData(g, Propagate);
    PropagateCell(Cells(g)[k]);
  }

  /** One step never lowers the magnitude of a cell. */
  lemma {:induction false} StepNeverLowers(g: Grid<AngleMag>, k: nat)
    requires g.Shaped() && k < |g.data|
    ensures |StepGrid(g).data| == |g.data|
    ensures StepGrid(g).data[k].mag >= g.data[k].mag
  {
    StepCell(g, k);
  }

  /** The step reports a change exactly when the new grid differs from the old one. */
  lemma {:induction false} ChangedIffDiffers(g: Grid<AngleMag>)
    requires g.Shaped()
    ensures Changed(g) <==> StepGrid(g) != g
  {
    var r := StepGrid(g);
    ChangedIffSomeAdopts(g);
    if Changed(g) {
      var k :| 0 <= k < |Cells(g)| && Adopts(Cells(g)[k]);
      StepCell(g, k);
      assert r.data[k] != g.data[k];
    }
    if r != g {
      assert r.data != g.data;
      var k :| 0 <= k < |g.data| && r.data[k] != g.data[k];
      StepCell(g, k);
    }
  }

  /** One propagation step: the `map` with the per-cell closure, and the flag it raises. */
  method Step(g: Grid<AngleMag>) returns (next: Grid<AngleMag>, changed: bool)
    requires g.Shaped()
    ensures next == StepGrid(g)
    ensures changed <==> Changed(g)
  {
    CellsValid(g);
    next := Map(g, Propagate);
    ChangedIffSomeAdopts(g);
    changed := exists k | 0 <= k < |Cells(g)| :: Adopts(Cells(g)[k]);
  }

  /** No cell of `g` could gain by adopting: 0.9 times every magnitude in a
      cell's 3x3 neighbourhood is at most the cell's own magnitude. */
  ghost predicate LocallyMaximal(g: Grid<AngleMag>)
    requires g.Valid()
  {
    forall x: nat, y: nat, i | x < g.width && y < g.height && 0 <= i < |Offsets| ::
      Decayed(Neighbourhood(View(g, x, y))[i].mag) <= g.At(x, y).mag
  }

  /** A grid where no cell adopts is exactly a grid where every cell is at least
      0.9 times every magnitude around it: the fixed point the loop stops at. */
  lemma {:induction false} StableIffLocallyMaximal(g: Grid<AngleMag>)
    requires g.Valid()
    ensures !Changed(g) <==> LocallyMaximal(g)
  {
    ChangedIffSomeAdopts(g);
    CellsAt(g);
    if !Changed(g) {
      forall x: nat, y: nat, i | x < g.width && y < g.height && 0 <= i < |Offsets|
        ensures Decayed(Neighbourhood(View(g, x, y))[i].mag) <= g.At(x, y).mag
      {
        CellAt(g, x, y);
        var v := View(g, x, y);
        assert !Adopts(v);
        LastMaxIsMax(Neighbourhood(v));
      }
    }
    if LocallyMaximal(g) {
      forall k | 0 <= k < |Cells(g)|
        ensures !Adopts(Cells(g)[k])
      {
        var v := Cells(g)[k];
        var n := Neighbourhood(v);
        var i := LastMax(n);
        assert Decayed(n[i].mag) <= g.At(v.x, v.y).mag;
      }
    }
  }

  /** The grid after n propagation steps: the first step applies to `g` itself. */
  function Iterate(g: Grid<AngleMag>, n: nat): (r: Grid<AngleMag>)
    requires g.Shaped()
    ensures r.width == g.width && r.height == g.height && r.Shaped() && |r.data| == |g.data|
    decreases n
  {
    if n == 0 then g else Iterate(StepGrid(g), n - 1)
  }

  /** Step n + 1 applies to the grid after n steps. */
  lemma {:induction false} IterateSucc(g: Grid<AngleMag>, n: nat)
    requires g.Shaped()
    ensures Iterate(g, n + 1) == StepGrid(Iterate(g, n))
    decreases n
  {
    if n > 0 {
      var m := n - 1;
      IterateSucc(StepGrid(g), m);
      assert m + 1 == n;
    }
  }

  /** One more step never lowers the magnitude of a cell. */
  lemma {:induction false} IterationNeverLowers(g: Grid<AngleMag>, n: nat, k: nat)
    requires g.Shaped() && k < |g.data|
    ensures Iterate(g, n).data[k].mag <= Iterate(g, n + 1).data[k].mag
  {
    IterateSucc(g, n);
    StepNeverLowers(Iterate(g, n), k);
  }

  /** Along the iteration, the magnitude of every cell only grows. */
  lemma {:induction false} MagnitudesNeverDecrease(g: Grid<AngleMag>, i: nat, j: nat, k: nat)
    requires g.Shaped() && i <= j && k < |g.data|
    ensures Iterate(g, i).data[k].mag <= Iterate(g, j).data[k].mag
    decreases j - i
  {
    if i < j {
      IterationNeverLowers(g, i, k);
      MagnitudesNeverDecrease(g, i + 1, j, k);
    }
  }

  /** A grid whose cells all hold one value with a non-negative magnitude never
      changes: every neighbourhood holds that value only, and 0.9 * m is not above m. */
  lemma {:induction false} UniformIsStable(g: Grid<AngleMag>, c: AngleMag)
    requires g.Shaped() && 0.0 <= c.mag
    requires forall k | 0 <= k < |g.data| :: g.data[k] == c
    ensures !Changed(g)
  {
    ChangedIffSomeAdopts(g);
    CellsAt(g);
    forall k | 0 <= k < |Cells(g)|
      ensures !Adopts(Cells(g)[k])
    {
      var v := Cells(g)[k];
      var n := Neighbourhood(v);
      forall i | 0 <= i < |n| ensures n[i] == c {
        NeighbourAt(v, i);
      }
      assert v.Get(0, 0) == n[4];
    }
  }

  /** A 1x1 grid with a non-negative magnitude is a fixed point at once: its only
      neighbour is itself. */
  lemma {:induction false} SingleCellIsStable(g: Grid<AngleMag>)
    requires g.width == 1 && g.height == 1 && |g.data| == 1 && 0.0 <= g.data[0].mag
    ensures !Changed(g)
  {
    UniformIsStable(g, g.data[0]);
  }
}
