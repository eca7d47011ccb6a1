# paranormal, modelled in Dafny

paranormal turns a colour image into an animation of its edge field. The
image becomes a `Grid` of pixels. Three per-cell stages are each a
`Grid::map`:

- a grayscale intensity;
- a 3x3 Sobel gradient;
- the gradient's angle and normalised magnitude.

A frame loop then renders the grid and applies one propagation step per
round. In that step every cell looks at its 3x3 neighbourhood, takes its
strongest neighbour and adopts that neighbour's angle with 0.9 of its
magnitude when this beats its own magnitude. The loop stops after the first
round in which no cell adopts.

The model has four modules:

- `Grids` (`grid.dfy`):
  - `Grid` with clamped (replicate-border) indexing;
  - `View` with signed offsets and saturating subtraction;
  - the row-major visit order of `map` (`Cells`);
  - `Map`, a method that fills the result buffer in two nested loops and is
    proved against the specification function `Mapped`;
  - the conversions between images and grids.
- `Stages` (`stages.dfy`):
  - the grayscale, Sobel and squared-magnitude closures over Rust's `u8`,
    `i16` and `i32`, written as newtypes so that every operation is checked
    for overflow;
  - the polar stage.
- `Propagation` (`propagation.dfy`):
  - `max_by` with its last-of-equal-maxima tie-break (`LastMax`);
  - the per-cell closure `Propagate`;
  - the `changed` flag;
  - one step, as the function `StepGrid` and the method `Step`;
  - repeated steps (`Iterate`);
  - the fixed point the loop stops at (`LocallyMaximal`).
- `Pipeline` (`process.dfy`):
  - the stages before the loop (`Prepare`, specified by `Initial`);
  - the rendering of a frame (`Frame`, specified by `Render`);
  - the frame loop (`Run`) and `process` itself (`Process`).

The grids of successive rounds are returned as a ghost sequence. The lemma
`RoundsAreIterates` ties them to `Iterate`.

Grids are values: the source never updates a grid in place. Every `map`
allocates a new buffer, and the loop rebinds `sobel_angle_mag`. So `Grid`
is a datatype, and the buffer fill and the frame loop are methods with loops.

## Model

| member | source | states |
|---|---|---|
| Grids.Clamp | src/lib.rs:35 | `min(i, n - 1)` is below n. It is i when i is in range and n - 1 otherwise. |
| Grids.Grid.Offset | src/lib.rs:34-36 | The clamped position always lies inside the buffer. For an in-range (x, y) it is the row-major position of (x, y). |
| Grids.AtInRange | src/lib.rs:34-36 | The buffer holds width * height cells. An in-range coordinate reads `data[y * width + x]`, which is in bounds. |
| Grids.AtClampsToEdge | src/lib.rs:34-36 | Any coordinate reads what its clamped coordinate reads. Beyond the last column or row the edge cell is read. |
| Grids.Shift | src/lib.rs:49-55 | A negative offset saturates at 0 and a non-negative offset adds, so the result is `max(0, base + offset)`. |
| Grids.ViewOffsets | src/lib.rs:48-58 | Offset (0, 0) reads the anchor. Offset (dx, dy) reads the grid at the anchor plus the offset, floored at 0. At (0, 0), offset (-1, -1) reads cell (0, 0). |
| Grids.CellsAt | src/lib.rs:65-68 | View k handed to the closure belongs to the grid being mapped. It is anchored at the in-range (x, y) whose row-major position is k: rows outer, columns inner. |
| Grids.CellAt | src/lib.rs:65-68 | The view anchored at (x, y) is handed over at position `y * width + x`. |
| Grids.Map | src/lib.rs:62-76 | The result has the same width and height and one cell per visited view. Cell k is `f` applied to the k-th view. The result equals `Mapped(g, f)`. |
| Grids.MappedData | src/lib.rs:62-76 | The result of `map` has exactly `width * height` cells, cell k being `f` of view k. |
| Grids.MappedAt | src/lib.rs:62-76 | Cell (x, y) of the mapped grid is `f` applied to the view anchored at (x, y). |
| Grids.FromImage | src/lib.rs:12-20 | The grid keeps the image's size and pixels in row-major order, and is well-shaped. |
| Grids.IntoImage | src/lib.rs:23-29 | Pixel (x, y) is `grid[(x, y)]`. The resulting image has the grid's size and exactly the grid's cells. |
| Grids.ImageRoundTrip | src/lib.rs:12-29 | Converting an image to a grid and back gives the same image. |
| Stages.Grayscale | src/lib.rs:83-86 | The intensity is `r + g + b` computed in `i16` without overflow, and lies in [0, 765]. |
| Stages.Sobel | src/lib.rs:89-94 | On an intensity grid both components lie in [-3060, 3060], so no `i16` operation overflows. |
| Stages.SobelIsConvolution | src/lib.rs:89-94 | The two components are the neighbourhood convolved with the horizontal and vertical Sobel kernels. |
| Stages.SobelUniform | src/lib.rs:89-94 | On a grid of one intensity both components are 0 at every cell, borders included. |
| Stages.SobelVerticalEdge | src/lib.rs:89-94 | At the centre of a 0/128/255 vertical edge the gradient is (1020, 0). |
| Stages.GrayscaleGrid | src/lib.rs:83-86 | The grayscale `map` accepts every cell and yields only intensities in [0, 765]. |
| Stages.SobelGrid | src/lib.rs:89-94 | The Sobel `map` of an intensity grid accepts every cell and yields only components within 4 * 765. |
| Stages.SquaredMagnitude | src/lib.rs:98-102 | `gx * gx + gy * gy` in `i32` is the exact sum of squares, in [0, 2 * 3060 * 3060], without overflow. |
| Stages.Polar | src/lib.rs:97-104 | The angle is `atan2(gy, gx)`. The magnitude is the root of the squared magnitude over 255 * 3 * 3, and is non-negative. |
| Propagation.LastMaxIsMax | src/lib.rs:131-134 | The element `max_by` picks has the largest magnitude, and every later element has a strictly smaller one: it is the last of equal maxima. |
| Propagation.PropagateCell | src/lib.rs:136-144 | The new magnitude is the larger of the old one and 0.9 times the neighbourhood maximum. The cell is unchanged or takes the chosen neighbour's angle with 0.9 of its magnitude. It changes exactly when it adopts. |
| Propagation.AnyAdoptsIff | src/lib.rs:128-139 | The flag, raised in visit order and never lowered, ends up set exactly when some visited cell adopts. |
| Propagation.ChangedIffSomeAdopts | src/lib.rs:128-145 | After the step's `map`, `changed` holds exactly when some cell adopts. |
| Propagation.StepCell | src/lib.rs:130-145 | After a step, cell k is unchanged, or it is the chosen neighbour's angle with 0.9 of its magnitude and that beats the old magnitude. It differs exactly when the cell adopts. |
| Propagation.StepNeverLowers | src/lib.rs:136-144 | A step never lowers any cell's magnitude. |
| Propagation.ChangedIffDiffers | src/lib.rs:128-145 | `changed` is set exactly when the new grid differs from the old one. |
| Propagation.Step | src/lib.rs:128-145 | Returns the grid `map` builds with the propagation closure, together with the `changed` flag that closure raises. |
| Propagation.StableIffLocallyMaximal | src/lib.rs:146-148 | A step raises no flag exactly when every cell's magnitude is at least 0.9 times every magnitude in its 3x3 neighbourhood. |
| Propagation.IterateSucc | src/lib.rs:112-149 | Round n + 1 of the loop applies one step to the grid after n rounds. |
| Propagation.MagnitudesNeverDecrease | src/lib.rs:112-149 | Along the rounds, every cell's magnitude only grows. |
| Propagation.UniformIsStable | src/lib.rs:130-148 | A grid holding one value with a non-negative magnitude raises no flag. |
| Propagation.SingleCellIsStable | src/lib.rs:130-148 | A 1x1 grid with a non-negative magnitude raises no flag: its only neighbour is itself. |
| Pipeline.Initial | src/lib.rs:80-104 | The grid the stages produce has the image's size, and every magnitude in it is non-negative. |
| Pipeline.Prepare | src/lib.rs:80-104 | The three stage `map`s, run in order, produce `Initial(img)`. |
| Pipeline.Render | src/lib.rs:113-126 | A frame has the grid's width and height and one pixel per cell. |
| Pipeline.Frame | src/lib.rs:113-126 | The rendering `map`, turned into an image, is `Render(g)`: pixel k is the colour of cell k. |
| Pipeline.Run | src/lib.rs:106-151 | One frame per round, with the first frame rendering the initial grid and each later round one step on. Every round but the last changed. The run converged exactly when the last round changed nothing. |
| Pipeline.RoundsAreIterates | src/lib.rs:112-149 | Round j of the loop holds the grid after j propagation steps. |
| Pipeline.ConvergedIsLocallyMaximal | src/lib.rs:146-149 | When the loop stops, every cell is at least 0.9 times every magnitude in its neighbourhood. |
| Pipeline.SingleCellOneFrame | src/lib.rs:112-149 | On a 1x1 image the loop runs exactly one round: one frame, of the initial grid, and then it stops. |
| Pipeline.Process | src/lib.rs:79-152 | `process` returns one frame per round of the loop, started from the grid the three stages produce. The first frame shows that grid, and the loop stops at the first round without change. |

## Left out

- Process, Run: the source's `loop` has no bound, and its termination over `f64` is not established. The model's loop also stops after `fuel` rounds; `converged` says whether it stopped because no cell changed.
- Stages.Polar: `atan2` and `sqrt` are parameters, since they are floating-point library functions. `sqrt` is only assumed to return a non-negative value.
- Render, Frame: the HSL hue/lightness mapping and `hsl.to_rgb()` (src/lib.rs:108-124) are the parameter `colour`. Only the frame's size and the cell-by-cell correspondence are stated.
- Magnitudes and angles are `real`: the rounding of `f64` in `mag * 0.9`, in the division by 255 * 3 * 3 and in the comparisons is idealised away.
- Propagation.LastMax: `partial_cmp(..).unwrap()` panics on a NaN magnitude. Reals have no NaN, so that panic is not modelled.
- Step: the source raises `changed` inside the closure while `map` visits the cells. The method computes the flag once the step is done, as "some cell adopts". `AnyAdopts` and `AnyAdoptsIff` show that the two agree.
- Step: its contract does not state "`changed` iff the grid changed". That fact is the separate lemma `ChangedIffDiffers`.
- Run: the fixed-point property at convergence is not part of its contract. It is the separate lemma `ConvergedIsLocallyMaximal`.
- Grid construction does not reject zero-sized images, although such grids are invalid by design. The model follows the code:
  - `Map`, `Render` and the loop accept any grid whose buffer has `width * height` cells;
  - only indexing requires `width > 0 && height > 0`, since `self.height - 1` would underflow there;
  - a `map` over an empty grid never calls its closure, so an empty image gives one empty frame.
- `usize` and `u32` widths of `width`, `height` and `width * height`, and the `as u32` casts in `into`, are unbounded naturals here.
- The `image` crate's `RgbImage` is the datatype `Image`. Its invariant that the pixel buffer holds `width * height` pixels is a precondition of `FromImage`'s shape guarantee and of `Process`.
- src/bin/demo.rs (argument parsing, file I/O, image decoding and APNG encoding) is not part of this model.
