# flood-fill in Dafny

This project models the `floodfill` crate: a span ("scanline") flood fill over a generic pixel surface, and a row-major scan that uses it to find, paint over and box every 4-connected single-colour region of an image. It also models `MinimalImage`, the flat multi-channel byte buffer that the example program and the benchmark use as their surface.

Layout:

- `images.dfy` (`Images`): the pixel-surface contract of the `Image` trait. It is the class `Image<T>`, whose pixels are held row-major in one sequence. `GetPixel` answers `None` off the grid, and `SetPixel` ignores writes there.
- `rects.dfy` (`Rects`): `Rect`, with `point` and `insert`. `Hull` is the box that repeated `insert` builds from a list of points.
- `regions.dfy` (`Regions`): 4-connected regions of one colour, defined by walks of neighbour steps.
- `span_spec.dfy` (`SpanSpec`): each loop of `fill` is a recursive function on values. These functions are only called by specifications and lemmas.
- `flood_fill.dfy` (`FloodFill`): `fill` and `bboxes` as methods with `while` loops over an `Image`. Each loop is proved to end in the state that the matching `SpanSpec` function computes.
- `span_proof.dfy` and `fill_proof.dfy` (`SpanProof`, `FillProof`): the proof that `fill` paints exactly the seed's region and returns its least bounding box. The invariant is that every painted pixel is in the region, and each of its flooded-colour neighbours is named by some entry of the work list.
- `sweeps.dfy` (`Sweeps`): what `bboxes` reports, stated against the original image.
- `minimal_image.dfy` (`MinimalImages`): `MinimalImage` with `row`, `row_size`, `height`, `calc_idx`, its `get_pixel`/`set_pixel`, `sample_img_channels` and `draw_bbox`.
- `wrappers.dfy`: `Option`.

benches/tiff.rs repeats `MinimalImage` and `sample_img_channels` word for word. Its `row` (84-86), `row_size` (88-90), `height` (96-98), `calc_idx` (100-105), `get_pixel`/`set_pixel` (110-118) and `sample_img_channels` (29-45) are the same code as in examples/semantic.rs, so the one model and the rows citing examples/semantic.rs cover both files.

How the model follows the code:

- The work list is a sequence popped from its end. The pushes happen exactly where the code makes them: one or two per painted pixel inside the run loop, so not one per run.
- `fill` returns `None` for a seed off the grid and for a seed that already has the paint.
- `MinimalImage.height()` divides by the row size. A Rust division by zero is a panic, so a zero row size becomes a precondition, and only where the code really reaches `height()`. `calc_idx` computes the `y` bound only when `y >= 0`.
- As a surface, `MinimalImage` shows and writes channel 0 of each pixel.
- `draw_bbox` uses exclusive ranges on an inclusive box, as the code does. It draws the left and right columns over rows `top..bottom` and the top and bottom rows over columns `left..right`. So the corner `(right, bottom)` is never drawn, and a one-pixel box draws nothing.

## Model

| member | source | states |
|---|---|---|
| Images.Image.GetPixel | src/lib.rs:4 | `Some` exactly for on-grid coordinates, holding that pixel |
| Images.Image.SetPixel | src/lib.rs:5 | the grid afterwards is the old one with that one pixel written; an off-grid write changes nothing |
| Images.AtDefined | src/lib.rs:4 | `get_pixel` on the row-major grid answers `Some` exactly for on-grid coordinates of a grid of `w·h` pixels, holding the pixel stored at its row-major index |
| Images.Write | src/lib.rs:5 | `set_pixel` on the row-major grid never changes the grid's size |
| Images.WriteAt | src/lib.rs:4-5 | after a write, the written pixel reads back the value and every other pixel reads as before |
| Images.IndexInjective | src/lib.rs:1-8 | distinct on-grid coordinates occupy distinct positions of the row-major grid |
| Rects.Rect.Point | src/lib.rs:113-120 | the box holds exactly the one point and is non-empty |
| Rects.Rect.Insert | src/lib.rs:122-128 | the grown box holds the new point and encloses the old box, and a non-empty box stays non-empty |
| Rects.InsertIsLeast | src/lib.rs:122-128 | every box holding the old box and the point encloses the result of `insert` |
| Rects.InsertInside | src/lib.rs:122-128 | inserting a point already inside leaves the box unchanged |
| Rects.Hull | src/lib.rs:65-70 | the box grown point by point is never empty |
| Rects.HullContains | src/lib.rs:65-70 | the box holds every inserted point |
| Rects.HullIsLeast | src/lib.rs:65-70 | any box holding all the points encloses it |
| Rects.HullIsTight | src/lib.rs:65-70 | each of its four edges is reached by one of the points |
| Regions.ReachSeed | src/lib.rs:57 | the seed is in its own region when it has the region's colour |
| Regions.ReachStep | src/lib.rs:57 | a same-colour 4-neighbour of a region pixel is in the region |
| Regions.ReachColour | src/lib.rs:57 | every region pixel is on the grid and has the region's colour |
| Regions.ReversePath | src/lib.rs:57 | a walk read backwards is a walk between the same ends |
| Regions.ReachSymmetric | src/lib.rs:57 | being in the same region is symmetric |
| Regions.ReachPrefix | src/lib.rs:57 | every pixel along a walk from the seed is in the seed's region |
| Regions.ReachTrans | src/lib.rs:57 | being in the same region is transitive |
| SpanSpec.PaintAt | src/lib.rs:67-70 | the `set_pixel` closure keeps the grid's size and leaves the paint at an on-grid pixel |
| SpanSpec.ExtendLeft | src/lib.rs:79-82 | the left loop only moves the cursor left, pushes nothing and keeps the grid's size |
| SpanSpec.PaintRun | src/lib.rs:90-97 | the run loop never moves the cursor left of where it started |
| SpanSpec.SkipGap | src/lib.rs:101-103 | the gap loop never moves the cursor left |
| SpanSpec.Drain | src/lib.rs:76-107 | the `while let` loop ends with an empty work list and a grid of the same size |
| SpanSpec.FillSpec | src/lib.rs:58-110 | `fill` keeps the grid's size, and leaves the grid untouched when it returns `None`; the rest is stated by `FillProof.FillNone` and `FillProof.FillSome` |
| SpanSpec.CountPaint | src/lib.rs:67-70 | painting a flooded-colour pixel removes exactly one flooded-colour pixel |
| SpanSpec.LeftCount | src/lib.rs:79-82 | the left loop paints exactly one flooded-colour pixel per step, and a loop of no steps changes nothing |
| SpanSpec.RunCount | src/lib.rs:90-97 | the run loop paints one flooded-colour pixel per step, and an empty run changes neither grid nor work list |
| SpanSpec.ScanCount | src/lib.rs:89-106 | `SpanSpec.ScanRow` keeps the grid's size and never adds flooded-colour pixels; when it paints none, grid and work list are unchanged |
| SpanSpec.StepCount | src/lib.rs:76-107 | `SpanSpec.StepSpan` keeps the grid's size, and each popped entry either paints something or only leaves the work list, so (flooded-colour pixels, list length) strictly drops and `fill` terminates |
| FloodFill.PaintPixel | src/lib.rs:67-70 | the `set_pixel` closure writes the paint at the pixel and grows the box by `insert` |
| FloodFill.ExtendLeftLoop | src/lib.rs:79-82 | the loop ends in the state `SpanSpec.ExtendLeft` computes from the entry state |
| FloodFill.PaintRunLoop | src/lib.rs:90-97 | the loop, with its pushes after every painted pixel, ends in the state `SpanSpec.PaintRun` computes |
| FloodFill.SkipGapLoop | src/lib.rs:101-103 | the loop stops where `SpanSpec.SkipGap` says, changing nothing |
| FloodFill.ScanRowLoop | src/lib.rs:89-106 | the row loop ends in the state `SpanSpec.ScanRow` computes |
| FloodFill.Fill | src/lib.rs:58-110 | `None`, with the image untouched, exactly when the seed is off the grid or has the paint; otherwise the seed's 4-connected region of its old colour is painted, every other pixel is unchanged, the seed holds the paint, and the result is the least box of the region |
| FloodFill.BBoxes | src/lib.rs:39-55 | afterwards every pixel holds the paint; each box is the least box of the region of its seed, with the seed's original colour, which is never the paint; seeds ascend in row-major order, every pixel without the paint lies in the region of some seed and no two seeds share a region, there are at most width·height boxes, and none exactly when every pixel already had the paint |
| SpanProof.LeftGrid | src/lib.rs:79-82 | the left loop paints exactly the region pixels between where it stops and where it started, and stops at a pixel not of the flooded colour |
| SpanProof.LeftHull | src/lib.rs:79-82 | the box after the left loop is the hull of the earlier points and exactly the pixels painted |
| SpanProof.RunGrid | src/lib.rs:90-97 | a run paints exactly the region pixels from its start to where it stops, and stops at a pixel not of the flooded colour |
| SpanProof.RunPushes | src/lib.rs:93-96 | a run's pushes name only the rows next to it, include the row ahead over the whole run, and include the row behind over the part past `x2` |
| SpanProof.RunHull | src/lib.rs:90-97 | the box after a run is the hull of the earlier points and exactly the run's pixels |
| SpanProof.SkipFacts | src/lib.rs:101-103 | the gap loop steps only over pixels not of the flooded colour and stops at one of that colour, or at `x2` |
| SpanProof.ScanStart | src/lib.rs:77-88 | the left loop and its push set up the row-scan invariant |
| SpanProof.ScanFacts | src/lib.rs:89-106 | the row scan paints only region pixels of row `y`, leaves no flooded-colour pixel in the entry's columns, and puts every unfinished neighbour of what it painted on the work list |
| SpanProof.StepFacts | src/lib.rs:76-107 | the same for one whole popped entry, with the box grown by exactly what was painted |
| FillProof.InitInv | src/lib.rs:65-74 | the two initial entries and the point box establish the work-list invariant |
| FillProof.InvStep | src/lib.rs:76-107 | processing the last entry keeps the work-list invariant |
| FillProof.DrainFacts | src/lib.rs:76-107 | the invariant holds when the work list is empty |
| FillProof.DoneExact | src/lib.rs:76-109 | with the work list empty, the painted pixels are exactly the region |
| FillProof.FillNone | src/lib.rs:59-63 | `None` exactly for an off-grid seed or a seed with the paint, and then the grid is unchanged |
| FillProof.FillSome | src/lib.rs:58-110 | otherwise the result is a box, the region is painted, everything else is unchanged, the seed holds the paint, and the box is the region's least box |
| FillProof.BoxFacts | src/lib.rs:65-70 | the box of the seed and the painted pixels holds the region and touches it on every edge |
| FillProof.BoxInGrid | src/lib.rs:65-70 | the returned box holds the seed, is non-empty and lies within the grid |
| Sweeps.Sweep | src/lib.rs:45-52 | the nested loops keep the grid's size |
| Sweeps.BBoxesSpec | src/lib.rs:39-55 | `bboxes` keeps the grid's size; what it reports is stated by `Sweeps.BBoxesCorrect` |
| Sweeps.SweepFacts | src/lib.rs:45-52 | after the pixels before each row-major position are visited, exactly the already-painted pixels and the regions of visited pixels hold the paint, and the boxes so far belong to the region leaders met so far, in order |
| Sweeps.BBoxesCorrect | src/lib.rs:38-55 | every pixel ends with the paint; the boxes are, in row-major order of their leader pixels, the least boxes and colours of the regions that did not have the paint; every pixel without the paint lies in the region of one reported leader, and no two reported leaders share a region |
| Sweeps.LeaderExists | src/lib.rs:45-52 | every pixel without the paint is in the region of a leader at or before it in row-major order |
| Sweeps.LeaderUnique | src/lib.rs:45-52 | a region has only one leader: two leaders in the same region are the same pixel |
| Sweeps.Covered | src/lib.rs:45-52 | once the sweep has passed every pixel, each pixel without the paint is in the region of some listed leader, and listed leaders lie in distinct regions |
| Sweeps.BoxesCount | src/lib.rs:43-54 | at most width·height boxes, none with the paint as its colour, and none at all exactly when every pixel had the paint |
| MinimalImages.MinimalImage.RowSize | examples/semantic.rs:54-56 | the row size is non-zero exactly when the image has at least one channel and a non-zero width |
| MinimalImages.MinimalImage.Has | examples/semantic.rs:67-69 | the bounds test of `calc_idx`: when it passes, the pixel has channels and its whole row lies inside the buffer |
| MinimalImages.MinimalImage.Height | examples/semantic.rs:62-64 | the number of whole rows the buffer holds |
| MinimalImages.MinimalImage.Row | examples/semantic.rs:50-56 | the slice of row `r`: `row_size` bytes starting at `r * row_size` |
| MinimalImages.MinimalImage.Offset | examples/semantic.rs:66-71 | an in-bounds pixel's channels all lie inside the buffer |
| MinimalImages.MinimalImage.CalcIdx | examples/semantic.rs:66-71 | `Some(x*n_channels + y*row_size)` exactly when `0 <= x < width` and `0 <= y < height()`, and the pixel's bytes are inside the buffer |
| MinimalImages.MinimalImage.OffsetScaled | examples/semantic.rs:66-71 | a pixel's first byte is its row-major index times `n_channels` |
| MinimalImages.MinimalImage.OffsetInjective | examples/semantic.rs:66-71 | distinct in-bounds pixels start at distinct bytes |
| MinimalImages.MinimalImage.GetPixel | examples/semantic.rs:150-152 | `Some` exactly for in-bounds pixels, holding the pixel's first byte |
| MinimalImages.MinimalImage.SetPixel | examples/semantic.rs:154-158 | out of bounds nothing changes; in bounds exactly the pixel's first byte changes, it reads back the value, and every other pixel reads as before |
| MinimalImages.MinimalImage.SurfaceAgrees | examples/semantic.rs:148-167 | a one-channel image read through `get_pixel` is the row-major grid of its whole rows, so it meets the surface contract `fill` is proved against |
| MinimalImages.MinimalImage.PaintStep | examples/semantic.rs:171-177 | one `set_pixel(.., 0xff)` adds exactly that pixel to the painted set and leaves every other byte alone |
| MinimalImages.PushChannels | examples/semantic.rs:135-137 | the innermost loop appends the listed channels of one pixel, in order |
| MinimalImages.SampleImgChannels | examples/semantic.rs:130-146 | a new image of the same width with `n_channels = channels.len()`, `height·width·channels.len()` bytes, whose byte `(y*width+x)*k + j` is channel `channels[j]` of input pixel `(x, y)` |
| MinimalImages.DrawSides | examples/semantic.rs:170-173 | the first loop draws `0xff` on columns `left` and `right` over rows `top..bottom`, and nothing else |
| MinimalImages.DrawEnds | examples/semantic.rs:175-178 | the second loop adds rows `top` and `bottom` over columns `left..right`, and nothing else |
| MinimalImages.DrawBbox | examples/semantic.rs:169-179 | a pixel's first byte becomes `0xff` exactly when it is on the outline, which excludes the corner `(right, bottom)`; every other byte is unchanged, and a one-pixel box changes nothing |

## Left out

- Integer widths: coordinates are unbounded integers. The `i32` steps of `fill` (`x - 1`, `x1 + 1`, `y - 1`, `y + dy`) are not checked for overflow. The `u32` product in `row_size`, the `i32` arithmetic with casts in `calc_idx` and the `as u32` cast of `channels.len()` are not modelled at machine width: all are taken as exact.
- The generic `Image` trait: traits are not used here. `fill` and `bboxes` are proved against the class `Images.Image`. `MinimalImage` is linked to that contract through `SurfaceAgrees` for one-channel images only, which is the label image the example and the benchmark flood. `fill` is not run on a `MinimalImage` object itself.
- The `width()`/`height()` trait methods and the `n_channels()` getter: they only return fields. `Images.Image` holds them as constants, and `MinimalImage` has `width`, `nChannels` and `Height`.
- The `&mut T` forwarding impl of `Image` (src/lib.rs:10-28): it only forwards calls. Methods here take the one object by reference.
- The `Debug` bound on `Pixel`: printing is not modelled.
- The `PartialEq` bound on `Pixel` (src/lib.rs:2) is modelled as Dafny equality `T(==)`, which is reflexive. A pixel type whose `==` is not reflexive, such as `f32` with a NaN colour, is not covered: there `fill` paints nothing yet returns `Some(Rect::point(x, y))`, so `FloodFill.Fill`'s "the seed holds the paint" would not hold. Every image in the repository has `u8` pixels.
- `bboxes` takes the image by value. In the program it is called with `&mut labels`, so the model updates the caller's image in place.
- Termination: the measure is the pair (flooded-colour pixels, work-list length) compared lexicographically, not the single number 3·pixels + length. Any bound on the work list's size or on running time is not stated.
- The work-list pushes happen once or twice per painted pixel, as the code does them, not once per run as the span-filling design describes. The model follows the code.
- `read_image`, `write_netpbm`, `main` and the criterion benchmark harness: these are file I/O, a foreign TIFF decoder, timing and printing.
- MinimalImages.SampleImgChannels: returns a freshly allocated image rather than the Rust value, and requires a non-zero row size (`height()` divides by it) and every listed channel below `n_channels` once the image has a pixel (`pixel[channel]` would panic).
- Sweeps.Sweep: its own contract states only that the grid size is kept; what the sweep computes is stated by `Sweeps.SweepFacts` and `Sweeps.BBoxesCorrect`.
