# Trough-Poster drawing grid, modelled in Dafny

Trough-Poster is a p5.js poster generator. It replays Quick, Draw! dog
drawings into a grid of cells on a canvas. Each stroke of a drawing is a
pair of coordinate arrays with values from 0 to 255.

A cell goes empty → animating → complete:
- It is given a drawing.
- The drawing is flattened into timed points.
- The points become "live" as the animation progresses.
- Live points wobble, and text is laid along them.

The user can drag exclusion rectangles over the canvas. A cell they cover
enough is blocked: it is cleared and skipped when the next cell is chosen.
In custom-cell mode the user drags out cells instead of having a grid.

The repository holds the logic twice: a monolithic sketch
(`p5js-app/public/sketch.js`) and a partial modular rewrite
(`Trough03/public/*.js`). The modules of this project follow the rewrite.
- `Geometry`: vectors, rectangles, the drag normalisation shared by
  exclusion rectangles and custom cells, and small arithmetic facts.
- `Cells`: the cell record, as a class with its invariant and its reset.
- `DrawingManager`: choosing a drawing, the stroke sampler and the
  per-cell reveal.
- `GridManager`: grid layout, choosing the next cell, completing and
  resetting cells, and custom cells.
- `RectangleExclusion`: intersection, coverage, blocked cells and
  repulsion strength.
- `TextManager`: splitting the text into words, the path of a cell, arc
  lengths, the lookup of a distance on the path, the letter cursor, and
  words at points.
- `CanvasManager`: fitting the canvas to the window.
- `Sketch`: the monolith's own state (cells, active cell, round-robin
  cursor, exclusion state) and its handlers. The per-cell and geometric
  logic it shares with the rewrite is the same code in both files, so the
  model uses it from the modules above.

Values that come from the browser or the outside world are parameters:
- p5.js `random()` and `random(list)` become `roll: real` and `pick: nat`
  (the element taken is `list[pick % |list|]`).
- `millis()` becomes `now`.
- The wobble, pointer and rectangle repulsion applied to a live point
  become a `Perturbation` function.
- `dist` becomes a `Metric`.
- The unit vector of `atan2` becomes a `Direction`.
- Window and mouse positions become arguments.
- Every `CONFIG` value is an argument or a field of `Sketch.Config`.

Coordinates are `real`. JavaScript's NaN appears where the source divides
0 by 0, for the coverage of a zero-area cell. The model writes it as
`None`, which blocks nothing, as NaN compares false.

The sequential selection loop in `startNextCellDrawing`
(`sketch.js:341-355`) is meant to skip blocked cells and to give up after
one full pass. The code does not do that; see Findings. The model has
both the code as written and the intended choice. `Sketch` uses the
intended one.

## Model

| member | source | states |
|---|---|---|
| Geometry.Constrain | p5js-app/public/sketch.js:612-613 | p5.js `constrain`: the result lies between the bounds, and is the value itself when it already does |
| Geometry.NormalizeDrag | Trough03/public/rectangle_exclusion.js:43-49 | a drag becomes a rectangle with non-negative sides whose corner is the smaller end on each axis |
| Geometry.DragPreview | Trough03/public/rectangle_exclusion.js:30-35 | the preview rectangle has the drag start as its corner and reaches the pointer |
| Geometry.NormalizedPreviewSpansCorners | Trough03/public/grid_manager.js:133-138 | normalising the preview rectangle gives a rectangle with the drag start and the pointer as opposite corners |
| Cells.Reveal | p5js-app/public/sketch.js:464-470 | a revealed point is a copy of the sampled point's coordinates, stroke index and global index |
| Cells.Cell.constructor | Trough03/public/grid_manager.js:23-40 | a new cell is empty, with no drawing and no points, at the given place, size and index |
| Cells.Cell.Clear | p5js-app/public/sketch.js:378-386 | a reset cell is empty, with no drawing and no points; its place, size, index and start time stay |
| DrawingManager.RecognizedDrawings | Trough03/public/drawing_manager.js:13 | the filter keeps exactly the recognised drawings |
| DrawingManager.UnrecognizedDrawings | Trough03/public/drawing_manager.js:14 | the filter keeps exactly the unrecognised drawings |
| DrawingManager.RandomElement | Trough03/public/drawing_manager.js:21-26 | `random(list)` is undefined exactly for an empty list and otherwise an element of the list |
| DrawingManager.ChooseDrawing | Trough03/public/drawing_manager.js:20-27 | the choice is absent exactly for an empty dataset and otherwise comes from the dataset |
| DrawingManager.ChooseDrawingOrder | Trough03/public/drawing_manager.js:16-27 | recognised when asked for and one exists; otherwise unrecognised when one exists; only then any drawing |
| DrawingManager.DrawArea | Trough03/public/drawing_manager.js:36-40 | the padded area starts `width * padding` inside the cell's left and top edges and ends that far inside its right and bottom edges; the vertical inset is taken from the width too |
| DrawingManager.DrawAreaWithinCell | Trough03/public/drawing_manager.js:36-40 | the padded area has non-negative sides and lies within the cell exactly when the padding is non-negative and at most half of the width and half of the height |
| DrawingManager.DrawAreaSpillsExample | Trough03/public/drawing_manager.js:36-40 | a 500 by 20 cell with padding fraction 0.1 gets an area starting at y = 50, below the cell's bottom, and -80 tall |
| DrawingManager.PaddedAreaWithinCell | Trough03/public/drawing_manager.js:35-40 | with each side inset by its own fraction, any cell with non-negative sides and a fraction in [0, 1/2] keeps the area within it; on square cells this is the area as written |
| DrawingManager.MapFromByteRangeBounds | p5js-app/public/sketch.js:439-440 | `map(v, 0, 255, lo, hi)` keeps [0, 255] inside [lo, hi] and sends the ends to the ends |
| DrawingManager.SampleGuarantees | Trough03/public/drawing_manager.js:43-72 | the sampler yields as many points as the usable strokes have x values; point k has global index k and timing k/N, in [0, 1); stroke indices start at 0 and step by one at each later stroke; point indices count up within a stroke |
| DrawingManager.SampleInsideArea | p5js-app/public/sketch.js:413-445 | for coordinates in [0, 255] every sampled point lies in the padded area |
| DrawingManager.SampleStrokeNumbering | p5js-app/public/sketch.js:437-447 | the points of one stroke continue the numbering and the stroke and point indexing of the points before them |
| DrawingManager.SampleStrokesNumbering | p5js-app/public/sketch.js:432-449 | the points of all strokes are numbered by position and timed against the total |
| DrawingManager.SampleStrokeShape | p5js-app/public/sketch.js:437-446 | a stroke's points keep the earlier points and carry the stroke's mapped coordinates |
| DrawingManager.SampleStrokesInside | p5js-app/public/sketch.js:432-449 | points of byte-range strokes lie in the area |
| DrawingManager.PointCountPrefix | Trough03/public/drawing_manager.js:47-51 | the count of the first j strokes never exceeds the whole count |
| DrawingManager.CountPoints | Trough03/public/drawing_manager.js:43-51 | the counting loop sums the x-array lengths of the usable strokes |
| DrawingManager.PushStroke | Trough03/public/drawing_manager.js:56-71 | the inner loop appends one stroke's points after the earlier ones, numbered on from the running counter, and the counter ends equal to the number of points |
| DrawingManager.FlattenStrokes | Trough03/public/drawing_manager.js:53-72 | the pushing loop builds exactly the sampled point list |
| DrawingManager.SampleCellDrawing | Trough03/public/drawing_manager.js:43-72 | counting and then pushing gives the sampled list of the drawing, every point numbered by its position |
| DrawingManager.SetupCellDrawing | Trough03/public/drawing_manager.js:11-79 | the cell gets the chosen drawing and its sampled points, no live points, start time `now` and state animating; with an empty dataset it fails after setting the drawing, as the source throws there; the geometry stays |
| DrawingManager.RevealedCountProps | Trough03/public/drawing_manager.js:97-110 | the reveal count never shrinks, stays within n, reaches n at progress 1, is idempotent and is monotone in progress |
| DrawingManager.UpdateJiggle | Trough03/public/drawing_manager.js:134-152 | only the positions of live points change, each to its perturbed frozen position; lengths and frozen parts stay |
| DrawingManager.UpdateLivePoints | Trough03/public/drawing_manager.js:97-114 | live points grow to `min(floor(progress*n), n)` when shorter, never shrink, copy the sampled points and are perturbed |
| DrawingManager.UpdateAllLivePoints | Trough03/public/drawing_manager.js:116-132 | every sampled point becomes live, earlier live points keep their frozen part, and every live point is perturbed |
| DrawingManager.UpdateActiveCell | Trough03/public/drawing_manager.js:81-95 | no change unless animating; at progress ≥ 1 the cell is complete with all points live; otherwise the reveal advances; the drawing and start time stay; no active-cell reference is cleared |
| RectangleExclusion.IntersectionArea | Trough03/public/rectangle_exclusion.js:192-203 | the overlap area is never negative |
| RectangleExclusion.IntersectionAreaSymmetric | Trough03/public/rectangle_exclusion.js:192-203 | the overlap area is symmetric and 0 for rectangles lying apart |
| RectangleExclusion.IntersectionAreaBounded | Trough03/public/rectangle_exclusion.js:192-203 | the overlap is at most the rectangle's area, and all of it for an enclosed rectangle |
| RectangleExclusion.DegenerateIntersection | p5js-app/public/sketch.js:982-995 | a rectangle of zero width or height overlaps nothing |
| RectangleExclusion.CoveredArea | Trough03/public/rectangle_exclusion.js:180-186 | the summed overlap is never negative |
| RectangleExclusion.DegenerateCellCoverage | p5js-app/public/sketch.js:969-980 | a zero-area cell has zero covered area, so its coverage is 0/0 |
| RectangleExclusion.CoveredAreaAtLeast | Trough03/public/rectangle_exclusion.js:183-186 | each rectangle's overlap counts in the total |
| RectangleExclusion.CoverageBounds | Trough03/public/rectangle_exclusion.js:180-190 | the coverage of a cell of positive area is a number in [0, 1], and 0 without rectangles |
| RectangleExclusion.CoverageOfEnclosedCell | Trough03/public/rectangle_exclusion.js:180-190 | a cell inside a rectangle is fully covered |
| RectangleExclusion.ClosestPoint | Trough03/public/rectangle_exclusion.js:154-156 | the clamped point lies in the rectangle, and is the point itself for a point inside |
| RectangleExclusion.SquaredDistance | Trough03/public/rectangle_exclusion.js:158-159 | the squared distance is never negative |
| RectangleExclusion.RepelStrengthProps | Trough03/public/rectangle_exclusion.js:158-177 | no push for a point inside or beyond the radius; the strength is in [0, strength], equals it within distance 1 and is `strength/d²` beyond |
| RectangleExclusion.InverseSquareCap | Trough03/public/rectangle_exclusion.js:163-166 | `strength/d²` is at least `strength` within distance 1 and at most it beyond |
| RectangleExclusion.Pushes | Trough03/public/rectangle_exclusion.js:143-147 | one push per rectangle, in order |
| RectangleExclusion.SumVecsAppend | Trough03/public/rectangle_exclusion.js:143-147 | summing two lists of vectors adds their sums |
| RectangleExclusion.RepulsionSuperposition | Trough03/public/rectangle_exclusion.js:139-150 | no rectangles give no push, and the pushes of two lists of rectangles add up |
| RectangleExclusion.RepulsionBound | Trough03/public/rectangle_exclusion.js:163-175 | with a unit direction, no rectangle pushes harder than `strength` along an axis |
| RectangleExclusion.RectangleExclusion.constructor | Trough03/public/rectangle_exclusion.js:4-10 | no rectangles, no drag, no blocked cells |
| RectangleExclusion.RectangleExclusion.StartDrawingRectangle | Trough03/public/rectangle_exclusion.js:18-28 | a drag starts at the pointer with an empty preview; the rectangles and blocked set stay |
| RectangleExclusion.RectangleExclusion.UpdateCurrentRectangle | Trough03/public/rectangle_exclusion.js:30-35 | the preview follows the pointer when there is one |
| RectangleExclusion.RectangleExclusion.FinishDrawingRectangle | Trough03/public/rectangle_exclusion.js:37-61 | without a preview nothing changes; otherwise the normalised rectangle is appended iff both sides exceed 10, and the preview is dropped |
| RectangleExclusion.RectangleExclusion.ClearRectangles | Trough03/public/rectangle_exclusion.js:205-208 | the list is emptied and the blocked set is kept |
| RectangleExclusion.RectangleExclusion.CalculateCellCoverage | Trough03/public/rectangle_exclusion.js:180-190 | the summing loop computes the coverage |
| RectangleExclusion.RectangleExclusion.CalculateRectangleRepulsion | Trough03/public/rectangle_exclusion.js:139-150 | the summing loop computes the component-wise sum of the pushes |
| RectangleExclusion.RectangleExclusion.BlockCoveredCells | Trough03/public/rectangle_exclusion.js:106-132 | the loop blocks exactly the cells whose coverage reaches the threshold, clears them and leaves the others untouched; every blocked index is a cell's |
| RectangleExclusion.RectangleExclusion.UpdateBlockedCells | Trough03/public/rectangle_exclusion.js:100-137 | the blocked set is exactly the cells whose coverage reaches the threshold (none without rectangles); those cells are cleared and the rest are untouched |
| GridManager.GridSpansBand | Trough03/public/grid_manager.js:15-31 | the first cell starts at the band's top-left corner and the last ends at its bottom-right corner |
| GridManager.NeighboursTouch | Trough03/public/grid_manager.js:26-31 | horizontally and vertically adjacent cells share an edge |
| GridManager.GridCellsApart | Trough03/public/grid_manager.js:23-41 | distinct cells of the grid do not overlap |
| GridManager.GridCellInsideBand | Trough03/public/grid_manager.js:15-31 | every cell lies in the padded band |
| GridManager.BuildGrid | Trough03/public/grid_manager.js:23-41 | rows·cols fresh empty cells, cell k at row k div cols and column k mod cols with its grid rectangle and index k |
| GridManager.EmptyCells | Trough03/public/grid_manager.js:64-67 | the filter keeps exactly the empty cells |
| GridManager.GridManager.constructor | Trough03/public/grid_manager.js:4-9 | no cells, cursor 0, no drag |
| GridManager.GridManager.InitializeGrid | Trough03/public/grid_manager.js:12-42 | the cells become `rows * cols` fresh empty grid cells, cell k at row k / cols and column k % cols of the layout whose top padding and bottom padding are the given fractions of the canvas height |
| GridManager.GridManager.GetNextCell | Trough03/public/grid_manager.js:61-92 | random mode: an empty cell when one exists, else any cell; sequential mode with n ≥ 2: `cells[idx % n]` with the cursor at `(idx+1) % n`; with n ≤ 1: null |
| GridManager.GridManager.PopulateAllCells | Trough03/public/grid_manager.js:94-99 | every cell is marked complete and nothing else changes |
| GridManager.GridManager.ResetAllCells | Trough03/public/grid_manager.js:110-118 | every cell is emptied; its geometry and index stay |
| GridManager.GridManager.StartDrawingCustomCell | Trough03/public/grid_manager.js:121-131 | a drag starts at the pointer with an empty preview |
| GridManager.GridManager.UpdateCustomCell | Trough03/public/grid_manager.js:133-138 | the preview follows the pointer when there is one |
| GridManager.GridManager.FinishDrawingCustomCell | Trough03/public/grid_manager.js:154-188 | null and no change without a preview; otherwise a new empty cell with the normalised rectangle, index `|cells|` and start time 0 is appended iff both sides exceed 10, and the preview is dropped |
| TextManager.SplitOnSpace | Trough03/public/text_manager.js:7-10 | `split(' ')` always yields at least one word |
| TextManager.SplitJoin | Trough03/public/text_manager.js:7-10 | joining the words with single spaces gives the text back, and no word holds a space |
| TextManager.JoinSplit | Trough03/public/text_manager.js:7-10 | words without spaces are recovered by splitting their join |
| TextManager.Runs | Trough03/public/text_manager.js:21-31 | the runs are non-empty, at most as many as the points, and absent only for no points |
| TextManager.RunsConcat | Trough03/public/text_manager.js:21-34 | the runs concatenate back to the live points |
| TextManager.RunsMaximal | Trough03/public/text_manager.js:21-31 | each run has one stroke index and neighbouring runs have different ones |
| TextManager.PathKeepsLongRuns | Trough03/public/text_manager.js:23-34 | when every run has two points or more, the path is all the live points |
| TextManager.PathNoLonger | Trough03/public/text_manager.js:23-34 | the path never has more points than the live points |
| TextManager.CollectStep | Trough03/public/text_manager.js:20-30 | a point of another stroke closes the run being read (kept only with two points or more) and starts a new one; a point of the same stroke extends the run |
| TextManager.FlattenPath | Trough03/public/text_manager.js:16-34 | the collecting loop builds the concatenation of the runs of two points or more |
| TextManager.CumulativeDistances | Trough03/public/text_manager.js:39-45 | the table starts at 0 with one entry per path point, entry k is the path length up to point k, and the total is the path length |
| TextManager.PathLengthMonotone | Trough03/public/text_manager.js:41-44 | for a non-negative metric the running length never decreases |
| TextManager.DistancesAscending | Trough03/public/text_manager.js:39-45 | the table starts at 0, never decreases and ends at the total length |
| TextManager.FirstSegment | Trough03/public/text_manager.js:123-124 | the search stops at the first segment it does not pass over, and finds none only when it passes all |
| TextManager.GetPositionAtDistance | Trough03/public/text_manager.js:122-144 | the search loop returns the position of the first segment ending at or after the target, skipping zero-length segments |
| TextManager.SkippedPrefix | Trough03/public/text_manager.js:123-124 | after passing the earlier segments, the distance reached is below the target or 0 |
| TextManager.PositionFound | Trough03/public/text_manager.js:122-144 | a target within a path of positive length is found |
| TextManager.PositionMissing | Trough03/public/text_manager.js:122-144 | a target beyond the end, or any target on a zero-length path, gives null |
| TextManager.PositionOnSegment | Trough03/public/text_manager.js:124-140 | a found position is on a segment spanning the target, with t in [0, 1] and x, y between the segment's ends |
| TextManager.TextProgress | Trough03/public/text_manager.js:55-56 | the text progress is clamped to [0, 1] |
| TextManager.NoTextBeforeDelay | Trough03/public/text_manager.js:55-56 | no text before the drawing progress reaches the delay |
| TextManager.AllTextAtEnd | Trough03/public/text_manager.js:55-56 | all text once the drawing is complete |
| TextManager.TextReachOnPath | Trough03/public/text_manager.js:55-58 | the distance the text reaches lies in [0, total length] |
| TextManager.Letters | Trough03/public/text_manager.js:59-100 | every listed letter position exists in the words |
| TextManager.LetterRank | Trough03/public/text_manager.js:59-100 | letter l of word w comes right after the letters of the earlier words |
| TextManager.LettersInReadingOrder | Trough03/public/text_manager.js:59-100 | the letters come once each, in strict reading order: words are not revisited or wrapped |
| TextManager.WordStartMonotone | Trough03/public/text_manager.js:68-75 | with non-negative spacings a later word never starts earlier |
| TextManager.CursorStops | Trough03/public/text_manager.js:59-61 | where the loop stops, the next letter's cursor is at or beyond the reachable distance |
| TextManager.PlaceGlyphs | Trough03/public/text_manager.js:59-100 | glyph k is the k-th letter, tried at its cursor (letter spacing per letter plus word spacing per finished word) below the reachable distance, looked up on the path; the loop stops at the first letter at or beyond that distance |
| TextManager.WordsCycle | Trough03/public/text_manager.js:110-117 | the words cycle with period `|words|`, starting from the first |
| TextManager.TextManager.constructor | Trough03/public/text_manager.js:5 | no words |
| TextManager.TextManager.Initialize | Trough03/public/text_manager.js:7-10 | the words are the text split at single spaces, which joins back to the text |
| TextManager.TextManager.DrawTextAlongPath | Trough03/public/text_manager.js:12-101 | nothing for fewer than 2 live points, a path of fewer than 2 points or a path shorter than the letter spacing; otherwise the glyphs laid out on the path of the live points up to `totalLength * textProgress` |
| TextManager.TextManager.DrawTextAtPoints | Trough03/public/text_manager.js:103-120 | one label per live point, at the point, with word `k mod |words|` |
| CanvasManager.CanvasKeepsAspectRatio | Trough03/public/canvas_manager.js:10-17 | both branches keep width:height equal to the configured aspect ratio |
| CanvasManager.CanvasFitsWindow | Trough03/public/canvas_manager.js:10-17 | the canvas fits the window; its width is the window's when the derived height fits, and otherwise its height is the window's |
| Sketch.FirstOpenAttempt | p5js-app/public/sketch.js:342-355 | a found attempt is within the pass and its cell is not blocked |
| Sketch.FirstOpenAttemptIsFirst | p5js-app/public/sketch.js:342-355 | the scan passes only blocked cells, and finds nothing exactly when all remaining cells are blocked |
| Sketch.ProbesCoverAll | p5js-app/public/sketch.js:343-344 | n round-robin attempts from any cursor examine every cell |
| Sketch.SequentialSelectionCorrect | p5js-app/public/sketch.js:340-356 | the intended sequential choice never throws; it gives up iff every cell is blocked; otherwise it picks an unblocked cell, passes over only blocked ones, and leaves the cursor after it |
| Sketch.ScopeErrorNeverPicks | p5js-app/public/sketch.js:341-355 | the loop as written never picks a cell and throws for two cells or more, where the intended choice picks the cell at the cursor |
| Sketch.LastCandidateSkipped | p5js-app/public/sketch.js:345-351 | with the give-up test before the blocked test, a free last candidate is never examined, while the intended choice picks it |
| Sketch.LastCandidateSkippedExample | p5js-app/public/sketch.js:345-351 | two cells with the first blocked: the loop as written gives up, the intended choice picks the second |
| Sketch.AvailableCells | p5js-app/public/sketch.js:317-321 | the filter keeps exactly the empty unblocked cells |
| Sketch.UnblockedCells | p5js-app/public/sketch.js:327-331 | the filter keeps exactly the unblocked cells |
| Sketch.Sketch.constructor | p5js-app/public/sketch.js:12-26 | no cells, no active cell, cursor 0, no rectangles, no blocked cells and no rectangle being dragged |
| Sketch.Sketch.UpdateBlockedCells | p5js-app/public/sketch.js:931-967 | with exclusion disabled or no rectangles nothing is blocked; otherwise exactly the cells whose coverage reaches the threshold are blocked and cleared |
| Sketch.Sketch.InitializeCells | p5js-app/public/sketch.js:116-150 | no cells in custom mode; otherwise a fresh grid in the band between the pixel paddings; with exclusion enabled the blocked set is recomputed for the new cells and holds only indices of existing cells |
| Sketch.Sketch.ResetAllCells | p5js-app/public/sketch.js:378-386 | every cell is emptied; geometry and index stay |
| Sketch.Sketch.PopulateAllCells | p5js-app/public/sketch.js:1034-1045 | every unblocked cell gets a drawing, becomes complete with all points live; blocked cells are untouched |
| Sketch.PopulateCell | p5js-app/public/sketch.js:1039-1043 | one cell is set up, marked complete and fully revealed |
| Sketch.PopulateCells | p5js-app/public/sketch.js:1035-1044 | every cell outside the blocked set is populated with the draws for its position; blocked cells are untouched |
| Sketch.Sketch.ChooseRandomCell | p5js-app/public/sketch.js:315-338 | an empty unblocked cell when one exists, else an unblocked cell; null exactly when every cell is blocked |
| Sketch.Sketch.ChooseSequentialCell | p5js-app/public/sketch.js:339-356 | the round-robin loop makes the intended sequential choice and leaves the cursor as it says |
| Sketch.Sketch.StartNextCellDrawing | p5js-app/public/sketch.js:307-368 | nothing while the active cell animates; otherwise the random choice, or in sequential mode the corrected round-robin choice (where the code as written throws for two or more cells), then the chosen cell is reset, set up and made active; every other cell is untouched |
| Sketch.Sketch.BeginDrawing | p5js-app/public/sketch.js:358-367 | the chosen cell is reset and set up and becomes the active cell; with an empty dataset the setup throws and the active cell stays |
| Sketch.Sketch.UpdateActiveCell | p5js-app/public/sketch.js:263-283 | no change unless the active cell animates; at progress ≥ 1 it is complete with all points live and stops being active; otherwise its reveal advances; its drawing and start time stay |
| Sketch.Sketch.MouseReleasedRectangle | p5js-app/public/sketch.js:1111-1139 | with exclusion enabled and a drag in progress, the normalised rectangle is kept iff both sides exceed 10, the preview is dropped, and the blocked cells are recomputed only when it is kept |
| Sketch.Sketch.ClearExclusionRectangles | p5js-app/public/sketch.js:997-1001 | no rectangles and no blocked cells remain, and no cell changes |

## Left out

- Rendering is not modelled: drawing points, lines and curves, clearing cells, borders, the preview and rectangle outlines, FPS and debug text, and the text transforms. These are canvas effects.
- The wobble (`applyJiggle`), pointer repulsion and texture displacement are not modelled. They use sin, cos, atan2 and image pixels, and enter only as the `Perturbation` a live point's position is set to.
- The direction of a rectangle push (atan2, cos, sin) is not modelled. It is the caller's `Direction`.
- `dist` is a square root; it is the caller's `Metric`. The repulsion gate is stated on squared distance, which agrees with the source for distances ≥ 0.
- The glyph angle (`atan2` of the segment) is not modelled. The glyph rotation is a rendering effect.
- `preload`, `parseNDJSON`, image loading, timers (`setTimeout` between drawings), `keyPressed`, `mousePressed`, `mouseDragged`, `windowResized` and the custom-cell branch of `mouseReleased` are event and I/O glue. Only the rectangle branch of `mouseReleased` is modelled.
- `textPositions` is always set to an empty list and never read. The model's cell has no such field.
- `getCells` returns the `cells` field itself, so it is that field.
- `isBlocked` is membership in the blocked set (`RectangleExclusion.RectangleExclusion.IsBlocked`); it has no contract of its own.
- `Trough03/public/main.js`, `p5js-app/public/config.js` and `Trough03/public/jiggle_effect.js` are not part of this model.
- The shadowed first `updateJiggle` and `calculateBlockedCellRepulsion` of the sketch are not modelled. They are dead code.
- The grid's `drawCells` is an empty loop, and `drawTextAlongPath` is never called by the sketch's drawing code. The model covers their logic, not what reaches the screen.
- Text is a sequence of Unicode characters, not of UTF-16 code units. The source's `split`, `length` and `charAt` count code units, so a character outside the Basic Multilingual Plane (an emoji, say) is one letter in the model and two in the source, which places each half at its own cursor and moves every later letter one more `LETTER_SPACING` along. For text in the Basic Multilingual Plane, such as the configured ASCII text, the two agree.
- Floating point is not modelled. Coordinates are exact reals, and `floor` is `.Floor` on reals.
- DrawingManager.SetupCellDrawing: requires every usable stroke to have at least as many y values as x values. The source reads `undefined` past the end of a shorter y array and maps it to NaN.
- DrawingManager.UpdateActiveCell: requires a non-zero duration. A zero `ANIMATION.DURATION` makes the source's progress infinite or NaN.
- Sketch.Sketch.UpdateActiveCell: requires a non-zero duration, for the same reason.
- TextManager.TextProgress: requires a delay other than 1. At 1 the source divides by zero and clamps ±Infinity or NaN.
- TextManager.TextManager.DrawTextAlongPath: requires a delay other than 1, for the same reason.
- GridManager.GridManager.GetNextCell: with no cells the source sets the cursor to `(idx + 1) % 0`, which is NaN. The model leaves it unchanged.
- Sketch.Sketch.PopulateAllCells: requires a non-empty dataset. Its only caller runs it after checking that, and the setup would throw on the first unblocked cell otherwise. It reads `millis()` once, as `now`, for every cell.
- Sketch.Sketch.ChooseSequentialCell: models the intended loop (see Findings), not the code as written. The code as written is `Sketch.SequentialAsWritten`.
- Sketch.Sketch.StartNextCellDrawing: in sequential mode it uses the corrected choice of `ChooseSequentialCell`. With two or more cells the code as written throws a ReferenceError after advancing the cursor and starts no drawing; the model picks, resets and activates a cell instead.
- DrawingManager.SetupCellDrawing: fits the drawing into `DrawArea`, the area as written, not the corrected `PaddedArea` of the Findings. The two agree on square cells, and keeping the source's placement keeps every grid cell's drawing where the sketch puts it.

## Findings

| source | as written | input that shows it | evidently intended | confidence | as-written member | corrected member |
|---|---|---|---|---|---|---|
| p5js-app/public/sketch.js:353-355 | `isBlocked` is declared with `let` inside the `do` body and read in the `while` condition, where it is not in scope | two unblocked cells, cursor 0, sequential mode: the cursor moves to 1 and the condition throws a ReferenceError, so no cell is drawn | repeat while the candidate is blocked | not executed | Sketch.SequentialAsWritten, Sketch.ScopeErrorNeverPicks | Sketch.SequentialSelection, Sketch.SequentialSelectionCorrect |
| Trough03/public/drawing_manager.js:36-40 | the padding is `cell.width * CELL_PADDING` on all four sides, so the vertical inset follows the width | a custom cell 500 wide and 20 tall with padding fraction 0.1: the area starts at y = 50, past the cell's bottom at 20, and is -80 tall, so the drawing is flipped vertically and spans y from 50 to -30, beyond both edges of the cell | a drawing area within the cell, each side inset by its own fraction | medium; not executed | DrawingManager.DrawArea, DrawingManager.DrawAreaSpillsExample | DrawingManager.PaddedArea, DrawingManager.PaddedAreaWithinCell |
| p5js-app/public/sketch.js:348 | the give-up test `attempts >= cells.length` runs before the candidate's blocked test | two cells, the first blocked, cursor 0: the loop gives up although the second cell is free; with a single free cell it always gives up | examine every cell once and give up only when all are blocked | not executed | Sketch.CheckBeforeBlockedAsWritten, Sketch.LastCandidateSkippedExample | Sketch.SequentialSelection, Sketch.SequentialSelectionCorrect |
