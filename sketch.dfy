/** The monolithic sketch's own state and control flow: the cells it lays
    out, the active cell, the round-robin cursor, and the handlers that
    choose, populate, reset and block cells. The per-cell work is shared
    with the drawing manager, the grid builder and the exclusion
    rectangles. */
module Sketch {
  import opened Geometry
  import opened Cells
  import opened DrawingManager
  import opened RectangleExclusion
  import opened GridManager

  /** The configuration values the sketch reads. */
  datatype Config = Config(
    rows: nat, cols: nat,
    topPadding: real, bottomPadding: real,   // in pixels
    customCells: bool,                       // MODES.CUSTOM_CELLS
    randomRedraw: bool,                      // GRID.RANDOM_REDRAW
    exclusionEnabled: bool,                  // RECTANGLE_EXCLUSION.ENABLED
    coverageThreshold: real,
    recognizedProbability: real,
    cellPadding: real,
    duration: real)                          // ANIMATION.DURATION

  // ---------------------------------------------------------------------
  // The sequential choice of the next cell
  // ---------------------------------------------------------------------

  /** How a sequential choice ends: a cell picked at `position` with the
      cursor left at `cursor`; no cell, with the cursor left at
      `finalCursor` (absent when the source makes it NaN); or an exception
      thrown with the cursor at `cursorWhenThrown`. */
  datatype Outcome =
    | Picked(position: nat, cursor: nat)
    | GaveUp(finalCursor: Option<nat>)
    | Threw(cursorWhenThrown: nat)

  /** The position the scan examines on attempt `a` (counting from 0) when
      the cursor started at `idx`. */
  function Probe(idx: nat, n: nat, a: nat): (p: nat)
    requires n > 0
    ensures p < n
  {
    (idx + a) % n
  }

  /** The first attempt at or after `a` whose position is not blocked. */
  function FirstOpenAttempt(blocked: set<nat>, n: nat, idx: nat, a: nat): (r: Option<nat>)
    requires 0 < n && a <= n
    ensures r.Some? ==> a <= r.value < n && Probe(idx, n, r.value) !in blocked
    decreases n - a
  {
    if a == n then None
    else if Probe(idx, n, a) !in blocked then Some(a)
    else FirstOpenAttempt(blocked, n, idx, a + 1)
  }

  /** The scan stops at the first open position: every attempt before it
      is blocked, and it finds nothing exactly when every remaining attempt
      is blocked. */
  lemma {:induction false} FirstOpenAttemptIsFirst(blocked: set<nat>, n: nat, idx: nat, a: nat)
    requires 0 < n && a <= n
    ensures var r := FirstOpenAttempt(blocked, n, idx, a);
            && (r.None? <==> forall b :: a <= b < n ==> Probe(idx, n, b) in blocked)
            && (r.Some? ==> forall b :: a <= b < r.value ==> Probe(idx, n, b) in blocked)
    decreases n - a
  {
    if a < n && Probe(idx, n, a) in blocked {
      FirstOpenAttemptIsFirst(blocked, n, idx, a + 1);
    }
  }

  /** The `n` attempts from any cursor examine every position below `n`. */
  lemma ProbesCoverAll(idx: nat, n: nat, p: nat)
    requires p < n
    ensures exists b :: 0 <= b < n && Probe(idx, n, b) == p
  {
    var q, r := idx / n, idx % n;
    assert idx == q * n + r;
    if p >= r {
      var b := p - r;
      ModUnique(idx + b, n, q, p);
      assert Probe(idx, n, b) == p;
    } else {
      var b := p + n - r;
      assert idx + b == (q + 1) * n + p;
      ModUnique(idx + b, n, q + 1, p);
      assert Probe(idx, n, b) == p;
    }
  }

  /** The cursor after `attempts` attempts from `idx` (kept modulo `n`
      from the first attempt on) points at the next probe. */
  lemma CursorStep(idx: nat, n: nat, attempts: nat, cursor: nat)
    requires n > 0
    requires attempts == 0 ==> cursor == idx
    requires attempts > 0 ==> cursor == Probe(idx, n, attempts)
    ensures cursor % n == Probe(idx, n, attempts)
    ensures (cursor + 1) % n == Probe(idx, n, attempts + 1)
  {
    ModSucc(idx + attempts, n);
    ModSucc(cursor, n);
  }

  /** The sequential choice the loop at `sketch.js:341-355` is meant to
      make: starting at the cursor, take the first cell that is not
      blocked, examining each of the `n` cells at most once, and leave the
      cursor just after it; with every cell blocked, give up after `n`
      attempts. With no cells there is nothing to choose. */
  function SequentialSelection(blocked: set<nat>, n: nat, idx: nat): Outcome
  {
    if n == 0 then GaveUp(Some(idx))
    else match FirstOpenAttempt(blocked, n, idx, 0)
      case Some(a) => Picked(Probe(idx, n, a), Probe(idx, n, a + 1))
      case None => GaveUp(Some(Probe(idx, n, n)))
  }

  /** The intended choice never throws; it gives up exactly when every
      cell is blocked, leaving the cursor where it pointed; otherwise the
      cell it picks is not blocked, every cell it passed over on the way
      is, and the cursor moves to the following cell. */
  lemma SequentialSelectionCorrect(blocked: set<nat>, n: nat, idx: nat)
    ensures var o := SequentialSelection(blocked, n, idx);
            && !o.Threw?
            && (o.GaveUp? <==> forall p :: 0 <= p < n ==> p in blocked)
            && (o.GaveUp? ==> o.finalCursor == Some(if n == 0 then idx else idx % n))
            && (o.Picked? ==>
                  && o.position < n && o.position !in blocked
                  && o.cursor == (o.position + 1) % n
                  && exists a :: 0 <= a < n && o.position == Probe(idx, n, a) &&
                       forall b :: 0 <= b < a ==> Probe(idx, n, b) in blocked)
  {
    if n > 0 {
      var o := SequentialSelection(blocked, n, idx);
      var r := FirstOpenAttempt(blocked, n, idx, 0);
      FirstOpenAttemptIsFirst(blocked, n, idx, 0);
      if r.None? {
        ModPeriod(idx, n);
        forall p | 0 <= p < n ensures p in blocked {
          ProbesCoverAll(idx, n, p);
        }
      } else {
        var a := r.value;
        ModSucc(idx + a, n);
        assert Probe(idx, n, a) !in blocked;
      }
    }
  }

  /** The loop as written: `isBlocked` is declared with `let` inside the
      `do` body, so the `while` condition names a variable that is not in
      scope. With two cells or more the first attempt advances the cursor
      and the condition then throws a ReferenceError. With one cell the
      give-up test (`attempts >= cells.length`) returns first; with none,
      the cursor becomes `(idx + 1) % 0`, which is NaN. */
  function SequentialAsWritten(n: nat, idx: nat): Outcome
  {
    if n == 0 then GaveUp(None)
    else if 1 >= n then GaveUp(Some(Probe(idx, n, 1)))
    else Threw(Probe(idx, n, 1))
  }

  /** As written, the sequential branch never picks a cell: it throws
      whenever there are two cells or more, although with nothing blocked
      the intended choice is the cell at the cursor. */
  lemma ScopeErrorNeverPicks(blocked: set<nat>, n: nat, idx: nat)
    ensures !SequentialAsWritten(n, idx).Picked?
    ensures n >= 2 ==> SequentialAsWritten(n, idx) == Threw((idx + 1) % n)
    ensures n > 0 && blocked == {} ==> SequentialSelection(blocked, n, idx) == Picked(idx % n, (idx + 1) % n)
  {
    if n > 0 && blocked == {} {
      assert FirstOpenAttempt(blocked, n, idx, 0) == Some(0);
    }
  }

  /** The loop with the scope of `isBlocked` repaired but the order of its
      tests as written: the give-up test at `sketch.js:348` runs before the
      blocked test, so attempt number `n` (the last) is never examined. */
  function CheckBeforeBlockedAsWritten(blocked: set<nat>, n: nat, idx: nat, a: nat): Outcome
    requires 0 < n && a < n
    decreases n - a
  {
    if a + 1 >= n then GaveUp(Some(Probe(idx, n, a + 1)))
    else if Probe(idx, n, a) !in blocked then Picked(Probe(idx, n, a), Probe(idx, n, a + 1))
    else CheckBeforeBlockedAsWritten(blocked, n, idx, a + 1)
  }

  /** When every candidate but the last is blocked, the loop as written
      gives up, while the intended choice picks the last candidate, which
      is free. With a single free cell that is the only one. */
  lemma {:induction false} LastCandidateSkipped(blocked: set<nat>, n: nat, idx: nat, a: nat)
    requires 0 < n && a < n
    requires forall b :: a <= b < n - 1 ==> Probe(idx, n, b) in blocked
    requires Probe(idx, n, n - 1) !in blocked
    ensures CheckBeforeBlockedAsWritten(blocked, n, idx, a) == GaveUp(Some(Probe(idx, n, n)))
    ensures FirstOpenAttempt(blocked, n, idx, a) == Some(n - 1)
    decreases n - a
  {
    if a + 1 < n {
      LastCandidateSkipped(blocked, n, idx, a + 1);
    }
  }

  /** A concrete case: two cells, the first blocked, the cursor at 0. The
      loop as written gives up with the cursor back at 0; the intended
      choice is the free second cell. */
  lemma LastCandidateSkippedExample()
    ensures CheckBeforeBlockedAsWritten({0}, 2, 0, 0) == GaveUp(Some(0))
    ensures SequentialSelection({0}, 2, 0) == Picked(1, 0)
  {
    LastCandidateSkipped({0}, 2, 0, 0);
  }

  // ---------------------------------------------------------------------
  // The random choice of the next cell
  // ---------------------------------------------------------------------

  /** The empty cells that are not blocked, in grid order. */
  function AvailableCells(cells: seq<Cell>, blocked: set<nat>): (r: seq<Cell>)
    reads cells
    ensures forall k :: 0 <= k < |r| ==> r[k] in cells && r[k].state == Empty && r[k].cellIndex !in blocked
    ensures forall k :: 0 <= k < |cells| && cells[k].state == Empty && cells[k].cellIndex !in blocked ==> cells[k] in r
  {
    if cells == [] then []
    else
      var last := cells[|cells| - 1];
      AvailableCells(cells[..|cells| - 1], blocked) +
      (if last.state == Empty && last.cellIndex !in blocked then [last] else [])
  }

  /** The cells that are not blocked, in grid order. */
  function UnblockedCells(cells: seq<Cell>, blocked: set<nat>): (r: seq<Cell>)
    reads cells
    ensures forall k :: 0 <= k < |r| ==> r[k] in cells && r[k].cellIndex !in blocked
    ensures forall k :: 0 <= k < |cells| && cells[k].cellIndex !in blocked ==> cells[k] in r
  {
    if cells == [] then []
    else
      var last := cells[|cells| - 1];
      UnblockedCells(cells[..|cells| - 1], blocked) + (if last.cellIndex !in blocked then [last] else [])
  }

  // ---------------------------------------------------------------------
  // The sketch's state
  // ---------------------------------------------------------------------

  /** A cell after `populateAllCells` set it up with the drawing the draws
      `roll` and `pick` choose, marked it complete and revealed all of it. */
  twostate predicate Populated(c: Cell, drawings: seq<Drawing>, config: Config, roll: real, pick: nat,
                               now: real, perturb: Perturbation)
    reads c
  {
    && SameGeometry(c)
    && c.state == Complete
    && c.drawing == ChooseDrawing(drawings, roll < config.recognizedProbability, pick)
    && c.drawing.Some? && WellFormed(c.drawing.value.strokes)
    && c.allPoints == Sample(c.drawing.value.strokes, DrawArea(c.Bounds(), config.cellPadding))
    && |c.livePoints| == |c.allPoints|
    && Perturbed(c.livePoints, perturb)
    && c.animationStartTime == now
  }

  /** One step of `populateAllCells`: the cell gets the drawing the
      draws choose, is marked complete and is revealed in full. */
  method PopulateCell(cell: Cell, drawings: seq<Drawing>, config: Config, roll: real, pick: nat,
                      now: real, perturb: Perturbation)
    requires cell.Valid() && drawings != []
    requires forall d :: d in drawings ==> WellFormed(d.strokes)
    modifies cell
    ensures cell.Valid()
    ensures Populated(cell, drawings, config, roll, pick, now, perturb)
  {
    var ok := SetupCellDrawing(cell, drawings, roll, config.recognizedProbability, pick, config.cellPadding, now);
    cell.state := Complete;
    UpdateAllLivePoints(cell, perturb);
  }

  /** The loop of `populateAllCells`: every cell whose index is not in
      `blocked` is populated with the draws for its position, the others
      are left alone. */
  method PopulateCells(cells: seq<Cell>, blocked: set<nat>, drawings: seq<Drawing>, config: Config,
                       rolls: nat -> real, picks: nat -> nat, now: real, perturb: Perturbation)
    requires CellsValid(cells) && drawings != []
    requires forall d :: d in drawings ==> WellFormed(d.strokes)
    modifies cells
    ensures CellsValid(cells)
    ensures forall k :: 0 <= k < |cells| && cells[k].cellIndex in blocked ==> unchanged(cells[k])
    ensures forall k :: 0 <= k < |cells| && cells[k].cellIndex !in blocked ==>
              Populated(cells[k], drawings, config, rolls(k), picks(k), now, perturb)
  {
    for i := 0 to |cells|
      invariant CellsValid(cells)
      invariant forall k :: 0 <= k < |cells| && (i <= k || cells[k].cellIndex in blocked) ==> unchanged(cells[k])
      invariant forall k :: 0 <= k < i && cells[k].cellIndex !in blocked ==>
                  Populated(cells[k], drawings, config, rolls(k), picks(k), now, perturb)
    {
      var cell := cells[i];
      assert forall k :: 0 <= k < |cells| && k != i ==> cells[k] != cell;
      if cell.cellIndex !in blocked {
        PopulateCell(cell, drawings, config, rolls(i), picks(i), now, perturb);
      }
    }
  }

  class Sketch {
    const config: Config
    const dogDrawings: seq<Drawing>          // the parsed dataset
    const exclusion: RectangleExclusion      // the rectangles and the blocked set
    var cells: seq<Cell>
    var activeCell: Cell?
    var nextCellIndex: nat

    /** The cells are numbered by position, the exclusion state keeps its
        invariant, the active cell (which a re-layout can leave outside
        `cells`) is a valid cell, and the dataset's strokes are well formed. */
    ghost predicate Valid()
      reads this, cells, exclusion, activeCell
    {
      && CellsValid(cells)
      && exclusion.Valid()
      && (activeCell != null ==> activeCell.Valid())
      && (forall d :: d in dogDrawings ==> WellFormed(d.strokes))
    }

    /** The indices that count as blocked: the blocked set when exclusion
        is enabled, and none otherwise. */
    function Blocked(): set<nat>
      reads exclusion
    {
      if config.exclusionEnabled then exclusion.blockedCells else {}
    }

    constructor (config: Config, dogDrawings: seq<Drawing>)
      requires forall d :: d in dogDrawings ==> WellFormed(d.strokes)
      ensures Valid()
      ensures this.config == config && this.dogDrawings == dogDrawings
      ensures cells == [] && activeCell == null && nextCellIndex == 0
      ensures fresh(exclusion) && exclusion.exclusionRectangles == [] && exclusion.blockedCells == {}
      ensures !exclusion.isDrawingRectangle && exclusion.currentRectangle == None
    {
      this.config := config;
      this.dogDrawings := dogDrawings;
      exclusion := new RectangleExclusion();
      cells := [];
      activeCell := null;
      nextCellIndex := 0;
    }

    /** `updateBlockedCells`: with exclusion disabled the blocked set is
        emptied; otherwise it becomes the set of cells whose coverage
        reaches the threshold, each of which is cleared. */
    method UpdateBlockedCells()
      requires Valid()
      modifies exclusion, cells
      ensures Valid()
      ensures exclusion.exclusionRectangles == old(exclusion.exclusionRectangles)
      ensures exclusion.currentRectangle == old(exclusion.currentRectangle)
      ensures exclusion.isDrawingRectangle == old(exclusion.isDrawingRectangle)
      ensures exclusion.rectangleStart == old(exclusion.rectangleStart)
      ensures forall b :: b in exclusion.blockedCells ==> b < |cells|
      ensures forall k :: 0 <= k < |cells| ==>
                (k in exclusion.blockedCells <==>
                   && config.exclusionEnabled && exclusion.exclusionRectangles != []
                   && Blocks(Coverage(old(cells[k].Bounds()), exclusion.exclusionRectangles), config.coverageThreshold))
      ensures forall k :: 0 <= k < |cells| && k !in exclusion.blockedCells ==> unchanged(cells[k])
      ensures forall k :: 0 <= k < |cells| && k in exclusion.blockedCells ==> Cleared(cells[k])
    {
      if !config.exclusionEnabled {
        exclusion.blockedCells := {};
        return;
      }
      exclusion.UpdateBlockedCells(cells, config.coverageThreshold);
      ActiveCellStaysValid();
    }

    /** After the cells changed only by clearing, the active cell is still
        valid: it is one of them or it was not touched. */
    twostate lemma ActiveCellStaysValid()
      requires old(activeCell) == activeCell && old(cells) == cells
      requires old(activeCell != null ==> activeCell.Valid())
      requires CellsValid(cells)
      requires activeCell != null && activeCell !in cells ==> unchanged(activeCell)
      ensures activeCell != null ==> activeCell.Valid()
    {
    }

    /** `initializeCells`: in custom-cell mode there are no cells;
        otherwise a fresh grid over the canvas below `TOP_PADDING` and above
        `BOTTOM_PADDING`. With exclusion enabled the blocked set is then
        recomputed for the new cells. */
    method InitializeCells(width: real, height: real)
      requires Valid()
      modifies this, exclusion
      ensures Valid()
      ensures activeCell == old(activeCell) && nextCellIndex == old(nextCellIndex)
      ensures exclusion.exclusionRectangles == old(exclusion.exclusionRectangles)
      ensures config.customCells ==> cells == []
      ensures !config.customCells ==>
                var l := LayoutFromPixels(config.rows, config.cols, width, height, config.topPadding, config.bottomPadding);
                && |cells| == l.rows * l.cols
                && forall k :: 0 <= k < |cells| ==> fresh(cells[k]) && GridCell(l, cells[k], k)
      ensures config.exclusionEnabled ==>
                forall k :: 0 <= k < |cells| ==>
                  (k in exclusion.blockedCells <==>
                     exclusion.exclusionRectangles != [] &&
                     Blocks(Coverage(cells[k].Bounds(), exclusion.exclusionRectangles), config.coverageThreshold))
      ensures config.exclusionEnabled ==> forall b :: b in exclusion.blockedCells ==> b < |cells|
      ensures !config.exclusionEnabled ==> exclusion.blockedCells == old(exclusion.blockedCells)
    {
      var l := LayoutFromPixels(config.rows, config.cols, width, height, config.topPadding, config.bottomPadding);
      if config.customCells {
        cells := [];
      } else {
        cells := BuildGrid(l);
      }
      if config.exclusionEnabled {
        ghost var laidOut := cells;
        assert forall k :: 0 <= k < |cells| ==> fresh(cells[k]);
        label built:
        UpdateBlockedCells();
        assert !config.customCells ==> forall k :: 0 <= k < |cells| ==> GridCell(l, cells[k], k) by {
          if !config.customCells {
            forall k | 0 <= k < |cells| ensures GridCell(l, cells[k], k) {
              assert old@built(GridCell(l, cells[k], k));
            }
          }
        }
      }
    }

    /** `resetAllCells`: every cell becomes empty, with no drawing and no
        points; its place, size and number stay. */
    method ResetAllCells()
      requires Valid()
      modifies cells
      ensures Valid()
      ensures forall k :: 0 <= k < |cells| ==> Cleared(cells[k])
    {
      for i := 0 to |cells|
        invariant CellsValid(cells)
        invariant forall k :: 0 <= k < i ==> Cleared(cells[k])
        invariant forall k :: i <= k < |cells| ==> unchanged(cells[k])
      {
        cells[i].Clear();
      }
      ActiveCellStaysValid();
    }

    /** `populateAllCells`: every cell that is not blocked gets a drawing
        (chosen by the draws `rolls(k)` and `picks(k)` for cell `k`), is
        marked complete and has all of its points revealed and perturbed;
        blocked cells are not touched. The caller only runs it with a
        non-empty dataset. */
    method PopulateAllCells(rolls: nat -> real, picks: nat -> nat, now: real, perturb: Perturbation)
      requires Valid() && dogDrawings != []
      modifies cells
      ensures Valid()
      ensures forall k :: 0 <= k < |cells| && cells[k].cellIndex in Blocked() ==> unchanged(cells[k])
      ensures forall k :: 0 <= k < |cells| && cells[k].cellIndex !in Blocked() ==>
                Populated(cells[k], dogDrawings, config, rolls(k), picks(k), now, perturb)
    {
      var blocked := if config.exclusionEnabled then exclusion.blockedCells else {};
      PopulateCells(cells, blocked, dogDrawings, config, rolls, picks, now, perturb);
      ActiveCellStaysValid();
    }

    /** The random branch of `startNextCellDrawing`: an empty cell that is
        not blocked when there is one, otherwise any cell that is not
        blocked, and null when every cell is blocked. `pick` is the
        outcome of p5.js `random(list)`. */
    method ChooseRandomCell(pick: nat) returns (next: Cell?)
      requires Valid()
      ensures (exists k :: 0 <= k < |cells| && cells[k].state == Empty && cells[k].cellIndex !in Blocked()) ==>
                next != null && next.state == Empty
      ensures next != null ==> next in cells && next.cellIndex !in Blocked()
      ensures next == null <==> forall k :: 0 <= k < |cells| ==> cells[k].cellIndex in Blocked()
    {
      var blocked := Blocked();
      var availableCells := AvailableCells(cells, blocked);
      if |availableCells| > 0 {
        next := availableCells[pick % |availableCells|];
      } else {
        var unblockedCells := UnblockedCells(cells, blocked);
        if |unblockedCells| > 0 {
          next := unblockedCells[pick % |unblockedCells|];
        } else {
          next := null;
        }
      }
      if next == null {
        assert forall k :: 0 <= k < |cells| ==> cells[k].cellIndex in Blocked();
      } else {
        assert next in cells;
      }
    }

    /** The sequential branch of `startNextCellDrawing`, with the loop as
        `SequentialSelection` describes it: examine the cells round robin
        from the cursor, at most once each, and take the first one that is
        not blocked. */
    method ChooseSequentialCell() returns (next: Cell?)
      requires Valid()
      modifies this
      ensures Valid()
      ensures cells == old(cells) && activeCell == old(activeCell)
      ensures var o := SequentialSelection(Blocked(), |cells|, old(nextCellIndex));
              && (o.Picked? ==> next == cells[o.position] && nextCellIndex == o.cursor)
              && (o.GaveUp? ==> next == null && Some(nextCellIndex) == o.finalCursor)
    {
      var n := |cells|;
      if n == 0 {
        return null;
      }
      ghost var idx := nextCellIndex;
      ghost var blocked := Blocked();
      var attempts := 0;
      var isBlocked := true;
      next := null;
      while isBlocked
        invariant 0 <= attempts <= n == |cells|
        invariant attempts == 0 ==> nextCellIndex == idx
        invariant attempts > 0 ==> nextCellIndex == Probe(idx, n, attempts)
        invariant isBlocked ==>
                    (attempts < n && FirstOpenAttempt(blocked, n, idx, attempts) == FirstOpenAttempt(blocked, n, idx, 0))
        invariant !isBlocked ==>
                    (&& attempts > 0
                     && FirstOpenAttempt(blocked, n, idx, 0) == Some(attempts - 1)
                     && next == cells[Probe(idx, n, attempts - 1)])
        invariant cells == old(cells) && activeCell == old(activeCell)
        decreases n - attempts, isBlocked
      {
        CursorStep(idx, n, attempts, nextCellIndex);
        next := cells[nextCellIndex % n];
        nextCellIndex := (nextCellIndex + 1) % n;
        attempts := attempts + 1;
        isBlocked := config.exclusionEnabled && next.cellIndex in exclusion.blockedCells;
        if isBlocked && attempts >= n {
          return null;
        }
      }
    }

    /** `startNextCellDrawing`. Nothing happens while the active cell is
        animating. Otherwise a cell is chosen, at random or round robin
        (see `ChooseRandomCell` and `ChooseSequentialCell`); when one is
        chosen it is reset, given a drawing chosen by `roll` and
        `drawPick`, started at time `now` and made the active cell. With an
        empty dataset the source throws inside the setup, after resetting
        the cell; then the active cell stays as it was. The chosen cell is
        returned (null when none). */
    method StartNextCellDrawing(pick: nat, roll: real, drawPick: nat, now: real) returns (next: Cell?)
      requires Valid()
      modifies this, cells
      ensures Valid()
      ensures cells == old(cells)
      ensures old(activeCell != null && activeCell.state == Animating) ==>
                next == null && nextCellIndex == old(nextCellIndex)
      ensures !old(activeCell != null && activeCell.state == Animating) && config.randomRedraw ==>
                && nextCellIndex == old(nextCellIndex)
                && (next == null <==> forall k :: 0 <= k < |cells| ==> cells[k].cellIndex in Blocked())
                && (old(exists k :: 0 <= k < |cells| && cells[k].state == Empty && cells[k].cellIndex !in Blocked()) ==>
                      exists k :: 0 <= k < |cells| && cells[k] == next && old(cells[k].state) == Empty)
      ensures !old(activeCell != null && activeCell.state == Animating) && !config.randomRedraw ==>
                var o := SequentialSelection(Blocked(), |cells|, old(nextCellIndex));
                && (o.Picked? ==> next == cells[o.position] && nextCellIndex == o.cursor)
                && (o.GaveUp? ==> next == null && Some(nextCellIndex) == o.finalCursor)
      ensures next == null ==> activeCell == old(activeCell) && forall k :: 0 <= k < |cells| ==> unchanged(cells[k])
      ensures next != null ==>
                && next in cells && next.cellIndex !in Blocked()
                && SameGeometry(next)
                && next.drawing == ChooseDrawing(dogDrawings, roll < config.recognizedProbability, drawPick)
                && (dogDrawings != [] ==>
                      && next.state == Animating && next.livePoints == [] && next.animationStartTime == now
                      && next.allPoints == Sample(next.drawing.value.strokes, DrawArea(next.Bounds(), config.cellPadding))
                      && activeCell == next)
                && (dogDrawings == [] ==>
                      && next.state == Empty && next.allPoints == [] && next.livePoints == []
                      && activeCell == old(activeCell))
                && forall k :: 0 <= k < |cells| && cells[k] != next ==> unchanged(cells[k])
    {
      if activeCell != null && activeCell.state == Animating {
        return null;
      }
      if config.randomRedraw {
        next := ChooseRandomCell(pick);
      } else {
        next := ChooseSequentialCell();
      }
      if next == null {
        return;
      }
      BeginDrawing(next, roll, drawPick, now);
    }

    /** The end of `startNextCellDrawing`: the chosen cell is reset, set up
        with the drawing `roll` and `drawPick` choose, started at `now`, and
        made the active cell. With an empty dataset the setup throws after
        the reset, and the active cell stays as it was. */
    method BeginDrawing(next: Cell, roll: real, drawPick: nat, now: real)
      requires Valid() && next in cells
      modifies this, next
      ensures Valid()
      ensures cells == old(cells) && nextCellIndex == old(nextCellIndex)
      ensures SameGeometry(next)
      ensures next.drawing == ChooseDrawing(dogDrawings, roll < config.recognizedProbability, drawPick)
      ensures dogDrawings != [] ==>
                && next.state == Animating && next.livePoints == [] && next.animationStartTime == now
                && next.allPoints == Sample(next.drawing.value.strokes, DrawArea(next.Bounds(), config.cellPadding))
                && activeCell == next
      ensures dogDrawings == [] ==>
                && next.state == Empty && next.allPoints == [] && next.livePoints == []
                && activeCell == old(activeCell)
    {
      next.Clear();
      var ok := SetupCellDrawing(next, dogDrawings, roll, config.recognizedProbability, drawPick, config.cellPadding, now);
      if ok {
        activeCell := next;
      }
      assert CellsValid(cells) by {
        forall k | 0 <= k < |cells| ensures cells[k].cellIndex == k && cells[k].Valid() {
          if cells[k] != next {
            assert old(cells[k].cellIndex == k && cells[k].Valid());
          }
        }
      }
    }

    /** `updateActiveCell`: nothing happens unless the active cell is
        animating. Otherwise its reveal advances to `progress = (now -
        start) / DURATION`; at progress 1 it becomes complete with every
        point live and stops being the active cell. */
    method UpdateActiveCell(now: real, perturb: Perturbation)
      requires Valid() && config.duration != 0.0
      modifies this, activeCell
      ensures Valid()
      ensures cells == old(cells) && nextCellIndex == old(nextCellIndex)
      ensures old(activeCell == null || activeCell.state != Animating) ==>
                activeCell == old(activeCell) && (activeCell != null ==> unchanged(activeCell))
      ensures old(activeCell != null && activeCell.state == Animating) ==>
                var cell := old(activeCell);
                var progress := (now - old(cell.animationStartTime)) / config.duration;
                && SameGeometry(cell)
                && cell.allPoints == old(cell.allPoints)
                && cell.drawing == old(cell.drawing)
                && cell.animationStartTime == old(cell.animationStartTime)
                && Perturbed(cell.livePoints, perturb)
                && (progress >= 1.0 ==>
                      activeCell == null && cell.state == Complete && |cell.livePoints| == |cell.allPoints|)
                && (progress < 1.0 ==>
                      && activeCell == cell && cell.state == Animating
                      && |cell.livePoints| == RevealedCount(old(|cell.livePoints|), |cell.allPoints|, progress))
    {
      if activeCell == null || activeCell.state != Animating {
        return;
      }
      var cell := activeCell;
      DrawingManager.UpdateActiveCell(cell, now, config.duration, perturb);
      if cell.state == Complete {
        activeCell := null;
      }
    }

    /** The rectangle branch of `mouseReleased`: when exclusion is enabled
        and a rectangle is being dragged, the drag ends as in
        `FinishDrawingRectangle`, and the blocked cells are recomputed only
        when the rectangle was kept. Otherwise nothing changes. */
    method MouseReleasedRectangle()
      requires Valid()
      modifies exclusion, cells
      ensures Valid()
      ensures !(config.exclusionEnabled && old(exclusion.isDrawingRectangle) && old(exclusion.currentRectangle).Some?) ==>
                unchanged(exclusion) && forall k :: 0 <= k < |cells| ==> unchanged(cells[k])
      ensures config.exclusionEnabled && old(exclusion.isDrawingRectangle) && old(exclusion.currentRectangle).Some? ==>
                var r := NormalizeDrag(old(exclusion.rectangleStart),
                                       Vec(old(exclusion.currentRectangle).value.width, old(exclusion.currentRectangle).value.height));
                && !exclusion.isDrawingRectangle && exclusion.currentRectangle == None
                && exclusion.exclusionRectangles == old(exclusion.exclusionRectangles) + (if IsMeaningful(r) then [r] else [])
                && (!IsMeaningful(r) ==>
                      exclusion.blockedCells == old(exclusion.blockedCells) && forall k :: 0 <= k < |cells| ==> unchanged(cells[k]))
                && (IsMeaningful(r) ==>
                      && (forall b :: b in exclusion.blockedCells ==> b < |cells|)
                      && (forall k :: 0 <= k < |cells| ==>
                            (k in exclusion.blockedCells <==>
                               Blocks(Coverage(old(cells[k].Bounds()), exclusion.exclusionRectangles), config.coverageThreshold)))
                      && (forall k :: 0 <= k < |cells| && k !in exclusion.blockedCells ==> unchanged(cells[k]))
                      && (forall k :: 0 <= k < |cells| && k in exclusion.blockedCells ==> Cleared(cells[k])))
    {
      if config.exclusionEnabled && exclusion.isDrawingRectangle && exclusion.currentRectangle.Some? {
        var before := |exclusion.exclusionRectangles|;
        exclusion.FinishDrawingRectangle();
        if |exclusion.exclusionRectangles| > before {
          UpdateBlockedCells();
        }
      }
    }

    /** `clearExclusionRectangles`: the rectangles are dropped and, with
        none left, no cell is blocked any more; no cell changes. */
    method ClearExclusionRectangles()
      requires Valid()
      modifies exclusion, cells
      ensures Valid()
      ensures exclusion.exclusionRectangles == [] && exclusion.blockedCells == {}
      ensures forall k :: 0 <= k < |cells| ==> unchanged(cells[k])
    {
      exclusion.ClearRectangles();
      UpdateBlockedCells();
      assert forall b :: b !in exclusion.blockedCells;
    }
  }
}
