/** The data model of a grid cell and of the points it reveals. A cell is a
    mutable record in the sketch: the grid creates it, the drawing manager
    fills and advances it, the exclusion code and the resets clear it. */
module Cells {
  import opened Geometry

  /** A Quick, Draw! stroke: an array of coordinate arrays, normally
      `[xs, ys]` (a third array of timestamps may follow and is ignored). */
  type Stroke = seq<seq<real>>

  /** One entry of the drawing dataset: its `recognized` flag and its
      strokes (the `drawing` key of the NDJSON record). */
  datatype Drawing = Drawing(recognized: bool, strokes: seq<Stroke>)

  /** A stroke contributes points only when it has at least two arrays. */
  predicate Usable(s: Stroke) { |s| >= 2 }

  /** Every usable stroke has a y value for each of its x values (the
      dataset's strokes are pairs of equal-length arrays). */
  predicate WellFormed(strokes: seq<Stroke>) {
    forall j :: 0 <= j < |strokes| && Usable(strokes[j]) ==> |strokes[j][0]| <= |strokes[j][1]|
  }

  datatype CellState = Empty | Animating | Complete

  /** A point of the flattened drawing, in canvas coordinates. */
  datatype SampledPoint = SampledPoint(
    x: real, y: real,
    strokeIndex: nat,        // which contributing stroke it belongs to
    pointIndex: nat,         // its position inside that stroke
    globalPointIndex: nat,   // its position in the whole drawing
    timing: real)            // globalPointIndex / total point count

  /** A revealed point: the frozen copy of a sampled point and its current,
      perturbed position. */
  datatype LivePoint = LivePoint(
    originalX: real, originalY: real,
    strokeIndex: nat, globalPointIndex: nat,
    x: real, y: real)

  /** The parts of a live point that never change once it is revealed. */
  datatype Frozen = Frozen(originalX: real, originalY: real, strokeIndex: nat, globalPointIndex: nat)

  function FrozenPart(l: LivePoint): Frozen {
    Frozen(l.originalX, l.originalY, l.strokeIndex, l.globalPointIndex)
  }

  /** The live point is the copy of the sampled point. */
  predicate Copies(l: LivePoint, p: SampledPoint) {
    FrozenPart(l) == Frozen(p.x, p.y, p.strokeIndex, p.globalPointIndex)
  }

  /** The live point pushed when `p` is revealed; its position starts at the
      frozen one and is overwritten by the perturbation straight away. */
  function Reveal(p: SampledPoint): (l: LivePoint)
    ensures Copies(l, p)
  {
    LivePoint(p.x, p.y, p.strokeIndex, p.globalPointIndex, p.x, p.y)
  }

  class Cell {
    var row: Option<nat>       // absent for a cell the user drew
    var col: Option<nat>
    var x: real
    var y: real
    var width: real
    var height: real
    var state: CellState
    var drawing: Option<Drawing>
    var allPoints: seq<SampledPoint>
    var livePoints: seq<LivePoint>
    var animationStartTime: real
    var cellIndex: nat

    /** The cell's invariant: the sampled points are numbered by position,
        the live points are a copy of a prefix of them, and an empty cell
        holds no points. */
    ghost predicate Valid()
      reads this
    {
      && |livePoints| <= |allPoints|
      && (forall k :: 0 <= k < |allPoints| ==> allPoints[k].globalPointIndex == k)
      && (forall k :: 0 <= k < |livePoints| ==> Copies(livePoints[k], allPoints[k]))
      && (state == Empty ==> allPoints == [] && livePoints == [])
    }

    /** The cell's area on the canvas. */
    function Bounds(): Rect
      reads this
    {
      Rect(x, y, width, height)
    }

    /** The record both grid builders and the custom-cell handler push: an
        empty cell with no drawing and no points. */
    constructor (row: Option<nat>, col: Option<nat>, bounds: Rect, cellIndex: nat)
      ensures Valid()
      ensures this.row == row && this.col == col && Bounds() == bounds && this.cellIndex == cellIndex
      ensures state == Empty && drawing == None && allPoints == [] && livePoints == []
      ensures animationStartTime == 0.0
    {
      this.row := row;
      this.col := col;
      x := bounds.x;
      y := bounds.y;
      width := bounds.width;
      height := bounds.height;
      state := Empty;
      drawing := None;
      allPoints := [];
      livePoints := [];
      animationStartTime := 0.0;
      this.cellIndex := cellIndex;
    }

    /** The reset every clearing path performs: the cell becomes empty, with
        no drawing and no points; its place, size, index and start time stay. */
    method Clear()
      modifies this
      ensures Valid() && Cleared(this)
    {
      state := Empty;
      drawing := None;
      allPoints := [];
      livePoints := [];
    }
  }

  /** The cell was reset: empty, with no drawing and no points, and with
      its place, size, index and start time as before. */
  twostate predicate Cleared(c: Cell)
    reads c
  {
    && c.state == Empty && c.drawing == None && c.allPoints == [] && c.livePoints == []
    && c.row == old(c.row) && c.col == old(c.col)
    && c.x == old(c.x) && c.y == old(c.y) && c.width == old(c.width) && c.height == old(c.height)
    && c.cellIndex == old(c.cellIndex) && c.animationStartTime == old(c.animationStartTime)
  }

  /** Each cell of a sequence is numbered by its position and valid; the
      numbering makes the cells distinct objects. */
  ghost predicate CellsValid(cells: seq<Cell>)
    reads cells
  {
    forall k :: 0 <= k < |cells| ==> cells[k].cellIndex == k && cells[k].Valid()
  }
}
