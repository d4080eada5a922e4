/** The grid of cells: laying the cells out over the canvas, choosing the
    cell to draw next, completing and resetting every cell, and adding a cell
    the user drags out with the mouse. */
module GridManager {
  import opened Geometry
  import opened Cells

  // ---------------------------------------------------------------------
  // Layout
  // ---------------------------------------------------------------------

  /** Where the grid goes: `rows` by `cols` cells over the whole canvas
      width and over a band `bandHeight` tall that starts `top` pixels from
      the top of the canvas. */
  datatype Layout = Layout(rows: nat, cols: nat, canvasWidth: real, top: real, bandHeight: real)

  /** The modular grid: both paddings are fractions of the canvas height. */
  function LayoutFromFractions(rows: nat, cols: nat, width: real, height: real,
                               topFraction: real, bottomFraction: real): Layout
  {
    var topPadding := height * topFraction;
    var bottomPadding := height * bottomFraction;
    Layout(rows, cols, width, topPadding, height - topPadding - bottomPadding)
  }

  /** The monolithic sketch: both paddings are given in pixels. */
  function LayoutFromPixels(rows: nat, cols: nat, width: real, height: real,
                            topPadding: real, bottomPadding: real): Layout
  {
    Layout(rows, cols, width, topPadding, height - topPadding - bottomPadding)
  }

  function CellWidth(l: Layout): real
    requires l.cols > 0
  {
    l.canvasWidth / l.cols as real
  }

  function CellHeight(l: Layout): real
    requires l.rows > 0
  {
    l.bandHeight / l.rows as real
  }

  /** The rectangle of the cell in row `row` and column `col`. */
  function CellRect(l: Layout, row: nat, col: nat): Rect
    requires l.rows > 0 && l.cols > 0
  {
    Rect(Offset(col, CellWidth(l)), Offset(row, CellHeight(l)) + l.top, CellWidth(l), CellHeight(l))
  }

  /** `n` cells of size `size` side by side end exactly at `n * size`. */
  lemma StripEnds(n: nat, size: real, total: real)
    requires n > 0 && size == total / n as real
    ensures Offset(n - 1, size) + size == total
  {
    assert (n - 1) as real * size + size == n as real * size;
  }

  /** Cells `a` and later cell `b` of a strip of equal cells do not overlap. */
  lemma StripOrdered(a: nat, b: nat, size: real)
    requires a < b && 0.0 <= size
    ensures Offset(a, size) + size <= Offset(b, size)
  {
    ProductNonnegative((b - a - 1) as real, size);
    assert b as real * size - (a as real * size + size) == (b - a - 1) as real * size;
  }

  /** The grid covers the band exactly: the first cell sits at the band's
      top-left corner and the last one ends at its bottom-right corner. */
  lemma GridSpansBand(l: Layout)
    requires l.rows > 0 && l.cols > 0
    ensures CellRect(l, 0, 0).x == 0.0 && CellRect(l, 0, 0).y == l.top
    ensures var last := CellRect(l, l.rows - 1, l.cols - 1);
            last.x + last.width == l.canvasWidth && last.y + last.height == l.top + l.bandHeight
  {
    StripEnds(l.cols, CellWidth(l), l.canvasWidth);
    StripEnds(l.rows, CellHeight(l), l.bandHeight);
  }

  /** Neighbouring cells touch: a cell ends where the next cell of its row
      and the next cell of its column begin. */
  lemma NeighboursTouch(l: Layout, row: nat, col: nat)
    requires l.rows > 0 && l.cols > 0
    ensures CellRect(l, row, col).x + CellRect(l, row, col).width == CellRect(l, row, col + 1).x
    ensures CellRect(l, row, col).y + CellRect(l, row, col).height == CellRect(l, row + 1, col).y
  {
    assert Offset(col + 1, CellWidth(l)) == Offset(col, CellWidth(l)) + CellWidth(l);
    assert Offset(row + 1, CellHeight(l)) == Offset(row, CellHeight(l)) + CellHeight(l);
  }

  /** Cell `i` of a strip of `n` equal cells sharing `total` lies inside
      the strip. */
  lemma StripInside(i: nat, n: nat, size: real, total: real)
    requires i < n && size == total / n as real && 0.0 <= total
    ensures 0.0 <= Offset(i, size) && Offset(i, size) + size <= total
  {
    QuotientBounds(total, n as real);
    ProductNonnegative(i as real, size);
    StripEnds(n, size, total);
    if i < n - 1 {
      StripOrdered(i, n - 1, size);
    }
  }

  /** Two different cells of a grid over a band of non-negative size never
      overlap. */
  lemma GridCellsApart(l: Layout, row1: nat, col1: nat, row2: nat, col2: nat)
    requires l.rows > 0 && l.cols > 0 && 0.0 <= l.canvasWidth && 0.0 <= l.bandHeight
    requires row1 != row2 || col1 != col2
    ensures Apart(CellRect(l, row1, col1), CellRect(l, row2, col2))
  {
    var a, b := CellRect(l, row1, col1), CellRect(l, row2, col2);
    QuotientBounds(l.canvasWidth, l.cols as real);
    QuotientBounds(l.bandHeight, l.rows as real);
    if col1 < col2 {
      StripOrdered(col1, col2, CellWidth(l));
      assert a.x + a.width <= b.x;
    } else if col2 < col1 {
      StripOrdered(col2, col1, CellWidth(l));
      assert b.x + b.width <= a.x;
    } else if row1 < row2 {
      StripOrdered(row1, row2, CellHeight(l));
      assert a.y + a.height <= b.y;
    } else {
      StripOrdered(row2, row1, CellHeight(l));
      assert b.y + b.height <= a.y;
    }
  }

  /** Every cell of the grid lies inside the band. */
  lemma GridCellInsideBand(l: Layout, row: nat, col: nat)
    requires l.rows > 0 && l.cols > 0 && 0.0 <= l.canvasWidth && 0.0 <= l.bandHeight
    requires row < l.rows && col < l.cols
    ensures var r := CellRect(l, row, col);
            0.0 <= r.x && r.x + r.width <= l.canvasWidth &&
            l.top <= r.y && r.y + r.height <= l.top + l.bandHeight
  {
    StripInside(col, l.cols, CellWidth(l), l.canvasWidth);
    StripInside(row, l.rows, CellHeight(l), l.bandHeight);
  }

  /** A freshly laid-out grid cell: it sits at (row, col) of the grid, its
      number is `row * cols + col`, and it is empty, with no drawing. */
  ghost predicate GridCell(l: Layout, c: Cell, k: nat)
    reads c
  {
    && l.rows > 0 && l.cols > 0
    && c.row.Some? && c.col.Some?
    && c.row.value < l.rows && c.col.value < l.cols
    && k == c.row.value * l.cols + c.col.value
    && c.cellIndex == k
    && c.Bounds() == CellRect(l, c.row.value, c.col.value)
    && c.state == Empty && c.drawing == None && c.allPoints == [] && c.livePoints == []
    && c.animationStartTime == 0.0
  }

  /** The two nested loops both grid builders run: row by row, one new empty
      cell per column, numbered in that order. */
  method BuildGrid(l: Layout) returns (cells: seq<Cell>)
    ensures |cells| == l.rows * l.cols
    ensures CellsValid(cells)
    ensures forall k :: 0 <= k < |cells| ==> fresh(cells[k]) && GridCell(l, cells[k], k)
  {
    cells := [];
    for row := 0 to l.rows
      invariant |cells| == row * l.cols
      invariant CellsValid(cells)
      invariant forall k :: 0 <= k < |cells| ==> fresh(cells[k]) && GridCell(l, cells[k], k)
    {
      for col := 0 to l.cols
        invariant |cells| == row * l.cols + col
        invariant CellsValid(cells)
        invariant forall k :: 0 <= k < |cells| ==> fresh(cells[k]) && GridCell(l, cells[k], k)
      {
        var cell := new Cell(Some(row), Some(col), CellRect(l, row, col), row * l.cols + col);
        cells := cells + [cell];
      }
      assert row * l.cols + l.cols == (row + 1) * l.cols;
    }
  }

  // ---------------------------------------------------------------------
  // Cell filters
  // ---------------------------------------------------------------------

  /** The cells that are empty, in grid order. */
  function EmptyCells(cells: seq<Cell>): (r: seq<Cell>)
    reads cells
    ensures forall k :: 0 <= k < |r| ==> r[k] in cells && r[k].state == Empty
    ensures forall k :: 0 <= k < |cells| && cells[k].state == Empty ==> cells[k] in r
  {
    if cells == [] then []
    else EmptyCells(cells[..|cells| - 1]) +
         (if cells[|cells| - 1].state == Empty then [cells[|cells| - 1]] else [])
  }

  /** The cell was completed: its state is complete and nothing else of it
      changed. */
  twostate predicate Completed(c: Cell)
    reads c
  {
    && c.state == Complete
    && c.row == old(c.row) && c.col == old(c.col) && c.Bounds() == old(c.Bounds())
    && c.drawing == old(c.drawing) && c.allPoints == old(c.allPoints) && c.livePoints == old(c.livePoints)
    && c.animationStartTime == old(c.animationStartTime) && c.cellIndex == old(c.cellIndex)
  }

  // ---------------------------------------------------------------------
  // The grid manager's state
  // ---------------------------------------------------------------------

  class GridManager {
    var cells: seq<Cell>
    var nextCellIndex: nat
    var isDrawingCustomCell: bool
    var customCellStart: Vec
    var currentCustomCell: Option<Rect>   // the preview of the cell being dragged

    /** The cells are numbered by position and the preview, when there is
        one, is anchored where the drag started. */
    ghost predicate Valid()
      reads this, cells
    {
      && CellsValid(cells)
      && (currentCustomCell.Some? ==>
            currentCustomCell.value.x == customCellStart.x && currentCustomCell.value.y == customCellStart.y)
    }

    /** The module's initial state: no cells, the sequential cursor at 0 and
        no drag in progress. */
    constructor ()
      ensures Valid()
      ensures cells == [] && nextCellIndex == 0
      ensures !isDrawingCustomCell && customCellStart == Vec(0.0, 0.0) && currentCustomCell == None
    {
      cells := [];
      nextCellIndex := 0;
      isDrawingCustomCell := false;
      customCellStart := Vec(0.0, 0.0);
      currentCustomCell := None;
    }

    /** Replaces the cells by a fresh `rows` by `cols` grid over a canvas
        `width` by `height`, below a top padding of `topFraction` of the
        height and above a bottom padding of `bottomFraction` of it. */
    method InitializeGrid(rows: nat, cols: nat, width: real, height: real,
                          topFraction: real, bottomFraction: real)
      requires Valid()
      modifies this
      ensures Valid()
      ensures |cells| == rows * cols
      ensures forall k :: 0 <= k < |cells| ==>
                fresh(cells[k]) && GridCell(LayoutFromFractions(rows, cols, width, height, topFraction, bottomFraction), cells[k], k)
      ensures nextCellIndex == old(nextCellIndex) && isDrawingCustomCell == old(isDrawingCustomCell)
      ensures customCellStart == old(customCellStart) && currentCustomCell == old(currentCustomCell)
    {
      var topPadding := height * topFraction;
      var bottomPadding := height * bottomFraction;
      var drawableHeight := height - topPadding - bottomPadding;
      cells := BuildGrid(Layout(rows, cols, width, topPadding, drawableHeight));
    }

    /** The cell to draw next, or null.
        With `randomRedraw` it is an empty cell picked by `pick` when there
        is one, and otherwise any cell (blocking is not consulted).
        Otherwise the cells are taken round robin from `nextCellIndex`; the
        guard that gives up after as many attempts as there are cells runs
        after the first attempt, so with one cell or none the result is
        null. */
    method GetNextCell(randomRedraw: bool, pick: nat) returns (next: Cell?)
      requires Valid()
      modifies this
      ensures Valid()
      ensures cells == old(cells) && isDrawingCustomCell == old(isDrawingCustomCell)
      ensures customCellStart == old(customCellStart) && currentCustomCell == old(currentCustomCell)
      ensures randomRedraw ==> nextCellIndex == old(nextCellIndex)
      ensures randomRedraw && EmptyCells(cells) != [] ==> next != null && next in cells && next.state == Empty
      ensures randomRedraw && EmptyCells(cells) == [] && cells != [] ==> next == cells[pick % |cells|]
      ensures randomRedraw && cells == [] ==> next == null
      ensures !randomRedraw && |cells| >= 2 ==>
                next == cells[old(nextCellIndex) % |cells|] && nextCellIndex == (old(nextCellIndex) + 1) % |cells|
      ensures !randomRedraw && |cells| <= 1 ==> next == null
      ensures !randomRedraw && |cells| == 1 ==> nextCellIndex == 0
      ensures !randomRedraw && |cells| == 0 ==> nextCellIndex == old(nextCellIndex)
    {
      if randomRedraw {
        var availableCells := EmptyCells(cells);
        if |availableCells| > 0 {
          next := availableCells[pick % |availableCells|];
        } else if |cells| > 0 {
          next := cells[pick % |cells|];
        } else {
          next := null;
        }
      } else {
        if |cells| == 0 {
          return null;
        }
        var attempts := 0;
        next := cells[nextCellIndex % |cells|];
        nextCellIndex := (nextCellIndex + 1) % |cells|;
        attempts := attempts + 1;
        if attempts >= |cells| {
          return null;
        }
      }
    }

    /** Marks every cell complete and changes nothing else. */
    method PopulateAllCells()
      requires Valid()
      modifies cells
      ensures Valid()
      ensures forall k :: 0 <= k < |cells| ==> Completed(cells[k])
    {
      for i := 0 to |cells|
        invariant CellsValid(cells)
        invariant forall k :: 0 <= k < i ==> Completed(cells[k])
        invariant forall k :: i <= k < |cells| ==> unchanged(cells[k])
      {
        cells[i].state := Complete;
      }
    }

    /** Empties every cell: no drawing and no points, with the cell's place,
        size and number kept. */
    method ResetAllCells()
      requires Valid()
      modifies cells
      ensures Valid()
      ensures forall k :: 0 <= k < |cells| ==> Cleared(cells[k])
    {
      for i := 0 to |cells|
        invariant CellsValid(cells)
        invariant forall k :: 0 <= k < i ==> Cleared(cells[k])
        invariant forall k :: i <= k < |cells| ==> unchanged(cells[k])
      {
        cells[i].Clear();
      }
    }

    /** Starts dragging out a custom cell at the pointer. */
    method StartDrawingCustomCell(mouse: Vec)
      requires Valid()
      modifies this
      ensures Valid()
      ensures isDrawingCustomCell && customCellStart == mouse
      ensures currentCustomCell == Some(DragPreview(mouse, mouse))
      ensures cells == old(cells) && nextCellIndex == old(nextCellIndex)
    {
      isDrawingCustomCell := true;
      customCellStart := mouse;
      currentCustomCell := Some(Rect(mouse.x, mouse.y, 0.0, 0.0));
    }

    /** Stretches the preview to the pointer, if there is a preview. */
    method UpdateCustomCell(mouse: Vec)
      requires Valid()
      modifies this
      ensures Valid()
      ensures old(currentCustomCell).None? ==> unchanged(this)
      ensures old(currentCustomCell).Some? ==> currentCustomCell == Some(DragPreview(customCellStart, mouse))
      ensures cells == old(cells) && nextCellIndex == old(nextCellIndex)
      ensures isDrawingCustomCell == old(isDrawingCustomCell) && customCellStart == old(customCellStart)
    {
      if currentCustomCell.Some? {
        var preview := currentCustomCell.value;
        currentCustomCell := Some(preview.(width := mouse.x - customCellStart.x,
                                           height := mouse.y - customCellStart.y));
      }
    }

    /** Ends the drag. Without a preview nothing happens and the result is
        null. Otherwise the drag is normalised to non-negative sides; a
        rectangle with both sides over 10 px becomes a new empty cell
        numbered after the existing ones, which is appended and returned;
        the preview is dropped either way. */
    method FinishDrawingCustomCell() returns (newCell: Cell?)
      requires Valid()
      modifies this
      ensures Valid()
      ensures old(currentCustomCell).None? ==> newCell == null && unchanged(this)
      ensures old(currentCustomCell).Some? ==>
                var r := NormalizeDrag(old(customCellStart),
                                       Vec(old(currentCustomCell).value.width, old(currentCustomCell).value.height));
                && currentCustomCell == None && !isDrawingCustomCell
                && (IsMeaningful(r) ==>
                      && newCell != null && fresh(newCell)
                      && cells == old(cells) + [newCell]
                      && newCell.Bounds() == r && newCell.cellIndex == |old(cells)|
                      && newCell.row == None && newCell.col == None
                      && newCell.state == Empty && newCell.drawing == None
                      && newCell.allPoints == [] && newCell.livePoints == []
                      && newCell.animationStartTime == 0.0)
                && (!IsMeaningful(r) ==> newCell == null && cells == old(cells))
      ensures nextCellIndex == old(nextCellIndex) && customCellStart == old(customCellStart)
    {
      if currentCustomCell.None? {
        return null;
      }
      isDrawingCustomCell := false;
      var preview := currentCustomCell.value;
      var r := NormalizeDrag(customCellStart, Vec(preview.width, preview.height));
      if IsMeaningful(r) {
        newCell := new Cell(None, None, r, |cells|);
        cells := cells + [newCell];
        currentCustomCell := None;
        return newCell;
      }
      currentCustomCell := None;
      newCell := null;
    }
  }
}
