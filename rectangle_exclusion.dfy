/** Exclusion rectangles: the user drags rectangles over the canvas; cells
    they cover enough are blocked (cleared and skipped when choosing the next
    cell), and revealed points near a rectangle are pushed away from it. */
module RectangleExclusion {
  import opened Geometry
  import opened Cells

  // ---------------------------------------------------------------------
  // Intersection and coverage
  // ---------------------------------------------------------------------

  /** `calculateRectangleIntersectionArea`: the area of the overlap of two
      rectangles, 0 when they do not overlap in both directions. */
  function IntersectionArea(a: Rect, b: Rect): (area: real)
    ensures area >= 0.0
  {
    var left := Max(a.x, b.x);
    var right := Min(a.x + a.width, b.x + b.width);
    var top := Max(a.y, b.y);
    var bottom := Min(a.y + a.height, b.y + b.height);
    if left < right && top < bottom then
      ProductNonnegative(right - left, bottom - top);
      Area(Rect(left, top, right - left, bottom - top))
    else 0.0
  }

  /** `a` lies inside `b`. */
  predicate Inside(a: Rect, b: Rect)
  {
    b.x <= a.x && a.x + a.width <= b.x + b.width && b.y <= a.y && a.y + a.height <= b.y + b.height
  }

  /** The overlap area does not depend on the order of the rectangles and
      is 0 for rectangles that lie apart. */
  lemma IntersectionAreaSymmetric(a: Rect, b: Rect)
    ensures IntersectionArea(a, b) == IntersectionArea(b, a)
    ensures Apart(a, b) ==> IntersectionArea(a, b) == 0.0
  {
  }

  /** The overlap never exceeds the area of a rectangle of non-negative
      size, and is the whole area of a rectangle lying inside the other. */
  lemma IntersectionAreaBounded(a: Rect, b: Rect)
    requires a.width >= 0.0 && a.height >= 0.0
    ensures IntersectionArea(a, b) <= Area(a)
    ensures Inside(a, b) && a.width > 0.0 && a.height > 0.0 ==> IntersectionArea(a, b) == Area(a)
  {
    var left := Max(a.x, b.x);
    var right := Min(a.x + a.width, b.x + b.width);
    var top := Max(a.y, b.y);
    var bottom := Min(a.y + a.height, b.y + b.height);
    ProductNonnegative(a.width, a.height);
    if left < right && top < bottom {
      ProductMonotone(right - left, bottom - top, a.width, a.height);
    }
    if Inside(a, b) && a.width > 0.0 && a.height > 0.0 {
      assert right - left == a.width && bottom - top == a.height;
    }
  }

  /** A rectangle with no width or no height overlaps nothing. */
  lemma DegenerateIntersection(a: Rect, b: Rect)
    requires a.width == 0.0 || a.height == 0.0
    ensures IntersectionArea(a, b) == 0.0
  {
  }

  /** The running total of `calculateCellCoverage`: the overlap of the cell
      with each rectangle, summed (overlapping rectangles count twice). */
  function CoveredArea(cell: Rect, rects: seq<Rect>): (total: real)
    ensures total >= 0.0
  {
    if rects == [] then 0.0
    else CoveredArea(cell, rects[..|rects| - 1]) + IntersectionArea(cell, rects[|rects| - 1])
  }

  /** `calculateCellCoverage`: the covered fraction of the cell, capped at
      1. For a cell of zero area the source computes 0 / 0, which is NaN
      (see `DegenerateCellCoverage`); that case is `None`. */
  function Coverage(cell: Rect, rects: seq<Rect>): Option<real>
  {
    var cellArea := Area(cell);
    if cellArea == 0.0 then None else Some(Min(CoveredArea(cell, rects) / cellArea, 1.0))
  }

  /** NaN compares false with every threshold, so such a cell is never
      blocked; a number at or above the threshold blocks it. */
  predicate Blocks(coverage: Option<real>, threshold: real)
  {
    coverage.Some? && coverage.value >= threshold
  }

  /** A zero-area cell overlaps nothing, so its coverage really is 0 / 0. */
  lemma {:induction false} DegenerateCellCoverage(cell: Rect, rects: seq<Rect>)
    requires Area(cell) == 0.0
    ensures CoveredArea(cell, rects) == 0.0
  {
    if rects != [] {
      DegenerateCellCoverage(cell, rects[..|rects| - 1]);
      ZeroProduct(cell.width, cell.height);
      DegenerateIntersection(cell, rects[|rects| - 1]);
    }
  }

  /** Every rectangle of the list contributes its overlap to the total. */
  lemma {:induction false} CoveredAreaAtLeast(cell: Rect, rects: seq<Rect>, i: nat)
    requires i < |rects|
    ensures IntersectionArea(cell, rects[i]) <= CoveredArea(cell, rects)
  {
    var init := rects[..|rects| - 1];
    if i < |rects| - 1 {
      assert init[i] == rects[i];
      CoveredAreaAtLeast(cell, init, i);
    }
  }

  /** For a cell of positive area the coverage is a number in [0, 1], and 0
      when there are no rectangles. */
  lemma CoverageBounds(cell: Rect, rects: seq<Rect>)
    requires cell.width > 0.0 && cell.height > 0.0
    ensures Coverage(cell, rects).Some?
    ensures 0.0 <= Coverage(cell, rects).value <= 1.0
    ensures rects == [] ==> Coverage(cell, rects).value == 0.0
  {
    ProductPositive(cell.width, cell.height);
    QuotientBounds(CoveredArea(cell, rects), Area(cell));
  }

  /** A cell lying inside one of the rectangles is fully covered. */
  lemma CoverageOfEnclosedCell(cell: Rect, rects: seq<Rect>, i: nat)
    requires cell.width > 0.0 && cell.height > 0.0
    requires i < |rects| && Inside(cell, rects[i])
    ensures Coverage(cell, rects) == Some(1.0)
  {
    var area := Area(cell);
    var total := CoveredArea(cell, rects);
    ProductPositive(cell.width, cell.height);
    IntersectionAreaBounded(cell, rects[i]);
    CoveredAreaAtLeast(cell, rects, i);
    QuotientBounds(total, area);
  }

  // ---------------------------------------------------------------------
  // Repulsion
  // ---------------------------------------------------------------------

  /** The clamped point of `getRepulsionFromRectangle`: the point of the
      rectangle nearest to `p`. */
  function ClosestPoint(p: Vec, r: Rect): (c: Vec)
    ensures r.width >= 0.0 && r.height >= 0.0 ==> Contains(r, c)
    ensures Contains(r, p) ==> c == p
  {
    Vec(Constrain(p.x, r.x, r.x + r.width), Constrain(p.y, r.y, r.y + r.height))
  }

  function SquaredDistance(p: Vec, q: Vec): (d2: real)
    ensures d2 >= 0.0
  {
    SquareNonnegative(p.x - q.x);
    SquareNonnegative(p.y - q.y);
    (p.x - q.x) * (p.x - q.x) + (p.y - q.y) * (p.y - q.y)
  }

  /** The gate of `getRepulsionFromRectangle`, `0 < d < radius` for the
      distance `d`, stated through `d2 = d * d`. The source's `dist` is a
      square root; with `d ≥ 0` the two gates agree. */
  predicate InRepelRange(d2: real, radius: real)
  {
    d2 > 0.0 && radius > 0.0 && d2 < Square(radius)
  }

  /** The strength of the push a rectangle gives a point: inside the gate,
      the inverse-square strength `strength / d²` capped at `strength`;
      outside it, nothing. */
  function RepelStrength(p: Vec, r: Rect, radius: real, strength: real): real
  {
    var d2 := SquaredDistance(p, ClosestPoint(p, r));
    if InRepelRange(d2, radius) then Min(strength / d2, strength) else 0.0
  }

  /** A point inside the rectangle, or at least `radius` from it, is not
      pushed; otherwise the strength is never more than `strength` (and at
      least 0 for a non-negative `strength`), reaches `strength` within
      distance 1, and follows the inverse-square law beyond it. */
  lemma RepelStrengthProps(p: Vec, r: Rect, radius: real, strength: real)
    ensures Contains(r, p) ==> RepelStrength(p, r, radius, strength) == 0.0
    ensures SquaredDistance(p, ClosestPoint(p, r)) >= Square(radius) ==> RepelStrength(p, r, radius, strength) == 0.0
    ensures strength >= 0.0 ==> 0.0 <= RepelStrength(p, r, radius, strength) <= strength
    ensures var d2 := SquaredDistance(p, ClosestPoint(p, r));
            strength >= 0.0 && InRepelRange(d2, radius) && d2 <= 1.0 ==> RepelStrength(p, r, radius, strength) == strength
    ensures var d2 := SquaredDistance(p, ClosestPoint(p, r));
            strength >= 0.0 && InRepelRange(d2, radius) && 1.0 <= d2 ==> RepelStrength(p, r, radius, strength) == strength / d2
  {
    var d2 := SquaredDistance(p, ClosestPoint(p, r));
    if Contains(r, p) {
      assert ClosestPoint(p, r) == p;
      assert d2 == 0.0;
    }
    if strength >= 0.0 && d2 > 0.0 {
      InverseSquareCap(strength, d2);
    }
  }

  /** `strength / d2` is non-negative, at least `strength` for `d2 ≤ 1` and
      at most `strength` for `d2 ≥ 1`. */
  lemma InverseSquareCap(strength: real, d2: real)
    requires strength >= 0.0 && d2 > 0.0
    ensures strength / d2 >= 0.0
    ensures d2 <= 1.0 ==> strength / d2 >= strength
    ensures d2 >= 1.0 ==> strength / d2 <= strength
  {
    var q := strength / d2;
    assert q * d2 == strength;
    QuotientBounds(strength, d2);
    if d2 <= 1.0 {
      ProductMonotone(q, d2, q, 1.0);
    } else {
      ProductMonotone(q, 1.0, q, d2);
    }
  }

  /** The direction of the push: the unit vector of the angle
      `atan2(dy, dx)` from the closest point to the point, supplied by the
      caller. */
  type Direction = (real, real) -> Vec

  /** `getRepulsionFromRectangle`: the capped strength along the direction
      away from the closest point. Outside the gate the strength is 0 and
      so is the push, as in the source's `{x: 0, y: 0}`. */
  function RepulsionFromRectangle(p: Vec, r: Rect, radius: real, strength: real, direction: Direction): Vec
  {
    var c := ClosestPoint(p, r);
    Scale(direction(p.x - c.x, p.y - c.y), RepelStrength(p, r, radius, strength))
  }

  /** The pushes of the rectangles, one per rectangle, in order. */
  function Pushes(p: Vec, rects: seq<Rect>, radius: real, strength: real, direction: Direction): (pushes: seq<Vec>)
    ensures |pushes| == |rects|
    ensures forall i :: 0 <= i < |rects| ==> pushes[i] == RepulsionFromRectangle(p, rects[i], radius, strength, direction)
  {
    if rects == [] then []
    else Pushes(p, rects[..|rects| - 1], radius, strength, direction)
         + [RepulsionFromRectangle(p, rects[|rects| - 1], radius, strength, direction)]
  }

  /** The component-wise sum of a list of vectors. */
  function SumVecs(vs: seq<Vec>): Vec
  {
    if vs == [] then Vec(0.0, 0.0) else Add(SumVecs(vs[..|vs| - 1]), vs[|vs| - 1])
  }

  /** The sum of `calculateRectangleRepulsion`: the pushes of every
      rectangle, added component-wise. */
  function RectangleRepulsion(p: Vec, rects: seq<Rect>, radius: real, strength: real, direction: Direction): Vec
  {
    SumVecs(Pushes(p, rects, radius, strength, direction))
  }

  lemma {:induction false} SumVecsAppend(xs: seq<Vec>, ys: seq<Vec>)
    ensures SumVecs(xs + ys) == Add(SumVecs(xs), SumVecs(ys))
    decreases |ys|
  {
    if ys == [] {
      assert xs + ys == xs;
    } else {
      var init := ys[..|ys| - 1];
      assert (xs + ys)[..|xs + ys| - 1] == xs + init;
      assert (xs + ys)[|xs + ys| - 1] == ys[|ys| - 1];
      SumVecsAppend(xs, init);
    }
  }

  /** One more rectangle adds its push to the sum over the rectangles before it. */
  lemma RepulsionPrefixStep(p: Vec, rects: seq<Rect>, i: nat, radius: real, strength: real, direction: Direction)
    requires i < |rects|
    ensures RectangleRepulsion(p, rects[..i + 1], radius, strength, direction)
         == Add(RectangleRepulsion(p, rects[..i], radius, strength, direction),
                RepulsionFromRectangle(p, rects[i], radius, strength, direction))
  {
    var upto := rects[..i + 1];
    assert upto[..i] == rects[..i] && upto[i] == rects[i];
    var pushes := Pushes(p, upto, radius, strength, direction);
    assert pushes[..i] == Pushes(p, rects[..i], radius, strength, direction);
  }

  /** The total push of two lists of rectangles is the sum of their pushes;
      with no rectangles there is no push. */
  lemma RepulsionSuperposition(p: Vec, a: seq<Rect>, b: seq<Rect>, radius: real, strength: real, direction: Direction)
    ensures RectangleRepulsion(p, [], radius, strength, direction) == Vec(0.0, 0.0)
    ensures RectangleRepulsion(p, a + b, radius, strength, direction) ==
            Add(RectangleRepulsion(p, a, radius, strength, direction), RectangleRepulsion(p, b, radius, strength, direction))
  {
    var pa := Pushes(p, a, radius, strength, direction);
    var pb := Pushes(p, b, radius, strength, direction);
    var pab := Pushes(p, a + b, radius, strength, direction);
    assert pab == pa + pb by {
      forall i | 0 <= i < |pab| ensures pab[i] == (pa + pb)[i] {
        if i < |a| { assert (a + b)[i] == a[i]; } else { assert (a + b)[i] == b[i - |a|]; }
      }
    }
    SumVecsAppend(pa, pb);
  }

  /** With a direction of length at most 1 per axis, a rectangle never
      pushes harder than `strength` along either axis. */
  lemma RepulsionBound(p: Vec, r: Rect, radius: real, strength: real, direction: Direction)
    requires strength >= 0.0
    requires forall dx, dy :: -1.0 <= direction(dx, dy).x <= 1.0 && -1.0 <= direction(dx, dy).y <= 1.0
    ensures Abs(RepulsionFromRectangle(p, r, radius, strength, direction).x) <= strength
    ensures Abs(RepulsionFromRectangle(p, r, radius, strength, direction).y) <= strength
  {
    var s := RepelStrength(p, r, radius, strength);
    var c := ClosestPoint(p, r);
    var u := direction(p.x - c.x, p.y - c.y);
    assert 0.0 <= s <= strength by {
      RepelStrengthProps(p, r, radius, strength);
    }
    ScaleBound(u, s, strength);
  }

  /** A vector of at most unit length per axis, stretched by `s` in
      [0, strength], stays within `strength` per axis. */
  lemma ScaleBound(u: Vec, s: real, strength: real)
    requires -1.0 <= u.x <= 1.0 && -1.0 <= u.y <= 1.0 && 0.0 <= s <= strength
    ensures Abs(Scale(u, s).x) <= strength && Abs(Scale(u, s).y) <= strength
  {
    UnitScaleBound(u.x, s, strength);
    UnitScaleBound(u.y, s, strength);
  }

  lemma UnitScaleBound(u: real, s: real, strength: real)
    requires -1.0 <= u <= 1.0 && 0.0 <= s <= strength
    ensures Abs(u * s) <= strength
  {
    if u >= 0.0 {
      ProductMonotone(u, s, 1.0, strength);
    } else {
      ProductMonotone(-u, s, 1.0, strength);
      assert (-u) * s == -(u * s);
    }
  }

  // ---------------------------------------------------------------------
  // The module's state
  // ---------------------------------------------------------------------

  /** The state of `rectangle_exclusion.js`: the drawn rectangles, the drag
      in progress, and the set of blocked cell indices. */
  class RectangleExclusion {
    var exclusionRectangles: seq<Rect>
    var isDrawingRectangle: bool
    var rectangleStart: Vec
    var currentRectangle: Option<Rect>
    var blockedCells: set<nat>

    /** Every kept rectangle has both sides above 10 px, and the preview is
        anchored at the drag start. */
    ghost predicate Valid()
      reads this
    {
      && (forall i :: 0 <= i < |exclusionRectangles| ==> IsMeaningful(exclusionRectangles[i]))
      && (currentRectangle.Some? ==>
            currentRectangle.value.x == rectangleStart.x && currentRectangle.value.y == rectangleStart.y)
    }

    constructor ()
      ensures Valid()
      ensures exclusionRectangles == [] && !isDrawingRectangle && rectangleStart == Vec(0.0, 0.0)
      ensures currentRectangle == None && blockedCells == {}
    {
      exclusionRectangles := [];
      isDrawingRectangle := false;
      rectangleStart := Vec(0.0, 0.0);
      currentRectangle := None;
      blockedCells := {};
    }

    /** `startDrawingRectangle`: a drag starts at the pointer, with an empty
        preview there. */
    method StartDrawingRectangle(mouse: Vec)
      requires Valid()
      modifies this
      ensures Valid()
      ensures isDrawingRectangle && rectangleStart == mouse && currentRectangle == Some(Rect(mouse.x, mouse.y, 0.0, 0.0))
      ensures exclusionRectangles == old(exclusionRectangles) && blockedCells == old(blockedCells)
    {
      isDrawingRectangle := true;
      rectangleStart := mouse;
      currentRectangle := Some(Rect(mouse.x, mouse.y, 0.0, 0.0));
    }

    /** `updateCurrentRectangle`: the preview follows the pointer; without a
        preview nothing changes. */
    method UpdateCurrentRectangle(mouse: Vec)
      requires Valid()
      modifies this
      ensures Valid()
      ensures old(currentRectangle).None? ==> currentRectangle == None
      ensures old(currentRectangle).Some? ==> currentRectangle == Some(DragPreview(rectangleStart, mouse))
      ensures rectangleStart == old(rectangleStart) && isDrawingRectangle == old(isDrawingRectangle)
      ensures exclusionRectangles == old(exclusionRectangles) && blockedCells == old(blockedCells)
    {
      if currentRectangle.Some? {
        currentRectangle := Some(currentRectangle.value.(width := mouse.x - rectangleStart.x,
                                                         height := mouse.y - rectangleStart.y));
      }
    }

    /** `finishDrawingRectangle`: without a preview nothing happens;
        otherwise the drag ends, the normalised rectangle is kept when both
        sides exceed 10 px, and the preview is dropped either way. */
    method FinishDrawingRectangle()
      requires Valid()
      modifies this
      ensures Valid()
      ensures old(currentRectangle).None? ==> unchanged(this)
      ensures old(currentRectangle).Some? ==>
                var r := NormalizeDrag(old(rectangleStart), Vec(old(currentRectangle).value.width, old(currentRectangle).value.height));
                && exclusionRectangles == old(exclusionRectangles) + (if IsMeaningful(r) then [r] else [])
                && currentRectangle == None && !isDrawingRectangle
                && rectangleStart == old(rectangleStart) && blockedCells == old(blockedCells)
    {
      if currentRectangle.None? {
        return;
      }
      isDrawingRectangle := false;
      var r := NormalizeDrag(rectangleStart, Vec(currentRectangle.value.width, currentRectangle.value.height));
      if IsMeaningful(r) {
        exclusionRectangles := exclusionRectangles + [r];
      }
      currentRectangle := None;
    }

    /** `clearRectangles`: the list is emptied; the blocked set stays until
        the next `UpdateBlockedCells`. */
    method ClearRectangles()
      requires Valid()
      modifies this
      ensures Valid()
      ensures exclusionRectangles == [] && blockedCells == old(blockedCells)
      ensures isDrawingRectangle == old(isDrawingRectangle) && currentRectangle == old(currentRectangle)
      ensures rectangleStart == old(rectangleStart)
    {
      exclusionRectangles := [];
    }

    /** `isBlocked`. */
    predicate IsBlocked(cellIndex: nat)
      reads this
    {
      cellIndex in blockedCells
    }

    /** `calculateCellCoverage`: the loop that sums the overlaps. */
    method CalculateCellCoverage(cell: Rect) returns (coverage: Option<real>)
      ensures coverage == Coverage(cell, exclusionRectangles)
    {
      var totalCoveredArea := 0.0;
      var cellArea := Area(cell);
      for i := 0 to |exclusionRectangles|
        invariant totalCoveredArea == CoveredArea(cell, exclusionRectangles[..i])
      {
        assert exclusionRectangles[..i + 1][..i] == exclusionRectangles[..i];
        totalCoveredArea := totalCoveredArea + IntersectionArea(cell, exclusionRectangles[i]);
      }
      assert exclusionRectangles[..|exclusionRectangles|] == exclusionRectangles;
      if cellArea == 0.0 {
        return None;
      }
      return Some(Min(totalCoveredArea / cellArea, 1.0));
    }

    /** `calculateRectangleRepulsion`: the loop that adds up the pushes. */
    method CalculateRectangleRepulsion(p: Vec, radius: real, strength: real, direction: Direction) returns (force: Vec)
      ensures force == RectangleRepulsion(p, exclusionRectangles, radius, strength, direction)
    {
      var totalRepulsionX := 0.0;
      var totalRepulsionY := 0.0;
      for i := 0 to |exclusionRectangles|
        invariant Vec(totalRepulsionX, totalRepulsionY) == RectangleRepulsion(p, exclusionRectangles[..i], radius, strength, direction)
      {
        RepulsionPrefixStep(p, exclusionRectangles, i, radius, strength, direction);
        var repulsion := RepulsionFromRectangle(p, exclusionRectangles[i], radius, strength, direction);
        totalRepulsionX := totalRepulsionX + repulsion.x;
        totalRepulsionY := totalRepulsionY + repulsion.y;
      }
      assert exclusionRectangles[..|exclusionRectangles|] == exclusionRectangles;
      return Vec(totalRepulsionX, totalRepulsionY);
    }

    /** `updateBlockedCells`: with no rectangles the blocked set is emptied
        and no cell changes. Otherwise the set becomes exactly the indices
        of the cells whose coverage reaches `threshold`, and each of those
        cells is cleared; every other cell is untouched. */
    method UpdateBlockedCells(cells: seq<Cell>, threshold: real)
      requires Valid() && CellsValid(cells)
      modifies this, cells
      ensures Valid() && CellsValid(cells)
      ensures exclusionRectangles == old(exclusionRectangles) && currentRectangle == old(currentRectangle)
      ensures isDrawingRectangle == old(isDrawingRectangle) && rectangleStart == old(rectangleStart)
      ensures forall b :: b in blockedCells ==> b < |cells|
      ensures forall k :: 0 <= k < |cells| ==>
                (k in blockedCells <==> exclusionRectangles != [] && Blocks(Coverage(old(cells[k].Bounds()), exclusionRectangles), threshold))
      ensures forall k :: 0 <= k < |cells| && k !in blockedCells ==> unchanged(cells[k])
      ensures forall k :: 0 <= k < |cells| && k in blockedCells ==> Cleared(cells[k])
    {
      if |exclusionRectangles| == 0 {
        blockedCells := {};
        return;
      }
      var blocked := BlockCoveredCells(cells, threshold);
      blockedCells := blocked;
    }

    /** The loop of `updateBlockedCells`: the cells whose coverage reaches
        `threshold` are cleared and their indices returned; the others are
        left alone. */
    method BlockCoveredCells(cells: seq<Cell>, threshold: real) returns (blocked: set<nat>)
      requires CellsValid(cells)
      modifies cells
      ensures CellsValid(cells)
      ensures forall b :: b in blocked ==> b < |cells|
      ensures forall k :: 0 <= k < |cells| ==>
                (k in blocked <==> Blocks(Coverage(old(cells[k].Bounds()), exclusionRectangles), threshold))
      ensures forall k :: 0 <= k < |cells| && k !in blocked ==> unchanged(cells[k])
      ensures forall k :: 0 <= k < |cells| && k in blocked ==> Cleared(cells[k])
    {
      blocked := {};
      for i := 0 to |cells|
        invariant forall k :: 0 <= k < |cells| ==> cells[k].cellIndex == k
        invariant forall b :: b in blocked ==> b < i
        invariant forall k :: 0 <= k < i ==>
                    (k in blocked <==> Blocks(Coverage(cells[k].Bounds(), exclusionRectangles), threshold))
        invariant forall k :: 0 <= k < |cells| && (i <= k || k !in blocked) ==> unchanged(cells[k])
        invariant forall k :: 0 <= k < i && k in blocked ==> Cleared(cells[k])
      {
        var cell := cells[i];
        assert forall k :: 0 <= k < |cells| && k != i ==> cells[k] != cell;
        var coveragePercentage := CalculateCellCoverage(cell.Bounds());
        if Blocks(coveragePercentage, threshold) {
          blocked := blocked + {cell.cellIndex};
          cell.Clear();
        }
      }
    }
  }
}
