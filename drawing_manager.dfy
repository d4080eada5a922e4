/** The drawing manager: choosing a drawing for a cell, flattening it into
    timed points (the stroke sampler), and the per-cell reveal that turns
    sampled points into live points as the animation progresses. */
module DrawingManager {
  import opened Geometry
  import opened Cells

  // ---------------------------------------------------------------------
  // Choosing a drawing
  // ---------------------------------------------------------------------

  /** `drawings.filter(d => d.recognized)`. */
  function RecognizedDrawings(ds: seq<Drawing>): (r: seq<Drawing>)
    ensures forall d :: d in r <==> d in ds && d.recognized
  {
    if ds == [] then []
    else (if ds[0].recognized then [ds[0]] else []) + RecognizedDrawings(ds[1..])
  }

  /** `drawings.filter(d => !d.recognized)`. */
  function UnrecognizedDrawings(ds: seq<Drawing>): (r: seq<Drawing>)
    ensures forall d :: d in r <==> d in ds && !d.recognized
  {
    if ds == [] then []
    else (if ds[0].recognized then [] else [ds[0]]) + UnrecognizedDrawings(ds[1..])
  }

  /** p5.js `random(list)`: the element the caller-supplied draw `pick`
      selects; `undefined` for an empty list. */
  function RandomElement<T>(list: seq<T>, pick: nat): (r: Option<T>)
    ensures r.None? <==> list == []
    ensures r.Some? ==> r.value in list
  {
    if list == [] then None else Some(list[pick % |list|])
  }

  /** The drawing a cell gets: a recognised one when the probability draw
      asks for one and one exists, otherwise an unrecognised one when one
      exists, otherwise any drawing. `useRecognized` is the outcome of
      `random() < RECOGNIZED_PROBABILITY`. */
  function ChooseDrawing(ds: seq<Drawing>, useRecognized: bool, pick: nat): (r: Option<Drawing>)
    ensures r.None? <==> ds == []
    ensures r.Some? ==> r.value in ds
  {
    var recognized := RecognizedDrawings(ds);
    var unrecognized := UnrecognizedDrawings(ds);
    if useRecognized && |recognized| > 0 then RandomElement(recognized, pick)
    else if |unrecognized| > 0 then RandomElement(unrecognized, pick)
    else RandomElement(ds, pick)
  }

  /** The order of the fallbacks: a chosen drawing always comes from the
      dataset; it is recognised when asked for and available, unrecognised
      when that list is the next fallback, and only an empty dataset gives
      nothing. */
  lemma ChooseDrawingOrder(ds: seq<Drawing>, useRecognized: bool, pick: nat)
    ensures ChooseDrawing(ds, useRecognized, pick).None? <==> ds == []
    ensures ChooseDrawing(ds, useRecognized, pick).Some? ==> ChooseDrawing(ds, useRecognized, pick).value in ds
    ensures useRecognized && (exists d :: d in ds && d.recognized) ==>
              ChooseDrawing(ds, useRecognized, pick).value.recognized
    ensures !useRecognized && (exists d :: d in ds && !d.recognized) ==>
              !ChooseDrawing(ds, useRecognized, pick).value.recognized
    ensures (forall d :: d in ds ==> d.recognized) && ds != [] ==>
              ChooseDrawing(ds, useRecognized, pick) == RandomElement(ds, pick) ||
              ChooseDrawing(ds, useRecognized, pick) == RandomElement(RecognizedDrawings(ds), pick)
  {
    var recognized := RecognizedDrawings(ds);
    var unrecognized := UnrecognizedDrawings(ds);
    if ds != [] {
      assert ds[0] in ds;
      if ds[0].recognized { assert ds[0] in recognized; } else { assert ds[0] in unrecognized; }
    }
    if useRecognized && (exists d :: d in ds && d.recognized) {
      var d :| d in ds && d.recognized;
      assert d in recognized;
    }
    if (exists d :: d in ds && !d.recognized) {
      var d :| d in ds && !d.recognized;
      assert d in unrecognized;
    }
  }

  // ---------------------------------------------------------------------
  // The stroke sampler
  // ---------------------------------------------------------------------

  /** The padded rectangle of a cell the drawing is fitted into: the cell
      inset on every side by `width * cellPadding`, the vertical sides
      included. */
  function DrawArea(cell: Rect, cellPadding: real): (area: Rect)
    ensures area.x == cell.x + cell.width * cellPadding
    ensures area.y == cell.y + cell.width * cellPadding
    ensures area.x + area.width == cell.x + cell.width - cell.width * cellPadding
    ensures area.y + area.height == cell.y + cell.height - cell.width * cellPadding
  {
    var padding := cell.width * cellPadding;
    Rect(cell.x + padding, cell.y + padding, cell.width - 2.0 * padding, cell.height - 2.0 * padding)
  }

  /** `area` has non-negative sides and lies within `cell`. */
  predicate WithinCell(area: Rect, cell: Rect)
  {
    && 0.0 <= area.width && 0.0 <= area.height
    && cell.x <= area.x && area.x + area.width <= cell.x + cell.width
    && cell.y <= area.y && area.y + area.height <= cell.y + cell.height
  }

  /** The padded area lies within its cell exactly when the padding is
      non-negative and at most half of each side; as the padding is taken
      from the width, a cell less tall than twice the padding is left. */
  lemma DrawAreaWithinCell(cell: Rect, cellPadding: real)
    ensures var padding := cell.width * cellPadding;
            WithinCell(DrawArea(cell, cellPadding), cell) <==>
              0.0 <= padding && 2.0 * padding <= cell.width && 2.0 * padding <= cell.height
  {
    var padding := cell.width * cellPadding;
    var area := DrawArea(cell, cellPadding);
    assert area.width == cell.width - 2.0 * padding && area.height == cell.height - 2.0 * padding;
  }

  /** A wide, short cell: 500 by 20 with the padding fraction 0.1 gives an
      area that starts 50 below the cell's top, past its bottom at 20, and
      is -80 tall. */
  lemma DrawAreaSpillsExample()
    ensures var cell := Rect(0.0, 0.0, 500.0, 20.0);
            var area := DrawArea(cell, 0.1);
            && area.y == 50.0 && area.height == -80.0
            && area.y > cell.y + cell.height
            && !WithinCell(area, cell)
  {
    var cell := Rect(0.0, 0.0, 500.0, 20.0);
    assert DrawArea(cell, 0.1) == Rect(50.0, 50.0, 400.0, -80.0);
  }

  /** The padded area with each side inset by its own fraction: the
      horizontal padding taken from the width, the vertical from the
      height. It agrees with `DrawArea` on square cells. */
  function PaddedArea(cell: Rect, cellPadding: real): Rect
  {
    var horizontal := cell.width * cellPadding;
    var vertical := cell.height * cellPadding;
    Rect(cell.x + horizontal, cell.y + vertical, cell.width - 2.0 * horizontal, cell.height - 2.0 * vertical)
  }

  /** With a padding fraction in [0, 1/2], the per-side area of any cell
      with non-negative sides lies within the cell; on a square cell it is
      the area as written. */
  lemma PaddedAreaWithinCell(cell: Rect, cellPadding: real)
    requires 0.0 <= cell.width && 0.0 <= cell.height && 0.0 <= cellPadding <= 0.5
    ensures WithinCell(PaddedArea(cell, cellPadding), cell)
    ensures cell.width == cell.height ==> PaddedArea(cell, cellPadding) == DrawArea(cell, cellPadding)
  {
    ProductMonotone(cell.width, cellPadding, cell.width, 0.5);
    ProductMonotone(cell.height, cellPadding, cell.height, 0.5);
  }

  /** p5.js `map(v, 0, 255, lo, hi)`. */
  function MapFromByteRange(v: real, lo: real, hi: real): real
  {
    (v - 0.0) / (255.0 - 0.0) * (hi - lo) + lo
  }

  /** The remapping sends 0 to `lo`, 255 to `hi`, and keeps every input of
      [0, 255] between the two. */
  lemma MapFromByteRangeBounds(v: real, lo: real, hi: real)
    requires 0.0 <= v <= 255.0 && lo <= hi
    ensures lo <= MapFromByteRange(v, lo, hi) <= hi
    ensures v == 0.0 ==> MapFromByteRange(v, lo, hi) == lo
    ensures v == 255.0 ==> MapFromByteRange(v, lo, hi) == hi
  {
    var f := v / 255.0;
    var d := hi - lo;
    ProductBounds(f, d);
  }

  /** The number of points a list of strokes yields: the length of the
      x array of every usable stroke. */
  function PointCount(strokes: seq<Stroke>): nat
  {
    if strokes == [] then 0
    else
      var last := strokes[|strokes| - 1];
      PointCount(strokes[..|strokes| - 1]) + (if Usable(last) then |last[0]| else 0)
  }

  /** The stroke index of the point pushed as number `i` of its stroke after
      `pts`: one more than the previous point's at the start of a stroke, the
      previous point's inside it, and 0 for the very first point. */
  function NextStrokeIndex(pts: seq<SampledPoint>, i: nat): nat
  {
    if |pts| > 0 && i == 0 then pts[|pts| - 1].strokeIndex + 1
    else if |pts| == 0 then 0
    else pts[|pts| - 1].strokeIndex
  }

  /** The point pushed for coordinate `i` of a stroke after the points `pts`,
      when the drawing has `total` points. */
  function NewPoint(pts: seq<SampledPoint>, xs: seq<real>, ys: seq<real>, i: nat,
                    area: Rect, total: nat): SampledPoint
    requires i < |xs| && i < |ys| && |pts| < total
  {
    SampledPoint(
      MapFromByteRange(xs[i], area.x, area.x + area.width),
      MapFromByteRange(ys[i], area.y, area.y + area.height),
      NextStrokeIndex(pts, i), i, |pts|, |pts| as real / total as real)
  }

  /** `pts` followed by the points of the first `m` coordinates of a stroke. */
  function SampleStroke(pts: seq<SampledPoint>, xs: seq<real>, ys: seq<real>, m: nat,
                        area: Rect, total: nat): (r: seq<SampledPoint>)
    requires m <= |xs| && m <= |ys| && |pts| + m <= total
    ensures |r| == |pts| + m
    decreases m
  {
    if m == 0 then pts
    else
      var prev := SampleStroke(pts, xs, ys, m - 1, area, total);
      prev + [NewPoint(prev, xs, ys, m - 1, area, total)]
  }

  /** The points of a list of strokes, numbered against `total`. */
  function SampleStrokes(strokes: seq<Stroke>, area: Rect, total: nat): (r: seq<SampledPoint>)
    requires WellFormed(strokes) && PointCount(strokes) <= total
    ensures |r| == PointCount(strokes)
  {
    if strokes == [] then []
    else
      var last := strokes[|strokes| - 1];
      var prev := SampleStrokes(strokes[..|strokes| - 1], area, total);
      if Usable(last) then SampleStroke(prev, last[0], last[1], |last[0]|, area, total) else prev
  }

  /** The flattened drawing: every point of every usable stroke, in order,
      mapped into `area`, with its timing taken against the drawing's total
      point count. */
  function Sample(strokes: seq<Stroke>, area: Rect): seq<SampledPoint>
    requires WellFormed(strokes)
  {
    SampleStrokes(strokes, area, PointCount(strokes))
  }

  /** Point `k` of a sequence of at most `total` points is numbered `k` and
      timed `k / total`. */
  ghost predicate Numbered(pts: seq<SampledPoint>, total: nat)
  {
    && |pts| <= total
    && forall k :: 0 <= k < |pts| ==>
         pts[k].globalPointIndex == k && pts[k].timing == k as real / total as real
  }

  /** How stroke and point indices step from one point to the next. */
  predicate Step(p: SampledPoint, q: SampledPoint)
  {
    if q.pointIndex == 0 then q.strokeIndex == p.strokeIndex + 1
    else q.strokeIndex == p.strokeIndex && q.pointIndex == p.pointIndex + 1
  }

  /** The first point starts stroke 0, and every later point either starts
      the next stroke or continues the current one. */
  ghost predicate Stepped(pts: seq<SampledPoint>)
  {
    && (|pts| > 0 ==> pts[0].strokeIndex == 0 && pts[0].pointIndex == 0)
    && (forall k :: 0 < k < |pts| ==> Step(pts[k - 1], pts[k]))
  }

  /** Every point lies in the closed rectangle. */
  ghost predicate InsideArea(pts: seq<SampledPoint>, area: Rect)
  {
    forall k :: 0 <= k < |pts| ==> Contains(area, Vec(pts[k].x, pts[k].y))
  }

  /** All coordinates of the usable strokes lie in [0, 255]. */
  ghost predicate InByteRange(strokes: seq<Stroke>)
  {
    forall j, i :: 0 <= j < |strokes| && Usable(strokes[j]) && 0 <= i < |strokes[j][0]| ==>
      0.0 <= strokes[j][0][i] <= 255.0 && (i < |strokes[j][1]| ==> 0.0 <= strokes[j][1][i] <= 255.0)
  }

  lemma WellFormedPrefix(strokes: seq<Stroke>, j: nat)
    requires WellFormed(strokes) && j <= |strokes|
    ensures WellFormed(strokes[..j])
  {
    var init := strokes[..j];
    forall k | 0 <= k < |init| && Usable(init[k]) ensures |init[k][0]| <= |init[k][1]| {
      assert init[k] == strokes[k];
    }
  }

  lemma InByteRangePrefix(strokes: seq<Stroke>, j: nat)
    requires InByteRange(strokes) && j <= |strokes|
    ensures InByteRange(strokes[..j])
  {
    var init := strokes[..j];
    forall k, i | 0 <= k < |init| && Usable(init[k]) && 0 <= i < |init[k][0]|
      ensures 0.0 <= init[k][0][i] <= 255.0 && (i < |init[k][1]| ==> 0.0 <= init[k][1][i] <= 255.0)
    {
      assert init[k] == strokes[k];
    }
  }

  /** A stroke's points continue the numbering and the stroke/point
      indexing of the points before them. */
  lemma {:induction false} SampleStrokeNumbering(pts: seq<SampledPoint>, xs: seq<real>, ys: seq<real>, m: nat,
                                                area: Rect, total: nat)
    requires m <= |xs| && m <= |ys| && |pts| + m <= total
    requires Numbered(pts, total) && Stepped(pts)
    ensures var r := SampleStroke(pts, xs, ys, m, area, total);
            Numbered(r, total) && Stepped(r) && (m > 0 ==> r[|r| - 1].pointIndex == m - 1)
    decreases m
  {
    if m > 0 {
      SampleStrokeNumbering(pts, xs, ys, m - 1, area, total);
      var prev := SampleStroke(pts, xs, ys, m - 1, area, total);
      var q := NewPoint(prev, xs, ys, m - 1, area, total);
      var r := prev + [q];
      assert r == SampleStroke(pts, xs, ys, m, area, total);
      forall k | 0 <= k < |r|
        ensures r[k].globalPointIndex == k && r[k].timing == k as real / total as real
      {
        if k < |prev| { assert r[k] == prev[k]; }
      }
      forall k | 0 < k < |r| ensures Step(r[k - 1], r[k]) {
        if k < |prev| { assert r[k - 1] == prev[k - 1] && r[k] == prev[k]; }
      }
    }
  }

  /** The points a stroke appends keep what came before and carry the
      stroke's mapped coordinates. */
  lemma {:induction false} SampleStrokeShape(pts: seq<SampledPoint>, xs: seq<real>, ys: seq<real>, m: nat,
                                            area: Rect, total: nat)
    requires m <= |xs| && m <= |ys| && |pts| + m <= total
    ensures var r := SampleStroke(pts, xs, ys, m, area, total);
            r[..|pts|] == pts &&
            (forall i :: 0 <= i < m ==>
               r[|pts| + i].x == MapFromByteRange(xs[i], area.x, area.x + area.width) &&
               r[|pts| + i].y == MapFromByteRange(ys[i], area.y, area.y + area.height))
    decreases m
  {
    if m > 0 {
      SampleStrokeShape(pts, xs, ys, m - 1, area, total);
      var prev := SampleStroke(pts, xs, ys, m - 1, area, total);
      var r := SampleStroke(pts, xs, ys, m, area, total);
      assert r[..|prev|] == prev;
      assert r[..|pts|] == prev[..|pts|];
    }
  }

  lemma {:induction false} SampleStrokesNumbering(strokes: seq<Stroke>, area: Rect, total: nat)
    requires WellFormed(strokes) && PointCount(strokes) <= total
    ensures Numbered(SampleStrokes(strokes, area, total), total)
    ensures Stepped(SampleStrokes(strokes, area, total))
  {
    if strokes != [] {
      var init := strokes[..|strokes| - 1];
      var last := strokes[|strokes| - 1];
      WellFormedPrefix(strokes, |strokes| - 1);
      SampleStrokesNumbering(init, area, total);
      if Usable(last) {
        SampleStrokeNumbering(SampleStrokes(init, area, total), last[0], last[1], |last[0]|, area, total);
      }
    }
  }

  lemma {:induction false} SampleStrokesInside(strokes: seq<Stroke>, area: Rect, total: nat)
    requires WellFormed(strokes) && PointCount(strokes) <= total
    requires InByteRange(strokes) && area.width >= 0.0 && area.height >= 0.0
    ensures InsideArea(SampleStrokes(strokes, area, total), area)
  {
    if strokes != [] {
      var init := strokes[..|strokes| - 1];
      var last := strokes[|strokes| - 1];
      WellFormedPrefix(strokes, |strokes| - 1);
      InByteRangePrefix(strokes, |strokes| - 1);
      SampleStrokesInside(init, area, total);
      var prev := SampleStrokes(init, area, total);
      if Usable(last) {
        var xs, ys := last[0], last[1];
        SampleStrokeShape(prev, xs, ys, |xs|, area, total);
        var r := SampleStroke(prev, xs, ys, |xs|, area, total);
        forall k | 0 <= k < |r| ensures Contains(area, Vec(r[k].x, r[k].y)) {
          if k < |prev| {
            assert r[k] == prev[k];
          } else {
            var i := k - |prev|;
            assert 0.0 <= xs[i] <= 255.0 && 0.0 <= ys[i] <= 255.0;
            MapFromByteRangeBounds(xs[i], area.x, area.x + area.width);
            MapFromByteRangeBounds(ys[i], area.y, area.y + area.height);
          }
        }
      }
    }
  }

  lemma TimingBelowOne(k: nat, n: nat)
    requires k < n
    ensures 0.0 <= k as real / n as real < 1.0
  {
    assert (k as real / n as real) * n as real == k as real;
  }

  /** The sampler's guarantees: as many points as the usable strokes have x
      values; point `k` numbered `k` and timed `k / N`, so every timing lies
      in [0, 1); stroke indices start at 0 and step by exactly one at the
      first point of each later stroke; point indices count up inside a
      stroke. */
  lemma SampleGuarantees(strokes: seq<Stroke>, area: Rect)
    requires WellFormed(strokes)
    ensures var r := Sample(strokes, area);
            |r| == PointCount(strokes) && Numbered(r, |r|) && Stepped(r) &&
            (forall k :: 0 <= k < |r| ==> 0.0 <= r[k].timing < 1.0)
  {
    SampleStrokesNumbering(strokes, area, PointCount(strokes));
    var r := Sample(strokes, area);
    forall k | 0 <= k < |r| ensures 0.0 <= r[k].timing < 1.0 {
      TimingBelowOne(k, |r|);
    }
  }

  /** The part of `SampleGuarantees` a cell's invariant needs: point `k`
      has global index `k`. */
  lemma SampleIndexed(strokes: seq<Stroke>, area: Rect)
    requires WellFormed(strokes)
    ensures forall k :: 0 <= k < |Sample(strokes, area)| ==> Sample(strokes, area)[k].globalPointIndex == k
  {
    SampleGuarantees(strokes, area);
  }

  /** For coordinates in [0, 255] and a padded area of non-negative size,
      every sampled point lies inside the padded area. */
  lemma SampleInsideArea(strokes: seq<Stroke>, area: Rect)
    requires WellFormed(strokes) && InByteRange(strokes)
    requires area.width >= 0.0 && area.height >= 0.0
    ensures InsideArea(Sample(strokes, area), area)
  {
    SampleStrokesInside(strokes, area, PointCount(strokes));
  }

  // ---------------------------------------------------------------------
  // Setting up and revealing a cell
  // ---------------------------------------------------------------------

  /** The counting loop of `setupCellDrawing`: the x values of every usable
      stroke. */
  method CountPoints(strokes: seq<Stroke>) returns (totalPoints: nat)
    ensures totalPoints == PointCount(strokes)
  {
    totalPoints := 0;
    var j := 0;
    while j < |strokes|
      invariant 0 <= j <= |strokes|
      invariant totalPoints == PointCount(strokes[..j])
    {
      if |strokes[j]| >= 2 {
        totalPoints := totalPoints + |strokes[j][0]|;
      }
      assert strokes[..j + 1][..j] == strokes[..j];
      j := j + 1;
    }
    assert strokes[..|strokes|] == strokes;
  }

  /** The point count of the first `j` strokes never exceeds the whole
      drawing's. */
  lemma {:induction false} PointCountPrefix(strokes: seq<Stroke>, j: nat)
    requires j <= |strokes|
    ensures PointCount(strokes[..j]) <= PointCount(strokes)
    decreases |strokes|
  {
    if j < |strokes| {
      var init := strokes[..|strokes| - 1];
      assert init[..j] == strokes[..j];
      PointCountPrefix(init, j);
    } else {
      assert strokes[..j] == strokes;
    }
  }

  /** The sampled points of the first `j + 1` strokes: those of the first
      `j`, followed by the points of stroke `j` when it is usable. */
  lemma SampleStrokesStep(strokes: seq<Stroke>, area: Rect, total: nat, j: nat)
    requires WellFormed(strokes) && PointCount(strokes) <= total && j < |strokes|
    ensures WellFormed(strokes[..j]) && PointCount(strokes[..j]) <= total
    ensures WellFormed(strokes[..j + 1]) && PointCount(strokes[..j + 1]) <= total
    ensures Usable(strokes[j]) ==>
              |strokes[j][0]| <= |strokes[j][1]| && PointCount(strokes[..j]) + |strokes[j][0]| <= total
    ensures SampleStrokes(strokes[..j + 1], area, total) ==
              if Usable(strokes[j])
              then SampleStroke(SampleStrokes(strokes[..j], area, total), strokes[j][0], strokes[j][1],
                                |strokes[j][0]|, area, total)
              else SampleStrokes(strokes[..j], area, total)
  {
    PointCountPrefix(strokes, j + 1);
    PointCountPrefix(strokes, j);
    WellFormedPrefix(strokes, j + 1);
    WellFormedPrefix(strokes, j);
    var upto := strokes[..j + 1];
    assert upto[..j] == strokes[..j] && upto[j] == strokes[j];
  }

  /** The inner pushing loop of `setupCellDrawing`: the points of one
      stroke appended after `pts`, numbered from `pointCounter` on. */
  method PushStroke(pts: seq<SampledPoint>, pointCounter: nat, xPoints: seq<real>, yPoints: seq<real>,
                    area: Rect, totalPoints: nat)
    returns (allPoints: seq<SampledPoint>, counter: nat)
    requires pointCounter == |pts| && |xPoints| <= |yPoints| && |pts| + |xPoints| <= totalPoints
    ensures allPoints == SampleStroke(pts, xPoints, yPoints, |xPoints|, area, totalPoints)
    ensures counter == |allPoints|
  {
    allPoints := pts;
    counter := pointCounter;
    var i := 0;
    while i < |xPoints|
      invariant 0 <= i <= |xPoints|
      invariant allPoints == SampleStroke(pts, xPoints, yPoints, i, area, totalPoints)
      invariant counter == |allPoints|
    {
      allPoints := allPoints + [SampledPoint(
        MapFromByteRange(xPoints[i], area.x, area.x + area.width),
        MapFromByteRange(yPoints[i], area.y, area.y + area.height),
        NextStrokeIndex(allPoints, i), i, counter,
        counter as real / totalPoints as real)];
      counter := counter + 1;
      i := i + 1;
    }
  }

  /** The pushing loop of `setupCellDrawing`: every point of every usable
      stroke, mapped into `area`, numbered and timed against `totalPoints`. */
  method FlattenStrokes(strokes: seq<Stroke>, area: Rect, totalPoints: nat) returns (allPoints: seq<SampledPoint>)
    requires WellFormed(strokes) && PointCount(strokes) <= totalPoints
    ensures allPoints == SampleStrokes(strokes, area, totalPoints)
  {
    allPoints := [];
    var pointCounter := 0;
    var j := 0;
    while j < |strokes|
      invariant 0 <= j <= |strokes|
      invariant WellFormed(strokes[..j]) && PointCount(strokes[..j]) <= totalPoints
      invariant allPoints == SampleStrokes(strokes[..j], area, totalPoints)
      invariant pointCounter == |allPoints|
    {
      SampleStrokesStep(strokes, area, totalPoints, j);
      if |strokes[j]| >= 2 {
        allPoints, pointCounter := PushStroke(allPoints, pointCounter, strokes[j][0], strokes[j][1],
                                              area, totalPoints);
      }
      j := j + 1;
    }
    assert strokes[..|strokes|] == strokes;
  }

  /** The sampling part of `setupCellDrawing`: count the drawing's points,
      then push them all, mapped into `area`; the points come out numbered
      by position. */
  method SampleCellDrawing(strokes: seq<Stroke>, area: Rect) returns (points: seq<SampledPoint>)
    requires WellFormed(strokes)
    ensures points == Sample(strokes, area)
    ensures forall k :: 0 <= k < |points| ==> points[k].globalPointIndex == k
  {
    var totalPoints := CountPoints(strokes);
    points := FlattenStrokes(strokes, area, totalPoints);
    SampleIndexed(strokes, area);
  }

  /** Everything but the drawing and point state of a cell is unchanged. */
  twostate predicate SameGeometry(cell: Cell)
    reads cell
  {
    && cell.row == old(cell.row) && cell.col == old(cell.col)
    && cell.x == old(cell.x) && cell.y == old(cell.y)
    && cell.width == old(cell.width) && cell.height == old(cell.height)
    && cell.cellIndex == old(cell.cellIndex)
  }

  /** `setupCellDrawing`: choose a drawing, flatten it into the cell's padded
      area, and start the reveal at time `now`. The random draws come in as
      `roll` (for `random()`) and `pick` (for `random(list)`). With an empty
      dataset the source reads a field of `undefined` and throws after
      setting `cell.drawing`; the model returns `false` at that point. */
  method SetupCellDrawing(cell: Cell, drawings: seq<Drawing>, roll: real, recognizedProbability: real,
                          pick: nat, cellPadding: real, now: real) returns (ok: bool)
    requires cell.Valid()
    requires forall d :: d in drawings ==> WellFormed(d.strokes)
    modifies cell
    ensures cell.Valid() && SameGeometry(cell)
    ensures ok <==> drawings != []
    ensures cell.drawing == ChooseDrawing(drawings, roll < recognizedProbability, pick)
    ensures ok ==> && cell.allPoints == Sample(cell.drawing.value.strokes, DrawArea(cell.Bounds(), cellPadding))
                   && cell.livePoints == []
                   && cell.animationStartTime == now
                   && cell.state == Animating
    ensures !ok ==> && cell.allPoints == old(cell.allPoints) && cell.livePoints == old(cell.livePoints)
                    && cell.state == old(cell.state) && cell.animationStartTime == old(cell.animationStartTime)
  {
    var useRecognized := roll < recognizedProbability;
    var chosen := ChooseDrawing(drawings, useRecognized, pick);
    cell.drawing := chosen;
    if chosen.None? {
      return false;
    }
    var strokes := chosen.value.strokes;
    var points := SampleCellDrawing(strokes, DrawArea(cell.Bounds(), cellPadding));
    cell.allPoints, cell.livePoints, cell.animationStartTime, cell.state := points, [], now, Animating;
    return true;
  }

  /** The caller-supplied perturbation of a revealed point: the wobble (and
      any pointer or rectangle repulsion) applied to the frozen position of
      point number `globalPointIndex` at the current frame time. */
  type Perturbation = (real, real, nat) -> Vec

  /** Every live point sits where the perturbation puts its frozen position. */
  ghost predicate Perturbed(live: seq<LivePoint>, perturb: Perturbation)
  {
    forall k :: 0 <= k < |live| ==>
      Vec(live[k].x, live[k].y) == perturb(live[k].originalX, live[k].originalY, live[k].globalPointIndex)
  }

  /** The number of live points after a reveal step at `progress`: the
      count grows to `min(floor(progress * n), n)` when it is below that, and
      never shrinks. */
  function RevealedCount(liveCount: nat, n: nat, progress: real): nat
  {
    var target := (progress * n as real).Floor;
    if liveCount < target && liveCount < n then (if target < n then target else n) else liveCount
  }

  /** The reveal count never shrinks, never passes `n` when it starts within
      it, reaches `n` once progress reaches 1, is idempotent, and is monotone
      in progress. */
  lemma RevealedCountProps(liveCount: nat, n: nat, progress: real, later: real)
    requires liveCount <= n
    ensures liveCount <= RevealedCount(liveCount, n, progress) <= n
    ensures progress >= 1.0 ==> RevealedCount(liveCount, n, progress) == n
    ensures RevealedCount(RevealedCount(liveCount, n, progress), n, progress) == RevealedCount(liveCount, n, progress)
    ensures progress <= later ==> RevealedCount(liveCount, n, progress) <= RevealedCount(liveCount, n, later)
  {
    if progress >= 1.0 {
      assert progress * n as real - n as real == (progress - 1.0) * n as real;
      ProductNonnegative(progress - 1.0, n as real);
    }
    if progress <= later {
      assert later * n as real - progress * n as real == (later - progress) * n as real;
      ProductNonnegative(later - progress, n as real);
      FloorMonotone(progress * n as real, later * n as real);
    }
  }

  lemma FloorMonotone(a: real, b: real)
    requires a <= b
    ensures a.Floor <= b.Floor
  {
  }

  /** `updateJiggle`: overwrite the position of every live point with its
      perturbed frozen position; nothing else of the cell changes. */
  method UpdateJiggle(cell: Cell, perturb: Perturbation)
    requires cell.Valid()
    modifies cell
    ensures cell.Valid() && SameGeometry(cell)
    ensures |cell.livePoints| == old(|cell.livePoints|)
    ensures forall k :: 0 <= k < |cell.livePoints| ==> FrozenPart(cell.livePoints[k]) == FrozenPart(old(cell.livePoints[k]))
    ensures Perturbed(cell.livePoints, perturb)
    ensures cell.allPoints == old(cell.allPoints) && cell.state == old(cell.state)
    ensures cell.drawing == old(cell.drawing) && cell.animationStartTime == old(cell.animationStartTime)
  {
    var i := 0;
    while i < |cell.livePoints|
      invariant 0 <= i <= |cell.livePoints| == old(|cell.livePoints|)
      invariant forall k :: 0 <= k < |cell.livePoints| ==> FrozenPart(cell.livePoints[k]) == FrozenPart(old(cell.livePoints[k]))
      invariant Perturbed(cell.livePoints[..i], perturb)
      invariant cell.allPoints == old(cell.allPoints) && cell.state == old(cell.state)
      invariant cell.drawing == old(cell.drawing) && cell.animationStartTime == old(cell.animationStartTime)
      invariant SameGeometry(cell)
    {
      var point := cell.livePoints[i];
      var jiggled := perturb(point.originalX, point.originalY, point.globalPointIndex);
      cell.livePoints := cell.livePoints[i := point.(x := jiggled.x, y := jiggled.y)];
      i := i + 1;
    }
    assert cell.livePoints[..i] == cell.livePoints;
  }

  /** `updateLivePoints`: reveal points up to `floor(progress * n)` (and at
      most all of them), each a copy of the sampled point at its position,
      then perturb every live point. */
  method UpdateLivePoints(cell: Cell, progress: real, perturb: Perturbation)
    requires cell.Valid()
    modifies cell
    ensures cell.Valid() && SameGeometry(cell)
    ensures |cell.livePoints| == RevealedCount(old(|cell.livePoints|), |cell.allPoints|, progress)
    ensures forall k :: 0 <= k < old(|cell.livePoints|) ==> FrozenPart(cell.livePoints[k]) == FrozenPart(old(cell.livePoints[k]))
    ensures forall k :: 0 <= k < |cell.livePoints| ==> Copies(cell.livePoints[k], cell.allPoints[k])
    ensures Perturbed(cell.livePoints, perturb)
    ensures cell.allPoints == old(cell.allPoints) && cell.state == old(cell.state)
    ensures cell.drawing == old(cell.drawing) && cell.animationStartTime == old(cell.animationStartTime)
  {
    var targetPoints := (progress * |cell.allPoints| as real).Floor;
    while |cell.livePoints| < targetPoints && |cell.livePoints| < |cell.allPoints|
      invariant cell.Valid() && SameGeometry(cell)
      invariant old(|cell.livePoints|) <= |cell.livePoints|
      invariant |cell.livePoints| <= old(|cell.livePoints|) || |cell.livePoints| <= targetPoints
      invariant forall k :: 0 <= k < old(|cell.livePoints|) ==> cell.livePoints[k] == old(cell.livePoints[k])
      invariant cell.allPoints == old(cell.allPoints) && cell.state == old(cell.state)
      invariant cell.drawing == old(cell.drawing) && cell.animationStartTime == old(cell.animationStartTime)
      decreases |cell.allPoints| - |cell.livePoints|
    {
      var point := cell.allPoints[|cell.livePoints|];
      cell.livePoints := cell.livePoints + [Reveal(point)];
    }
    UpdateJiggle(cell, perturb);
  }

  /** `updateAllLivePoints`: reveal every remaining point, then perturb
      every live point. */
  method UpdateAllLivePoints(cell: Cell, perturb: Perturbation)
    requires cell.Valid()
    modifies cell
    ensures cell.Valid() && SameGeometry(cell)
    ensures cell.allPoints == old(cell.allPoints) && cell.state == old(cell.state)
    ensures |cell.livePoints| == |cell.allPoints|
    ensures forall k :: 0 <= k < old(|cell.livePoints|) ==> FrozenPart(cell.livePoints[k]) == FrozenPart(old(cell.livePoints[k]))
    ensures forall k :: 0 <= k < |cell.livePoints| ==> Copies(cell.livePoints[k], cell.allPoints[k])
    ensures Perturbed(cell.livePoints, perturb)
    ensures cell.drawing == old(cell.drawing) && cell.animationStartTime == old(cell.animationStartTime)
  {
    if |cell.livePoints| < |cell.allPoints| {
      for i := |cell.livePoints| to |cell.allPoints|
        invariant cell.Valid() && SameGeometry(cell)
        invariant |cell.livePoints| == i
        invariant forall k :: 0 <= k < old(|cell.livePoints|) ==> cell.livePoints[k] == old(cell.livePoints[k])
        invariant cell.allPoints == old(cell.allPoints) && cell.state == old(cell.state)
        invariant cell.drawing == old(cell.drawing) && cell.animationStartTime == old(cell.animationStartTime)
      {
        var point := cell.allPoints[i];
        cell.livePoints := cell.livePoints + [Reveal(point)];
      }
    }
    UpdateJiggle(cell, perturb);
  }

  /** `updateActiveCell`: nothing happens unless the cell is animating;
      otherwise the reveal advances to `progress = (now - start) / duration`,
      and at progress 1 the cell becomes complete with every point live. */
  method UpdateActiveCell(activeCell: Cell?, now: real, duration: real, perturb: Perturbation)
    requires activeCell != null ==> activeCell.Valid()
    requires duration != 0.0
    modifies activeCell
    ensures activeCell != null ==> activeCell.Valid() && SameGeometry(activeCell)
    ensures activeCell != null && old(activeCell.state) != Animating ==> unchanged(activeCell)
    ensures activeCell != null && old(activeCell.state) == Animating ==>
              var progress := (now - old(activeCell.animationStartTime)) / duration;
              && activeCell.allPoints == old(activeCell.allPoints)
              && activeCell.drawing == old(activeCell.drawing)
              && activeCell.animationStartTime == old(activeCell.animationStartTime)
              && activeCell.state == (if progress >= 1.0 then Complete else Animating)
              && |activeCell.livePoints| == (if progress >= 1.0 then |activeCell.allPoints|
                                             else RevealedCount(old(|activeCell.livePoints|), |activeCell.allPoints|, progress))
              && Perturbed(activeCell.livePoints, perturb)
  {
    if activeCell == null || activeCell.state != Animating {
      return;
    }
    var elapsed := now - activeCell.animationStartTime;
    var progress := elapsed / duration;
    if progress >= 1.0 {
      activeCell.state := Complete;
      UpdateAllLivePoints(activeCell, perturb);
    } else {
      UpdateLivePoints(activeCell, progress, perturb);
    }
  }
}
