/** Text along a drawing: the words of the text, the path their letters
    follow (the live points of the cell, stroke by stroke), the arc length
    along that path, where a given distance falls on it, the cursor that
    places one letter after another, and the one-word-per-point labels. */
module TextManager {
  import opened Geometry
  import opened Cells

  // ---------------------------------------------------------------------
  // Words
  // ---------------------------------------------------------------------

  /** The text cut at every single space, as JavaScript's `split(' ')`:
      consecutive spaces give empty words and the empty text is one empty
      word. */
  function SplitOnSpace(s: string): (words: seq<string>)
    ensures |words| >= 1
  {
    if s == [] then [""]
    else
      var rest := SplitOnSpace(s[1..]);
      if s[0] == ' ' then [""] + rest
      else [[s[0]] + rest[0]] + rest[1..]
  }

  /** The words glued back with one space between neighbours. */
  function JoinWithSpace(words: seq<string>): string
    requires |words| >= 1
  {
    if |words| == 1 then words[0] else words[0] + " " + JoinWithSpace(words[1..])
  }

  predicate NoSpaces(words: seq<string>) {
    forall k :: 0 <= k < |words| ==> ' ' !in words[k]
  }

  /** Splitting loses nothing: joining the words gives the text back, and no
      word holds a space. */
  lemma {:induction false} SplitJoin(s: string)
    ensures JoinWithSpace(SplitOnSpace(s)) == s
    ensures NoSpaces(SplitOnSpace(s))
  {
    if s != [] {
      var rest := SplitOnSpace(s[1..]);
      SplitJoin(s[1..]);
      if s[0] == ' ' {
        assert SplitOnSpace(s)[1..] == rest;
      } else {
        var words := SplitOnSpace(s);
        if |rest| == 1 {
          assert JoinWithSpace(words) == [s[0]] + rest[0];
        } else {
          assert words[1..] == rest[1..];
          assert JoinWithSpace(rest) == rest[0] + " " + JoinWithSpace(rest[1..]);
        }
        assert s == [s[0]] + s[1..];
        forall k | 0 <= k < |words|
          ensures ' ' !in words[k]
        {
          if k > 0 {
            assert words[k] == rest[k];
          }
        }
      }
    }
  }

  /** Conversely, words without spaces are recovered from their join. */
  lemma {:induction false} JoinSplit(words: seq<string>)
    requires |words| >= 1 && NoSpaces(words)
    ensures SplitOnSpace(JoinWithSpace(words)) == words
  {
    if |words| == 1 {
      WordSplit(words[0], []);
    } else {
      assert NoSpaces(words[1..]) by {
        forall k | 0 <= k < |words| - 1
          ensures ' ' !in words[1..][k]
        {
          assert words[1..][k] == words[k + 1];
        }
      }
      JoinSplit(words[1..]);
      assert ' ' !in words[0];
      WordSplit(words[0], words[1..]);
    }
  }

  /** A word without spaces followed by a space and more text splits into
      that word followed by the words of the rest. */
  lemma {:induction false} WordSplit(w: string, more: seq<string>)
    requires ' ' !in w
    requires more != [] ==> |more| >= 1
    ensures more == [] ==> SplitOnSpace(w) == [w]
    ensures more != [] ==> SplitOnSpace(w + " " + JoinWithSpace(more)) == [w] + SplitOnSpace(JoinWithSpace(more))
  {
    if w == [] {
      if more != [] {
        assert w + " " + JoinWithSpace(more) == [' '] + JoinWithSpace(more);
      }
    } else {
      WordSplit(w[1..], more);
      if more == [] {
        assert SplitOnSpace(w) == [[w[0]] + w[1..]];
      } else {
        var s := w + " " + JoinWithSpace(more);
        assert s[1..] == w[1..] + " " + JoinWithSpace(more);
        assert s[0] == w[0];
      }
      assert [w[0]] + w[1..] == w;
    }
  }

  // ---------------------------------------------------------------------
  // The path: live points grouped by stroke
  // ---------------------------------------------------------------------

  /** The live points cut into maximal runs of consecutive points with the
      same stroke index. */
  function Runs(points: seq<LivePoint>): (runs: seq<seq<LivePoint>>)
    ensures |runs| <= |points|
    ensures points == [] <==> runs == []
    ensures forall k :: 0 <= k < |runs| ==> runs[k] != []
  {
    if points == [] then []
    else
      var runs := Runs(points[..|points| - 1]);
      var p := points[|points| - 1];
      if runs != [] && runs[|runs| - 1][0].strokeIndex == p.strokeIndex
      then runs[..|runs| - 1] + [runs[|runs| - 1] + [p]]
      else runs + [[p]]
  }

  function Concat(runs: seq<seq<LivePoint>>): seq<LivePoint> {
    if runs == [] then [] else Concat(runs[..|runs| - 1]) + runs[|runs| - 1]
  }

  /** The runs of two points or more, one after the other. */
  function LongRunsConcat(runs: seq<seq<LivePoint>>): seq<LivePoint> {
    if runs == [] then []
    else LongRunsConcat(runs[..|runs| - 1]) + (if |runs[|runs| - 1]| > 1 then runs[|runs| - 1] else [])
  }

  /** The path the text follows: the strokes of the live points in order,
      each stroke that has a single point left out. */
  function Path(points: seq<LivePoint>): seq<LivePoint> {
    LongRunsConcat(Runs(points))
  }

  /** Every point of a run has the run's stroke index. */
  ghost predicate Uniform(run: seq<LivePoint>) {
    forall k :: 0 <= k < |run| ==> run[k].strokeIndex == run[0].strokeIndex
  }

  /** Reading one more point either extends the last run, when the point
      has that run's stroke index, or starts a new run. */
  lemma RunsAppend(points: seq<LivePoint>, p: LivePoint)
    ensures var runs := Runs(points);
            Runs(points + [p]) ==
              if runs != [] && runs[|runs| - 1][0].strokeIndex == p.strokeIndex
              then runs[..|runs| - 1] + [runs[|runs| - 1] + [p]]
              else runs + [[p]]
  {
    assert (points + [p])[..|points|] == points;
  }

  /** The runs concatenate back to the live points. */
  lemma {:induction false} RunsConcat(points: seq<LivePoint>)
    ensures Concat(Runs(points)) == points
  {
    if points != [] {
      var init, p := points[..|points| - 1], points[|points| - 1];
      assert points == init + [p];
      RunsAppend(init, p);
      RunsConcat(init);
      var runs: seq<seq<LivePoint>> := Runs(init);
      var next := Runs(points);
      if runs != [] && runs[|runs| - 1][0].strokeIndex == p.strokeIndex {
        var front := runs[..|runs| - 1];
        assert runs == front + [runs[|runs| - 1]];
        assert Concat(runs) == Concat(front) + runs[|runs| - 1];
        assert next[..|next| - 1] == front;
        assert Concat(next) == Concat(front) + (runs[|runs| - 1] + [p]);
      } else {
        assert next[..|next| - 1] == runs;
      }
    }
  }

  /** The runs are non-empty, each keeps a single stroke index, and
      neighbouring runs have different ones. */
  ghost predicate Maximal(runs: seq<seq<LivePoint>>) {
    && (forall k :: 0 <= k < |runs| ==> runs[k] != [] && Uniform(runs[k]))
    && (forall k :: 0 < k < |runs| ==> runs[k - 1][0].strokeIndex != runs[k][0].strokeIndex)
  }

  /** Appending a point of the last run's stroke to that run keeps the runs maximal. */
  lemma ExtendLastRun(runs: seq<seq<LivePoint>>, p: LivePoint)
    requires Maximal(runs) && runs != [] && runs[|runs| - 1][0].strokeIndex == p.strokeIndex
    ensures Maximal(runs[..|runs| - 1] + [runs[|runs| - 1] + [p]])
  {
    var next: seq<seq<LivePoint>> := runs[..|runs| - 1] + [runs[|runs| - 1] + [p]];
    forall k | 0 <= k < |next|
      ensures next[k] != [] && Uniform(next[k])
    {
      if k < |next| - 1 {
        assert next[k] == runs[k];
      }
    }
    forall k | 0 < k < |next|
      ensures next[k - 1][0].strokeIndex != next[k][0].strokeIndex
    {
      assert next[k - 1] == runs[k - 1];
      assert next[k][0] == runs[k][0];
    }
  }

  /** A point of another stroke than the last run's starts a run of its own,
      which keeps the runs maximal. */
  lemma StartNewRun(runs: seq<seq<LivePoint>>, p: LivePoint)
    requires Maximal(runs)
    requires runs != [] ==> runs[|runs| - 1][0].strokeIndex != p.strokeIndex
    ensures Maximal(runs + [[p]])
  {
    var next: seq<seq<LivePoint>> := runs + [[p]];
    forall k | 0 <= k < |next|
      ensures next[k] != [] && Uniform(next[k])
    {
      if k < |next| - 1 {
        assert next[k] == runs[k];
      }
    }
    forall k | 0 < k < |next|
      ensures next[k - 1][0].strokeIndex != next[k][0].strokeIndex
    {
      assert next[k - 1] == runs[k - 1];
    }
  }

  /** Each run keeps a single stroke index, and neighbouring runs have
      different ones, so no run can be extended. */
  lemma {:induction false} RunsMaximal(points: seq<LivePoint>)
    ensures forall k :: 0 <= k < |Runs(points)| ==> Uniform(Runs(points)[k])
    ensures forall k :: 0 < k < |Runs(points)| ==>
              Runs(points)[k - 1][0].strokeIndex != Runs(points)[k][0].strokeIndex
  {
    if points != [] {
      var init, p := points[..|points| - 1], points[|points| - 1];
      assert points == init + [p];
      RunsAppend(init, p);
      RunsMaximal(init);
      var runs := Runs(init);
      assert Maximal(runs);
      if runs != [] && runs[|runs| - 1][0].strokeIndex == p.strokeIndex {
        ExtendLastRun(runs, p);
      } else {
        StartNewRun(runs, p);
      }
      assert Maximal(Runs(points));
    }
  }

  /** When every stroke contributes at least two points, the path is all of
      the live points. */
  lemma {:induction false} PathKeepsLongRuns(runs: seq<seq<LivePoint>>)
    requires forall k :: 0 <= k < |runs| ==> |runs[k]| > 1
    ensures LongRunsConcat(runs) == Concat(runs)
  {
    if runs != [] {
      PathKeepsLongRuns(runs[..|runs| - 1]);
    }
  }

  /** The path never has more points than there are live points. */
  lemma {:induction false} PathNoLonger(runs: seq<seq<LivePoint>>)
    ensures |LongRunsConcat(runs)| <= |Concat(runs)|
  {
    if runs != [] {
      PathNoLonger(runs[..|runs| - 1]);
    }
  }

  /** The state of the collecting loop after reading `prefix`: the run
      being read is the last run, its stroke index is the current one, and
      the path holds the long runs before it. */
  ghost predicate Collecting(prefix: seq<LivePoint>, pathPoints: seq<LivePoint>,
                             strokePoints: seq<LivePoint>, currentStrokeIndex: int)
  {
    if prefix == [] then strokePoints == [] && pathPoints == [] && currentStrokeIndex == -1
    else
      var runs := Runs(prefix);
      && strokePoints == runs[|runs| - 1]
      && pathPoints == LongRunsConcat(runs[..|runs| - 1])
      && currentStrokeIndex == strokePoints[0].strokeIndex
  }

  /** Reading one more point: a point of another stroke closes the run
      being read (kept when it has two points or more) and starts a new
      one; a point of the same stroke extends the run. */
  lemma CollectStep(prefix: seq<LivePoint>, p: LivePoint, pathPoints: seq<LivePoint>,
                    strokePoints: seq<LivePoint>, currentStrokeIndex: int)
    requires Collecting(prefix, pathPoints, strokePoints, currentStrokeIndex)
    ensures p.strokeIndex != currentStrokeIndex ==>
              Collecting(prefix + [p], pathPoints + (if |strokePoints| > 1 then strokePoints else []),
                         [p], p.strokeIndex)
    ensures p.strokeIndex == currentStrokeIndex ==>
              Collecting(prefix + [p], pathPoints, strokePoints + [p], currentStrokeIndex)
  {
    RunsAppend(prefix, p);
    if prefix != [] {
      var runs: seq<seq<LivePoint>> := Runs(prefix);
      var next: seq<seq<LivePoint>> := Runs(prefix + [p]);
      if p.strokeIndex != currentStrokeIndex {
        assert next[..|next| - 1] == runs;
        assert runs == runs[..|runs| - 1] + [runs[|runs| - 1]];
      } else {
        assert next[..|next| - 1] == runs[..|runs| - 1];
      }
    }
  }

  /** When the points run out, closing the run being read completes the
      path. */
  lemma CollectedPath(points: seq<LivePoint>, pathPoints: seq<LivePoint>,
                      strokePoints: seq<LivePoint>, currentStrokeIndex: int)
    requires Collecting(points, pathPoints, strokePoints, currentStrokeIndex)
    ensures pathPoints + (if |strokePoints| > 1 then strokePoints else []) == Path(points)
  {
    var runs := Runs(points);
    if runs != [] {
      assert runs == runs[..|runs| - 1] + [runs[|runs| - 1]];
    }
  }

  /** The loop that collects the path: it keeps the run being read and
      appends it when the stroke index changes, if it has two points or
      more. */
  method FlattenPath(livePoints: seq<LivePoint>) returns (pathPoints: seq<LivePoint>)
    ensures pathPoints == Path(livePoints)
  {
    pathPoints := [];
    var currentStrokeIndex: int := -1;
    var strokePoints: seq<LivePoint> := [];
    for i := 0 to |livePoints|
      invariant Collecting(livePoints[..i], pathPoints, strokePoints, currentStrokeIndex)
    {
      var point := livePoints[i];
      assert livePoints[..i + 1] == livePoints[..i] + [point];
      CollectStep(livePoints[..i], point, pathPoints, strokePoints, currentStrokeIndex);
      if point.strokeIndex != currentStrokeIndex {
        if |strokePoints| > 1 {
          pathPoints := pathPoints + strokePoints;
        }
        currentStrokeIndex := point.strokeIndex;
        strokePoints := [point];
      } else {
        strokePoints := strokePoints + [point];
      }
    }
    CollectedPath(livePoints[..|livePoints|], pathPoints, strokePoints, currentStrokeIndex);
    if |strokePoints| > 1 {
      pathPoints := pathPoints + strokePoints;
    }
    assert livePoints[..|livePoints|] == livePoints;
  }

  // ---------------------------------------------------------------------
  // Arc length along the path
  // ---------------------------------------------------------------------

  /** The distance between two points; the sketch uses p5.js `dist`, the
      Euclidean distance, which the model takes as a parameter. */
  type Metric = (Vec, Vec) -> real

  ghost predicate NonNegative(dist: Metric) {
    forall p: Vec, q: Vec :: dist(p, q) >= 0.0
  }

  function Position(p: LivePoint): Vec { Vec(p.x, p.y) }

  /** The length of the polyline through the points of the path. */
  function PathLength(path: seq<LivePoint>, dist: Metric): real {
    if |path| <= 1 then 0.0
    else PathLength(path[..|path| - 1], dist) + dist(Position(path[|path| - 2]), Position(path[|path| - 1]))
  }

  /** Entry `k` is the length of the path up to its point `k`. */
  function DistanceTable(path: seq<LivePoint>, dist: Metric): seq<real> {
    seq(|path|, k requires 0 <= k < |path| => PathLength(path[..k + 1], dist))
  }

  /** The loop that fills the distances table: entry `k` is the length of
      the path up to its point `k`, and the total is the length of the whole
      path. */
  method CumulativeDistances(path: seq<LivePoint>, dist: Metric) returns (distances: seq<real>, totalLength: real)
    ensures |distances| == if path == [] then 1 else |path|
    ensures distances[0] == 0.0
    ensures path != [] ==> distances == DistanceTable(path, dist)
    ensures totalLength == PathLength(path, dist)
  {
    distances := [0.0];
    totalLength := 0.0;
    var i := 1;
    while i < |path|
      invariant 1 <= i <= if path == [] then 1 else |path|
      invariant |distances| == i
      invariant distances[0] == 0.0
      invariant forall k :: 0 <= k < i && k < |path| ==> distances[k] == PathLength(path[..k + 1], dist)
      invariant totalLength == if path == [] then 0.0 else PathLength(path[..i], dist)
    {
      assert path[..i + 1][..i] == path[..i];
      var d := dist(Position(path[i - 1]), Position(path[i]));
      totalLength := totalLength + d;
      distances := distances + [totalLength];
      i := i + 1;
    }
    if path != [] {
      assert path[..i] == path;
    }
  }

  /** The length of the path so far never decreases as the path goes on,
      when distances are never negative. */
  lemma {:induction false} PathLengthMonotone(path: seq<LivePoint>, dist: Metric, j: nat, k: nat)
    requires NonNegative(dist)
    requires j <= k <= |path|
    ensures PathLength(path[..j], dist) <= PathLength(path[..k], dist)
  {
    if j < k {
      PathLengthMonotone(path, dist, j, k - 1);
      assert path[..k][..k - 1] == path[..k - 1];
      if k >= 2 {
        assert PathLength(path[..k], dist) ==
               PathLength(path[..k - 1], dist) + dist(Position(path[k - 2]), Position(path[k - 1]));
      }
    }
  }

  /** Consecutive entries of a table never decrease. */
  ghost predicate Ascending(d: seq<real>) {
    forall j, k :: 0 <= j <= k < |d| ==> d[j] <= d[k]
  }

  /** The distances table starts at 0, never decreases and ends at the
      path's length. */
  lemma DistancesAscending(path: seq<LivePoint>, dist: Metric, distances: seq<real>)
    requires NonNegative(dist) && path != []
    requires distances == DistanceTable(path, dist)
    ensures distances[0] == 0.0
    ensures Ascending(distances)
    ensures distances[|distances| - 1] == PathLength(path, dist)
  {
    forall j, k | 0 <= j <= k < |distances|
      ensures distances[j] <= distances[k]
    {
      PathLengthMonotone(path, dist, j + 1, k + 1);
    }
    assert path[..|path|] == path;
  }

  // ---------------------------------------------------------------------
  // Where a distance falls on the path
  // ---------------------------------------------------------------------

  /** A point at distance `distance` along the path: on segment `segment`
      (from path point `segment - 1` to path point `segment`), a fraction
      `t` of the way along it. */
  datatype PathPosition = PathPosition(x: real, y: real, segment: nat, t: real)

  /** The search passes over segment `i`: it ends before the target, or it
      has length zero. */
  predicate Skipped(d: seq<real>, i: nat, target: real)
    requires 1 <= i < |d|
  {
    d[i] < target || d[i] - d[i - 1] == 0.0
  }

  /** The first segment from `i` on that the search does not pass over. */
  function FirstSegment(d: seq<real>, target: real, i: nat): (r: Option<nat>)
    requires 1 <= i
    decreases |d| - i
    ensures r.Some? ==> i <= r.value < |d| && !Skipped(d, r.value, target)
    ensures r.Some? ==> forall j :: i <= j < r.value ==> Skipped(d, j, target)
    ensures r.None? ==> forall j :: i <= j < |d| ==> Skipped(d, j, target)
  {
    if i >= |d| then None
    else if !Skipped(d, i, target) then Some(i)
    else FirstSegment(d, target, i + 1)
  }

  /** The position at distance `target` along the path whose distances
      table is `d`, if the search finds a segment for it. */
  function PositionAt(path: seq<LivePoint>, d: seq<real>, target: real): Option<PathPosition>
    requires |d| <= |path|
  {
    match FirstSegment(d, target, 1)
    case None => None
    case Some(i) =>
      var t := (target - d[i - 1]) / (d[i] - d[i - 1]);
      Some(PathPosition(Lerp(path[i - 1].x, path[i].x, t), Lerp(path[i - 1].y, path[i].y, t), i, t))
  }

  /** The search loop: the first segment that ends at or after the target
      and has a non-zero length; the point on it by linear interpolation. */
  method GetPositionAtDistance(path: seq<LivePoint>, distances: seq<real>, targetDistance: real)
    returns (position: Option<PathPosition>)
    requires |distances| <= |path|
    ensures position == PositionAt(path, distances, targetDistance)
  {
    var i := 1;
    while i < |distances|
      invariant 1 <= i
      invariant FirstSegment(distances, targetDistance, i) == FirstSegment(distances, targetDistance, 1)
    {
      if distances[i] >= targetDistance {
        var segmentStart := distances[i - 1];
        var segmentEnd := distances[i];
        var segmentLength := segmentEnd - segmentStart;
        if segmentLength != 0.0 {
          var t := (targetDistance - segmentStart) / segmentLength;
          var pointA := path[i - 1];
          var pointB := path[i];
          return Some(PathPosition(Lerp(pointA.x, pointB.x, t), Lerp(pointA.y, pointB.y, t), i, t));
        }
      }
      i := i + 1;
    }
    return None;
  }

  /** If the search passed over every segment before `i`, the table at
      `i - 1` is below the target (or zero): a skipped segment either ends
      before the target or adds nothing to the one before it. */
  lemma {:induction false} SkippedPrefix(d: seq<real>, target: real, i: nat)
    requires 1 <= i <= |d| && d[0] == 0.0 && 0.0 <= target
    requires forall j :: 1 <= j < i ==> Skipped(d, j, target)
    ensures d[i - 1] < target || d[i - 1] == 0.0
  {
    if i > 1 {
      SkippedPrefix(d, target, i - 1);
      assert Skipped(d, i - 1, target);
    }
  }

  /** The search finds a segment whenever the target lies on a path of
      non-zero length. */
  lemma PositionFound(path: seq<LivePoint>, d: seq<real>, target: real)
    requires |d| <= |path| && |d| >= 1 && d[0] == 0.0 && Ascending(d)
    requires 0.0 <= target <= d[|d| - 1] && d[|d| - 1] > 0.0
    ensures PositionAt(path, d, target).Some?
  {
    if FirstSegment(d, target, 1).None? {
      SkippedPrefix(d, target, |d|);
      assert false;
    }
  }

  /** The search finds nothing beyond the end of the path, nor on a path of
      zero length. */
  lemma PositionMissing(path: seq<LivePoint>, d: seq<real>, target: real)
    requires |d| <= |path| && |d| >= 1 && d[0] == 0.0 && Ascending(d)
    requires target > d[|d| - 1] || d[|d| - 1] == 0.0
    ensures PositionAt(path, d, target).None?
  {
    var r := FirstSegment(d, target, 1);
    if r.Some? {
      assert false;
    }
  }

  /** A position found for a target at or after the start of the path lies
      on a segment that spans the target, with its parameter in [0, 1], and
      between the segment's end points. */
  lemma PositionOnSegment(path: seq<LivePoint>, d: seq<real>, target: real)
    requires |d| <= |path| && |d| >= 1 && d[0] == 0.0 && Ascending(d) && 0.0 <= target
    requires PositionAt(path, d, target).Some?
    ensures var p := PositionAt(path, d, target).value;
            && 1 <= p.segment < |d|
            && d[p.segment - 1] <= target <= d[p.segment] && d[p.segment - 1] < d[p.segment]
            && 0.0 <= p.t <= 1.0
            && Min(path[p.segment - 1].x, path[p.segment].x) <= p.x <= Max(path[p.segment - 1].x, path[p.segment].x)
            && Min(path[p.segment - 1].y, path[p.segment].y) <= p.y <= Max(path[p.segment - 1].y, path[p.segment].y)
  {
    var i := FirstSegment(d, target, 1).value;
    SkippedPrefix(d, target, i);
    assert d[i - 1] <= d[i];
    var t := (target - d[i - 1]) / (d[i] - d[i - 1]);
    QuotientBounds(target - d[i - 1], d[i] - d[i - 1]);
    LerpBetween(path[i - 1].x, path[i].x, t);
    LerpBetween(path[i - 1].y, path[i].y, t);
  }

  // ---------------------------------------------------------------------
  // The letter cursor
  // ---------------------------------------------------------------------

  /** The share of the text shown at drawing progress `progress`: none until
      `delay`, all of it from progress 1 on, clamped to [0, 1]. */
  function TextProgress(progress: real, delay: real): (p: real)
    requires delay != 1.0
    ensures 0.0 <= p <= 1.0
  {
    Constrain((progress - delay) / (1.0 - delay), 0.0, 1.0)
  }

  /** With a delay below 1, no text shows until the drawing progress
      reaches the delay. */
  lemma NoTextBeforeDelay(progress: real, delay: real)
    requires delay < 1.0 && progress <= delay
    ensures TextProgress(progress, delay) == 0.0
  {
    var q := (progress - delay) / (1.0 - delay);
    assert q * (1.0 - delay) == progress - delay;
    if q > 0.0 {
      ProductPositive(q, 1.0 - delay);
    }
  }

  /** With a delay below 1, all of the text shows once the drawing is
      complete. */
  lemma AllTextAtEnd(progress: real, delay: real)
    requires delay < 1.0 && progress >= 1.0
    ensures TextProgress(progress, delay) == 1.0
  {
    QuotientBounds(progress - delay, 1.0 - delay);
  }

  /** The distance the text reaches lies on the path. */
  lemma TextReachOnPath(progress: real, delay: real, totalLength: real)
    requires delay != 1.0 && 0.0 <= totalLength
    ensures 0.0 <= totalLength * TextProgress(progress, delay) <= totalLength
  {
    ProductBounds(TextProgress(progress, delay), totalLength);
  }

  /** The place of a letter in the text: letter `letter` of word `word`. */
  datatype LetterAt = LetterAt(word: nat, letter: nat)

  /** Every letter of the words, word by word, in reading order. */
  function Letters(words: seq<string>): (ls: seq<LetterAt>)
    ensures forall k :: 0 <= k < |ls| ==> ls[k].word < |words| && ls[k].letter < |words[ls[k].word]|
  {
    if words == [] then []
    else
      var n := |words| - 1;
      assert forall w :: 0 <= w < n ==> words[..n][w] == words[w];
      Letters(words[..n]) + Block(n, |words[n]|)
  }

  /** The letters of word `w`, which has `length` letters. */
  function Block(w: nat, length: nat): (b: seq<LetterAt>)
    ensures |b| == length
    ensures forall l :: 0 <= l < length ==> b[l] == LetterAt(w, l)
  {
    seq(length, l requires 0 <= l => LetterAt(w, l))
  }

  /** The letters of the first `v` words come first. */
  lemma {:induction false} LettersPrefix(words: seq<string>, v: nat)
    requires v <= |words|
    ensures |Letters(words[..v])| <= |Letters(words)|
    ensures Letters(words)[..|Letters(words[..v])|] == Letters(words[..v])
  {
    if v < |words| {
      var n := |words| - 1;
      assert words[..n][..v] == words[..v];
      LettersPrefix(words[..n], v);
    } else {
      assert words[..v] == words;
    }
  }

  /** Letter `l` of word `w` comes right after the letters of the words
      before `w` and the letters of `w` before it. */
  lemma LetterRank(words: seq<string>, w: nat, l: nat)
    requires w < |words| && l < |words[w]|
    ensures |Letters(words[..w + 1])| == |Letters(words[..w])| + |words[w]|
    ensures |Letters(words[..w])| + l < |Letters(words)|
    ensures Letters(words)[|Letters(words[..w])| + l] == LetterAt(w, l)
  {
    assert words[..w + 1][..w] == words[..w];
    LettersPrefix(words, w + 1);
  }

  /** The letters that come after those of the first `v` words belong to
      word `v` or later. */
  lemma {:induction false} LettersAfter(words: seq<string>, v: nat, k: nat)
    requires v <= |words| && |Letters(words[..v])| <= k < |Letters(words)|
    ensures Letters(words)[k].word >= v
  {
    assert words[..|words|] == words;
    if v < |words| {
      var n := |words| - 1;
      assert words[..n][..v] == words[..v];
      var front := Letters(words[..n]);
      assert Letters(words) == front + Block(n, |words[n]|);
      if k < |front| {
        LettersAfter(words[..n], v, k);
        assert Letters(words)[k] == front[k];
      } else {
        assert Letters(words)[k] == LetterAt(n, k - |front|);
      }
    }
  }

  /** Every letter of the text appears once: the letters are in strict
      reading order, so no word is visited twice or out of order. */
  lemma {:induction false} LettersInReadingOrder(words: seq<string>, j: nat, k: nat)
    requires j < k < |Letters(words)|
    ensures var a, b := Letters(words)[j], Letters(words)[k];
            a.word < b.word || (a.word == b.word && a.letter < b.letter)
  {
    var n := |words| - 1;
    var front := Letters(words[..n]);
    if k < |front| {
      LettersInReadingOrder(words[..n], j, k);
    } else if j >= |front| {
    } else {
      assert Letters(words)[j] == front[j];
    }
  }

  /** How far the cursor has moved when word `w` begins: the letters and the
      word gaps of the words before it. */
  function WordStart(words: seq<string>, w: nat, letterSpacing: real, wordSpacing: real): real
    requires w <= |words|
  {
    if w == 0 then 0.0
    else WordStart(words, w - 1, letterSpacing, wordSpacing) + Offset(|words[w - 1]|, letterSpacing) + wordSpacing
  }

  /** Where the cursor is when it reaches a letter. */
  function Cursor(words: seq<string>, at: LetterAt, letterSpacing: real, wordSpacing: real): real
    requires at.word < |words|
  {
    WordStart(words, at.word, letterSpacing, wordSpacing) + Offset(at.letter, letterSpacing)
  }

  /** With non-negative spacings a later word never starts earlier. */
  lemma {:induction false} WordStartMonotone(words: seq<string>, v: nat, w: nat, letterSpacing: real, wordSpacing: real)
    requires v <= w <= |words| && 0.0 <= letterSpacing && 0.0 <= wordSpacing
    ensures WordStart(words, v, letterSpacing, wordSpacing) <= WordStart(words, w, letterSpacing, wordSpacing)
  {
    if v < w {
      WordStartMonotone(words, v, w - 1, letterSpacing, wordSpacing);
      ProductNonnegative(|words[w - 1]| as real, letterSpacing);
    }
  }

  /** Finishing word `w` moves the cursor to the start of word `w + 1`,
      past the letters of `w`. */
  lemma WordStep(words: seq<string>, w: nat, letterSpacing: real, wordSpacing: real)
    requires w < |words|
    ensures WordStart(words, w + 1, letterSpacing, wordSpacing) ==
            WordStart(words, w, letterSpacing, wordSpacing) + Offset(|words[w]|, letterSpacing) + wordSpacing
    ensures Offset(0, letterSpacing) == 0.0
  {
  }

  /** Where the cursor loop stops: the next letter of the text, if any, is
      at or beyond the cursor, so at or beyond `maxDistance`. */
  lemma CursorStops(words: seq<string>, w: nat, l: nat, maxDistance: real, letterSpacing: real, wordSpacing: real)
    requires w <= |words| && (w < |words| ==> l <= |words[w]|) && (w == |words| ==> l == 0)
    requires 0.0 <= letterSpacing && 0.0 <= wordSpacing
    requires |Letters(words[..w])| + l < |Letters(words)|
    requires maxDistance <= WordStart(words, w, letterSpacing, wordSpacing) + Offset(l, letterSpacing)
    ensures Cursor(words, Letters(words)[|Letters(words[..w])| + l], letterSpacing, wordSpacing) >= maxDistance
  {
    assert words[..|words|] == words;
    var g := |Letters(words[..w])| + l;
    var at := Letters(words)[g];
    if l < |words[w]| {
      LetterRank(words, w, l);
    } else {
      WordStep(words, w, letterSpacing, wordSpacing);
      LetterCountIsLetters(words, w);
      LetterCountIsLetters(words, w + 1);
      CursorPastWord(words, w + 1, g, letterSpacing, wordSpacing);
    }
  }

  /** Every letter from word `w` on is at or beyond the start of word `w`. */
  lemma CursorPastWord(words: seq<string>, w: nat, g: nat, letterSpacing: real, wordSpacing: real)
    requires w <= |words| && 0.0 <= letterSpacing && 0.0 <= wordSpacing
    requires |Letters(words[..w])| <= g < |Letters(words)|
    ensures Cursor(words, Letters(words)[g], letterSpacing, wordSpacing) >= WordStart(words, w, letterSpacing, wordSpacing)
  {
    var at := Letters(words)[g];
    LettersAfter(words, w, g);
    WordStartMonotone(words, w, at.word, letterSpacing, wordSpacing);
    CursorPastStart(words, at, letterSpacing, wordSpacing);
  }

  /** A letter's cursor is at or beyond the start of its word. */
  lemma CursorPastStart(words: seq<string>, at: LetterAt, letterSpacing: real, wordSpacing: real)
    requires at.word < |words| && 0.0 <= letterSpacing
    ensures Cursor(words, at, letterSpacing, wordSpacing) >= WordStart(words, at.word, letterSpacing, wordSpacing)
  {
    ProductNonnegative(at.letter as real, letterSpacing);
  }

  /** A letter the cursor tried: where it is in the text, the character,
      the cursor's distance along the path and the position found there
      (none: the letter is not drawn). */
  datatype Glyph = Glyph(at: LetterAt, letter: char, distance: real, position: Option<PathPosition>)

  /** Glyph `k` is the `k`-th letter of the text, tried at the cursor's
      distance for that letter, below `maxDistance`, at the position the
      path lookup gives for it. */
  ghost predicate GlyphFor(g: Glyph, k: nat, words: seq<string>, path: seq<LivePoint>, distances: seq<real>,
                           maxDistance: real, letterSpacing: real, wordSpacing: real)
    requires |distances| <= |path|
  {
    var ls := Letters(words);
    && k < |ls|
    && var at := ls[k];
       var cursor := Cursor(words, at, letterSpacing, wordSpacing);
       && g == Glyph(at, words[at.word][at.letter], cursor, PositionAt(path, distances, cursor))
       && cursor < maxDistance
  }

  /** The text laid out along the path: the glyphs are the first letters of
      the text, in reading order, each at its cursor distance, all below
      `maxDistance`; and with non-negative spacings the first letter left
      out would fall at or beyond `maxDistance`. */
  ghost predicate LaidOut(glyphs: seq<Glyph>, words: seq<string>, path: seq<LivePoint>, distances: seq<real>,
                          maxDistance: real, letterSpacing: real, wordSpacing: real)
    requires |distances| <= |path|
  {
    && |glyphs| <= |Letters(words)|
    && (forall k :: 0 <= k < |glyphs| ==>
          GlyphFor(glyphs[k], k, words, path, distances, maxDistance, letterSpacing, wordSpacing))
    && (0.0 <= letterSpacing && 0.0 <= wordSpacing && |glyphs| < |Letters(words)| ==>
          Cursor(words, Letters(words)[|glyphs|], letterSpacing, wordSpacing) >= maxDistance)
  }

  /** How many letters the first `w` words have. */
  function LetterCount(words: seq<string>, w: nat): nat
    requires w <= |words|
  {
    if w == 0 then 0 else LetterCount(words, w - 1) + |words[w - 1]|
  }

  lemma {:induction false} LetterCountIsLetters(words: seq<string>, w: nat)
    requires w <= |words|
    ensures |Letters(words[..w])| == LetterCount(words, w)
  {
    if w > 0 {
      LetterCountIsLetters(words, w - 1);
      assert words[..w][..w - 1] == words[..w - 1];
      assert Letters(words[..w]) == Letters(words[..w - 1]) + Block(w - 1, |words[w - 1]|);
    }
  }

  /** The glyph the loop builds for letter `l` of word `w`, at the cursor
      below `maxDistance`, is glyph number `LetterCount(words, w) + l` of
      the layout. */
  lemma GlyphStep(g: Glyph, words: seq<string>, path: seq<LivePoint>, distances: seq<real>,
                  maxDistance: real, letterSpacing: real, wordSpacing: real, w: nat, l: nat)
    requires |distances| <= |path| && w < |words| && l < |words[w]|
    requires g.at == LetterAt(w, l) && g.letter == words[w][l]
    requires g.distance == WordStart(words, w, letterSpacing, wordSpacing) + Offset(l, letterSpacing)
    requires g.position == PositionAt(path, distances, g.distance) && g.distance < maxDistance
    ensures LetterCount(words, w) + l < |Letters(words)|
    ensures GlyphFor(g, LetterCount(words, w) + l, words, path, distances, maxDistance, letterSpacing, wordSpacing)
  {
    LetterCountIsLetters(words, w);
    LetterRank(words, w, l);
  }

  /** The cursor loop: it walks the words and their letters, advancing by
      `letterSpacing` per letter and by `wordSpacing` at the end of each
      word, and stops at `maxDistance` or after the last word. */
  method PlaceGlyphs(words: seq<string>, path: seq<LivePoint>, distances: seq<real>,
                     maxDistance: real, letterSpacing: real, wordSpacing: real)
    returns (glyphs: seq<Glyph>)
    requires |distances| <= |path|
    ensures LaidOut(glyphs, words, path, distances, maxDistance, letterSpacing, wordSpacing)
  {
    glyphs := [];
    var distance := 0.0;
    var wordIndex := 0;
    var letterIndex := 0;
    while distance < maxDistance && wordIndex < |words|
      invariant wordIndex <= |words|
      invariant wordIndex < |words| ==> letterIndex <= |words[wordIndex]|
      invariant wordIndex == |words| ==> letterIndex == 0
      invariant distance == WordStart(words, wordIndex, letterSpacing, wordSpacing) + Offset(letterIndex, letterSpacing)
      invariant |glyphs| == LetterCount(words, wordIndex) + letterIndex
      invariant |glyphs| <= |Letters(words)|
      invariant forall k :: 0 <= k < |glyphs| ==>
                  GlyphFor(glyphs[k], k, words, path, distances, maxDistance, letterSpacing, wordSpacing)
      decreases |words| - wordIndex, (if wordIndex < |words| then |words[wordIndex]| else 0) - letterIndex
    {
      var currentWord := words[wordIndex];
      if letterIndex >= |currentWord| {
        WordStep(words, wordIndex, letterSpacing, wordSpacing);
        wordIndex := wordIndex + 1;
        letterIndex := 0;
        distance := distance + wordSpacing;
        continue;
      }
      var position := GetPositionAtDistance(path, distances, distance);
      var glyph := Glyph(LetterAt(wordIndex, letterIndex), currentWord[letterIndex], distance, position);
      GlyphStep(glyph, words, path, distances, maxDistance, letterSpacing, wordSpacing, wordIndex, letterIndex);
      OffsetStep(letterIndex, letterSpacing);
      glyphs := glyphs + [glyph];
      letterIndex := letterIndex + 1;
      distance := distance + letterSpacing;
    }
    assert words[..|words|] == words;
    LetterCountIsLetters(words, wordIndex);
    if 0.0 <= letterSpacing && 0.0 <= wordSpacing && |glyphs| < |Letters(words)| {
      CursorStops(words, wordIndex, letterIndex, maxDistance, letterSpacing, wordSpacing);
    }
  }

  // ---------------------------------------------------------------------
  // One word per live point
  // ---------------------------------------------------------------------

  /** A word drawn at a live point; no word when the text has none (the
      lookup of an empty word list gives `undefined`). */
  datatype Label = Label(word: Option<string>, x: real, y: real)

  /** The word for the `k`-th live point: the words in turn, starting over
      after the last one. */
  function WordFor(words: seq<string>, k: nat): Option<string> {
    if words == [] then None else Some(words[k % |words|])
  }

  /** The words cycle: point `k` and point `k + |words|` get the same word,
      and the first `|words|` points get the words in order. */
  lemma WordsCycle(words: seq<string>, k: nat)
    requires words != []
    ensures WordFor(words, k + |words|) == WordFor(words, k)
    ensures k < |words| ==> WordFor(words, k) == Some(words[k])
  {
    ModPeriod(k, |words|);
    if k < |words| {
      ModUnique(k, |words|, 0, k);
    }
  }

  // ---------------------------------------------------------------------
  // The text manager's state
  // ---------------------------------------------------------------------

  class TextManager {
    var textWords: seq<string>

    /** The module's initial state: no words yet. */
    constructor ()
      ensures textWords == []
    {
      textWords := [];
    }

    /** Takes the text to draw, cut into words at single spaces. */
    method Initialize(textContent: string)
      modifies this
      ensures textWords == SplitOnSpace(textContent)
      ensures JoinWithSpace(textWords) == textContent && NoSpaces(textWords)
    {
      textWords := SplitOnSpace(textContent);
      SplitJoin(textContent);
    }

    /** The letters laid along the cell's live points at drawing progress
        `progress`. Nothing is laid out when there are fewer than two live
        points, when the path keeps fewer than two of them, or when the
        path is shorter than one letter; otherwise the words are laid out
        up to the share of the path length given by the text progress. */
    method DrawTextAlongPath(livePoints: seq<LivePoint>, progress: real, dist: Metric,
                             letterSpacing: real, wordSpacing: real, animationDelay: real)
      returns (glyphs: seq<Glyph>)
      requires animationDelay != 1.0
      ensures |livePoints| < 2 || |Path(livePoints)| < 2 ==> glyphs == []
      ensures |Path(livePoints)| >= 2 && PathLength(Path(livePoints), dist) < letterSpacing ==> glyphs == []
      ensures |livePoints| >= 2 && |Path(livePoints)| >= 2 && PathLength(Path(livePoints), dist) >= letterSpacing ==>
                var path := Path(livePoints);
                LaidOut(glyphs, textWords, path, DistanceTable(path, dist),
                        PathLength(path, dist) * TextProgress(progress, animationDelay), letterSpacing, wordSpacing)
    {
      if |livePoints| < 2 {
        return [];
      }
      var pathPoints := FlattenPath(livePoints);
      if |pathPoints| < 2 {
        return [];
      }
      var distances, totalLength := CumulativeDistances(pathPoints, dist);
      if totalLength < letterSpacing {
        return [];
      }
      var textProgress := TextProgress(progress, animationDelay);
      var maxDistance := totalLength * textProgress;
      assert distances == DistanceTable(pathPoints, dist) && |distances| <= |pathPoints|;
      glyphs := PlaceGlyphs(textWords, pathPoints, distances, maxDistance, letterSpacing, wordSpacing);
      assert pathPoints == Path(livePoints);
      assert maxDistance == PathLength(Path(livePoints), dist) * TextProgress(progress, animationDelay);
    }

    /** The words drawn at the live points, one per point, in turn. */
    method DrawTextAtPoints(livePoints: seq<LivePoint>) returns (labels: seq<Label>)
      ensures |labels| == |livePoints|
      ensures forall k :: 0 <= k < |labels| ==>
                labels[k] == Label(WordFor(textWords, k), livePoints[k].x, livePoints[k].y)
    {
      labels := [];
      if |livePoints| == 0 {
        return;
      }
      var letterIndex := 0;
      for i := 0 to |livePoints|
        invariant letterIndex == i && |labels| == i
        invariant forall k :: 0 <= k < i ==>
                    labels[k] == Label(WordFor(textWords, k), livePoints[k].x, livePoints[k].y)
      {
        var point := livePoints[i];
        var letter := if textWords == [] then None else Some(textWords[letterIndex % |textWords|]);
        labels := labels + [Label(letter, point.x, point.y)];
        letterIndex := letterIndex + 1;
      }
    }
  }
}
