/** Values shared by every part of the sketch: optional values, points,
    axis-aligned rectangles, and the small p5.js numeric helpers the core
    relies on (`min`, `max`, `abs`, `constrain`, `lerp`) stated over reals. */
module Geometry {

  /** A value that may be absent (`null` or `undefined` in the sketch). */
  datatype Option<T> = None | Some(value: T)

  /** A point or a 2D vector in canvas pixels. */
  datatype Vec = Vec(x: real, y: real)

  /** An axis-aligned rectangle given by its top-left corner and its size,
      the `{x, y, width, height}` records of the sketch. */
  datatype Rect = Rect(x: real, y: real, width: real, height: real)

  function Min(a: real, b: real): real { if a <= b then a else b }

  function Max(a: real, b: real): real { if a >= b then a else b }

  function Abs(a: real): real { if a < 0.0 then -a else a }

  /** p5.js `constrain(v, lo, hi)`, which is `Math.max(Math.min(v, hi), lo)`. */
  function Constrain(v: real, lo: real, hi: real): (c: real)
    ensures lo <= hi ==> lo <= c <= hi
    ensures lo <= v <= hi ==> c == v
  {
    Max(Min(v, hi), lo)
  }

  /** p5.js `lerp(a, b, t)`. */
  function Lerp(a: real, b: real, t: real): real { a + (b - a) * t }

  function Area(r: Rect): real { r.width * r.height }

  function Square(a: real): real { a * a }

  /** `i` steps of length `size`: where cell `i` of a strip of equal cells
      starts, or how far a cursor has moved after `i` equal steps. */
  function Offset(i: nat, size: real): real { i as real * size }

  function Add(a: Vec, b: Vec): Vec { Vec(a.x + b.x, a.y + b.y) }

  /** The vector `u` stretched by `s`. */
  function Scale(u: Vec, s: real): Vec { Vec(u.x * s, u.y * s) }

  /** The closed rectangle contains the point. */
  predicate Contains(r: Rect, p: Vec) {
    r.x <= p.x <= r.x + r.width && r.y <= p.y <= r.y + r.height
  }

  /** The two rectangles lie apart: one ends (horizontally or vertically)
      where the other starts, or before. */
  predicate Apart(a: Rect, b: Rect)
  {
    || a.x + a.width <= b.x || b.x + b.width <= a.x
    || a.y + a.height <= b.y || b.y + b.height <= a.y
  }

  /** The rectangle a mouse drag describes: the drag starts at `start` and
      the pointer is now `delta` away from it. A drag to the left or upwards
      moves the corner so that width and height are never negative. */
  function NormalizeDrag(start: Vec, delta: Vec): (r: Rect)
    ensures r.width >= 0.0 && r.height >= 0.0
    ensures r.x == Min(start.x, start.x + delta.x) && r.x + r.width == Max(start.x, start.x + delta.x)
    ensures r.y == Min(start.y, start.y + delta.y) && r.y + r.height == Max(start.y, start.y + delta.y)
  {
    Rect(if delta.x < 0.0 then start.x + delta.x else start.x,
         if delta.y < 0.0 then start.y + delta.y else start.y,
         Abs(delta.x), Abs(delta.y))
  }

  /** Both drag handlers keep a rectangle only when each side exceeds 10 px. */
  predicate IsMeaningful(r: Rect) { r.width > 10.0 && r.height > 10.0 }

  /** The drag in progress: a rectangle anchored at `start` whose width and
      height are the signed pointer offsets (the preview record). */
  function DragPreview(start: Vec, pointer: Vec): (r: Rect)
    ensures r.x == start.x && r.y == start.y
    ensures r.x + r.width == pointer.x && r.y + r.height == pointer.y
  {
    Rect(start.x, start.y, pointer.x - start.x, pointer.y - start.y)
  }

  /** Normalising the preview of a drag from `start` to `pointer` gives the
      rectangle spanned by the two corners, whatever the drag direction. */
  lemma NormalizedPreviewSpansCorners(start: Vec, pointer: Vec)
    ensures var r := NormalizeDrag(start, Vec(DragPreview(start, pointer).width, DragPreview(start, pointer).height));
            r.x == Min(start.x, pointer.x) && r.x + r.width == Max(start.x, pointer.x) &&
            r.y == Min(start.y, pointer.y) && r.y + r.height == Max(start.y, pointer.y)
  {
  }

  // Small facts about products of reals that the solver needs spelled out.

  lemma OffsetStep(i: nat, size: real)
    ensures Offset(i + 1, size) == Offset(i, size) + size
  {
  }

  lemma ProductNonnegative(a: real, b: real)
    requires 0.0 <= a && 0.0 <= b
    ensures 0.0 <= a * b
  {
  }

  lemma ProductBounds(f: real, d: real)
    requires 0.0 <= f <= 1.0 && 0.0 <= d
    ensures 0.0 <= f * d <= d
  {
    assert d - f * d == (1.0 - f) * d;
  }

  lemma ProductMonotone(p: real, q: real, bigP: real, bigQ: real)
    requires 0.0 <= p <= bigP && 0.0 <= q <= bigQ
    ensures p * q <= bigP * bigQ
  {
    ProductNonnegative(bigP - p, q);
    ProductNonnegative(bigP, bigQ - q);
    assert bigP * bigQ - p * q == (bigP - p) * q + bigP * (bigQ - q);
  }

  lemma SquareNonnegative(a: real)
    ensures 0.0 <= a * a
    ensures a != 0.0 ==> 0.0 < a * a
  {
  }

  lemma ZeroProduct(a: real, b: real)
    requires a * b == 0.0
    ensures a == 0.0 || b == 0.0
  {
    if a != 0.0 {
      assert (a * b) / a == b;
    }
  }

  lemma ProductPositive(a: real, b: real)
    requires 0.0 < a && 0.0 < b
    ensures 0.0 < a * b
  {
  }

  lemma QuotientBounds(a: real, b: real)
    requires 0.0 <= a && 0.0 < b
    ensures 0.0 <= a / b
    ensures b <= a ==> 1.0 <= a / b
    ensures a <= b ==> a / b <= 1.0
  {
    assert (a / b) * b == a;
  }

  /** A point interpolated with a parameter in [0, 1] lies between the two
      end points. */
  lemma LerpBetween(a: real, b: real, t: real)
    requires 0.0 <= t <= 1.0
    ensures Min(a, b) <= Lerp(a, b, t) <= Max(a, b)
  {
    if a <= b {
      ProductBounds(t, b - a);
    } else {
      ProductBounds(t, a - b);
      assert (b - a) * t == -((a - b) * t);
    }
  }

  // Integer facts behind the round-robin counters.

  lemma MultipleMonotone(a: int, b: int, n: int)
    requires a < b && n > 0
    ensures a * n + n <= b * n
  {
    var d := b - a - 1;
    assert b == a + d + 1;
    assert b * n == a * n + d * n + n;
    assert d * n >= 0;
  }

  /** The remainder is the only `r` in [0, n) with `a == q * n + r`. */
  lemma ModUnique(a: int, n: int, q: int, r: int)
    requires n > 0 && 0 <= r < n && a == q * n + r
    ensures a % n == r
  {
    var q2, r2 := a / n, a % n;
    assert a == q2 * n + r2;
    if q2 < q {
      MultipleMonotone(q2, q, n);
    } else if q < q2 {
      MultipleMonotone(q, q2, n);
    }
  }

  /** Counting modulo `n` repeats every `n` steps. */
  lemma ModPeriod(k: int, n: int)
    requires n > 0
    ensures (k + n) % n == k % n
  {
    var q, r := k / n, k % n;
    assert k == q * n + r;
    assert k + n == (q + 1) * n + r;
    ModUnique(k + n, n, q + 1, r);
  }

  /** Advancing a counter kept modulo `n` by one is the same as advancing
      the raw count and reducing. */
  lemma ModSucc(k: int, n: int)
    requires n > 0
    ensures (k % n) % n == k % n
    ensures (k % n + 1) % n == (k + 1) % n
  {
    var q, r := k / n, k % n;
    assert k == q * n + r;
    ModUnique(r, n, 0, r);
    if r + 1 < n {
      ModUnique(r + 1, n, 0, r + 1);
      ModUnique(k + 1, n, q, r + 1);
    } else {
      ModUnique(r + 1, n, 1, 0);
      assert k + 1 == (q + 1) * n + 0;
      ModUnique(k + 1, n, q + 1, 0);
    }
  }
}
