/** `line` of `modframebuf.c`: Bresenham's walk with an integer error term. */
module FrameLine {
  import opened Arith
  import opened FrameBuffer
  import opened FrameGeometry
  import opened FramePaint

  // ---------- The ideal walk ----------

  /** The number of minor steps after `i` of `dx` major steps: `dy * i / dx` rounded to the nearest integer. */
  function Steps(dx: nat, dy: nat, i: nat): (k: int) {
    if dx == 0 then 0 else (2 * dy * i + dx) / (2 * dx)
  }

  /** A walk starts at (x, y), coordinates swapped if `steep`, and goes `dx` major steps. */
  datatype Walk = Walk(x: int, y: int, dx: nat, dy: nat, sx: int, sy: int, steep: bool)

  function Abs(a: int): nat { if a < 0 then -a else a }

  function Sign(a: int): int { if a > 0 then 1 else -1 }

  function WalkOf(x1: int, y1: int, x2: int, y2: int): Walk {
    var dx, dy := Abs(x2 - x1), Abs(y2 - y1);
    var sx, sy := Sign(x2 - x1), Sign(y2 - y1);
    if dy > dx then Walk(y1, x1, dy, dx, sy, sx, true) else Walk(x1, y1, dx, dy, sx, sy, false)
  }

  predicate IsWalk(w: Walk) { w.dy <= w.dx && (w.sx == 1 || w.sx == -1) && (w.sy == 1 || w.sy == -1) }

  function Place(w: Walk, a: int, b: int): Point { if w.steep then Point(b, a) else Point(a, b) }

  /** The pixel of the walk after `i` major steps. */
  function WalkPoint(w: Walk, i: nat): Point {
    Place(w, w.x + w.sx * i, w.y + w.sy * Steps(w.dx, w.dy, i))
  }

  ghost function Trace(w: Walk, n: nat): iset<Point> {
    iset p: Point | OnTrace(w, n, p)
  }

  ghost predicate OnTrace(w: Walk, n: nat, p: Point) {
    exists i: nat :: i < n && p == WalkPoint(w, i)
  }

  ghost function LineRegion(x1: int, y1: int, x2: int, y2: int): iset<Point> {
    var w := WalkOf(x1, y1, x2, y2);
    Trace(w, w.dx + 1)
  }

  // ---------- Properties of the ideal walk ----------

  lemma StepsBounds(dx: nat, dy: nat, i: nat)
    requires dx > 0
    ensures var k := Steps(dx, dy, i); 2 * dx * k <= 2 * dy * i + dx < 2 * dx * k + 2 * dx && k >= 0
  {
    MulNonNegative(2 * dy, i);
    DivModIdentity(2 * dy * i + dx, 2 * dx);
  }

  lemma StepsIs(dx: nat, dy: nat, i: nat, k: int)
    requires dx > 0 && 2 * dx * k <= 2 * dy * i + dx < 2 * dx * k + 2 * dx
    ensures Steps(dx, dy, i) == k
  {
    DivModUnique(2 * dy * i + dx, 2 * dx, k, 2 * dy * i + dx - 2 * dx * k);
  }

  lemma StepsFlat(dx: nat, i: nat)
    ensures Steps(dx, 0, i) == 0
  {
    if dx > 0 {
      StepsIs(dx, 0, i, 0);
    }
  }

  lemma StepsStart(dx: nat, dy: nat)
    ensures Steps(dx, dy, 0) == 0
  {
    if dx > 0 {
      StepsIs(dx, dy, 0, 0);
    }
  }

  lemma StepsEnd(dx: nat, dy: nat)
    requires dy <= dx
    ensures Steps(dx, dy, dx) == dy
  {
    if dx > 0 {
      assert 2 * dx * dy == 2 * dy * dx;
      StepsIs(dx, dy, dx, dy);
    }
  }

  /** The walk starts at (x1, y1) and ends exactly at (x2, y2), in all octants. */
  lemma WalkEnds(x1: int, y1: int, x2: int, y2: int)
    ensures var w := WalkOf(x1, y1, x2, y2);
            IsWalk(w) && WalkPoint(w, 0) == Point(x1, y1) && WalkPoint(w, w.dx) == Point(x2, y2)
  {
    hide Steps;
    var w := WalkOf(x1, y1, x2, y2);
    StepsStart(w.dx, w.dy);
    StepsEnd(w.dx, w.dy);
  }

  /** A major step makes at most one minor step. */
  lemma OneMinorStep(dx: nat, dy: nat, i: nat)
    requires dy <= dx
    ensures var k := Steps(dx, dy, i); k <= Steps(dx, dy, i + 1) <= k + 1
  {
    if dx > 0 {
      var k := Steps(dx, dy, i);
      StepsBounds(dx, dy, i);
      StepsBounds(dx, dy, i + 1);
      Distribute(i, 1, 2 * dy);
      NotFar(2 * dx, k, Steps(dx, dy, i + 1));
    }
  }

  lemma NotFar(n: int, k: int, m: int)
    requires n > 0 && n * k < n * m + n && n * m < n * k + 2 * n
    ensures k <= m <= k + 1
  {
    if m < k {
      MulMonotone(n, m + 1, k);
    } else if m > k + 1 {
      MulMonotone(n, k + 2, m);
    }
  }

  /** Neighbouring pixels of the line touch: one step along the longer axis, at most one along the shorter. */
  lemma LineIsConnected(w: Walk, i: nat)
    requires IsWalk(w)
    ensures var p, q := WalkPoint(w, i), WalkPoint(w, i + 1);
            Abs(q.x - p.x) <= 1 && Abs(q.y - p.y) <= 1 && (if w.steep then Abs(q.y - p.y) else Abs(q.x - p.x)) == 1
  {
    hide Steps;
    OneMinorStep(w.dx, w.dy, i);
  }

  lemma HalfStep(dx: nat, dy: nat, i: nat)
    requires dy <= dx
    ensures 2 * Abs(dx * Steps(dx, dy, i) - dy * i) <= dx
  {
    if dx > 0 {
      StepsBounds(dx, dy, i);
    }
  }

  /** Every pixel of the line is within half a pixel of the straight line from (x1, y1) to (x2, y2), measured along
      the shorter axis. */
  lemma LineWithinHalfPixel(x1: int, y1: int, x2: int, y2: int, p: Point)
    requires p in LineRegion(x1, y1, x2, y2)
    ensures 2 * Abs((p.y - y1) * (x2 - x1) - (p.x - x1) * (y2 - y1)) <= WalkOf(x1, y1, x2, y2).dx
  {
    hide Steps;
    var w := WalkOf(x1, y1, x2, y2);
    var i: nat :| i < w.dx + 1 && p == WalkPoint(w, i);
    var k := Steps(w.dx, w.dy, i);
    HalfStep(w.dx, w.dy, i);
    CrossSign(w.dx, w.dy, w.sx, w.sy, i, k);
    if w.steep {
      CrossCommutes(w.sx * i, w.sy * w.dy, w.sy * k, w.sx * w.dx);
      AbsSigned(y2 - y1);
      AbsSigned(x2 - x1);
    } else {
      AbsSigned(x2 - x1);
      AbsSigned(y2 - y1);
    }
  }

  lemma AbsSigned(a: int)
    ensures a == Sign(a) * Abs(a)
  {
  }

  lemma CrossSign(dx: int, dy: int, sx: int, sy: int, i: int, k: int)
    requires (sx == 1 || sx == -1) && (sy == 1 || sy == -1)
    ensures Abs((sy * k) * (sx * dx) - (sx * i) * (sy * dy)) == Abs(dx * k - dy * i)
  {
  }

  /** How far `at` is from `from`, counted in the direction of `to`. */
  function Toward(from: int, to: int, at: int): int { if to >= from then at - from else from - at }

  /** `k` minor steps after `i` of `dx` major steps are nearest to the ideal `dy * i / dx`; halves are rounded up. */
  predicate Nearest(dx: nat, dy: nat, i: int, k: int) {
    0 <= i <= dx && if dx == 0 then k == 0 else 0 - dx <= 2 * (dy * i - dx * k) < dx
  }

  /** The pixel is nearest to the straight line from (x1, y1) to (x2, y2) in its column, or in its row if the line is
      steep; a tie goes to the pixel further away from (x1, y1). */
  predicate OnLine(x1: int, y1: int, x2: int, y2: int, p: Point) {
    var dx, dy := Abs(x2 - x1), Abs(y2 - y1);
    var a, b := Toward(x1, x2, p.x), Toward(y1, y2, p.y);
    if dy > dx then Nearest(dy, dx, b, a) else Nearest(dx, dy, a, b)
  }

  lemma NearestIsSteps(dx: nat, dy: nat, i: int, k: int)
    requires dy <= dx
    ensures Nearest(dx, dy, i, k) <==> 0 <= i <= dx && k == Steps(dx, dy, i)
  {
    if dx > 0 && 0 <= i <= dx {
      if Nearest(dx, dy, i, k) {
        hide Steps;
        StepsIs(dx, dy, i, k);
      } else {
        hide Steps;
        StepsBounds(dx, dy, i);
      }
    }
  }

  lemma TowardIs(from: int, to: int, at: int, n: int)
    requires from == to ==> n == 0
    ensures Toward(from, to, at) == n <==> at == from + Sign(to - from) * n
  {
  }

  /** The point of a walk after `i` major steps, in the coordinates of the caller. */
  lemma WalkPointIs(x1: int, y1: int, x2: int, y2: int, i: nat, p: Point)
    requires i <= WalkOf(x1, y1, x2, y2).dx
    ensures var w := WalkOf(x1, y1, x2, y2);
            var a, b := Toward(x1, x2, p.x), Toward(y1, y2, p.y);
            p == WalkPoint(w, i) <==> (if w.steep then b else a) == i && (if w.steep then a else b) == Steps(w.dx, w.dy, i)
  {
    hide Steps, Toward;
    var w := WalkOf(x1, y1, x2, y2);
    var k := Steps(w.dx, w.dy, i);
    StepsFlat(w.dx, i);
    TowardIs(x1, x2, p.x, if w.steep then k else i);
    TowardIs(y1, y2, p.y, if w.steep then i else k);
  }

  /** Exactly which pixels a line has. */
  lemma LineExactly(x1: int, y1: int, x2: int, y2: int, p: Point)
    ensures p in LineRegion(x1, y1, x2, y2) <==> OnLine(x1, y1, x2, y2, p)
  {
    hide Steps, Nearest, Toward, WalkPoint;
    var w := WalkOf(x1, y1, x2, y2);
    var a, b := Toward(x1, x2, p.x), Toward(y1, y2, p.y);
    var i, k := if w.steep then b else a, if w.steep then a else b;
    NearestIsSteps(w.dx, w.dy, i, k);
    forall j: nat | j < w.dx + 1 ensures p == WalkPoint(w, j) <==> i == j && k == Steps(w.dx, w.dy, j) {
      WalkPointIs(x1, y1, x2, y2, j, p);
    }
  }

  lemma CrossCommutes(a: int, b: int, c: int, d: int)
    ensures Abs(a * b - c * d) == Abs(c * d - a * b)
  {
  }

  // ---------- The code ----------

  lemma TraceMore(w: Walk, n: nat, p: Point)
    ensures OnTrace(w, n + 1, p) <==> OnTrace(w, n, p) || p == WalkPoint(w, n)
  {
    hide WalkPoint;
    if OnTrace(w, n + 1, p) && p != WalkPoint(w, n) {
      var i: nat :| i < n + 1 && p == WalkPoint(w, i);
      assert i < n;
    }
  }

  /** Plot one more pixel if it is visible. */
  lemma PlotMore(g: Geometry, a: seq<nat>, b: seq<nat>, c: seq<nat>, w: Walk, n: nat, v: nat)
    requires Paints(g, a, b, Visible(g, Trace(w, n)), v)
    requires Paints(g, b, c, Visible(g, iset{WalkPoint(w, n)}), v)
    ensures Paints(g, a, c, Visible(g, Trace(w, n + 1)), v)
  {
    hide Paints, WalkPoint, OnTrace;
    var r, s, all := Visible(g, Trace(w, n)), Visible(g, iset{WalkPoint(w, n)}), Visible(g, Trace(w, n + 1));
    forall p: Point ensures p in all <==> p in r || p in s {
      TraceMore(w, n, p);
    }
    PaintsMore(g, a, b, c, r, s, all, v);
  }

  /** The inner loop: as many minor steps as the error term asks for, which is never more than one. */
  method MinorSteps(y: int, e: int, dx: int, sy: int) returns (y1: int, e1: int, ghost n: nat)
    requires dx > 0 && -2 * dx <= e < 2 * dx
    ensures n <= 1 && y1 == y + sy * n && e1 == e - 2 * dx * n && -2 * dx <= e1 < 0
  {
    y1, e1, n := y, e, 0;
    while e1 >= 0
      invariant n <= 1 && y1 == y + sy * n && e1 == e - 2 * dx * n && -2 * dx <= e1
      invariant n == 1 ==> e1 < 0
      decreases e1
    {
      y1 := y1 + sy;
      e1 := e1 - 2 * dx;
      n := n + 1;
    }
  }

  lemma ErrorTerm(dx: nat, dy: nat, i: nat, e: int)
    requires 0 < dx && dy <= dx && e == 2 * dy * (i + 1) - dx - 2 * dx * Steps(dx, dy, i)
    ensures -2 * dx <= e < 2 * dx
  {
    hide Steps;
    StepsBounds(dx, dy, i);
    Distribute(i, 1, 2 * dy);
  }

  lemma ErrorAfter(dx: nat, dy: nat, i: nat, k: int)
    requires 0 < dx && -2 * dx <= 2 * dy * (i + 1) - dx - 2 * dx * k < 0
    ensures Steps(dx, dy, i + 1) == k
  {
    hide Steps;
    StepsIs(dx, dy, i + 1, k);
  }

  lemma AfterMinorSteps(w: Walk, i: nat, k: int, n: nat, e: int)
    requires 0 < w.dx && -2 * w.dx <= e < 0 && e == 2 * w.dy * (i + 1) - w.dx - 2 * w.dx * k - 2 * w.dx * n
    ensures Steps(w.dx, w.dy, i + 1) == k + n && w.sy * k + w.sy * n == w.sy * (k + n)
    ensures e + 2 * w.dy == 2 * w.dy * (i + 2) - w.dx - 2 * w.dx * (k + n)
  {
    hide Steps;
    Distribute(k, n, 2 * w.dx);
    ErrorAfter(w.dx, w.dy, i, k + n);
    Distribute(k, n, w.sy);
    Distribute(i + 1, 1, 2 * w.dy);
  }

  /** The main loop, without the last pixel. */
  method MajorSteps(fb: FrameBuffer, w: Walk, col: Colour)
    requires fb.Valid() && IsWalk(w)
    modifies fb.buf
    ensures fb.Valid() && Paints(fb.g, old(fb.buf[..]), fb.buf[..], Visible(fb.g, Trace(w, w.dx)), Reduce(fb.g.format, col))
  {
    hide Paints, UnitsFit, Fits, Reduce, Trace, Visible, Steps;
    var x, y, dx, dy := w.x, w.y, w.dx, w.dy;
    var e := 2 * dy - dx;
    ghost var v := Reduce(fb.g.format, col);
    StepsStart(dx, dy);
    TraceNothing(fb.g, fb.buf[..], w, v);
    for i := 0 to dx
      invariant fb.Valid() && x == w.x + w.sx * i && y == w.y + w.sy * Steps(dx, dy, i)
      invariant e == 2 * dy * (i + 1) - dx - 2 * dx * Steps(dx, dy, i)
      invariant Paints(fb.g, old(fb.buf[..]), fb.buf[..], Visible(fb.g, Trace(w, i)), v)
    {
      ghost var before := fb.buf[..];
      ghost var k := Steps(dx, dy, i);
      if w.steep {
        fb.SetPixelChecked(y, x, col);
      } else {
        fb.SetPixelChecked(x, y, col);
      }
      PlotMore(fb.g, old(fb.buf[..]), before, fb.buf[..], w, i, v);
      ErrorTerm(dx, dy, i, e);
      ghost var n;
      y, e, n := MinorSteps(y, e, dx, w.sy);
      AfterMinorSteps(w, i, k, n, e);
      x := x + w.sx;
      Distribute(i, 1, w.sx);
      e := e + 2 * dy;
    }
  }

  lemma TraceNothing(g: Geometry, buf: seq<nat>, w: Walk, v: nat)
    ensures Paints(g, buf, buf, Visible(g, Trace(w, 0)), v)
  {
    hide Pixel, Held;
  }

  /** `line`: exactly the visible pixels of the walk from (x1, y1) to (x2, y2), both included. */
  method Line(fb: FrameBuffer, x1: int, y1: int, x2: int, y2: int, col: Colour)
    requires fb.Valid()
    modifies fb.buf
    ensures fb.Valid()
    ensures Paints(fb.g, old(fb.buf[..]), fb.buf[..], Visible(fb.g, LineRegion(x1, y1, x2, y2)), Reduce(fb.g.format, col))
  {
    hide Paints, UnitsFit, Fits, Reduce, Trace, Visible, Steps;
    var dx := x2 - x1;
    var sx;
    if dx > 0 {
      sx := 1;
    } else {
      dx := -dx;
      sx := -1;
    }
    var dy := y2 - y1;
    var sy;
    if dy > 0 {
      sy := 1;
    } else {
      dy := -dy;
      sy := -1;
    }
    var w := if dy > dx then Walk(y1, x1, dy, dx, sy, sx, true) else Walk(x1, y1, dx, dy, sx, sy, false);
    MajorSteps(fb, w, col);
    ghost var before := fb.buf[..];
    fb.SetPixelChecked(x2, y2, col);
    WalkEnds(x1, y1, x2, y2);
    PlotMore(fb.g, old(fb.buf[..]), before, fb.buf[..], w, w.dx, Reduce(fb.g.format, col));
  }
}
