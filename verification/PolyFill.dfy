/** `framebuf_poly`: scan-line filling of a polygon, and its outline. */
module PolyFill {
  import Arith
  import opened EvenOdd
  import opened FrameBuffer
  import FrameFill
  import opened FrameGeometry
  import FrameLine
  import opened FramePaint

  /** A coordinate from the caller's array: a machine integer. */
  type Coord = i: int | -0x8000_0000 <= i <= 0x7fff_ffff

  /** Complete vertices in an array of coordinates: an odd last value is ignored. */
  function Count(c: seq<Coord>): nat { |c| / 2 }

  function Vertex(c: seq<Coord>, i: nat): Point
    requires i < Count(c)
  {
    Point(c[2 * i], c[2 * i + 1])
  }

  // ---------- Where an edge crosses a scan line ----------

  /** The edge leaves one side of the row for the other; its lower end does not count. */
  predicate Crosses(p: Point, q: Point, row: int) {
    p.y != q.y && ((p.y > row && q.y <= row) || (p.y <= row && q.y > row))
  }

  /** Division of C: towards zero. */
  function TruncDiv(a: int, b: int): int
    requires b != 0
  {
    if a >= 0 then (if b > 0 then a / b else -(a / -b)) else (if b > 0 then -(-a / b) else -a / -b)
  }

  /** The column at which the edge crosses the row. */
  function Node(p: Point, q: Point, row: int): int
    requires p.y != q.y
  {
    TruncDiv(32 * p.x + TruncDiv(32 * (q.x - p.x) * (row - p.y), q.y - p.y) + 16, 32)
  }

  lemma TruncBounds(a: int, b: int)
    requires b != 0
    ensures FrameLine.Abs(a - b * TruncDiv(a, b)) < FrameLine.Abs(b)
    ensures a >= 0 && b > 0 ==> b * TruncDiv(a, b) <= a
  {
    if b > 0 {
      Arith.DivModIdentity(FrameLine.Abs(a), b);
    } else {
      Arith.DivModIdentity(FrameLine.Abs(a), -b);
    }
  }

  /** A node is less than a pixel and a half from the exact crossing, and within 17/32 of a pixel where the rounded
      numerator is not negative, that is unless the crossing is more than half a pixel left of column 0. */
  lemma NodeIsNear(p: Point, q: Point, row: int)
    requires Crosses(p, q, row)
    ensures var dy := q.y - p.y;
            var off := FrameLine.Abs(Node(p, q, row) * dy - (p.x * dy + (q.x - p.x) * (row - p.y)));
            && 32 * off < 48 * FrameLine.Abs(dy)
            && (32 * p.x + TruncDiv(32 * (q.x - p.x) * (row - p.y), dy) + 16 >= 0 ==> 32 * off < 17 * FrameLine.Abs(dy))
  {
    hide TruncDiv;
    var dy, a := q.y - p.y, (q.x - p.x) * (row - p.y);
    assert 32 * (q.x - p.x) * (row - p.y) == 32 * a;
    var t := TruncDiv(32 * a, dy);
    TruncBounds(32 * a, dy);
    NearEither(Node(p, q, row), p.x, t, a, dy);
  }

  /** The exact column at which the edge crosses the row, times the height of the edge. */
  function ExactTimes(p: Point, q: Point, row: int): int {
    if q.y > p.y then p.x * (q.y - p.y) + (q.x - p.x) * (row - p.y)
    else p.x * (p.y - q.y) + (q.x - p.x) * (p.y - row)
  }

  /** Which column the node is. Where the edge goes to the right, the exact column is rounded to the nearest one, halves
      up, and further left than half a pixel beyond column 0 by the rest of C; where it goes to the left, both happen
      one thirty-second of a pixel later. In each case exactly one column is in the range. */
  lemma NodeIsRounded(p: Point, q: Point, row: int)
    requires p.y <= row < q.y || q.y <= row < p.y
    ensures var h := FrameLine.Abs(q.y - p.y);
            var exact := ExactTimes(p, q, row);
            var off := 32 * (exact - Node(p, q, row) * h);
            if q.x >= p.x then
              if 32 * exact >= -16 * h then -16 * h <= off < 16 * h else -47 * h <= off < -15 * h
            else if 32 * exact > -17 * h then -17 * h < off <= 15 * h else -48 * h < off <= -16 * h
  {
    hide TruncDiv;
    var dy, h := q.y - p.y, FrameLine.Abs(q.y - p.y);
    var v := 32 * (q.x - p.x) * (row - p.y);
    var part := if dy > 0 then (q.x - p.x) * (row - p.y) else (q.x - p.x) * -(row - p.y);
    PartIs(q.x - p.x, row - p.y);
    PartSign(q.x - p.x, if dy > 0 then row - p.y else p.y - row);
    TruncFloor(v, dy, 32 * part, h);
    RoundedBounds(TruncDiv(v, dy), p.x, part, h, Node(p, q, row), q.x >= p.x);
  }

  lemma PartIs(a: int, r: int)
    ensures 32 * a * r == 32 * (a * r) && a * -r == -(a * r)
  {
  }

  lemma PartSign(a: int, r: int)
    requires r >= 0
    ensures a >= 0 ==> a * r >= 0
    ensures a < 0 ==> a * r <= 0
  {
  }

  lemma TruncFloor(v: int, dy: int, u: int, h: int)
    requires dy != 0 && (if dy > 0 then h == dy && u == v else h == -dy && u == -v)
    ensures u >= 0 ==> h * TruncDiv(v, dy) <= u < h * TruncDiv(v, dy) + h
    ensures u <= 0 ==> h * TruncDiv(v, dy) - h < u <= h * TruncDiv(v, dy)
  {
    Arith.DivModIdentity(FrameLine.Abs(v), h);
  }

  lemma RoundedBounds(t: int, x: int, part: int, h: int, n: int, right: bool)
    requires h > 0 && n == TruncDiv(32 * x + t + 16, 32)
    requires if right then h * t <= 32 * part < h * t + h else h * t - h < 32 * part <= h * t
    ensures var off := 32 * (x * h + part - n * h);
            if right then
              if 32 * (x * h + part) >= -16 * h then -16 * h <= off < 16 * h else -47 * h <= off < -15 * h
            else if 32 * (x * h + part) > -17 * h then -17 * h < off <= 15 * h else -48 * h < off <= -16 * h
  {
    hide TruncDiv;
    var m := 32 * x + t + 16;
    TruncRest(m);
    var r := m - 32 * n;
    TimesHeight(h, x, t, n, r);
    SignTimes(h, m);
    if m >= 0 {
      Arith.MulMonotone(h, r, 31);
    } else {
      Arith.MulMonotone(h, -31, r);
      Arith.MulMonotone(h, m, -1);
    }
    Arith.MulNonNegative(h, FrameLine.Abs(r));
  }

  lemma TimesHeight(h: int, x: int, t: int, n: int, r: int)
    requires 32 * x + t + 16 == 32 * n + r
    ensures 32 * (x * h) + h * t + 16 * h == 32 * (n * h) + h * r
    ensures h * (32 * x + t + 16) == 32 * (x * h) + h * t + 16 * h
  {
    assert h * (32 * x + t + 16) == h * (32 * n + r);
  }

  lemma SignTimes(h: int, m: int)
    requires h > 0
    ensures m >= 0 ==> h * m >= 0
    ensures m < 0 ==> h * m <= -h
  {
    if m >= 0 {
      Arith.MulNonNegative(h, m);
    } else {
      Arith.MulMonotone(h, m, -1);
    }
  }

  lemma NearEither(n: int, x: int, t: int, a: int, dy: int)
    requires FrameLine.Abs(32 * a - dy * t) < FrameLine.Abs(dy) && n == TruncDiv(32 * x + t + 16, 32)
    ensures 32 * FrameLine.Abs(n * dy - (x * dy + a)) < 48 * FrameLine.Abs(dy)
    ensures 32 * x + t + 16 >= 0 ==> 32 * FrameLine.Abs(n * dy - (x * dy + a)) < 17 * FrameLine.Abs(dy)
  {
    hide TruncDiv;
    TruncRest(32 * x + t + 16);
    NearSum(n, x, t, a, dy, 48);
    if 32 * x + t + 16 >= 0 {
      NearSum(n, x, t, a, dy, 17);
    }
  }

  /** `w` counts thirty-seconds of a pixel. */
  lemma NearSum(n: int, x: int, t: int, a: int, dy: int, w: nat)
    requires FrameLine.Abs(32 * a - dy * t) < FrameLine.Abs(dy) && FrameLine.Abs(32 * n - 32 * x - t) < w
    ensures 32 * FrameLine.Abs(n * dy - (x * dy + a)) < w * FrameLine.Abs(dy)
  {
    var s := 32 * n - 32 * x - t;
    Scale(n, x, t, s, dy);
    RestTimes(s, dy, w - 1);
    assert dy * t == t * dy;
    Arith.Distribute(w - 1, 1, FrameLine.Abs(dy));
  }

  lemma TruncRest(m: int)
    ensures -32 < m - 32 * TruncDiv(m, 32) < 32
    ensures m >= 0 ==> m - 32 * TruncDiv(m, 32) >= 0
    ensures m < 0 ==> m - 32 * TruncDiv(m, 32) <= 0
  {
  }

  lemma Scale(n: int, x: int, t: int, s: int, d: int)
    requires 32 * n == 32 * x + t + s
    ensures 32 * (n * d - x * d) == t * d + s * d
  {
    Arith.Distribute(t, s, d);
    assert (32 * n - 32 * x) * d == 32 * (n * d - x * d);
  }

  lemma RestTimes(s: int, d: int, w: int)
    requires FrameLine.Abs(s) <= w
    ensures FrameLine.Abs(s * d) <= w * FrameLine.Abs(d)
  {
    var e := FrameLine.Abs(d);
    Arith.MulMonotone(e, s, w);
    Arith.MulMonotone(e, -w, s);
    assert e * s == s * d || e * s == -(s * d);
  }

  /** A vertical edge is crossed at its own column if and only if the column is not negative: the rounding of C
      goes towards zero. */
  lemma VerticalNode(p: Point, q: Point, row: int)
    requires p.y != q.y && p.x == q.x
    ensures Node(p, q, row) == p.x <==> p.x >= 0
    ensures p.x < 0 ==> Node(p, q, row) == p.x + 1
  {
    assert 32 * (q.x - p.x) * (row - p.y) == 0;
    assert TruncDiv(0, q.y - p.y) == 0 by {
      TruncZero(q.y - p.y);
    }
    TruncColumn(p.x);
  }

  lemma TruncZero(b: int)
    requires b != 0
    ensures TruncDiv(0, b) == 0
  {
  }

  lemma TruncColumn(x: int)
    ensures TruncDiv(32 * x + 16, 32) == if x >= 0 then x else x + 1
  {
  }

  lemma QuotientAtMost(v: int, a: int, b: int)
    requires b > 0 && 0 <= v <= b * a
    ensures 0 <= v / b <= a
  {
    var q := v / b;
    Arith.DivModIdentity(v, b);
    if q > a {
      Arith.MulMonotone(b, a + 1, q);
      assert false;
    }
  }

  lemma TruncAtMost(v: int, a: int, b: int)
    requires b != 0 && a >= 0
    ensures b > 0 && 0 <= v <= b * a ==> 0 <= TruncDiv(v, b) <= a
    ensures b > 0 && -(b * a) <= v <= 0 ==> -a <= TruncDiv(v, b) <= 0
    ensures b < 0 && 0 <= v <= -b * a ==> -a <= TruncDiv(v, b) <= 0
    ensures b < 0 && -(-b * a) <= v <= 0 ==> 0 <= TruncDiv(v, b) <= a
  {
    var v1, b1 := FrameLine.Abs(v), FrameLine.Abs(b);
    if v1 <= b1 * a {
      QuotientAtMost(v1, a, b1);
    }
    if v == 0 {
      TruncZero(b);
    }
  }

  /** A part of `a` is between 0 and `a`. */
  lemma TruncShare(a: int, r: int, b: int)
    requires b != 0 && (0 <= r <= b || b <= r <= 0)
    ensures a >= 0 ==> 0 <= TruncDiv(a * r, b) <= a
    ensures a <= 0 ==> a <= TruncDiv(a * r, b) <= 0
  {
    hide TruncDiv;
    var a1, r1, b1 := FrameLine.Abs(a), FrameLine.Abs(r), FrameLine.Abs(b);
    Arith.MulNonNegative(a1, r1);
    Arith.MulMonotone(a1, r1, b1);
    SignedProduct(a, r);
    assert a1 * b1 == b1 * a1;
    TruncAtMost(a * r, a1, b);
  }

  lemma SignedProduct(a: int, r: int)
    ensures a * r == if (a < 0) == (r < 0) then FrameLine.Abs(a) * FrameLine.Abs(r) else -(FrameLine.Abs(a) * FrameLine.Abs(r))
  {
  }

  /** The rightmost column a node can have if no vertex is right of `hi`. */
  function Right(hi: int): int { if hi >= 0 then hi else hi + 1 }

  /** A node lies between the ends of its edge; left of column 0 it can be one column off. */
  lemma NodeIsBetween(p: Point, q: Point, row: int, lo: int, hi: int)
    requires Crosses(p, q, row) && lo <= p.x <= hi && lo <= q.x <= hi
    ensures lo <= Node(p, q, row) <= Right(hi)
  {
    hide TruncDiv;
    TruncShare(32 * (q.x - p.x), row - p.y, q.y - p.y);
    TruncRange(32 * p.x + TruncDiv(32 * (q.x - p.x) * (row - p.y), q.y - p.y) + 16, lo, hi);
  }

  lemma TruncRange(m: int, lo: int, hi: int)
    requires 32 * lo + 16 <= m <= 32 * hi + 16
    ensures lo <= TruncDiv(m, 32) <= Right(hi)
  {
  }

  // ---------- The nodes of a row ----------

  /** The node of one edge, if there is one. */
  function EdgeNodes(p: Point, q: Point, row: int): (s: seq<int>)
    ensures |s| <= 1
  {
    if Crosses(p, q, row) then [Node(p, q, row)] else []
  }

  /** The nodes of the edges from `prev` back to vertex `k - 1`, from there to `k - 2`, and so on to vertex 0. */
  function NodesFrom(c: seq<Coord>, row: int, prev: Point, k: nat): (s: seq<int>)
    requires k <= Count(c)
    ensures |s| <= k
    decreases k
  {
    if k == 0 then []
    else
      var q := Vertex(c, k - 1);
      EdgeNodes(prev, q, row) + NodesFrom(c, row, q, k - 1)
  }

  function Nodes(c: seq<Coord>, row: int): seq<int>
    requires Count(c) > 0
  {
    NodesFrom(c, row, Vertex(c, 0), Count(c))
  }

  /** Each crossing changes sides, and the polygon ends where it starts. */
  lemma {:induction false} SidesAlternate(c: seq<Coord>, row: int, prev: Point, k: nat)
    requires 0 < Count(c) && k <= Count(c) && (k == 0 ==> prev == Vertex(c, 0))
    ensures |NodesFrom(c, row, prev, k)| % 2 == if (prev.y > row) != (Vertex(c, 0).y > row) then 1 else 0
    decreases k
  {
    hide Node;
    if k == 0 {
    } else {
      SidesAlternate(c, row, Vertex(c, k - 1), k - 1);
    }
  }

  /** Every scan line is crossed an even number of times, at most once per edge. */
  lemma NodesAreEven(c: seq<Coord>, row: int)
    requires Count(c) > 0
    ensures |Nodes(c, row)| % 2 == 0 && |Nodes(c, row)| <= Count(c)
  {
    SidesAlternate(c, row, Vertex(c, 0), Count(c));
  }

  predicate Columns(c: seq<Coord>, lo: int, hi: int) {
    forall i :: 0 <= i < Count(c) ==> lo <= Vertex(c, i).x <= hi
  }

  predicate AllIn(s: seq<int>, lo: int, hi: int) { forall i :: 0 <= i < |s| ==> lo <= s[i] <= hi }

  lemma {:induction false} NodesAreBetween(c: seq<Coord>, row: int, prev: Point, k: nat, lo: int, hi: int)
    requires Columns(c, lo, hi) && k <= Count(c) && lo <= prev.x <= hi
    ensures AllIn(NodesFrom(c, row, prev, k), lo, Right(hi))
    decreases k
  {
    hide Node, Crosses;
    if k == 0 {
    } else {
      var q := Vertex(c, k - 1);
      NodesAreBetween(c, row, q, k - 1, lo, hi);
      EdgeNodesBetween(prev, q, row, lo, hi);
    }
  }

  lemma EdgeNodesBetween(p: Point, q: Point, row: int, lo: int, hi: int)
    requires lo <= p.x <= hi && lo <= q.x <= hi
    ensures AllIn(EdgeNodes(p, q, row), lo, Right(hi))
  {
    hide Node;
    if Crosses(p, q, row) {
      NodeIsBetween(p, q, row, lo, hi);
    }
  }

  lemma InsideIsBetween(s: seq<int>, lo: int, hi: int, px: int)
    requires AllIn(s, lo, hi) && |s| % 2 == 0 && Inside(s, px)
    ensures lo <= px <= hi
  {
    if px < lo {
      CountNone(s, px);
    } else if px > hi {
      CountAll(s, px);
    }
  }

  lemma {:induction false} CountNone(s: seq<int>, px: int)
    requires forall i :: 0 <= i < |s| ==> s[i] > px
    ensures CountUpTo(s, px) == 0
  {
    if s == [] {
    } else {
      CountNone(s[..|s| - 1], px);
    }
  }

  /** The fill stays between the leftmost and the rightmost vertex if the polygon reaches column 0 or beyond, and
      otherwise goes at most one column further to the right. */
  lemma FillStaysInside(c: seq<Coord>, x: int, y: int, row: int, lo: int, hi: int, p: Point)
    requires Count(c) > 0 && Columns(c, lo, hi) && p in RowInside(c, x, y, row)
    ensures x + lo <= p.x <= x + Right(hi)
    ensures hi >= 0 ==> p.x <= x + hi
  {
    hide Inside;
    NodesAreEven(c, row);
    NodesAreBetween(c, row, Vertex(c, 0), Count(c), lo, hi);
    InsideIsBetween(Nodes(c, row), lo, Right(hi), p.x - x);
  }

  // ---------- The region ----------

  /** What is drawn on a row for an edge that ends on it without crossing it. */
  ghost function Extra(p: Point, q: Point, x: int, y: int, row: int): iset<Point> {
    if Crosses(p, q, row) || row != FrameFill.Max(p.y, q.y) then iset{}
    else if p.y < q.y then iset{Point(x + q.x, y + q.y)}
    else if q.y < p.y then iset{Point(x + p.x, y + p.y)}
    else FrameLine.LineRegion(x + p.x, y + p.y, x + q.x, y + q.y)
  }

  ghost function ExtrasFrom(c: seq<Coord>, x: int, y: int, row: int, prev: Point, k: nat): iset<Point>
    requires k <= Count(c)
    decreases k
  {
    if k == 0 then iset{}
    else Extra(prev, Vertex(c, k - 1), x, y, row) + ExtrasFrom(c, x, y, row, Vertex(c, k - 1), k - 1)
  }

  ghost function Extras(c: seq<Coord>, x: int, y: int, row: int): iset<Point>
    requires Count(c) > 0
  {
    ExtrasFrom(c, x, y, row, Vertex(c, 0), Count(c))
  }

  /** The pixels of a row that the even-odd rule puts inside the polygon. */
  ghost function RowInside(c: seq<Coord>, x: int, y: int, row: int): iset<Point>
    requires Count(c) > 0
  {
    iset p: Point | p.y == y + row && Inside(Nodes(c, row), p.x - x)
  }

  ghost predicate OnRows(c: seq<Coord>, x: int, y: int, lo: int, hi: int, p: Point)
    requires Count(c) > 0
  {
    exists row :: lo <= row < hi && (p in RowInside(c, x, y, row) || p in Extras(c, x, y, row))
  }

  ghost function RowsRegion(c: seq<Coord>, x: int, y: int, lo: int, hi: int): iset<Point>
    requires Count(c) > 0
  {
    iset p: Point | OnRows(c, x, y, lo, hi, p)
  }

  function Lowest(c: seq<Coord>, k: nat): int
    requires 0 < k <= Count(c)
  {
    if k == 1 then Vertex(c, 0).y else FrameFill.Min(Lowest(c, k - 1), Vertex(c, k - 1).y)
  }

  function Highest(c: seq<Coord>, k: nat): int
    requires 0 < k <= Count(c)
  {
    if k == 1 then Vertex(c, 0).y else FrameFill.Max(Highest(c, k - 1), Vertex(c, k - 1).y)
  }

  ghost function PolyRegion(c: seq<Coord>, x: int, y: int): iset<Point>
    requires Count(c) > 0
  {
    RowsRegion(c, x, y, Lowest(c, Count(c)), Highest(c, Count(c)) + 1)
  }

  // ---------- One edge ----------

  /** What one edge contributes to its row: a node, or pixels drawn at once. */
  method ScanEdge(fb: FrameBuffer, p: Point, q: Point, x: int, y: int, row: int, col: Colour, nodes: array<int>, n: nat)
    returns (n1: nat)
    requires fb.Valid() && n < nodes.Length && (nodes as object) != fb.buf
    modifies fb.buf, nodes
    ensures fb.Valid() && n1 <= n + 1
    ensures nodes[..n1] == old(nodes[..n]) + EdgeNodes(p, q, row)
    ensures Paints(fb.g, old(fb.buf[..]), fb.buf[..], Visible(fb.g, Extra(p, q, x, y, row)), Reduce(fb.g.format, col))
  {
    hide Paints, UnitsFit, Fits, Reduce, Visible, TruncDiv, FrameLine.LineRegion;
    n1 := n;
    if p.y != q.y && ((p.y > row && q.y <= row) || (p.y <= row && q.y > row)) {
      var node := TruncDiv(32 * p.x + TruncDiv(32 * (q.x - p.x) * (row - p.y), q.y - p.y) + 16, 32);
      nodes[n1] := node;
      n1 := n1 + 1;
      VisibleNothing(fb.g, fb.buf[..], Reduce(fb.g.format, col));
    } else if row == FrameFill.Max(p.y, q.y) {
      if p.y < q.y {
        fb.SetPixelChecked(x + q.x, y + q.y, col);
      } else if q.y < p.y {
        fb.SetPixelChecked(x + p.x, y + p.y, col);
      } else {
        FrameLine.Line(fb, x + p.x, y + p.y, x + q.x, y + q.y, col);
      }
    } else {
      VisibleNothing(fb.g, fb.buf[..], Reduce(fb.g.format, col));
    }
  }

  lemma VisibleNothing(g: Geometry, buf: seq<nat>, v: nat)
    ensures Paints(g, buf, buf, Visible(g, iset{}), v)
  {
    hide Pixel, Held;
  }

  /** Two visible regions after one another. */
  lemma PaintsBoth(g: Geometry, a: seq<nat>, b: seq<nat>, c: seq<nat>, r: iset<Point>, s: iset<Point>, v: nat)
    requires Paints(g, a, b, Visible(g, r), v) && Paints(g, b, c, Visible(g, s), v)
    ensures Paints(g, a, c, Visible(g, r + s), v)
  {
    hide Paints;
    PaintsMore(g, a, b, c, Visible(g, r), Visible(g, s), Visible(g, r + s), v);
  }

  /** All edges of a row. */
  method ScanEdges(fb: FrameBuffer, c: seq<Coord>, x: int, y: int, row: int, col: Colour, nodes: array<int>)
    returns (n: nat)
    requires fb.Valid() && Count(c) > 0 && nodes.Length == Count(c) && (nodes as object) != fb.buf
    modifies fb.buf, nodes
    ensures fb.Valid() && n <= nodes.Length && nodes[..n] == Nodes(c, row)
    ensures Paints(fb.g, old(fb.buf[..]), fb.buf[..], Visible(fb.g, Extras(c, x, y, row)), Reduce(fb.g.format, col))
  {
    hide Paints, UnitsFit, Fits, Reduce, Visible, EdgeNodes, Extra;
    n := 0;
    var p := Vertex(c, 0);
    var i: int := Count(c) - 1;
    ghost var drawn := iset{};
    VisibleNothing(fb.g, fb.buf[..], Reduce(fb.g.format, col));
    while i >= 0
      invariant -1 <= i < Count(c) && fb.Valid() && n <= Count(c) - 1 - i
      invariant nodes[..n] + NodesFrom(c, row, p, i + 1) == Nodes(c, row)
      invariant drawn + ExtrasFrom(c, x, y, row, p, i + 1) == Extras(c, x, y, row)
      invariant Paints(fb.g, old(fb.buf[..]), fb.buf[..], Visible(fb.g, drawn), Reduce(fb.g.format, col))
    {
      ghost var before, had := fb.buf[..], nodes[..n];
      var q := Vertex(c, i);
      n := ScanEdge(fb, p, q, x, y, row, col, nodes, n);
      PaintsBoth(fb.g, old(fb.buf[..]), before, fb.buf[..], drawn, Extra(p, q, x, y, row), Reduce(fb.g.format, col));
      assert had + (EdgeNodes(p, q, row) + NodesFrom(c, row, q, i)) == had + EdgeNodes(p, q, row) + NodesFrom(c, row, q, i);
      drawn := drawn + Extra(p, q, x, y, row);
      p := q;
      i := i - 1;
    }
    assert nodes[..n] + [] == nodes[..n];
    assert drawn + iset{} == drawn;
  }

  // ---------- The spans of a row ----------

  ghost function SpansRegion(s: seq<int>, x: int, py: int): iset<Point> {
    iset p: Point | p.y == py && InSpans(s, p.x - x)
  }

  lemma SpansMore(s: seq<int>, a: int, b: int, x: int, py: int)
    ensures SpansRegion(s + [a, b], x, py) == SpansRegion(s, x, py) + Rect(x + a, py, b - a + 1, 1)
  {
    hide InSpans;
    forall p: Point ensures p in SpansRegion(s + [a, b], x, py) <==> p in SpansRegion(s, x, py) + Rect(x + a, py, b - a + 1, 1) {
      InSpansSnoc(s, a, b, p.x - x);
    }
  }

  /** Fill between each pair of nodes. */
  method FillSpans(fb: FrameBuffer, nodes: array<int>, n: nat, x: int, py: int, col: Colour)
    requires fb.Valid() && n <= nodes.Length && n % 2 == 0 && (nodes as object) != fb.buf
    modifies fb.buf
    ensures fb.Valid()
    ensures Paints(fb.g, old(fb.buf[..]), fb.buf[..], Visible(fb.g, SpansRegion(nodes[..n], x, py)), Reduce(fb.g.format, col))
  {
    hide Paints, UnitsFit, Fits, Reduce, Visible, Rect, InSpans;
    NoSpans(x, py);
    assert nodes[..0] == [];
    VisibleNothing(fb.g, fb.buf[..], Reduce(fb.g.format, col));
    var i := 0;
    while i < n
      invariant 0 <= i <= n && i % 2 == 0 && fb.Valid()
      invariant Paints(fb.g, old(fb.buf[..]), fb.buf[..], Visible(fb.g, SpansRegion(nodes[..i], x, py)), Reduce(fb.g.format, col))
    {
      ghost var before := fb.buf[..];
      ghost var a, b := nodes[i], nodes[i + 1];
      FrameFill.FillRect(fb, x + nodes[i], py, nodes[i + 1] - nodes[i] + 1, 1, col);
      PaintsBoth(fb.g, old(fb.buf[..]), before, fb.buf[..], SpansRegion(nodes[..i], x, py), Rect(x + a, py, b - a + 1, 1), Reduce(fb.g.format, col));
      SpansMore(nodes[..i], a, b, x, py);
      assert nodes[..i + 2] == nodes[..i] + [a, b];
      i := i + 2;
    }
  }

  lemma NoSpans(x: int, py: int)
    ensures SpansRegion([], x, py) == iset{}
  {
  }

  /** The spans between the sorted nodes are the inside by the even-odd rule. */
  lemma SpansAreInside(c: seq<Coord>, x: int, y: int, row: int, s: seq<int>)
    requires Count(c) > 0 && Sorted(s) && multiset(s) == multiset(Nodes(c, row))
    ensures |s| % 2 == 0 && SpansRegion(s, x, y + row) == RowInside(c, x, y, row)
  {
    hide Nodes, InSpans, Inside, Sorted;
    NodesAreEven(c, row);
    assert |s| == |multiset(s)| == |multiset(Nodes(c, row))|;
    forall p: Point ensures p in SpansRegion(s, x, y + row) <==> p in RowInside(c, x, y, row) {
      SpansAreEvenOdd(s, p.x - x);
      InsidePermuted(s, Nodes(c, row), p.x - x);
    }
  }

  // ---------- All rows ----------

  /** One scan line. */
  method FillRow(fb: FrameBuffer, c: seq<Coord>, x: int, y: int, row: int, col: Colour)
    requires fb.Valid() && Count(c) > 0
    modifies fb.buf
    ensures fb.Valid()
    ensures Paints(fb.g, old(fb.buf[..]), fb.buf[..], Visible(fb.g, Extras(c, x, y, row) + RowInside(c, x, y, row)), Reduce(fb.g.format, col))
  {
    hide Paints, UnitsFit, Fits, Reduce, Visible, Nodes, Sorted, SpansRegion, RowInside, Extras;
    var nodes := new int[Count(c)];
    var n := ScanEdges(fb, c, x, y, row, col, nodes);
    ghost var before := fb.buf[..];
    SortNodes(nodes, n);
    SpansAreInside(c, x, y, row, nodes[..n]);
    FillSpans(fb, nodes, n, x, y + row, col);
    PaintsBoth(fb.g, old(fb.buf[..]), before, fb.buf[..], Extras(c, x, y, row), RowInside(c, x, y, row), Reduce(fb.g.format, col));
  }

  lemma RowsMore(c: seq<Coord>, x: int, y: int, lo: int, row: int)
    requires Count(c) > 0 && lo <= row
    ensures RowsRegion(c, x, y, lo, row + 1) == RowsRegion(c, x, y, lo, row) + (Extras(c, x, y, row) + RowInside(c, x, y, row))
  {
    hide Extras, RowInside;
    forall p: Point ensures OnRows(c, x, y, lo, row + 1, p)
        <==> OnRows(c, x, y, lo, row, p) || p in RowInside(c, x, y, row) || p in Extras(c, x, y, row) {
      if OnRows(c, x, y, lo, row + 1, p) && !OnRows(c, x, y, lo, row, p) {
        var r :| lo <= r < row + 1 && (p in RowInside(c, x, y, r) || p in Extras(c, x, y, r));
        assert r == row;
      }
    }
  }

  lemma NoRows(c: seq<Coord>, x: int, y: int, lo: int)
    requires Count(c) > 0
    ensures RowsRegion(c, x, y, lo, lo) == iset{}
  {
  }

  method FindExtent(c: seq<Coord>) returns (yMin: int, yMax: int)
    requires Count(c) > 0
    ensures yMin == Lowest(c, Count(c)) && yMax == Highest(c, Count(c)) && yMin <= yMax
  {
    yMin, yMax := 0x7fff_ffff, -0x8000_0000;
    for i := 0 to Count(c)
      invariant i == 0 ==> yMin == 0x7fff_ffff && yMax == -0x8000_0000
      invariant i > 0 ==> yMin == Lowest(c, i) && yMax == Highest(c, i) && yMin <= yMax
    {
      var py := Vertex(c, i).y;
      yMin := FrameFill.Min(yMin, py);
      yMax := FrameFill.Max(yMax, py);
    }
  }

  /** `framebuf_poly` with `fill`: exactly the visible pixels that the even-odd rule puts inside, and those drawn for
      edges that end on a row. */
  method Fill(fb: FrameBuffer, c: seq<Coord>, x: int, y: int, col: Colour)
    requires fb.Valid()
    modifies fb.buf
    ensures fb.Valid()
    ensures Paints(fb.g, old(fb.buf[..]), fb.buf[..],
                   if Count(c) == 0 then iset{} else Visible(fb.g, PolyRegion(c, x, y)), Reduce(fb.g.format, col))
  {
    hide Paints, UnitsFit, Fits, Reduce, Visible, RowsRegion, Extras, RowInside;
    ghost var v := Reduce(fb.g.format, col);
    if Count(c) == 0 {
      PaintsNothing(fb.g, fb.buf[..], v);
      return;
    }
    var yMin, yMax := FindExtent(c);
    var row := yMin;
    NoRows(c, x, y, yMin);
    VisibleNothing(fb.g, fb.buf[..], v);
    while row <= yMax
      invariant yMin <= row <= yMax + 1 && fb.Valid()
      invariant Paints(fb.g, old(fb.buf[..]), fb.buf[..], Visible(fb.g, RowsRegion(c, x, y, yMin, row)), v)
    {
      ghost var before := fb.buf[..];
      FillRow(fb, c, x, y, row, col);
      PaintsBoth(fb.g, old(fb.buf[..]), before, fb.buf[..], RowsRegion(c, x, y, yMin, row),
                 Extras(c, x, y, row) + RowInside(c, x, y, row), v);
      RowsMore(c, x, y, yMin, row);
      row := row + 1;
    }
  }

  // ---------- The outline ----------

  ghost function EdgesFrom(c: seq<Coord>, x: int, y: int, p: Point, k: nat): iset<Point>
    requires k <= Count(c)
    decreases k
  {
    if k == 0 then iset{}
    else
      var q := Vertex(c, k - 1);
      FrameLine.LineRegion(x + p.x, y + p.y, x + q.x, y + q.y) + EdgesFrom(c, x, y, q, k - 1)
  }

  /** `framebuf_poly` without `fill`: the line of every edge. */
  method Outline(fb: FrameBuffer, c: seq<Coord>, x: int, y: int, col: Colour)
    requires fb.Valid()
    modifies fb.buf
    ensures fb.Valid()
    ensures Paints(fb.g, old(fb.buf[..]), fb.buf[..],
                   if Count(c) == 0 then iset{} else Visible(fb.g, EdgesFrom(c, x, y, Vertex(c, 0), Count(c))), Reduce(fb.g.format, col))
  {
    hide Paints, UnitsFit, Fits, Reduce, Visible, FrameLine.LineRegion;
    ghost var v := Reduce(fb.g.format, col);
    if Count(c) == 0 {
      PaintsNothing(fb.g, fb.buf[..], v);
      return;
    }
    var p := Vertex(c, 0);
    var i: int := Count(c) - 1;
    ghost var drawn := iset{};
    VisibleNothing(fb.g, fb.buf[..], v);
    while i >= 0
      invariant -1 <= i < Count(c) && fb.Valid()
      invariant drawn + EdgesFrom(c, x, y, p, i + 1) == EdgesFrom(c, x, y, Vertex(c, 0), Count(c))
      invariant Paints(fb.g, old(fb.buf[..]), fb.buf[..], Visible(fb.g, drawn), v)
    {
      ghost var before := fb.buf[..];
      var q := Vertex(c, i);
      ghost var edge := FrameLine.LineRegion(x + p.x, y + p.y, x + q.x, y + q.y);
      FrameLine.Line(fb, x + p.x, y + p.y, x + q.x, y + q.y, col);
      PaintsBoth(fb.g, old(fb.buf[..]), before, fb.buf[..], drawn, edge, v);
      drawn := drawn + edge;
      p := q;
      i := i - 1;
    }
    assert drawn + iset{} == drawn;
  }
}
