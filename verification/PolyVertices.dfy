/** Which vertices of a filled polygon `framebuf_poly` draws. */
module PolyVertices {
  import Arith
  import opened EvenOdd
  import FrameFill
  import FrameLine
  import opened FramePaint
  import opened PolyFill

  // ---------- The row of a pixel ----------

  lemma ExtraOnRow(p: Point, q: Point, x: int, y: int, row: int, pt: Point)
    requires pt in Extra(p, q, x, y, row)
    ensures pt.y == y + row
  {
    if p.y == q.y {
      FlatLine(x + p.x, x + q.x, y + p.y, pt);
    }
  }

  lemma FlatLine(x1: int, x2: int, y: int, pt: Point)
    requires pt in FrameLine.LineRegion(x1, y, x2, y)
    ensures pt.y == y
  {
    hide FrameLine.Steps;
    var w := FrameLine.WalkOf(x1, y, x2, y);
    var i: nat :| i < w.dx + 1 && pt == FrameLine.WalkPoint(w, i);
    FrameLine.StepsFlat(w.dx, i);
  }

  lemma {:induction false} ExtrasOnRow(c: seq<Coord>, x: int, y: int, row: int, prev: Point, k: nat, pt: Point)
    requires k <= Count(c) && pt in ExtrasFrom(c, x, y, row, prev, k)
    ensures pt.y == y + row
    decreases k
  {
    hide Extra;
    if pt in Extra(prev, Vertex(c, k - 1), x, y, row) {
      ExtraOnRow(prev, Vertex(c, k - 1), x, y, row, pt);
    } else {
      ExtrasOnRow(c, x, y, row, Vertex(c, k - 1), k - 1, pt);
    }
  }

  lemma {:induction false} ExtentHolds(c: seq<Coord>, k: nat, i: nat)
    requires i < k <= Count(c)
    ensures Lowest(c, k) <= Vertex(c, i).y <= Highest(c, k)
    decreases k
  {
    if i < k - 1 {
      ExtentHolds(c, k - 1, i);
    }
  }

  /** Nothing is drawn on a row that is above all vertices or below all of them. */
  lemma {:induction false} EmptyRow(c: seq<Coord>, x: int, y: int, row: int, prev: Point, k: nat, above: bool)
    requires k <= Count(c) && Beyond(prev, row, above) && forall i :: 0 <= i < k ==> Beyond(Vertex(c, i), row, above)
    ensures NodesFrom(c, row, prev, k) == [] && ExtrasFrom(c, x, y, row, prev, k) == iset{}
    decreases k
  {
    hide Node;
    if k == 0 {
    } else {
      EmptyRow(c, x, y, row, Vertex(c, k - 1), k - 1, above);
    }
  }

  predicate Beyond(v: Point, row: int, above: bool) { if above then v.y > row else v.y < row }

  lemma OutsideIsEmpty(c: seq<Coord>, x: int, y: int, row: int)
    requires Count(c) > 0 && !(Lowest(c, Count(c)) <= row <= Highest(c, Count(c)))
    ensures Nodes(c, row) == [] && Extras(c, x, y, row) == iset{}
  {
    hide NodesFrom, ExtrasFrom, Lowest, Highest;
    var above := row < Lowest(c, Count(c));
    forall i | 0 <= i < Count(c) ensures Beyond(Vertex(c, i), row, above) {
      ExtentHolds(c, Count(c), i);
    }
    EmptyRow(c, x, y, row, Vertex(c, 0), Count(c), above);
  }

  /** A pixel is drawn by its own row or not at all; the extent of the polygon does not matter. */
  lemma DrawnByOwnRow(c: seq<Coord>, x: int, y: int, p: Point)
    requires Count(c) > 0
    ensures p in PolyRegion(c, x, y) <==> Inside(Nodes(c, p.y - y), p.x - x) || p in Extras(c, x, y, p.y - y)
  {
    hide Nodes, ExtrasFrom, Lowest, Highest, CountUpTo;
    var own := p.y - y;
    if p in PolyRegion(c, x, y) {
      var row :| p in RowInside(c, x, y, row) || p in Extras(c, x, y, row);
      if p in Extras(c, x, y, row) {
        ExtrasOnRow(c, x, y, row, Vertex(c, 0), Count(c), p);
      } else {
        assert p in RowInside(c, x, y, row);
      }
      assert row == own;
    } else if Lowest(c, Count(c)) <= own <= Highest(c, Count(c)) {
      assert p !in RowInside(c, x, y, own) && p !in Extras(c, x, y, own);
    } else {
      OutsideIsEmpty(c, x, y, own);
      assert CountUpTo([], p.x - x) == 0 by {
        CountNothing(p.x - x);
      }
    }
  }

  lemma CountNothing(px: int)
    ensures CountUpTo([], px) == 0
  {
  }

  // ---------- The edges at a vertex ----------

  lemma TruncWhole(a: int, b: int)
    requires b != 0
    ensures TruncDiv(a * b, b) == a
  {
    hide TruncDiv;
    TruncShare(a, b, b);
    TruncBounds(a * b, b);
    var t := TruncDiv(a * b, b);
    assert a * b - b * t == b * (a - t);
    if a > t {
      SmallProduct(b, a - t);
    } else if a < t {
      SmallProduct(b, t - a);
    }
  }

  lemma SmallProduct(b: int, d: int)
    requires b != 0 && d >= 1
    ensures FrameLine.Abs(b * d) >= FrameLine.Abs(b) && FrameLine.Abs(b * -d) >= FrameLine.Abs(b)
  {
    if b > 0 {
      Arith.MulAtLeast(b, d);
    } else {
      Arith.MulAtLeast(-b, d);
    }
  }

  lemma NodeAtEnd(p: Point, v: Point)
    requires p.y != v.y
    ensures Node(p, v, v.y) == if v.x >= 0 then v.x else v.x + 1
  {
    var dy := v.y - p.y;
    TruncWhole(32 * (v.x - p.x), dy);
    TruncColumn(v.x);
  }

  lemma NodeAtStart(v: Point, q: Point)
    requires v.y != q.y
    ensures Node(v, q, v.y) == if v.x >= 0 then v.x else v.x + 1
  {
    assert 32 * (q.x - v.x) * (v.y - v.y) == 0;
    TruncZero(q.y - v.y);
    TruncColumn(v.x);
  }

  lemma LineHasEnds(x1: int, y1: int, x2: int, y2: int)
    ensures Point(x1, y1) in FrameLine.LineRegion(x1, y1, x2, y2)
    ensures Point(x2, y2) in FrameLine.LineRegion(x1, y1, x2, y2)
  {
    hide FrameLine.WalkPoint;
    FrameLine.WalkEnds(x1, y1, x2, y2);
    var w := FrameLine.WalkOf(x1, y1, x2, y2);
    assert Point(x1, y1) == FrameLine.WalkPoint(w, 0);
    assert Point(x2, y2) == FrameLine.WalkPoint(w, w.dx);
  }

  /** On the row of a common end `v`, an edge has its node at `v` or draws `v` at once, if the column is not negative
      or the other end is not below `v`. */
  lemma EdgeDrawsVertex(p: Point, v: Point, x: int, y: int)
    requires v.x >= 0 || p.y <= v.y
    ensures v.x in EdgeNodes(p, v, v.y) || Point(x + v.x, y + v.y) in Extra(p, v, x, y, v.y)
    ensures v.x in EdgeNodes(v, p, v.y) || Point(x + v.x, y + v.y) in Extra(v, p, x, y, v.y)
  {
    hide Node;
    if p.y > v.y {
      NodeAtEnd(p, v);
      NodeAtStart(v, p);
    } else if p.y == v.y {
      LineHasEnds(x + p.x, y + p.y, x + v.x, y + v.y);
      LineHasEnds(x + v.x, y + v.y, x + p.x, y + p.y);
    }
  }

  /** Otherwise the edge has its node one column to the right and draws nothing. */
  lemma EdgeMissesVertex(p: Point, v: Point, x: int, y: int)
    requires v.x < 0 && p.y > v.y
    ensures EdgeNodes(p, v, v.y) == [v.x + 1] && Extra(p, v, x, y, v.y) == iset{}
    ensures EdgeNodes(v, p, v.y) == [v.x + 1] && Extra(v, p, x, y, v.y) == iset{}
  {
    hide Node;
    NodeAtEnd(p, v);
    NodeAtStart(v, p);
  }

  // ---------- Vertices that their own edges draw ----------

  /** The vertices next to vertex `i`, in the order in which the edges are visited. */
  function After(c: seq<Coord>, i: nat): Point
    requires i < Count(c)
  {
    if i + 1 < Count(c) then Vertex(c, i + 1) else Vertex(c, 0)
  }

  function Before(c: seq<Coord>, i: nat): Point
    requires i < Count(c)
  {
    if i > 0 then Vertex(c, i - 1) else Vertex(c, Count(c) - 1)
  }

  /** The column is not negative, or a neighbour is not below the vertex. */
  predicate DrawnByEdges(c: seq<Coord>, i: nat)
    requires i < Count(c)
  {
    var v := Vertex(c, i);
    v.x >= 0 || After(c, i).y <= v.y || Before(c, i).y <= v.y
  }

  ghost predicate OnChain(c: seq<Coord>, x: int, y: int, v: Point, prev: Point, k: nat)
    requires k <= Count(c)
  {
    v.x in NodesFrom(c, v.y, prev, k) || Point(x + v.x, y + v.y) in ExtrasFrom(c, x, y, v.y, prev, k)
  }

  lemma OnChainStep(c: seq<Coord>, x: int, y: int, v: Point, prev: Point, k: nat)
    requires 0 < k <= Count(c)
    ensures var q := Vertex(c, k - 1);
            OnChain(c, x, y, v, prev, k) <==> v.x in EdgeNodes(prev, q, v.y) || Point(x + v.x, y + v.y) in Extra(prev, q, x, y, v.y)
                                              || OnChain(c, x, y, v, q, k - 1)
  {
    hide EdgeNodes, Extra, NodesFrom, ExtrasFrom;
    var q := Vertex(c, k - 1);
    NodesStep(c, x, y, v.y, prev, k);
    InConcat(EdgeNodes(prev, q, v.y), NodesFrom(c, v.y, q, k - 1), v.x);
  }

  lemma InConcat(a: seq<int>, b: seq<int>, n: int)
    ensures n in a + b <==> n in a || n in b
  {
  }

  /** The edge that ends in vertex `i` comes from the vertex after it. */
  lemma {:induction false} EndsOnChain(c: seq<Coord>, x: int, y: int, prev: Point, k: nat, i: nat)
    requires i < k <= Count(c) && (k == i + 1 ==> prev == After(c, i))
    requires Vertex(c, i).x >= 0 || After(c, i).y <= Vertex(c, i).y
    ensures OnChain(c, x, y, Vertex(c, i), prev, k)
    decreases k
  {
    hide OnChain, EdgeNodes, Extra;
    OnChainStep(c, x, y, Vertex(c, i), prev, k);
    if k == i + 1 {
      EdgeDrawsVertex(prev, Vertex(c, i), x, y);
    } else {
      EndsOnChain(c, x, y, Vertex(c, k - 1), k - 1, i);
    }
  }

  /** The edge that starts in vertex `i` goes to the vertex before it. */
  lemma {:induction false} StartsOnChain(c: seq<Coord>, x: int, y: int, prev: Point, k: nat, i: nat)
    requires 0 < i < k <= Count(c) && Vertex(c, i - 1).y <= Vertex(c, i).y
    ensures OnChain(c, x, y, Vertex(c, i), prev, k)
    decreases k
  {
    hide OnChain, EdgeNodes, Extra;
    OnChainStep(c, x, y, Vertex(c, i), prev, k);
    if k == i + 1 {
      OnChainStep(c, x, y, Vertex(c, i), Vertex(c, i), i);
      EdgeDrawsVertex(Vertex(c, i - 1), Vertex(c, i), x, y);
    } else {
      StartsOnChain(c, x, y, Vertex(c, k - 1), k - 1, i);
    }
  }

  /** A vertex is drawn if its column is not negative or a neighbour is not below it, also at local extrema, spikes
      and flat edges. */
  lemma VertexIsFilled(c: seq<Coord>, x: int, y: int, i: nat)
    requires i < Count(c) && DrawnByEdges(c, i)
    ensures Point(x + Vertex(c, i).x, y + Vertex(c, i).y) in PolyRegion(c, x, y)
  {
    hide OnChain, CountUpTo, PolyRegion, Extra, EdgeNodes;
    var v, n := Vertex(c, i), Count(c);
    if v.x >= 0 || After(c, i).y <= v.y {
      EndsOnChain(c, x, y, Vertex(c, 0), n, i);
    } else if i > 0 {
      StartsOnChain(c, x, y, Vertex(c, 0), n, i);
    } else {
      OnChainStep(c, x, y, v, v, n);
      EdgeDrawsVertex(Vertex(c, n - 1), v, x, y);
    }
    OnChainIsDrawn(c, x, y, v);
  }

  lemma OnChainIsDrawn(c: seq<Coord>, x: int, y: int, v: Point)
    requires Count(c) > 0 && OnChain(c, x, y, v, Vertex(c, 0), Count(c))
    ensures Point(x + v.x, y + v.y) in PolyRegion(c, x, y)
  {
    hide NodesFrom, ExtrasFrom, CountUpTo, PolyRegion;
    DrawnByOwnRow(c, x, y, Point(x + v.x, y + v.y));
  }

  // ---------- Exactly which vertices are drawn ----------

  /** The polygon without vertex `i`. */
  function Without(c: seq<Coord>, i: nat): (d: seq<Coord>)
    requires i < Count(c)
    ensures Count(d) == Count(c) - 1
  {
    c[..2 * i] + c[2 * i + 2..]
  }

  lemma WithoutVertex(c: seq<Coord>, i: nat, j: nat)
    requires i < Count(c) && j < Count(c) - 1
    ensures Vertex(Without(c, i), j) == if j < i then Vertex(c, j) else Vertex(c, j + 1)
  {
  }

  /** The same to the even-odd rule at one column. */
  ghost predicate Alike(s: seq<int>, t: seq<int>, px: int) {
    CountUpTo(s, px) == CountUpTo(t, px) && (px in s <==> px in t)
  }

  lemma {:induction false} CountConcat(s: seq<int>, t: seq<int>, px: int)
    ensures CountUpTo(s + t, px) == CountUpTo(s, px) + CountUpTo(t, px)
    decreases |t|
  {
    if t == [] {
      assert s + t == s;
    } else {
      CountConcat(s, t[..|t| - 1], px);
      assert (s + t)[..|s + t| - 1] == s + t[..|t| - 1];
    }
  }

  lemma AlikePrepend(e: seq<int>, s: seq<int>, t: seq<int>, px: int)
    requires Alike(s, t, px)
    ensures Alike(e + s, e + t, px)
  {
    hide CountUpTo;
    CountConcat(e, s, px);
    CountConcat(e, t, px);
  }

  lemma AlikeDrop(a: int, s: seq<int>, t: seq<int>, px: int)
    requires a > px && Alike(s, t, px)
    ensures Alike([a] + s, t, px)
  {
    hide CountUpTo;
    CountConcat([a], s, px);
    CountNone([a], px);
  }

  lemma {:induction false} PrefixSame(c: seq<Coord>, i: nat, x: int, y: int, row: int, prev: Point, k: nat)
    requires k <= i < Count(c)
    ensures NodesFrom(Without(c, i), row, prev, k) == NodesFrom(c, row, prev, k)
    ensures ExtrasFrom(Without(c, i), x, y, row, prev, k) == ExtrasFrom(c, x, y, row, prev, k)
    decreases k
  {
    hide EdgeNodes, Extra, Without, Vertex;
    if k == 0 {
    } else {
      WithoutVertex(c, i, k - 1);
      PrefixSame(c, i, x, y, row, Vertex(c, k - 1), k - 1);
    }
  }

  /** Both contributions of the edges down to some vertex, with and without vertex `i`. */
  ghost predicate ChainsAlike(c: seq<Coord>, i: nat, x: int, y: int, prev: Point, k: nat, prev2: Point, k2: nat)
    requires i < Count(c) && k <= Count(c) && k2 < Count(c)
  {
    var v := Vertex(c, i);
    && Alike(NodesFrom(c, v.y, prev, k), NodesFrom(Without(c, i), v.y, prev2, k2), v.x)
    && ExtrasFrom(c, x, y, v.y, prev, k) == ExtrasFrom(Without(c, i), x, y, v.y, prev2, k2)
  }

  lemma NodesStep(c: seq<Coord>, x: int, y: int, row: int, prev: Point, k: nat)
    requires 0 < k <= Count(c)
    ensures var q := Vertex(c, k - 1);
            && NodesFrom(c, row, prev, k) == EdgeNodes(prev, q, row) + NodesFrom(c, row, q, k - 1)
            && ExtrasFrom(c, x, y, row, prev, k) == Extra(prev, q, x, y, row) + ExtrasFrom(c, x, y, row, q, k - 1)
  {
    hide EdgeNodes, Extra;
  }

  /** Two ends above the row: the edge between them does nothing there. */
  lemma EdgeAbove(p: Point, q: Point, x: int, y: int, row: int)
    requires p.y > row && q.y > row
    ensures EdgeNodes(p, q, row) == [] && Extra(p, q, x, y, row) == iset{}
  {
  }

  /** From the vertex after a missed vertex: its two edges count for nothing at its own place. */
  lemma ChainAtVertex(c: seq<Coord>, i: nat, x: int, y: int)
    requires i < Count(c) && !DrawnByEdges(c, i) && Count(c) > 1
    ensures ChainsAlike(c, i, x, y, After(c, i), i + 1, After(c, i), i)
  {
    hide EdgeNodes, Extra, Without, NodesFrom, ExtrasFrom, CountUpTo;
    var v, next := Vertex(c, i), After(c, i);
    NodesStep(c, x, y, v.y, next, i + 1);
    EdgeMissesVertex(next, v, x, y);
    if i == 0 {
      NoEdges(c, x, y, v.y, v);
      NoEdges(Without(c, i), x, y, v.y, next);
      AlikeDrop(v.x + 1, [], [], v.x);
    } else {
      var last := Before(c, i);
      NodesStep(c, x, y, v.y, v, i);
      EdgeMissesVertex(last, v, x, y);
      WithoutVertex(c, i, i - 1);
      NodesStep(Without(c, i), x, y, v.y, next, i);
      EdgeAbove(next, last, x, y, v.y);
      PrefixSame(c, i, x, y, v.y, last, i - 1);
      var rest := NodesFrom(c, v.y, last, i - 1);
      assert [] + rest == rest;
      AlikeDrop(v.x + 1, rest, rest, v.x);
      AlikeDrop(v.x + 1, [v.x + 1] + rest, rest, v.x);
    }
  }

  lemma NoEdges(c: seq<Coord>, x: int, y: int, row: int, prev: Point)
    ensures NodesFrom(c, row, prev, 0) == [] && ExtrasFrom(c, x, y, row, prev, 0) == iset{}
  {
  }

  lemma {:induction false} ChainSkips(c: seq<Coord>, i: nat, x: int, y: int, prev: Point, k: nat)
    requires i < k <= Count(c) && !DrawnByEdges(c, i) && Count(c) > 1 && (k == i + 1 ==> prev == After(c, i))
    ensures ChainsAlike(c, i, x, y, prev, k, prev, k - 1)
    decreases k
  {
    hide EdgeNodes, Extra, Without, NodesFrom, ExtrasFrom, Alike, DrawnByEdges;
    if k == i + 1 {
      ChainAtVertex(c, i, x, y);
    } else {
      var v, q := Vertex(c, i), Vertex(c, k - 1);
      ChainSkips(c, i, x, y, q, k - 1);
      NodesStep(c, x, y, v.y, prev, k);
      WithoutVertex(c, i, k - 2);
      NodesStep(Without(c, i), x, y, v.y, prev, k - 1);
      AlikePrepend(EdgeNodes(prev, q, v.y), NodesFrom(c, v.y, q, k - 1), NodesFrom(Without(c, i), v.y, q, k - 2), v.x);
    }
  }

  /** A vertex that its own edges miss is drawn only if the polygon without it covers the place. */
  lemma WholeSkips(c: seq<Coord>, i: nat, x: int, y: int)
    requires i < Count(c) && !DrawnByEdges(c, i) && Count(c) > 1
    ensures ChainsAlike(c, i, x, y, Vertex(c, 0), Count(c), Vertex(Without(c, i), 0), Count(c) - 1)
  {
    hide EdgeNodes, Extra, Without, NodesFrom, ExtrasFrom, Alike;
    var n, v := Count(c), Vertex(c, i);
    WithoutVertex(c, i, 0);
    if i > 0 {
      ChainSkips(c, i, x, y, Vertex(c, 0), n);
    } else {
      var last := Vertex(c, n - 1);
      NodesStep(c, x, y, v.y, v, n);
      EdgeMissesVertex(last, v, x, y);
      ChainSkips(c, 0, x, y, last, n - 1);
      WithoutVertex(c, 0, n - 2);
      NodesStep(Without(c, 0), x, y, v.y, After(c, 0), n - 1);
      EdgeAbove(After(c, 0), last, x, y, v.y);
      var s, t := NodesFrom(c, v.y, last, n - 1), NodesFrom(Without(c, 0), v.y, last, n - 2);
      AlikeDrop(v.x + 1, s, t, v.x);
      assert [] + t == t;
    }
  }

  /** Exactly when a vertex is drawn: if its column is not negative, if a neighbour is not below it, or if the polygon
      without it covers its place. */
  lemma VertexDrawn(c: seq<Coord>, x: int, y: int, i: nat)
    requires i < Count(c)
    ensures var p := Point(x + Vertex(c, i).x, y + Vertex(c, i).y);
            p in PolyRegion(c, x, y) <==> DrawnByEdges(c, i) || (Count(c) > 1 && p in PolyRegion(Without(c, i), x, y))
  {
    hide PolyRegion, Without, NodesFrom, ExtrasFrom, CountUpTo;
    var p := Point(x + Vertex(c, i).x, y + Vertex(c, i).y);
    if DrawnByEdges(c, i) {
      VertexIsFilled(c, x, y, i);
    } else {
      WholeSkips(c, i, x, y);
      DrawnByOwnRow(c, x, y, p);
      DrawnByOwnRow(Without(c, i), x, y, p);
    }
  }

  /** In a triangle that last case cannot occur. */
  lemma TriangleVertexDrawn(c: seq<Coord>, x: int, y: int, i: nat)
    requires Count(c) == 3 && i < 3
    ensures Point(x + Vertex(c, i).x, y + Vertex(c, i).y) in PolyRegion(c, x, y) <==> DrawnByEdges(c, i)
  {
    hide PolyRegion, Without, NodesFrom, ExtrasFrom, CountUpTo;
    VertexDrawn(c, x, y, i);
    if !DrawnByEdges(c, i) {
      var v, d := Vertex(c, i), Without(c, i);
      WithoutVertex(c, i, 0);
      WithoutVertex(c, i, 1);
      EmptyRow(d, x, y, v.y, Vertex(d, 0), 2, true);
      CountNothing(v.x);
      DrawnByOwnRow(d, x, y, Point(x + v.x, y + v.y));
    }
  }

  /** A triangle that points up at column -3: its tip is not drawn. */
  const LEFT_TRIANGLE: seq<Coord> := [-3, 0, -1, 5, -5, 5]

  lemma NegativeVertexMissed()
    ensures Vertex(LEFT_TRIANGLE, 0) == Point(-3, 0) && Point(-3, 0) !in PolyRegion(LEFT_TRIANGLE, 0, 0)
  {
    hide PolyRegion;
    TriangleVertexDrawn(LEFT_TRIANGLE, 0, 0, 0);
  }
}
