/** `framebuf_poly` in terms of the vertices alone: exactly which pixels a filled polygon and an outline have. */
module PolyEdges {
  import Arith
  import opened EvenOdd
  import FrameFill
  import FrameLine
  import opened FramePaint
  import opened PolyFill
  import opened PolyVertices

  // ---------- Crossings ----------

  /** The ends are on different sides of the row; a row counts as above its own ends. */
  predicate Separated(p: Point, q: Point, row: int) { p.y <= row < q.y || q.y <= row < p.y }

  /** The edge that ends in vertex `i` crosses the row, at column `px` or left of it. */
  predicate CrossesUpTo(c: seq<Coord>, row: int, px: int, i: nat)
    requires i < Count(c)
  {
    Separated(After(c, i), Vertex(c, i), row) && Node(After(c, i), Vertex(c, i), row) <= px
  }

  /** How many of the first `k` edges do. */
  function CrossingsUpTo(c: seq<Coord>, row: int, px: int, k: nat): nat
    requires k <= Count(c)
  {
    if k == 0 then 0 else CrossingsUpTo(c, row, px, k - 1) + if CrossesUpTo(c, row, px, k - 1) then 1 else 0
  }

  predicate CrossesAt(c: seq<Coord>, row: int, px: int, i: nat)
    requires i < Count(c)
  {
    Separated(After(c, i), Vertex(c, i), row) && Node(After(c, i), Vertex(c, i), row) == px
  }

  lemma EdgeCounts(c: seq<Coord>, row: int, px: int, i: nat)
    requires i < Count(c)
    ensures var s := EdgeNodes(After(c, i), Vertex(c, i), row);
            && CountUpTo(s, px) == (if CrossesUpTo(c, row, px, i) then 1 else 0)
            && (px in s <==> CrossesAt(c, row, px, i))
  {
    hide Node;
    var p, q := After(c, i), Vertex(c, i);
    if Crosses(p, q, row) {
      assert EdgeNodes(p, q, row)[..0] == [];
    }
  }

  lemma {:induction false} ChainCounts(c: seq<Coord>, row: int, px: int, k: nat)
    requires 0 < k <= Count(c)
    ensures var s := NodesFrom(c, row, After(c, k - 1), k);
            && CountUpTo(s, px) == CrossingsUpTo(c, row, px, k)
            && (px in s <==> exists i :: 0 <= i < k && CrossesAt(c, row, px, i))
    decreases k
  {
    hide EdgeNodes, CountUpTo, CrossesUpTo, CrossesAt;
    var e, rest := EdgeNodes(After(c, k - 1), Vertex(c, k - 1), row), NodesFrom(c, row, Vertex(c, k - 1), k - 1);
    assert NodesFrom(c, row, After(c, k - 1), k) == e + rest;
    CountConcat(e, rest, px);
    EdgeCounts(c, row, px, k - 1);
    if k == 1 {
      assert rest == [];
      CountNothing(px);
      assert CrossingsUpTo(c, row, px, 0) == 0;
    } else {
      ChainCounts(c, row, px, k - 1);
      if i :| 0 <= i < k - 1 && CrossesAt(c, row, px, i) {
        assert 0 <= i < k;
      }
    }
  }

  // ---------- What is drawn besides the inside ----------

  predicate Between(a: int, px: int, b: int) { a <= px <= b || b <= px <= a }

  /** `v` is on the horizontal edge that ends in vertex `i`. */
  predicate OnFlatEdge(c: seq<Coord>, v: Point, i: nat)
    requires i < Count(c)
  {
    After(c, i).y == v.y && Vertex(c, i).y == v.y && Between(After(c, i).x, v.x, Vertex(c, i).x)
  }

  /** `v` is vertex `i`, and a neighbour is above it. */
  predicate IsLowEnd(c: seq<Coord>, v: Point, i: nat)
    requires i < Count(c)
  {
    v == Vertex(c, i) && (After(c, i).y < v.y || Before(c, i).y < v.y)
  }

  lemma FlatLineIs(x1: int, x2: int, y: int, p: Point)
    ensures p in FrameLine.LineRegion(x1, y, x2, y) <==> p.y == y && Between(x1, p.x, x2)
  {
    FrameLine.LineExactly(x1, y, x2, y, p);
    var dx, k := FrameLine.Abs(x2 - x1), FrameLine.Toward(y, y, p.y);
    if k >= 1 {
      Arith.MulAtLeast(dx, k);
    } else if k <= -1 {
      Arith.MulAtLeast(dx, -k);
    }
  }

  /** What one edge draws on a row. */
  lemma ExtraIs(p: Point, q: Point, x: int, y: int, row: int, pt: Point)
    ensures pt in Extra(p, q, x, y, row) <==>
              && pt.y == y + row
              && ((p.y == q.y == row && Between(p.x, pt.x - x, q.x))
                  || (q.y == row && p.y < row && pt.x == x + q.x)
                  || (p.y == row && q.y < row && pt.x == x + p.x))
  {
    hide FrameLine.LineRegion;
    if p.y == q.y {
      FlatLineIs(x + p.x, x + q.x, y + p.y, pt);
    }
  }

  /** The edge that ends in vertex `i` draws `pt` without crossing its row. */
  predicate EdgeDraws(c: seq<Coord>, v: Point, i: nat)
    requires i < Count(c)
  {
    var p, q := After(c, i), Vertex(c, i);
    OnFlatEdge(c, v, i) || (v == q && p.y < q.y) || (v == p && q.y < p.y)
  }

  lemma {:induction false} ChainDraws(c: seq<Coord>, x: int, y: int, v: Point, k: nat)
    requires 0 < k <= Count(c)
    ensures Point(x + v.x, y + v.y) in ExtrasFrom(c, x, y, v.y, After(c, k - 1), k)
            <==> exists i :: 0 <= i < k && EdgeDraws(c, v, i)
    decreases k
  {
    hide Extra, EdgeDraws;
    var pt := Point(x + v.x, y + v.y);
    ExtraDraws(c, x, y, v, k - 1);
    if k == 1 {
      assert ExtrasFrom(c, x, y, v.y, Vertex(c, 0), 0) == iset{};
    } else {
      ChainDraws(c, x, y, v, k - 1);
      if i :| 0 <= i < k - 1 && EdgeDraws(c, v, i) {
        assert 0 <= i < k;
      }
    }
  }

  lemma ExtraDraws(c: seq<Coord>, x: int, y: int, v: Point, i: nat)
    requires i < Count(c)
    ensures Point(x + v.x, y + v.y) in Extra(After(c, i), Vertex(c, i), x, y, v.y) <==> EdgeDraws(c, v, i)
  {
    hide Extra;
    ExtraIs(After(c, i), Vertex(c, i), x, y, v.y, Point(x + v.x, y + v.y));
  }

  /** The start of an edge is the end of the next one. */
  lemma EdgeEnds(c: seq<Coord>, i: nat)
    requires i < Count(c)
    ensures var j := if i + 1 < Count(c) then i + 1 else 0;
            After(c, i) == Vertex(c, j) && Before(c, j) == Vertex(c, i)
    ensures var j := if i > 0 then i - 1 else Count(c) - 1;
            Before(c, i) == Vertex(c, j) && After(c, j) == Vertex(c, i)
  {
  }

  lemma DrawsByVertex(c: seq<Coord>, v: Point)
    ensures (exists i :: 0 <= i < Count(c) && EdgeDraws(c, v, i))
            <==> exists i :: 0 <= i < Count(c) && (OnFlatEdge(c, v, i) || IsLowEnd(c, v, i))
  {
    hide OnFlatEdge, After, Before, Vertex;
    if i :| 0 <= i < Count(c) && EdgeDraws(c, v, i) {
      EdgeEnds(c, i);
      var j := if i + 1 < Count(c) then i + 1 else 0;
      assert OnFlatEdge(c, v, i) || IsLowEnd(c, v, i) || IsLowEnd(c, v, j);
    }
    if i :| 0 <= i < Count(c) && (OnFlatEdge(c, v, i) || IsLowEnd(c, v, i)) {
      EdgeEnds(c, i);
      var j := if i > 0 then i - 1 else Count(c) - 1;
      assert EdgeDraws(c, v, i) || EdgeDraws(c, v, j);
    }
  }

  // ---------- The filled polygon ----------

  /** Exactly which pixels a filled polygon has: an odd number of edges cross the row at the pixel or left of it, an
      edge crosses it at the pixel, the pixel is on a horizontal edge, or it is a vertex with a neighbour above. */
  lemma FilledExactly(c: seq<Coord>, x: int, y: int, v: Point)
    requires Count(c) > 0
    ensures Point(x + v.x, y + v.y) in PolyRegion(c, x, y) <==>
              || CrossingsUpTo(c, v.y, v.x, Count(c)) % 2 == 1
              || (exists i :: 0 <= i < Count(c) && CrossesAt(c, v.y, v.x, i))
              || (exists i :: 0 <= i < Count(c) && (OnFlatEdge(c, v, i) || IsLowEnd(c, v, i)))
  {
    hide CountUpTo, PolyRegion, NodesFrom, ExtrasFrom, CrossesAt, OnFlatEdge, IsLowEnd;
    DrawnByOwnRow(c, x, y, Point(x + v.x, y + v.y));
    ChainCounts(c, v.y, v.x, Count(c));
    ChainDraws(c, x, y, v, Count(c));
    DrawsByVertex(c, v);
  }

  // ---------- The outline ----------

  /** `p` is on the line of the edge that ends in vertex `i`. */
  predicate OnEdge(c: seq<Coord>, x: int, y: int, p: Point, i: nat)
    requires i < Count(c)
  {
    FrameLine.OnLine(x + After(c, i).x, y + After(c, i).y, x + Vertex(c, i).x, y + Vertex(c, i).y, p)
  }

  lemma {:induction false} EdgesAre(c: seq<Coord>, x: int, y: int, p: Point, k: nat)
    requires 0 < k <= Count(c)
    ensures p in EdgesFrom(c, x, y, After(c, k - 1), k) <==> exists i :: 0 <= i < k && OnEdge(c, x, y, p, i)
    decreases k
  {
    hide FrameLine.LineRegion, FrameLine.OnLine;
    var a, b := After(c, k - 1), Vertex(c, k - 1);
    FrameLine.LineExactly(x + a.x, y + a.y, x + b.x, y + b.y, p);
    assert OnEdge(c, x, y, p, k - 1) <==> p in FrameLine.LineRegion(x + a.x, y + a.y, x + b.x, y + b.y);
    assert p in EdgesFrom(c, x, y, a, k) <==> OnEdge(c, x, y, p, k - 1) || p in EdgesFrom(c, x, y, b, k - 1);
    if k == 1 {
      assert EdgesFrom(c, x, y, Vertex(c, 0), 0) == iset{};
    } else {
      EdgesAre(c, x, y, p, k - 1);
      if i :| 0 <= i < k - 1 && OnEdge(c, x, y, p, i) {
        assert 0 <= i < k;
      }
    }
  }

  /** Exactly which pixels an outline has: those of the line between each vertex and the next, the first one following
      the last. */
  lemma OutlineExactly(c: seq<Coord>, x: int, y: int, p: Point)
    requires Count(c) > 0
    ensures p in EdgesFrom(c, x, y, Vertex(c, 0), Count(c)) <==> exists i :: 0 <= i < Count(c) && OnEdge(c, x, y, p, i)
  {
    EdgesAre(c, x, y, p, Count(c));
  }
}
