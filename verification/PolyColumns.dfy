/** When the fill of `framebuf_poly` goes beyond the rightmost vertex. */
module PolyColumns {
  import opened EvenOdd
  import opened FramePaint
  import opened PolyFill
  import opened PolyVertices

  /** Thirty-seconds of a pixel, rounded by half a pixel, of which a node is the whole part. */
  function Numerator(p: Point, q: Point, row: int): int
    requires p.y != q.y
  {
    32 * p.x + TruncDiv(32 * (q.x - p.x) * (row - p.y), q.y - p.y) + 16
  }

  /** A node is beyond both ends of its edge exactly when the columns are negative and the crossing is within half a
      pixel of the bound. */
  lemma NodeBeyond(p: Point, q: Point, row: int, hi: int)
    requires Crosses(p, q, row) && p.x <= hi && q.x <= hi
    ensures Node(p, q, row) > hi <==> hi < 0 && Numerator(p, q, row) > 32 * hi
  {
    hide TruncDiv;
    TruncShare(32 * (q.x - p.x), row - p.y, q.y - p.y);
    TruncBeyond(Numerator(p, q, row), hi);
  }

  lemma TruncBeyond(m: int, hi: int)
    requires m <= 32 * hi + 16
    ensures TruncDiv(m, 32) > hi <==> hi < 0 && m > 32 * hi
  {
  }

  /** Some column beyond `hi` is inside exactly when some node is. */
  lemma InsideBeyond(s: seq<int>, hi: int)
    requires |s| % 2 == 0
    ensures (exists px :: px > hi && Inside(s, px)) <==> (exists n :: n in s && n > hi)
  {
    if n :| n in s && n > hi {
      assert Inside(s, n);
    } else {
      forall px | px > hi ensures !Inside(s, px) {
        assert forall i :: 0 <= i < |s| ==> s[i] in s;
        CountAll(s, px);
      }
    }
  }

  // ---------- The edges of a polygon ----------

  /** The nodes of the edge that ends in vertex `i`. */
  function NodesOfEdge(c: seq<Coord>, row: int, i: nat): seq<int>
    requires i < Count(c)
  {
    EdgeNodes(After(c, i), Vertex(c, i), row)
  }

  lemma {:induction false} NodesAreOfEdges(c: seq<Coord>, row: int, k: nat, n: int)
    requires 0 < k <= Count(c)
    ensures n in NodesFrom(c, row, After(c, k - 1), k) <==> exists i :: 0 <= i < k && n in NodesOfEdge(c, row, i)
    decreases k
  {
    hide EdgeNodes;
    var rest := NodesFrom(c, row, Vertex(c, k - 1), k - 1);
    assert NodesFrom(c, row, After(c, k - 1), k) == NodesOfEdge(c, row, k - 1) + rest;
    if k == 1 {
      assert rest == [];
    } else {
      NodesAreOfEdges(c, row, k - 1, n);
      if n in rest {
        var i :| 0 <= i < k - 1 && n in NodesOfEdge(c, row, i);
        assert 0 <= i < k;
      }
    }
  }

  /** The edge that ends in vertex `i` crosses the row within half a pixel of a negative bound `hi`. */
  predicate CrossesNear(c: seq<Coord>, row: int, i: nat, hi: int)
    requires i < Count(c)
  {
    Crosses(After(c, i), Vertex(c, i), row) && hi < 0 && Numerator(After(c, i), Vertex(c, i), row) > 32 * hi
  }

  lemma EdgeBeyond(c: seq<Coord>, row: int, i: nat, hi: int)
    requires i < Count(c) && forall j :: 0 <= j < Count(c) ==> Vertex(c, j).x <= hi
    ensures (exists n :: n in NodesOfEdge(c, row, i) && n > hi) <==> CrossesNear(c, row, i, hi)
  {
    hide Node, Numerator;
    var p, q := After(c, i), Vertex(c, i);
    if Crosses(p, q, row) {
      NodeBeyond(p, q, row, hi);
      assert NodesOfEdge(c, row, i) == [Node(p, q, row)];
      assert Node(p, q, row) in NodesOfEdge(c, row, i);
    }
  }

  /** A row of a polygon whose columns end at `hi` is filled beyond `hi` if and only if `hi` is negative and some edge
      crosses the row within half a pixel of `hi`. */
  lemma FillBeyond(c: seq<Coord>, x: int, y: int, row: int, hi: int)
    requires Count(c) > 0 && forall j :: 0 <= j < Count(c) ==> Vertex(c, j).x <= hi
    ensures (exists p: Point :: p in RowInside(c, x, y, row) && p.x > x + hi)
            <==> exists i :: 0 <= i < Count(c) && CrossesNear(c, row, i, hi)
  {
    hide Inside, NodesOfEdge, CrossesNear, NodesFrom;
    var s := Nodes(c, row);
    NodesAreEven(c, row);
    InsideBeyond(s, hi);
    if p: Point :| p in RowInside(c, x, y, row) && p.x > x + hi {
      assert Inside(s, p.x - x);
      var n :| n in s && n > hi;
      NodesAreOfEdges(c, row, Count(c), n);
      var i :| 0 <= i < Count(c) && n in NodesOfEdge(c, row, i);
      EdgeBeyond(c, row, i, hi);
    }
    if i :| 0 <= i < Count(c) && CrossesNear(c, row, i, hi) {
      EdgeBeyond(c, row, i, hi);
      var n :| n in NodesOfEdge(c, row, i) && n > hi;
      NodesAreOfEdges(c, row, Count(c), n);
      assert n in s;
      var px :| px > hi && Inside(s, px);
      assert Point(x + px, y + row) in RowInside(c, x, y, row);
    }
  }

  /** All columns of this triangle are negative, and yet column 0 is filled on row 4. */
  lemma TriangleFillsBeyond()
    ensures Columns(LEFT_TRIANGLE, -5, -1) && Point(0, 4) in PolyRegion(LEFT_TRIANGLE, 0, 0)
  {
    hide CountUpTo, NodesFrom, ExtrasFrom, PolyRegion, RowInside;
    var c := LEFT_TRIANGLE;
    LeftTriangleVertices();
    LeftTriangleCrosses();
    FillBeyond(c, 0, 0, 4, -1);
    var p: Point :| p in RowInside(c, 0, 0, 4) && p.x > 0 + -1;
    FillStaysInside(c, 0, 0, 4, -5, -1, p);
    InsideIsDrawn(c, 0, 0, 4, p);
    assert p == Point(0, 4);
  }

  lemma InsideIsDrawn(c: seq<Coord>, x: int, y: int, row: int, p: Point)
    requires Count(c) > 0 && p in RowInside(c, x, y, row)
    ensures p in PolyRegion(c, x, y) && p.y == y + row
  {
    hide CountUpTo, NodesFrom, ExtrasFrom, PolyRegion;
    assert p.y == y + row;
    DrawnByOwnRow(c, x, y, p);
    assert p.y - y == row;
  }

  lemma LeftTriangleVertices()
    ensures Count(LEFT_TRIANGLE) == 3 && Columns(LEFT_TRIANGLE, -5, -1)
    ensures Vertex(LEFT_TRIANGLE, 0) == Point(-3, 0) && After(LEFT_TRIANGLE, 0) == Point(-1, 5)
    ensures forall j :: 0 <= j < 3 ==> Vertex(LEFT_TRIANGLE, j).x <= -1
  {
    var c := LEFT_TRIANGLE;
    assert Vertex(c, 0) == Point(-3, 0) && Vertex(c, 1) == Point(-1, 5) && Vertex(c, 2) == Point(-5, 5);
  }

  lemma LeftTriangleCrosses()
    ensures CrossesNear(LEFT_TRIANGLE, 4, 0, -1)
  {
    LeftTriangleVertices();
    assert TruncDiv(64, -5) == -12;
    assert 32 * (-3 - -1) * (4 - 5) == 64;
    assert Numerator(Point(-1, 5), Point(-3, 0), 4) == -28;
  }
}
