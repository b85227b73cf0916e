/** `framebuf_scroll`: moving the picture inside its own buffer. */
module FrameScroll {
  import opened FrameBuffer
  import opened FrameGeometry
  import opened FramePaint

  function At(g: Geometry, buf: seq<nat>, x: int, y: int): nat {
    if Held(g, |buf|, x, y) then Pixel(g, buf, x, y) else 0
  }

  /** The pixels whose source is in the frame. */
  predicate Target(g: Geometry, xstep: int, ystep: int, x: int, y: int) {
    InFrame(g, x, y) && InFrame(g, x - xstep, y - ystep)
  }

  /** The pixels of `done` have taken the old colour of their source; all others, visible or not, are unchanged. */
  ghost predicate Moves(g: Geometry, old_: seq<nat>, new_: seq<nat>, xstep: int, ystep: int, done: iset<Point>) {
    && |new_| == |old_|
    && forall x: int, y: int :: Held(g, |old_|, x, y) ==>
         Pixel(g, new_, x, y) == if Point(x, y) in done then At(g, old_, x - xstep, y - ystep) else Pixel(g, old_, x, y)
  }

  ghost function Targets(g: Geometry, xstep: int, ystep: int): iset<Point> {
    iset p: Point | Target(g, xstep, ystep, p.x, p.y)
  }

  /** Has the loop that starts at the far end of the movement passed `a` when it stands at `b`? */
  predicate Passed(step: int, a: int, b: int) { if step < 0 then a < b else a > b }

  /** The targets already moved when the loops stand at (x, y). */
  ghost function Done(g: Geometry, xstep: int, ystep: int, x: int, y: int): iset<Point> {
    iset p: Point | Target(g, xstep, ystep, p.x, p.y)
                    && (Passed(ystep, p.y, y) || (p.y == y && Passed(xstep, p.x, x)))
  }

  /** A source has not been overwritten when it is read, although source and target overlap. */
  lemma SourceIsOld(g: Geometry, xstep: int, ystep: int, x: int, y: int)
    ensures Point(x - xstep, y - ystep) !in Done(g, xstep, ystep, x, y)
  {
  }

  lemma MovesStep(g: Geometry, a: seq<nat>, b: seq<nat>, c: seq<nat>, xstep: int, ystep: int, done: iset<Point>, x: int, y: int)
    requires Moves(g, a, b, xstep, ystep, done)
    requires Paints(g, b, c, iset{Point(x, y)}, At(g, a, x - xstep, y - ystep))
    ensures Moves(g, a, c, xstep, ystep, done + iset{Point(x, y)})
  {
    hide Pixel, Held, At;
  }

  lemma MovedPixel(g: Geometry, a: seq<nat>, b: seq<nat>, xstep: int, ystep: int, done: iset<Point>, x: int, y: int)
    requires Moves(g, a, b, xstep, ystep, done) && Held(g, |a|, x, y) && Point(x, y) !in done
    ensures Pixel(g, b, x, y) == At(g, a, x, y)
  {
    hide Unit, Pos;
  }

  function First(step: int, size: nat): int { if step < 0 then 0 else size - 1 }

  function End(step: int, size: nat): int { if step < 0 then size + step else step - 1 }

  function Direction(step: int): int { if step < 0 then 1 else -1 }

  /** One row of the movement. */
  method ScrollRow(fb: FrameBuffer, sx: int, xend: int, dx: int, y: nat, xstep: int, ystep: int, ghost start: seq<nat>)
    requires fb.Valid() && y < fb.g.height && 0 <= y - ystep < fb.g.height
    requires sx == First(xstep, fb.g.width) && xend == End(xstep, fb.g.width) && dx == Direction(xstep)
    requires if xstep < 0 then xend > 0 else xend < sx
    requires Moves(fb.g, start, fb.buf[..], xstep, ystep, Done(fb.g, xstep, ystep, sx, y))
    modifies fb.buf
    ensures fb.Valid() && Moves(fb.g, start, fb.buf[..], xstep, ystep, Done(fb.g, xstep, ystep, xend, y))
  {
    hide Moves, Paints, UnitsFit, Held, Pixel, At, Regular, Fits;
    var x := sx;
    while x != xend
      invariant fb.Valid() && if xstep < 0 then 0 <= x <= xend else xend <= x <= sx
      invariant Moves(fb.g, start, fb.buf[..], xstep, ystep, Done(fb.g, xstep, ystep, x, y))
      decreases if xstep < 0 then xend - x else x - xend
    {
      ghost var before := fb.buf[..];
      ghost var done := Done(fb.g, xstep, ystep, x, y);
      var v := fb.GetPixel(x - xstep, y - ystep);
      SourceIsOld(fb.g, xstep, ystep, x, y);
      SameLength(fb.g, start, before, xstep, ystep, done);
      MovedPixel(fb.g, start, before, xstep, ystep, done, x - xstep, y - ystep);
      ReduceTwice(fb.g.format, v);
      fb.SetPixel(x, y, v);
      MovesStep(fb.g, start, before, fb.buf[..], xstep, ystep, done, x, y);
      assert done + iset{Point(x, y)} == Done(fb.g, xstep, ystep, x + dx, y);
      x := x + dx;
    }
  }

  lemma SameLength(g: Geometry, a: seq<nat>, b: seq<nat>, xstep: int, ystep: int, done: iset<Point>)
    requires Moves(g, a, b, xstep, ystep, done)
    ensures |a| == |b|
  {
  }

  lemma MovesNothing(g: Geometry, buf: seq<nat>, xstep: int, ystep: int)
    ensures Moves(g, buf, buf, xstep, ystep, iset{})
  {
  }

  /** `framebuf_scroll`: pixel (x, y) takes the old colour of (x - xstep, y - ystep) if that is in the frame, and
      keeps its colour otherwise. */
  method Scroll(fb: FrameBuffer, xstep: int, ystep: int)
    requires fb.Valid()
    modifies fb.buf
    ensures fb.Valid() && Moves(fb.g, old(fb.buf[..]), fb.buf[..], xstep, ystep, Targets(fb.g, xstep, ystep))
  {
    hide Moves, UnitsFit, Held, Pixel, At, Regular, Fits;
    var sx, xend, dx, y, yend, dy: int;
    ghost var start := fb.buf[..];
    ghost var targets := Targets(fb.g, xstep, ystep);
    MovesNothing(fb.g, start, xstep, ystep);
    if xstep < 0 {
      sx := 0;
      xend := fb.g.width + xstep;
      if xend <= 0 {
        assert targets == iset{};
        return;
      }
      dx := 1;
    } else {
      sx := fb.g.width - 1;
      xend := xstep - 1;
      if xend >= sx {
        assert targets == iset{};
        return;
      }
      dx := -1;
    }
    if ystep < 0 {
      y := 0;
      yend := fb.g.height + ystep;
      if yend <= 0 {
        assert targets == iset{};
        return;
      }
      dy := 1;
    } else {
      y := fb.g.height - 1;
      yend := ystep - 1;
      if yend >= y {
        assert targets == iset{};
        return;
      }
      dy := -1;
    }
    assert Done(fb.g, xstep, ystep, sx, y) == iset{};
    ScrollRows(fb, sx, xend, dx, y, yend, dy, xstep, ystep);
    assert Done(fb.g, xstep, ystep, sx, yend) == targets;
  }

  method ScrollRows(fb: FrameBuffer, sx: int, xend: int, dx: int, y0: int, yend: int, dy: int, xstep: int, ystep: int)
    requires fb.Valid()
    requires sx == First(xstep, fb.g.width) && xend == End(xstep, fb.g.width) && dx == Direction(xstep)
    requires y0 == First(ystep, fb.g.height) && yend == End(ystep, fb.g.height) && dy == Direction(ystep)
    requires (if xstep < 0 then xend > 0 else xend < sx) && if ystep < 0 then yend > 0 else yend < y0
    modifies fb.buf
    ensures fb.Valid() && Moves(fb.g, old(fb.buf[..]), fb.buf[..], xstep, ystep, Done(fb.g, xstep, ystep, sx, yend))
  {
    hide Moves, UnitsFit, Held, Pixel, At, Regular, Fits;
    ghost var start := fb.buf[..];
    assert Done(fb.g, xstep, ystep, sx, y0) == iset{};
    MovesNothing(fb.g, start, xstep, ystep);
    var y := y0;
    while y != yend
      invariant fb.Valid() && if ystep < 0 then 0 <= y <= yend else yend <= y <= y0
      invariant Moves(fb.g, start, fb.buf[..], xstep, ystep, Done(fb.g, xstep, ystep, sx, y))
      decreases if ystep < 0 then yend - y else y - yend
    {
      ScrollRow(fb, sx, xend, dx, y, xstep, ystep, start);
      assert Done(fb.g, xstep, ystep, xend, y) == Done(fb.g, xstep, ystep, sx, y + dy);
      y := y + dy;
    }
  }

  /** Read on a single visible pixel. */
  lemma ScrolledPixel(g: Geometry, a: seq<nat>, b: seq<nat>, xstep: int, ystep: int, x: int, y: int)
    requires Fits(g, |a|) && Moves(g, a, b, xstep, ystep, Targets(g, xstep, ystep)) && InFrame(g, x, y)
    ensures Held(g, |b|, x, y) && Held(g, |a|, x, y)
    ensures InFrame(g, x - xstep, y - ystep) ==>
              Held(g, |a|, x - xstep, y - ystep) && Pixel(g, b, x, y) == Pixel(g, a, x - xstep, y - ystep)
    ensures !InFrame(g, x - xstep, y - ystep) ==> Pixel(g, b, x, y) == Pixel(g, a, x, y)
  {
    hide Unit, Pos;
    VisibleIsHeld(g, |a|, x, y);
    if InFrame(g, x - xstep, y - ystep) {
      VisibleIsHeld(g, |a|, x - xstep, y - ystep);
    }
  }
}
