/** The rectangle fills of `modframebuf.c`: one loop over moving pointers per format, all with the same effect on
    the grid of pixels. */
module FrameFill {
  import Arith
  import BitFields
  import opened FrameBuffer
  import opened FrameGeometry
  import opened FramePaint

  predicate RectInside(g: Geometry, x: nat, y: nat, w: nat, h: nat) { x + w <= g.width && y + h <= g.height }

  /** One more column. */
  lemma NextColumn(g: Geometry, a: seq<nat>, b: seq<nat>, c: seq<nat>, x: int, y: int, w: nat, h: nat, v: nat)
    requires Paints(g, a, b, Rect(x, y, w, h), v) && Paints(g, b, c, Rect(x + w, y, 1, h), v)
    ensures Paints(g, a, c, Rect(x, y, w + 1, h), v)
  {
    hide Paints;
    PaintsMore(g, a, b, c, Rect(x, y, w, h), Rect(x + w, y, 1, h), Rect(x, y, w + 1, h), v);
  }

  /** Some more rows. */
  lemma NextRows(g: Geometry, a: seq<nat>, b: seq<nat>, c: seq<nat>, x: int, y: int, w: nat, h: nat, n: nat, v: nat)
    requires Paints(g, a, b, Rect(x, y, w, h), v) && Paints(g, b, c, Rect(x, y + h, w, n), v)
    ensures Paints(g, a, c, Rect(x, y, w, h + n), v)
  {
    hide Paints;
    PaintsMore(g, a, b, c, Rect(x, y, w, h), Rect(x, y + h, w, n), Rect(x, y, w, h + n), v);
  }

  /** Some more pixels of a row. */
  lemma NextPixels(g: Geometry, a: seq<nat>, b: seq<nat>, c: seq<nat>, x: int, y: int, w: nat, n: nat, v: nat)
    requires Paints(g, a, b, Rect(x, y, w, 1), v) && Paints(g, b, c, Rect(x + w, y, n, 1), v)
    ensures Paints(g, a, c, Rect(x, y, w + n, 1), v)
  {
    hide Paints;
    PaintsMore(g, a, b, c, Rect(x, y, w, 1), Rect(x + w, y, n, 1), Rect(x, y, w + n, 1), v);
  }

  lemma EmptyRect(g: Geometry, buf: seq<nat>, x: int, y: int, w: nat, h: nat, v: nat)
    requires w == 0 || h == 0
    ensures Paints(g, buf, buf, Rect(x, y, w, h), v)
  {
    hide Pixel, Held;
  }

  lemma PointIsRect(x: int, y: int)
    ensures Rect(x, y, 1, 1) == iset{Point(x, y)}
  {
  }

  // ---------- MHLSB and MHMSB: down each column ----------

  lemma RowStep(g: Geometry, x: nat, y: nat)
    requires Regular(g) && !Vertical(g)
    ensures var advance := g.stride / PerUnit(g.format);
            Unit(g, x, y) == x / PerUnit(g.format) + y * advance && Unit(g, x, y + 1) == Unit(g, x, y) + advance
  {
    hide Unit;
    UnitOfRow(g, x, y);
    UnitOfRow(g, x, y + 1);
    Arith.Distribute(y, 1, g.stride / PerUnit(g.format));
  }

  method MonoHorizColumn(fb: FrameBuffer, x: nat, y: nat, h: nat, col: Colour)
    requires fb.Valid() && RectInside(fb.g, x, y, 1, h) && (fb.g.format == MHLSB || fb.g.format == MHMSB)
    modifies fb.buf
    ensures fb.Valid() && Paints(fb.g, old(fb.buf[..]), fb.buf[..], Rect(x, y, 1, h), Reduce(fb.g.format, col))
  {
    hide Paints, Fits, Unit, BitFields.Insert, UnitsFit;
    var bit := if col != 0 then 1 else 0;
    var advance := fb.g.stride / 8;
    var b: int := x / 8 + y * advance;
    var offset := if fb.g.format == MHMSB then x % 8 else 7 - x % 8;
    RowOfFit(fb);
    RowStep(fb.g, x, y);
    EmptyRect(fb.g, fb.buf[..], x, y, 1, 0, bit);
    var hh := h;
    while hh > 0
      invariant 0 <= hh <= h && fb.Valid() && b == Unit(fb.g, x, y + (h - hh))
      invariant Paints(fb.g, old(fb.buf[..]), fb.buf[..], Rect(x, y, 1, h - hh), bit)
    {
      ghost var before := fb.buf[..];
      VisibleIsHeld(fb.g, fb.buf.Length, x, y + (h - hh));
      fb.Store(b, BitFields.Insert(fb.buf[b], 2, offset, bit), x, y + (h - hh), bit);
      PointIsRect(x, y + (h - hh));
      NextRows(fb.g, old(fb.buf[..]), before, fb.buf[..], x, y, 1, h - hh, 1, bit);
      RowStep(fb.g, x, y + (h - hh));
      b := b + advance;
      hh := hh - 1;
    }
  }

  lemma RowOfFit(fb: FrameBuffer)
    requires fb.Valid()
    ensures Regular(fb.g)
  {
  }

  method MonoHorizFillRect(fb: FrameBuffer, x0: nat, y: nat, w: nat, h: nat, col: Colour)
    requires fb.Valid() && RectInside(fb.g, x0, y, w, h) && (fb.g.format == MHLSB || fb.g.format == MHMSB)
    modifies fb.buf
    ensures fb.Valid() && Paints(fb.g, old(fb.buf[..]), fb.buf[..], Rect(x0, y, w, h), Reduce(fb.g.format, col))
  {
    hide Paints, Fits, UnitsFit, Reduce;
    ghost var v := Reduce(fb.g.format, col);
    EmptyRect(fb.g, fb.buf[..], x0, y, 0, h, v);
    var x := x0;
    while x < x0 + w
      invariant x0 <= x <= x0 + w && fb.Valid()
      invariant Paints(fb.g, old(fb.buf[..]), fb.buf[..], Rect(x0, y, x - x0, h), v)
    {
      ghost var before := fb.buf[..];
      MonoHorizColumn(fb, x, y, h, col);
      NextColumn(fb.g, old(fb.buf[..]), before, fb.buf[..], x0, y, x - x0, h, v);
      x := x + 1;
    }
  }

  // ---------- MVLSB: along each row ----------

  method MvlsbRow(fb: FrameBuffer, x: nat, y: nat, w: nat, col: Colour)
    requires fb.Valid() && RectInside(fb.g, x, y, w, 1) && fb.g.format == MVLSB
    modifies fb.buf
    ensures fb.Valid() && Paints(fb.g, old(fb.buf[..]), fb.buf[..], Rect(x, y, w, 1), Reduce(fb.g.format, col))
  {
    hide Paints, Fits, BitFields.Insert, UnitsFit, Regular;
    var bit := if col != 0 then 1 else 0;
    var b: int := y / 8 * fb.g.stride + x;
    var offset := y % 8;
    EmptyRect(fb.g, fb.buf[..], x, y, 0, 1, bit);
    var ww := w;
    while ww > 0
      invariant 0 <= ww <= w && fb.Valid() && b == y / 8 * fb.g.stride + x + (w - ww)
      invariant Paints(fb.g, old(fb.buf[..]), fb.buf[..], Rect(x, y, w - ww, 1), bit)
    {
      ghost var before := fb.buf[..];
      VisibleIsHeld(fb.g, fb.buf.Length, x + (w - ww), y);
      fb.Store(b, BitFields.Insert(fb.buf[b], 2, offset, bit), x + (w - ww), y, bit);
      PointIsRect(x + (w - ww), y);
      NextPixels(fb.g, old(fb.buf[..]), before, fb.buf[..], x, y, w - ww, 1, bit);
      b := b + 1;
      ww := ww - 1;
    }
  }

  method MvlsbFillRect(fb: FrameBuffer, x: nat, y0: nat, w: nat, h: nat, col: Colour)
    requires fb.Valid() && RectInside(fb.g, x, y0, w, h) && fb.g.format == MVLSB
    modifies fb.buf
    ensures fb.Valid() && Paints(fb.g, old(fb.buf[..]), fb.buf[..], Rect(x, y0, w, h), Reduce(fb.g.format, col))
  {
    hide Paints, Fits, UnitsFit, Reduce;
    ghost var v := Reduce(fb.g.format, col);
    EmptyRect(fb.g, fb.buf[..], x, y0, w, 0, v);
    var y := y0;
    while y < y0 + h
      invariant y0 <= y <= y0 + h && fb.Valid()
      invariant Paints(fb.g, old(fb.buf[..]), fb.buf[..], Rect(x, y0, w, y - y0), v)
    {
      ghost var before := fb.buf[..];
      MvlsbRow(fb, x, y, w, col);
      NextRows(fb.g, old(fb.buf[..]), before, fb.buf[..], x, y0, w, y - y0, 1, v);
      y := y + 1;
    }
  }

  // ---------- RGB565 and GS8: runs of whole units ----------

  /** Store `w` equal units from `b` on: the inner loop for RGB565, `memset` for GS8. */
  method StoreRun(fb: FrameBuffer, b: nat, v: nat, w: nat, ghost x: nat, ghost y: nat)
    requires fb.Valid() && RectInside(fb.g, x, y, w, 1) && PerUnit(fb.g.format) == 1 && v < Colours(fb.g.format)
    requires b == x + y * fb.g.stride
    modifies fb.buf
    ensures fb.Valid() && Paints(fb.g, old(fb.buf[..]), fb.buf[..], Rect(x, y, w, 1), v)
  {
    hide Paints, Fits, UnitsFit, Unit, Pixel;
    EmptyRect(fb.g, fb.buf[..], x, y, 0, 1, v);
    var i := 0;
    while i < w
      invariant 0 <= i <= w && fb.Valid()
      invariant Paints(fb.g, old(fb.buf[..]), fb.buf[..], Rect(x, y, i, 1), v)
    {
      ghost var before := fb.buf[..];
      fb.StoreWhole(b + i, v, x + i, y);
      PointIsRect(x + i, y);
      NextPixels(fb.g, old(fb.buf[..]), before, fb.buf[..], x, y, i, 1, v);
      i := i + 1;
    }
  }

  method Rgb565FillRect(fb: FrameBuffer, x: nat, y: nat, w: nat, h: nat, col: Colour)
    requires fb.Valid() && RectInside(fb.g, x, y, w, h) && fb.g.format == RGB565
    modifies fb.buf
    ensures fb.Valid() && Paints(fb.g, old(fb.buf[..]), fb.buf[..], Rect(x, y, w, h), Reduce(fb.g.format, col))
  {
    hide Paints, Fits, UnitsFit;
    ghost var v := Reduce(fb.g.format, col);
    EmptyRect(fb.g, fb.buf[..], x, y, w, 0, v);
    var b: int := x + y * fb.g.stride;
    Arith.MulNonNegative(y, fb.g.stride);
    var hh := h;
    while hh > 0
      invariant 0 <= hh <= h && fb.Valid() && b == x + (y + (h - hh)) * fb.g.stride >= 0
      invariant Paints(fb.g, old(fb.buf[..]), fb.buf[..], Rect(x, y, w, h - hh), v)
    {
      ghost var before := fb.buf[..];
      StoreRun(fb, b, col % 65536, w, x, y + (h - hh));
      NextRows(fb.g, old(fb.buf[..]), before, fb.buf[..], x, y, w, h - hh, 1, v);
      Arith.Distribute(y + (h - hh), 1, fb.g.stride);
      b := b + w;
      b := b + (fb.g.stride - w);
      hh := hh - 1;
    }
  }

  method Gs8FillRect(fb: FrameBuffer, x: nat, y: nat, w: nat, h: nat, col: Colour)
    requires fb.Valid() && RectInside(fb.g, x, y, w, h) && fb.g.format == GS8
    modifies fb.buf
    ensures fb.Valid() && Paints(fb.g, old(fb.buf[..]), fb.buf[..], Rect(x, y, w, h), Reduce(fb.g.format, col))
  {
    hide Paints, Fits, UnitsFit;
    ghost var v := Reduce(fb.g.format, col);
    EmptyRect(fb.g, fb.buf[..], x, y, w, 0, v);
    var pixel: int := x + y * fb.g.stride;
    Arith.MulNonNegative(y, fb.g.stride);
    var hh := h;
    while hh > 0
      invariant 0 <= hh <= h && fb.Valid() && pixel == x + (y + (h - hh)) * fb.g.stride >= 0
      invariant Paints(fb.g, old(fb.buf[..]), fb.buf[..], Rect(x, y, w, h - hh), v)
    {
      ghost var before := fb.buf[..];
      StoreRun(fb, pixel, col % 256, w, x, y + (h - hh));
      NextRows(fb.g, old(fb.buf[..]), before, fb.buf[..], x, y, w, h - hh, 1, v);
      Arith.Distribute(y + (h - hh), 1, fb.g.stride);
      pixel := pixel + fb.g.stride;
      hh := hh - 1;
    }
  }

  // ---------- GS2_HMSB: pixel by pixel ----------

  method Gs2HmsbColumn(fb: FrameBuffer, xx: nat, y: nat, h: nat, col: Colour)
    requires fb.Valid() && RectInside(fb.g, xx, y, 1, h) && fb.g.format == GS2_HMSB
    modifies fb.buf
    ensures fb.Valid() && Paints(fb.g, old(fb.buf[..]), fb.buf[..], Rect(xx, y, 1, h), Reduce(fb.g.format, col))
  {
    hide Paints, Fits, UnitsFit, Reduce;
    ghost var v := Reduce(fb.g.format, col);
    EmptyRect(fb.g, fb.buf[..], xx, y, 1, 0, v);
    var yy := y;
    while yy < y + h
      invariant y <= yy <= y + h && fb.Valid()
      invariant Paints(fb.g, old(fb.buf[..]), fb.buf[..], Rect(xx, y, 1, yy - y), v)
    {
      ghost var before := fb.buf[..];
      fb.Gs2HmsbSetPixel(xx, yy, col);
      PointIsRect(xx, yy);
      NextRows(fb.g, old(fb.buf[..]), before, fb.buf[..], xx, y, 1, yy - y, 1, v);
      yy := yy + 1;
    }
  }

  method Gs2HmsbFillRect(fb: FrameBuffer, x: nat, y: nat, w: nat, h: nat, col: Colour)
    requires fb.Valid() && RectInside(fb.g, x, y, w, h) && fb.g.format == GS2_HMSB
    modifies fb.buf
    ensures fb.Valid() && Paints(fb.g, old(fb.buf[..]), fb.buf[..], Rect(x, y, w, h), Reduce(fb.g.format, col))
  {
    hide Paints, Fits, UnitsFit, Reduce;
    ghost var v := Reduce(fb.g.format, col);
    EmptyRect(fb.g, fb.buf[..], x, y, 0, h, v);
    var xx := x;
    while xx < x + w
      invariant x <= xx <= x + w && fb.Valid()
      invariant Paints(fb.g, old(fb.buf[..]), fb.buf[..], Rect(x, y, xx - x, h), v)
    {
      ghost var before := fb.buf[..];
      Gs2HmsbColumn(fb, xx, y, h, col);
      NextColumn(fb.g, old(fb.buf[..]), before, fb.buf[..], x, y, xx - x, h, v);
      xx := xx + 1;
    }
  }

  // ---------- GS4_HMSB: bytes of two pixels ----------

  lemma PairPlace(g: Geometry, x: nat, y: nat)
    requires Regular(g) && g.format == GS4_HMSB
    ensures Unit(g, x, y) == x / 2 + y * (g.stride / 2) >= 0 && g.stride % 2 == 0
  {
    UnitOfRow(g, x, y);
  }

  /** `memset` of whole bytes: each gives two neighbouring pixels the same colour. */
  method StorePairs(fb: FrameBuffer, pair: nat, c: nat, n: nat, ghost x: nat, ghost y: nat)
    requires fb.Valid() && RectInside(fb.g, x, y, 2 * n, 1) && fb.g.format == GS4_HMSB && c < 16
    requires n > 0 ==> x % 2 == 0 && pair == Unit(fb.g, x, y)
    modifies fb.buf
    ensures fb.Valid() && Paints(fb.g, old(fb.buf[..]), fb.buf[..], Rect(x, y, 2 * n, 1), c)
  {
    hide Paints, Fits, UnitsFit, Unit, Pixel;
    EmptyRect(fb.g, fb.buf[..], x, y, 0, 1, c);
    RowOfFit(fb);
    PairPlace(fb.g, x, y);
    var i := 0;
    while i < n
      invariant 0 <= i <= n && fb.Valid()
      invariant Paints(fb.g, old(fb.buf[..]), fb.buf[..], Rect(x, y, 2 * i, 1), c)
    {
      ghost var before := fb.buf[..];
      PairPlace(fb.g, x + 2 * i, y);
      StorePair(fb, pair + i, c, x + 2 * i, y);
      NextPixels(fb.g, old(fb.buf[..]), before, fb.buf[..], x, y, 2 * i, 2, c);
      i := i + 1;
    }
  }

  method StorePair(fb: FrameBuffer, pair: nat, c: nat, ghost x: nat, ghost y: nat)
    requires fb.Valid() && RectInside(fb.g, x, y, 2, 1) && fb.g.format == GS4_HMSB && c < 16
    requires x % 2 == 0 && pair == Unit(fb.g, x, y)
    modifies fb.buf
    ensures fb.Valid() && Paints(fb.g, old(fb.buf[..]), fb.buf[..], Rect(x, y, 2, 1), c)
  {
    hide Paints, Pixel, Regular, BitFields.Insert, UnitsFit;
    RowOfFit(fb);
    PairPaints(fb.g, fb.buf[..], x, y, c);
    ghost var next := fb.buf[..][pair := c * 16 + c];
    PairFits(fb, pair, c);
    VisibleIsHeld(fb.g, fb.buf.Length, x, y);
    fb.buf[pair] := c * 16 + c;
    assert fb.buf[..] == next;
  }

  lemma PairFits(fb: FrameBuffer, pair: nat, c: nat)
    requires fb.Valid() && pair < fb.buf.Length && c < 16 && fb.g.format == GS4_HMSB
    ensures UnitsFit(fb.g.format, fb.buf[..][pair := c * 16 + c])
  {
  }

  lemma PairPaints(g: Geometry, buf: seq<nat>, x: nat, y: nat, c: nat)
    requires Fits(g, |buf|) && UnitsFit(g.format, buf) && RectInside(g, x, y, 2, 1) && g.format == GS4_HMSB && c < 16
    requires x % 2 == 0
    ensures 0 <= Unit(g, x, y) < |buf| && Paints(g, buf, buf[Unit(g, x, y) := c * 16 + c], Rect(x, y, 2, 1), c)
  {
    hide Paints, BitFields.Insert, Regular, Fits, Unit;
    VisibleIsHeld(g, |buf|, x, y);
    VisibleIsHeld(g, |buf|, x + 1, y);
    RegularOf(g, |buf|);
    PairPlace(g, x, y);
    PairPlace(g, x + 1, y);
    var u := Unit(g, x, y);
    var mid := SetAt(g, buf, x, y, c);
    SetPaints(g, buf, x, y, c);
    SetPaints(g, mid, x + 1, y, c);
    BothNibbles(buf[u], c);
    assert SetAt(g, mid, x + 1, y, c) == buf[u := c * 16 + c];
    PaintsMore(g, buf, mid, buf[u := c * 16 + c], iset{Point(x, y)}, iset{Point(x + 1, y)}, Rect(x, y, 2, 1), c);
  }

  lemma RegularOf(g: Geometry, len: nat)
    requires Fits(g, len)
    ensures Regular(g)
  {
  }

  /** One row. The pointer starts at the byte of the first pixel and ends exactly one row further, for odd and
      even first pixels and odd and even widths. */
  method Gs4HmsbRow(fb: FrameBuffer, pair0: nat, x: nat, y: nat, w: nat, col: Colour) returns (pair: nat)
    requires fb.Valid() && RectInside(fb.g, x, y, w, 1) && fb.g.format == GS4_HMSB && pair0 == Unit(fb.g, x, y) && col < 16
    modifies fb.buf
    ensures fb.Valid() && Paints(fb.g, old(fb.buf[..]), fb.buf[..], Rect(x, y, w, 1), col)
    ensures pair == pair0 + fb.g.stride / 2
  {
    hide Paints, Fits, UnitsFit, Unit, Pixel, Rect, Regular;
    RowOfFit(fb);
    PairPlace(fb.g, x, y);
    EmptyRect(fb.g, fb.buf[..], x, y, 0, 1, col);
    pair := pair0;
    var oddX := x % 2 == 1;
    var ww := w;
    if oddX && ww > 0 {
      LowHalf(fb, pair, col, x, y);
      pair := pair + 1;
      ww := ww - 1;
    }
    ghost var first := fb.buf[..];
    PairPlace(fb.g, x + (w - ww), y);
    pair := Gs4HmsbRest(fb, pair, x + (w - ww), y, ww, col, oddX);
    NextPixels(fb.g, old(fb.buf[..]), first, fb.buf[..], x, y, w - ww, ww, col);
    pair := pair + (fb.g.stride - w) / 2;
    RowAdvance(x, w, fb.g.stride);
  }

  /** The parity of the first pixel and of the width, and the bytes they cost. */
  lemma RowAdvance(x: nat, w: nat, stride: nat)
    requires stride % 2 == 0 && w <= stride
    ensures var head := if x % 2 == 1 && w > 0 then 1 else 0;
            head + (w - head) / 2 + (if (w - head) % 2 == 1 && x % 2 == 0 then 1 else 0) + (stride - w) / 2 == stride / 2
  {
  }

  /** The row from an even pixel on: whole bytes and perhaps one more half. */
  method Gs4HmsbRest(fb: FrameBuffer, pair0: nat, ghost x: nat, ghost y: nat, ww: nat, col: nat, oddX: bool) returns (pair: nat)
    requires fb.Valid() && RectInside(fb.g, x, y, ww, 1) && fb.g.format == GS4_HMSB && col < 16
    requires ww > 0 ==> x % 2 == 0 && pair0 == Unit(fb.g, x, y)
    modifies fb.buf
    ensures fb.Valid() && Paints(fb.g, old(fb.buf[..]), fb.buf[..], Rect(x, y, ww, 1), col)
    ensures pair == pair0 + ww / 2 + if ww % 2 == 1 && !oddX then 1 else 0
  {
    hide Paints, Fits, UnitsFit, Unit, Pixel, Rect, Regular;
    RowOfFit(fb);
    StorePairs(fb, pair0, col, ww / 2, x, y);
    pair := pair0 + ww / 2;
    ghost var second := fb.buf[..];
    if ww % 2 == 1 {
      PairPlace(fb.g, x, y);
      PairPlace(fb.g, x + 2 * (ww / 2), y);
      HighHalf(fb, pair, col, x + 2 * (ww / 2), y);
      NextPixels(fb.g, old(fb.buf[..]), second, fb.buf[..], x, y, ww - 1, 1, col);
      if !oddX {
        pair := pair + 1;
      }
    }
  }

  method LowHalf(fb: FrameBuffer, pair: nat, c: nat, ghost x: nat, ghost y: nat)
    requires fb.Valid() && InFrame(fb.g, x, y) && fb.g.format == GS4_HMSB && c < 16 && x % 2 == 1 && pair == Unit(fb.g, x, y)
    modifies fb.buf
    ensures fb.Valid() && Paints(fb.g, old(fb.buf[..]), fb.buf[..], Rect(x, y, 1, 1), c)
  {
    hide Paints, Fits, Unit, BitFields.Insert, BitFields.Field;
    VisibleIsHeld(fb.g, fb.buf.Length, x, y);
    LowNibble(fb.buf[..][pair], c);
    fb.Store(pair, fb.buf[pair] / 16 * 16 + c, x, y, c);
    PointIsRect(x, y);
  }

  method HighHalf(fb: FrameBuffer, pair: nat, c: nat, ghost x: nat, ghost y: nat)
    requires fb.Valid() && InFrame(fb.g, x, y) && fb.g.format == GS4_HMSB && c < 16 && x % 2 == 0 && pair == Unit(fb.g, x, y)
    modifies fb.buf
    ensures fb.Valid() && Paints(fb.g, old(fb.buf[..]), fb.buf[..], Rect(x, y, 1, 1), c)
  {
    hide Paints, Fits, Unit, BitFields.Insert, BitFields.Field;
    VisibleIsHeld(fb.g, fb.buf.Length, x, y);
    HighNibble(fb.buf[..][pair], c);
    fb.Store(pair, c * 16 + fb.buf[pair] % 16, x, y, c);
    PointIsRect(x, y);
  }

  method Gs4HmsbFillRect(fb: FrameBuffer, x: nat, y: nat, w: nat, h: nat, col: Colour)
    requires fb.Valid() && RectInside(fb.g, x, y, w, h) && fb.g.format == GS4_HMSB
    modifies fb.buf
    ensures fb.Valid() && Paints(fb.g, old(fb.buf[..]), fb.buf[..], Rect(x, y, w, h), Reduce(fb.g.format, col))
  {
    hide Paints, Fits, UnitsFit, Unit;
    RowOfFit(fb);
    ghost var v := Reduce(fb.g.format, col);
    EmptyRect(fb.g, fb.buf[..], x, y, w, 0, v);
    PairPlace(fb.g, x, y);
    var pair: int := UnitIndex(fb, x, y);
    var hh := h;
    while hh > 0
      invariant 0 <= hh <= h && fb.Valid() && pair == Unit(fb.g, x, y + (h - hh)) >= 0
      invariant Paints(fb.g, old(fb.buf[..]), fb.buf[..], Rect(x, y, w, h - hh), v)
    {
      ghost var before := fb.buf[..];
      RowStep(fb.g, x, y + (h - hh));
      pair := Gs4HmsbRow(fb, pair, x, y + (h - hh), w, col % 16);
      NextRows(fb.g, old(fb.buf[..]), before, fb.buf[..], x, y, w, h - hh, 1, v);
      hh := hh - 1;
    }
  }

  function UnitIndex(fb: FrameBuffer, x: nat, y: nat): (i: int)
    requires fb.g.format == GS4_HMSB
    ensures i == Unit(fb.g, x, y)
  {
    (x + y * fb.g.stride) / 2
  }

  // ---------- The clipped rectangle ----------

  /** `formats[fb->format].fill_rect`. */
  method FormatFillRect(fb: FrameBuffer, x: nat, y: nat, w: nat, h: nat, col: Colour)
    requires fb.Valid() && RectInside(fb.g, x, y, w, h)
    modifies fb.buf
    ensures fb.Valid() && Paints(fb.g, old(fb.buf[..]), fb.buf[..], Rect(x, y, w, h), Reduce(fb.g.format, col))
  {
    hide Paints, Fits, UnitsFit, Reduce, Rect, Regular;
    match fb.g.format {
      case MVLSB => MvlsbFillRect(fb, x, y, w, h, col);
      case RGB565 => Rgb565FillRect(fb, x, y, w, h, col);
      case GS2_HMSB => Gs2HmsbFillRect(fb, x, y, w, h, col);
      case GS4_HMSB => Gs4HmsbFillRect(fb, x, y, w, h, col);
      case GS8 => Gs8FillRect(fb, x, y, w, h, col);
      case MHLSB => MonoHorizFillRect(fb, x, y, w, h, col);
      case MHMSB => MonoHorizFillRect(fb, x, y, w, h, col);
    }
  }

  function Min(a: int, b: int): int { if a < b then a else b }

  function Max(a: int, b: int): int { if a > b then a else b }

  /** `fill_rect`: exactly the pixels of the rectangle that are inside the frame. */
  method FillRect(fb: FrameBuffer, x: int, y: int, w: int, h: int, col: Colour)
    requires fb.Valid()
    modifies fb.buf
    ensures fb.Valid()
    ensures Paints(fb.g, old(fb.buf[..]), fb.buf[..], Visible(fb.g, Rect(x, y, w, h)), Reduce(fb.g.format, col))
  {
    hide Paints, Fits, UnitsFit, Reduce;
    if h < 1 || w < 1 || x + w <= 0 || y + h <= 0 || y >= fb.g.height || x >= fb.g.width {
      assert Visible(fb.g, Rect(x, y, w, h)) == iset{};
      PaintsNothing(fb.g, fb.buf[..], Reduce(fb.g.format, col));
      return;
    }
    var xend := Min(fb.g.width, x + w);
    var yend := Min(fb.g.height, y + h);
    var x1 := Max(x, 0);
    var y1 := Max(y, 0);
    assert Visible(fb.g, Rect(x, y, w, h)) == Rect(x1, y1, xend - x1, yend - y1);
    FormatFillRect(fb, x1, y1, xend - x1, yend - y1, col);
  }

  /** `framebuf_fill`: every visible pixel. */
  method Fill(fb: FrameBuffer, col: Colour)
    requires fb.Valid()
    modifies fb.buf
    ensures fb.Valid() && Paints(fb.g, old(fb.buf[..]), fb.buf[..], Rect(0, 0, fb.g.width, fb.g.height), Reduce(fb.g.format, col))
  {
    hide Paints, Fits, UnitsFit, Reduce, Rect;
    FormatFillRect(fb, 0, 0, fb.g.width, fb.g.height, col);
  }
}
