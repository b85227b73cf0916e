/** What it means for a drawing operation of `modframebuf.c` to change exactly the pixels of a region. */
module FramePaint {
  import Arith
  import opened BitFields
  import opened FrameGeometry

  datatype Point = Point(x: int, y: int)

  /** Colours are passed as 32-bit words. */
  type Colour = c: nat | c < 0x1_0000_0000

  /** What a format keeps of a colour. */
  function Reduce(f: Format, col: Colour): (v: nat)
    ensures v < Colours(f)
  {
    match f
    case RGB565 => col % 65536
    case GS8 => col % 256
    case GS4_HMSB => col % 16
    case GS2_HMSB => col % 4
    case _ => if col != 0 then 1 else 0
  }

  /** The one-bit formats only ask whether there is a colour; the others keep its low bits. */
  lemma ReduceIs(f: Format, col: Colour, base: nat)
    requires base == if f == RGB565 then 65536 else if f == GS8 then 256 else if f == GS4_HMSB then 16 else if f == GS2_HMSB then 4 else 2
    ensures Reduce(f, col) < base && if base == 2 then Reduce(f, col) == 0 <==> col == 0 else base * (col / base) + Reduce(f, col) == col
  {
    Arith.DivModIdentity(col, base);
  }

  lemma ReduceTwice(f: Format, v: Colour)
    requires v < Colours(f)
    ensures Reduce(f, v) == v
  {
  }

  /** A pixel, visible or not, whose unit is in the buffer. */
  predicate Held(g: Geometry, len: nat, x: int, y: int) {
    0 <= x < g.stride && 0 <= y && 0 <= Unit(g, x, y) < len
  }

  function Pixel(g: Geometry, buf: seq<nat>, x: int, y: int): nat
    requires Held(g, |buf|, x, y)
  {
    Field(buf[Unit(g, x, y)], Colours(g.format), Pos(g, x, y))
  }

  /** All units have the width of the format. */
  ghost predicate UnitsFit(f: Format, buf: seq<nat>) {
    forall i :: 0 <= i < |buf| ==> buf[i] < UnitLimit(f)
  }

  /** The last pixel of the frame is in the buffer. */
  predicate Fits(g: Geometry, len: nat) {
    Regular(g) && 0 <= Unit(g, g.width - 1, g.height - 1) < len
  }

  /** Every accepted frame whose size did not wrap and whose rows do not overlap meets the needs of the drawing
      operations: as it is stored if the stride still fits 16 bits, and, as a single row never uses its stride, with the
      stride before the cut. */
  lemma AcceptedFits(len: nat, width: int, height: int, code: int, stride: int, range: nat)
    requires range > 0 && Accepted(len, width, height, code, stride, range)
    requires SizeBits(width, height, FormatOf(code).value, stride) < range
    ensures var f := FormatOf(code).value;
            var meant, stored := Meant(width, height, f, stride), Stored(width, height, f, stride);
            && Fits(meant, Units(f, len))
            && (Rounded(f, stride) <= 0xffff ==> stored == meant)
            && (height == 1 ==> forall x: nat :: x < width ==>
                  Unit(stored, x, 0) == Unit(meant, x, 0) && Pos(stored, x, 0) == Pos(meant, x, 0))
  {
    hide Rounded, SizeBits;
    var f := FormatOf(code).value;
    MeantIsRegular(width, height, f, stride);
    SizeTestIsExact(len, width, height, code, stride, range);
    LastIsNonNegative(width, height, f, stride);
  }

  lemma VisibleIsHeld(g: Geometry, len: nat, x: int, y: int)
    requires Fits(g, len) && InFrame(g, x, y)
    ensures Held(g, len, x, y)
  {
    hide Unit;
    UnitMonotone(g, g.stride, x, y);
    assert g.(stride := g.stride) == g;
  }

  /** Exactly the pixels of `region` have been given the value `v`. */
  ghost predicate Paints(g: Geometry, old_: seq<nat>, new_: seq<nat>, region: iset<Point>, v: nat) {
    && |new_| == |old_|
    && forall x: int, y: int :: Held(g, |old_|, x, y) ==>
         Pixel(g, new_, x, y) == if Point(x, y) in region then v else Pixel(g, old_, x, y)
  }

  /** Two buffers with equal pixels are equal: a statement about all held pixels leaves no bit open. */
  lemma PixelsDetermine(g: Geometry, a: seq<nat>, b: seq<nat>)
    requires Regular(g) && UnitsFit(g.format, a) && UnitsFit(g.format, b) && |a| == |b|
    requires forall x: int, y: int :: Held(g, |a|, x, y) ==> Pixel(g, a, x, y) == Pixel(g, b, x, y)
    ensures a == b
  {
    hide Unit, Pos, Field, Regular, Colours, PerUnit, UnitLimit;
    forall u | 0 <= u < |a| ensures a[u] == b[u] {
      forall i | 0 <= i < PerUnit(g.format)
        ensures Field(a[u], Colours(g.format), i) == Field(b[u], Colours(g.format), i)
      {
        var x, y := EveryPlaceIsPixel(g, u, i);
        assert Held(g, |a|, x, y);
        assert Pixel(g, a, x, y) == Pixel(g, b, x, y);
      }
      UnitIsFields(g.format);
      FieldsDetermine(a[u], b[u], Colours(g.format), PerUnit(g.format));
    }
  }

  /** The pixels painted decide every bit of the result, so two ways to paint the same region, such as a fast fill
      and one `setpixel` per pixel, leave identical buffers. */
  lemma PaintsAgree(g: Geometry, a: seq<nat>, b: seq<nat>, c: seq<nat>, region: iset<Point>, v: nat)
    requires Regular(g) && UnitsFit(g.format, b) && UnitsFit(g.format, c)
    requires Paints(g, a, b, region, v) && Paints(g, a, c, region, v)
    ensures b == c
  {
    hide Pixel, UnitsFit, Regular, Unit;
    PixelsDetermine(g, b, c);
  }

  lemma PaintsNothing(g: Geometry, buf: seq<nat>, v: nat)
    ensures Paints(g, buf, buf, iset{}, v)
  {
  }

  lemma PaintsMore(g: Geometry, a: seq<nat>, b: seq<nat>, c: seq<nat>, r: iset<Point>, s: iset<Point>, all: iset<Point>, v: nat)
    requires Paints(g, a, b, r, v) && Paints(g, b, c, s, v)
    requires forall p: Point :: p in all <==> p in r || p in s
    ensures Paints(g, a, c, all, v)
  {
    hide Pixel, Held;
  }

  /** The buffer after one pixel is set. */
  function SetAt(g: Geometry, buf: seq<nat>, x: nat, y: nat, v: nat): seq<nat>
    requires Held(g, |buf|, x, y) && v < Colours(g.format)
  {
    buf[Unit(g, x, y) := Insert(buf[Unit(g, x, y)], Colours(g.format), Pos(g, x, y), v)]
  }

  /** Setting a pixel gives it the value and changes no other pixel, not even those in the same unit. */
  lemma SetPaints(g: Geometry, buf: seq<nat>, x: nat, y: nat, v: nat)
    requires Regular(g) && Held(g, |buf|, x, y) && v < Colours(g.format)
    ensures Paints(g, buf, SetAt(g, buf, x, y, v), iset{Point(x, y)}, v)
  {
    hide Unit, Pos, Field, Regular, Colours, PerUnit, Insert;
    var next := SetAt(g, buf, x, y, v);
    forall x1: int, y1: int | Held(g, |buf|, x1, y1)
      ensures Pixel(g, next, x1, y1) == if Point(x1, y1) in iset{Point(x, y)} then v else Pixel(g, buf, x1, y1)
    {
      if Unit(g, x1, y1) == Unit(g, x, y) {
        FieldOfInsert(buf[Unit(g, x, y)], Colours(g.format), Pos(g, x, y), v, Pos(g, x1, y1));
        if Pos(g, x1, y1) == Pos(g, x, y) {
          PlacesDistinct(g, x1, y1, x, y);
        }
      }
    }
  }

  lemma SetFits(g: Geometry, buf: seq<nat>, x: nat, y: nat, v: nat)
    requires Held(g, |buf|, x, y) && v < Colours(g.format) && UnitsFit(g.format, buf)
    ensures UnitsFit(g.format, SetAt(g, buf, x, y, v))
  {
    hide Unit, Insert, Limit;
    UnitIsFields(g.format);
    InsertFits(buf[Unit(g, x, y)], Colours(g.format), PerUnit(g.format), Pos(g, x, y), v);
  }
}
