/** The packed frame buffer of `modframebuf.c`: pixels and rectangles in all seven formats. Every operation is
    specified on the grid of pixels and works on the packed units. */
module FrameBuffer {
  import opened BitFields
  import opened FrameGeometry
  import opened FramePaint

  ghost function Rect(x: int, y: int, w: int, h: int): iset<Point> {
    iset p: Point | x <= p.x < x + w && y <= p.y < y + h
  }

  /** The part of a region that is inside the frame. */
  ghost function Visible(g: Geometry, region: iset<Point>): iset<Point> {
    iset p: Point | p in region && InFrame(g, p.x, p.y)
  }

  // ---------- Units written as a whole or by halves ----------

  lemma WholeUnit(u: nat, base: nat, v: nat)
    requires u < base && v < base
    ensures Insert(u, base, 0, v) == v
    ensures Field(u, base, 0) == u
  {
    assert u / base == 0;
  }

  lemma LowNibble(u: nat, v: nat)
    requires u < 256 && v < 16
    ensures Insert(u, 16, 0, v) == u / 16 * 16 + v
    ensures Field(u, 16, 0) == u % 16
  {
  }

  lemma HighNibble(u: nat, v: nat)
    requires u < 256 && v < 16
    ensures Insert(u, 16, 1, v) == v * 16 + u % 16
    ensures Field(u, 16, 1) == u / 16
  {
    WholeUnit(u / 16, 16, v);
  }

  lemma BothNibbles(u: nat, v: nat)
    requires u < 256 && v < 16
    ensures Insert(Insert(u, 16, 1, v), 16, 0, v) == v * 16 + v
  {
    HighNibble(u, v);
    LowNibble(v * 16 + u % 16, v);
  }

  class FrameBuffer {
    const buf: array<nat>
    const g: Geometry

    ghost predicate Valid()
      reads buf
    {
      Fits(g, buf.Length) && UnitsFit(g.format, buf[..])
    }

    /** A frame over an existing buffer. */
    constructor (buf: array<nat>, g: Geometry)
      requires Fits(g, buf.Length) && UnitsFit(g.format, buf[..])
      ensures this.buf == buf && this.g == g && Valid()
    {
      this.buf := buf;
      this.g := g;
    }

    // ---------- One pixel ----------

    /** Write a unit back in which only the field of the pixel (x, y) has been set, to `v`. */
    method Store(index: nat, word: nat, ghost x: nat, ghost y: nat, ghost v: nat)
      requires Valid() && InFrame(g, x, y) && v < Colours(g.format)
      requires index == Unit(g, x, y) < buf.Length && word == Insert(buf[index], Colours(g.format), Pos(g, x, y), v)
      modifies buf
      ensures Valid() && Paints(g, old(buf[..]), buf[..], iset{Point(x, y)}, v)
    {
      hide Insert, Unit, Pos, Paints, Regular;
      VisibleIsHeld(g, buf.Length, x, y);
      SetPaints(g, buf[..], x, y, v);
      SetFits(g, buf[..], x, y, v);
      ghost var next := SetAt(g, buf[..], x, y, v);
      buf[index] := word;
      assert buf[..] == next;
    }

    lemma Row8(x: nat, y: nat)
      requires Fits(g, buf.Length) && PerUnit(g.format) == 8 && !Vertical(g) && InFrame(g, x, y)
      ensures (x + y * g.stride) / 8 == Unit(g, x, y) == x / 8 + y * (g.stride / 8)
      ensures 0 <= Unit(g, x, y) < buf.Length
    {
      UnitOfRow(g, x, y);
      VisibleIsHeld(g, buf.Length, x, y);
    }

    method MonoHorizSetPixel(x: nat, y: nat, col: Colour)
      requires Valid() && InFrame(g, x, y) && (g.format == MHLSB || g.format == MHMSB)
      modifies buf
      ensures Valid() && Paints(g, old(buf[..]), buf[..], iset{Point(x, y)}, Reduce(g.format, col))
    {
      hide Insert, Paints, Regular, Fits, Unit;
      Row8(x, y);
      var index := (x + y * g.stride) / 8;
      var offset := if g.format == MHMSB then x % 8 else 7 - x % 8;
      var bit := if col != 0 then 1 else 0;
      Store(index, Insert(buf[index], 2, offset, bit), x, y, bit);
    }

    method MvlsbSetPixel(x: nat, y: nat, col: Colour)
      requires Valid() && InFrame(g, x, y) && g.format == MVLSB
      modifies buf
      ensures Valid() && Paints(g, old(buf[..]), buf[..], iset{Point(x, y)}, Reduce(g.format, col))
    {
      hide Insert, Paints, Regular, Fits;
      VisibleIsHeld(g, buf.Length, x, y);
      var index := y / 8 * g.stride + x;
      var bit := if col != 0 then 1 else 0;
      Store(index, Insert(buf[index], 2, y % 8, bit), x, y, bit);
    }

    /** A unit that holds one pixel. */
    method StoreWhole(index: nat, v: nat, ghost x: nat, ghost y: nat)
      requires Valid() && InFrame(g, x, y) && PerUnit(g.format) == 1 && v < Colours(g.format) && index == x + y * g.stride
      modifies buf
      ensures Valid() && Paints(g, old(buf[..]), buf[..], iset{Point(x, y)}, v)
    {
      hide Insert, Paints, Regular, Fits, Field;
      VisibleIsHeld(g, buf.Length, x, y);
      WholeUnit(buf[..][index], Colours(g.format), v);
      Store(index, v, x, y, v);
    }

    method Rgb565SetPixel(x: nat, y: nat, col: Colour)
      requires Valid() && InFrame(g, x, y) && g.format == RGB565
      modifies buf
      ensures Valid() && Paints(g, old(buf[..]), buf[..], iset{Point(x, y)}, Reduce(g.format, col))
    {
      hide Paints, Regular, Fits, Unit, UnitsFit;
      StoreWhole(x + y * g.stride, col % 65536, x, y);
    }

    method Gs8SetPixel(x: nat, y: nat, col: Colour)
      requires Valid() && InFrame(g, x, y) && g.format == GS8
      modifies buf
      ensures Valid() && Paints(g, old(buf[..]), buf[..], iset{Point(x, y)}, Reduce(g.format, col))
    {
      hide Paints, Regular, Fits, Unit, UnitsFit;
      StoreWhole(x + y * g.stride, col % 256, x, y);
    }

    method Gs2HmsbSetPixel(x: nat, y: nat, col: Colour)
      requires Valid() && InFrame(g, x, y) && g.format == GS2_HMSB
      modifies buf
      ensures Valid() && Paints(g, old(buf[..]), buf[..], iset{Point(x, y)}, Reduce(g.format, col))
    {
      hide Insert, Paints, Regular, Fits;
      VisibleIsHeld(g, buf.Length, x, y);
      var index := (x + y * g.stride) / 4;
      Store(index, Insert(buf[index], 4, x % 4, col % 4), x, y, col % 4);
    }

    method Gs4HmsbSetPixel(x: nat, y: nat, col: Colour)
      requires Valid() && InFrame(g, x, y) && g.format == GS4_HMSB
      modifies buf
      ensures Valid() && Paints(g, old(buf[..]), buf[..], iset{Point(x, y)}, Reduce(g.format, col))
    {
      hide Insert, Paints, Regular, Fits, Field;
      VisibleIsHeld(g, buf.Length, x, y);
      var index := (x + y * g.stride) / 2;
      var pixel := buf[..][index];
      if x % 2 == 1 {
        LowNibble(pixel, col % 16);
        Store(index, pixel / 16 * 16 + col % 16, x, y, col % 16);
      } else {
        HighNibble(pixel, col % 16);
        Store(index, col % 16 * 16 + pixel % 16, x, y, col % 16);
      }
    }

    /** `setpixel`: the pixel takes the colour reduced to the format, and no other pixel changes. */
    method SetPixel(x: nat, y: nat, col: Colour)
      requires Valid() && InFrame(g, x, y)
      modifies buf
      ensures Valid() && Paints(g, old(buf[..]), buf[..], iset{Point(x, y)}, Reduce(g.format, col))
    {
      hide Paints, Regular, Fits, UnitsFit, Reduce;
      match g.format {
        case MVLSB => MvlsbSetPixel(x, y, col);
        case RGB565 => Rgb565SetPixel(x, y, col);
        case GS2_HMSB => Gs2HmsbSetPixel(x, y, col);
        case GS4_HMSB => Gs4HmsbSetPixel(x, y, col);
        case GS8 => Gs8SetPixel(x, y, col);
        case MHLSB => MonoHorizSetPixel(x, y, col);
        case MHMSB => MonoHorizSetPixel(x, y, col);
      }
    }

    /** `setpixel_checked`, with the mask already tested. */
    method SetPixelChecked(x: int, y: int, col: Colour)
      requires Valid()
      modifies buf
      ensures Valid() && Paints(g, old(buf[..]), buf[..], Visible(g, iset{Point(x, y)}), Reduce(g.format, col))
    {
      hide Regular, Fits, UnitsFit, Reduce, Held, Pixel;
      if InFrame(g, x, y) {
        SetPixel(x, y, col);
      }
    }

    /** `getpixel`. */
    method GetPixel(x: nat, y: nat) returns (v: nat)
      requires Valid() && InFrame(g, x, y)
      ensures Held(g, buf.Length, x, y) && v == Pixel(g, buf[..], x, y) < Colours(g.format)
    {
      hide Regular, Fits, Field;
      VisibleIsHeld(g, buf.Length, x, y);
      ghost var u := buf[..][Unit(g, x, y)];
      FieldFits(u, Colours(g.format), Pos(g, x, y));
      match g.format {
        case MVLSB => v := Field(buf[y / 8 * g.stride + x], 2, y % 8);
        case RGB565 =>
          WholeUnit(u, 65536, 0);
          v := buf[x + y * g.stride];
        case GS2_HMSB => v := Field(buf[(x + y * g.stride) / 4], 4, x % 4);
        case GS4_HMSB =>
          LowNibble(u, 0);
          HighNibble(u, 0);
          v := if x % 2 == 1 then buf[(x + y * g.stride) / 2] % 16 else buf[(x + y * g.stride) / 2] / 16;
        case GS8 =>
          WholeUnit(u, 256, 0);
          v := buf[x + y * g.stride];
        case MHLSB => v := Field(buf[(x + y * g.stride) / 8], 2, 7 - x % 8);
        case MHMSB => v := Field(buf[(x + y * g.stride) / 8], 2, x % 8);
      }
    }
  }
}
