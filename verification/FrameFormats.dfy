/** What the seven formats of `modframebuf.c` mean: how a unit of the buffer is made from pixels that are next to each
    other, as `docs/library/framebuf.rst` describes them. */
module FrameFormats {
  import opened Arith
  import opened BitFields
  import opened FrameGeometry
  import opened FramePaint

  // ---------- Numbers from digits ----------

  function LowFirst(d: seq<nat>, base: nat): nat { if d == [] then 0 else d[0] + base * LowFirst(d[1..], base) }

  function HighFirst(d: seq<nat>, base: nat): nat {
    if d == [] then 0 else base * HighFirst(d[..|d| - 1], base) + d[|d| - 1]
  }

  lemma Peel(u: nat, base: nat)
    requires base > 0
    ensures u == base * (u / base) + Field(u, base, 0) && forall i: nat :: Field(u, base, i + 1) == Field(u / base, base, i)
  {
    DivModIdentity(u, base);
  }

  lemma {:induction false} FieldsLowFirst(u: nat, base: nat, d: seq<nat>)
    requires base > 0 && u < Limit(base, |d|) && forall i :: 0 <= i < |d| ==> d[i] == Field(u, base, i)
    ensures LowFirst(d, base) == u
    decreases |d|
  {
    hide Field;
    if d == [] {
    } else {
      Peel(u, base);
      QuotientFits(u, base, |d|);
      FieldsLowFirst(u / base, base, d[1..]);
    }
  }

  lemma {:induction false} FieldsHighFirst(u: nat, base: nat, d: seq<nat>)
    requires base > 0 && u < Limit(base, |d|) && forall i :: 0 <= i < |d| ==> d[i] == Field(u, base, |d| - 1 - i)
    ensures HighFirst(d, base) == u
    decreases |d|
  {
    hide Field;
    if d == [] {
    } else {
      Peel(u, base);
      QuotientFits(u, base, |d|);
      var rest := d[..|d| - 1];
      forall i | 0 <= i < |rest| ensures rest[i] == Field(u / base, base, |rest| - 1 - i) {
        assert Field(u, base, (|rest| - 1 - i) + 1) == Field(u / base, base, |rest| - 1 - i);
      }
      FieldsHighFirst(u / base, base, rest);
    }
  }

  // ---------- Formats that pack rows ----------

  /** Code, pixels in a unit, colours, and whether the leftmost pixel has the highest bits. */
  const ROW_FORMATS := {(1, 1, 65536, true), (2, 2, 16, true), (3, 8, 2, true), (4, 8, 2, false), (5, 4, 4, false), (6, 1, 256, true)}

  lemma RowFormat(code: int, per: nat, base: nat, high: bool)
    requires (code, per, base, high) in ROW_FORMATS
    ensures var r := FormatOf(code);
            && r.Ok? && r.value != MVLSB && PerUnit(r.value) == per && Colours(r.value) == base
            && forall j :: 0 <= j < per ==> FlippedPos(r.value, j) == if high then per - 1 - j else j
  {
  }

  /** Pixel `j` of unit `q` of row `y`. */
  lemma RowPixel(g: Geometry, len: nat, q: nat, j: nat, y: nat)
    requires Regular(g) && !Vertical(g) && j < PerUnit(g.format) && q < g.stride / PerUnit(g.format)
    requires 0 <= q + y * (g.stride / PerUnit(g.format)) < len
    ensures var x := PerUnit(g.format) * q + j;
            && Held(g, len, x, y) && Unit(g, x, y) == q + y * (g.stride / PerUnit(g.format))
            && Pos(g, x, y) == FlippedPos(g.format, j)
  {
    hide Unit, Pos;
    var n := PerUnit(g.format);
    var x := n * q + j;
    DivModIdentity(g.stride, n);
    MulMonotone(n, q + 1, g.stride / n);
    UnitOfRow(g, x, y);
    DivModUnique(x, n, q, j);
    FlippedTwice(g.format, j);
    PosOfRemainder(g, x, y, FlippedPos(g.format, j));
  }

  lemma FlippedTwice(f: Format, j: nat)
    requires j < PerUnit(f)
    ensures FlippedPos(f, FlippedPos(f, j)) == j
  {
  }

  /** The pixel (x, y), visible or not, is in the buffer and has the value `v`. */
  predicate PixelIs(g: Geometry, buf: seq<nat>, x: nat, y: nat, v: nat) {
    Held(g, |buf|, x, y) && Pixel(g, buf, x, y) == v
  }

  /** `d` are the pixels from (x, y) on to the right. */
  predicate InRow(g: Geometry, buf: seq<nat>, x: nat, y: nat, d: seq<nat>) {
    forall j :: 0 <= j < |d| ==> PixelIs(g, buf, x + j, y, d[j])
  }

  /** `d` are the pixels from (x, y) on downwards. */
  predicate InColumn(g: Geometry, buf: seq<nat>, x: nat, y: nat, d: seq<nat>) {
    forall j :: 0 <= j < |d| ==> PixelIs(g, buf, x, y + j, d[j])
  }

  /** A unit is the number whose digits are the pixels that it holds, in the order of the table. Units follow to the
      right, and then on the next row. */
  lemma RowUnit(g: Geometry, buf: seq<nat>, code: int, per: nat, base: nat, high: bool, q: nat, y: nat) returns (d: seq<nat>)
    requires (code, per, base, high) in ROW_FORMATS && FormatOf(code) == Ok(g.format) && Regular(g) && UnitsFit(g.format, buf)
    requires q < g.stride / per && 0 <= q + y * (g.stride / per) < |buf|
    ensures |d| == per && InRow(g, buf, per * q, y, d)
    ensures buf[q + y * (g.stride / per)] == if high then HighFirst(d, base) else LowFirst(d, base)
  {
    hide UnitsFit, InRow, FlippedPos, PerUnit, Colours, Limit, ROW_FORMATS, FormatOf;
    RowFormat(code, per, base, high);
    var u := q + y * (g.stride / per);
    d := RowDigits(g, buf, q, y);
    UnitFits(g.format, buf, u);
    if high {
      FieldsHighFirst(buf[u], base, d);
    } else {
      FieldsLowFirst(buf[u], base, d);
    }
  }

  lemma RowDigits(g: Geometry, buf: seq<nat>, q: nat, y: nat) returns (d: seq<nat>)
    requires Regular(g) && !Vertical(g) && q < g.stride / PerUnit(g.format)
    requires 0 <= q + y * (g.stride / PerUnit(g.format)) < |buf|
    ensures |d| == PerUnit(g.format) && InRow(g, buf, PerUnit(g.format) * q, y, d)
    ensures var u := q + y * (g.stride / PerUnit(g.format));
            forall j :: 0 <= j < |d| ==> d[j] == Field(buf[u], Colours(g.format), FlippedPos(g.format, j))
  {
    var u := q + y * (g.stride / PerUnit(g.format));
    d := seq(PerUnit(g.format), j requires 0 <= j < PerUnit(g.format) => Field(buf[u], Colours(g.format), FlippedPos(g.format, j)));
    DigitsInRow(g, buf, q, y, u, PerUnit(g.format) * q, d);
  }

  lemma DigitsInRow(g: Geometry, buf: seq<nat>, q: nat, y: nat, u: nat, x: nat, d: seq<nat>)
    requires Regular(g) && !Vertical(g) && q < g.stride / PerUnit(g.format) && x == PerUnit(g.format) * q
    requires u == q + y * (g.stride / PerUnit(g.format)) < |buf| && |d| == PerUnit(g.format)
    requires forall j :: 0 <= j < |d| ==> d[j] == Field(buf[u], Colours(g.format), FlippedPos(g.format, j))
    ensures InRow(g, buf, x, y, d)
  {
    hide Field, Unit, Pos, FlippedPos, PerUnit, Colours, Regular;
    forall j | 0 <= j < |d| ensures PixelIs(g, buf, x + j, y, d[j]) {
      RowPixel(g, |buf|, q, j, y);
    }
  }

  lemma UnitFits(f: Format, buf: seq<nat>, u: int)
    requires UnitsFit(f, buf) && 0 <= u < |buf|
    ensures buf[u] < Limit(Colours(f), PerUnit(f))
  {
    hide Limit;
    UnitIsFields(f);
  }

  // ---------- The format that packs columns ----------

  lemma ColumnPixel(g: Geometry, len: nat, x: nat, q: nat, j: nat)
    requires Vertical(g) && Regular(g) && x < g.stride && 0 <= q * g.stride + x < len && j < 8
    ensures Held(g, len, x, 8 * q + j) && Unit(g, x, 8 * q + j) == q * g.stride + x && Pos(g, x, 8 * q + j) == j
  {
    DivModUnique(8 * q + j, 8, q, j);
  }

  /** A byte is eight pixels below each other, the lowest bit on top. Bytes follow to the right, and then eight rows
      further down. */
  lemma ColumnUnit(g: Geometry, buf: seq<nat>, x: nat, q: nat) returns (d: seq<nat>)
    requires FormatOf(0) == Ok(g.format) && Regular(g) && UnitsFit(g.format, buf)
    requires x < g.stride && 0 <= q * g.stride + x < |buf|
    ensures |d| == 8 && InColumn(g, buf, x, 8 * q, d) && buf[q * g.stride + x] == LowFirst(d, 2)
  {
    hide Field, UnitsFit, Unit, Pos, Limit;
    var u := q * g.stride + x;
    d := seq(8, j requires 0 <= j < 8 => Field(buf[u], 2, j));
    forall j | 0 <= j < 8 ensures PixelIs(g, buf, x, 8 * q + j, d[j]) {
      ColumnPixel(g, |buf|, x, q, j);
    }
    UnitFits(g.format, buf, u);
    FieldsLowFirst(buf[u], 2, d);
  }
}
