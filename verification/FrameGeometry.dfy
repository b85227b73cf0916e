/** Where `modframebuf.c` keeps the pixels of a frame, and which buffers its constructor accepts. */
module FrameGeometry {
  import opened Arith
  import BitFields

  datatype Format = MVLSB | RGB565 | GS4_HMSB | MHLSB | MHMSB | GS2_HMSB | GS8

  /** `FRAMEBUF_*`. */
  function FormatOf(code: int): (r: Result<Format>)
  {
    if code == 0 then Ok(MVLSB) else if code == 1 then Ok(RGB565) else if code == 2 then Ok(GS4_HMSB)
    else if code == 3 then Ok(MHLSB) else if code == 4 then Ok(MHMSB) else if code == 5 then Ok(GS2_HMSB)
    else if code == 6 then Ok(GS8) else Err
  }

  datatype Result<T> = Ok(value: T) | Err

  /** Pixels in one unit of memory: a 16-bit word for RGB565, a byte for the other formats. */
  function PerUnit(f: Format): (n: nat)
    ensures n > 0
  {
    match f
    case RGB565 => 1 case GS8 => 1 case GS4_HMSB => 2 case GS2_HMSB => 4 case _ => 8
  }

  /** Number of colours. */
  function Colours(f: Format): (c: nat)
    ensures c > 1
  {
    match f
    case RGB565 => 65536 case GS8 => 256 case GS4_HMSB => 16 case GS2_HMSB => 4 case _ => 2
  }

  function UnitBytes(f: Format): nat { if f == RGB565 then 2 else 1 }

  /** One more than the largest value of a unit. */
  function UnitLimit(f: Format): nat { if f == RGB565 then 65536 else 256 }

  lemma UnitIsFields(f: Format)
    ensures BitFields.Limit(Colours(f), PerUnit(f)) == UnitLimit(f)
  {
    hide BitFields.Limit;
    LimitOfPair(Colours(f), 0);
    LimitOfPair(Colours(f), 2);
    LimitOfPair(Colours(f), 4);
    LimitOfPair(Colours(f), 6);
    LimitOfOne(Colours(f));
  }

  lemma LimitOfPair(base: nat, n: nat)
    ensures BitFields.Limit(base, n + 2) == base * base * BitFields.Limit(base, n)
  {
    assert BitFields.Limit(base, n + 2) == base * BitFields.Limit(base, n + 1);
  }

  lemma LimitOfOne(base: nat)
    ensures BitFields.Limit(base, 0) == 1 && BitFields.Limit(base, 1) == base
  {
    assert BitFields.Limit(base, 1) == base * BitFields.Limit(base, 0);
  }

  /** The fields of `mp_obj_framebuf_t`. */
  datatype Geometry = Geometry(width: nat, height: nat, stride: nat, format: Format)

  predicate Vertical(g: Geometry) { g.format == MVLSB }

  /** Rows do not overlap, and every row starts a new unit. */
  predicate Regular(g: Geometry) {
    && 0 < g.width <= g.stride && 0 < g.height
    && (!Vertical(g) ==> g.stride % PerUnit(g.format) == 0)
  }

  predicate InFrame(g: Geometry, x: int, y: int) { 0 <= x < g.width && 0 <= y < g.height }

  /** The index of a pixel's unit. */
  function Unit(g: Geometry, x: nat, y: nat): int {
    if Vertical(g) then y / 8 * g.stride + x else (x + y * g.stride) / PerUnit(g.format)
  }

  /** The field of its unit that a pixel occupies. */
  function Pos(g: Geometry, x: nat, y: nat): (i: nat)
    ensures i < PerUnit(g.format)
  {
    match g.format
    case MVLSB => y % 8
    case MHLSB => 7 - x % 8
    case MHMSB => x % 8
    case GS2_HMSB => x % 4
    case GS4_HMSB => 1 - x % 2
    case _ => 0
  }

  // ---------- Distinct pixels have distinct places ----------

  /** In the row formats the pixels follow one another without gaps. */
  lemma UnitOfRow(g: Geometry, x: nat, y: nat)
    requires Regular(g) && !Vertical(g)
    ensures var n := PerUnit(g.format);
            Unit(g, x, y) == x / n + y * (g.stride / n) >= 0 && x + y * g.stride == n * Unit(g, x, y) + x % n
  {
    var n := PerUnit(g.format);
    DivModIdentity(g.stride, n);
    var k := g.stride / n;
    MulNonNegative(y, k);
    Swap(y, n, k);
    ModPlusMultiple(x, y * k, n);
    DivModIdentity(x, n);
    Distribute(x / n, y * k, n);
  }

  /** Also for the invisible pixels between the width and the stride: no two share a field. */
  lemma PlacesDistinct(g: Geometry, x: nat, y: nat, x1: nat, y1: nat)
    requires Regular(g) && x < g.stride && x1 < g.stride
    requires Unit(g, x, y) == Unit(g, x1, y1) && Pos(g, x, y) == Pos(g, x1, y1)
    ensures x == x1 && y == y1
  {
    if Vertical(g) {
      DivModUnique(Unit(g, x, y), g.stride, y / 8, x);
      DivModUnique(Unit(g, x, y), g.stride, y1 / 8, x1);
    } else {
      RowPlacesDistinct(g, x, y, x1, y1);
    }
  }

  lemma RowPlacesDistinct(g: Geometry, x: nat, y: nat, x1: nat, y1: nat)
    requires Regular(g) && !Vertical(g) && x < g.stride && x1 < g.stride
    requires Unit(g, x, y) == Unit(g, x1, y1) && Pos(g, x, y) == Pos(g, x1, y1)
    ensures x == x1 && y == y1
  {
    hide Unit, Pos, PerUnit;
    UnitOfRow(g, x, y);
    UnitOfRow(g, x1, y1);
    SameRemainder(g, x, y, x1, y1);
    DivModUnique(x + y * g.stride, g.stride, y, x);
    DivModUnique(x + y * g.stride, g.stride, y1, x1);
  }

  lemma SameRemainder(g: Geometry, x: nat, y: nat, x1: nat, y1: nat)
    requires !Vertical(g) && Pos(g, x, y) == Pos(g, x1, y1)
    ensures x % PerUnit(g.format) == x1 % PerUnit(g.format)
  {
  }

  /** Every field of every unit is the place of a pixel, visible or not. */
  lemma EveryPlaceIsPixel(g: Geometry, u: nat, i: nat) returns (x: nat, y: nat)
    requires Regular(g) && i < PerUnit(g.format)
    ensures x < g.stride && Unit(g, x, y) == u && Pos(g, x, y) == i
  {
    if Vertical(g) {
      x, y := u % g.stride, u / g.stride * 8 + i;
      DivModIdentity(u, g.stride);
    } else {
      x, y := RowPlaceIsPixel(g, u, i);
    }
  }

  lemma RowPlaceIsPixel(g: Geometry, u: nat, i: nat) returns (x: nat, y: nat)
    requires Regular(g) && !Vertical(g) && i < PerUnit(g.format)
    ensures x < g.stride && Unit(g, x, y) == u && Pos(g, x, y) == i
  {
    hide Unit, Pos, PerUnit, FlippedPos;
    var r := FlippedPos(g.format, i);
    x, y := SplitIndex(PerUnit(g.format), u, r, g.stride);
    PlaceOfIndex(g, x, y, u, r);
    PosOfRemainder(g, x, y, i);
  }

  lemma SplitIndex(n: nat, u: nat, r: nat, stride: nat) returns (x: nat, y: nat)
    requires stride > 0
    ensures x < stride && x + y * stride == n * u + r
  {
    MulNonNegative(n, u);
    var k := n * u + r;
    DivModIdentity(k, stride);
    x, y := k % stride, k / stride;
  }

  function FlippedPos(f: Format, i: nat): (r: nat)
    requires i < PerUnit(f)
    ensures r < PerUnit(f)
  {
    if f == MHLSB then 7 - i else if f == GS4_HMSB then 1 - i else i
  }

  lemma PlaceOfIndex(g: Geometry, x: nat, y: nat, u: nat, r: nat)
    requires Regular(g) && !Vertical(g) && r < PerUnit(g.format)
    requires x + y * g.stride == PerUnit(g.format) * u + r
    ensures Unit(g, x, y) == u && x % PerUnit(g.format) == r
  {
    hide Unit, PerUnit;
    var n := PerUnit(g.format);
    UnitOfRow(g, x, y);
    DivModIdentity(x, n);
    DivModUnique(n * u + r, n, u, r);
    DivModUnique(n * u + r, n, Unit(g, x, y), x % n);
  }

  lemma PosOfRemainder(g: Geometry, x: nat, y: nat, i: nat)
    requires !Vertical(g) && i < PerUnit(g.format) && x % PerUnit(g.format) == FlippedPos(g.format, i)
    ensures Pos(g, x, y) == i
  {
  }

  // ---------- The constructor ----------

  function RoundUp(v: nat, n: nat): nat
    requires n > 0
  {
    (v + n - 1) / n * n
  }

  /** The stride in pixels, rounded up to whole units where a row is packed. */
  function Rounded(f: Format, stride: nat): nat {
    if f == MVLSB then stride else RoundUp(stride, PerUnit(f))
  }

  /** The geometry before the stride is cut to 16 bits. */
  function Meant(width: nat, height: nat, f: Format, stride: nat): Geometry {
    Geometry(width, height, Rounded(f, stride), f)
  }

  function Stored(width: nat, height: nat, f: Format, stride: nat): Geometry {
    Geometry(width, height, Rounded(f, stride) % 0x10000, f)
  }

  /** The units of a buffer of `len` bytes. */
  function Units(f: Format, len: nat): nat { len / UnitBytes(f) }

  predicate InRange(width: int, height: int, code: int, stride: int) {
    1 <= width <= stride <= 0xffff && 1 <= height <= 0xffff && FormatOf(code).Ok?
  }

  /** The buffer reaches as far as the last pixel of the frame. */
  predicate Roomy(len: nat, width: int, height: int, code: int, stride: int) {
    && InRange(width, height, code, stride)
    && var f := FormatOf(code).value;
    Unit(Meant(width, height, f, stride), width - 1, height - 1) < Units(f, len)
  }

  /** The arguments are in range and the size test passes. `size_t` counts up to `range`: sizes are reduced modulo it. */
  predicate Accepted(len: nat, width: int, height: int, code: int, stride: int, range: nat)
    requires range > 0
  {
    InRange(width, height, code, stride) && SizeBits(width, height, FormatOf(code).value, stride) % range / 8 <= len
  }

  // ---------- The size check ----------

  /** The number of bits that the constructor asks for, as it computes it but without a limit. */
  function SizeBits(width: nat, height: nat, f: Format, stride: nat): int
    requires width > 0 && height > 0
  {
    if f == MVLSB then
      ((RoundUp(height, 8) - 8) * stride + (RoundUp(height, 8) - (RoundUp(height, 8) - 8)) * width) * 1
    else
      ((height - 1) * Rounded(f, stride) + (height - (height - 1)) * RoundUp(width, PerUnit(f))) * BitsPerPixel(f)
  }

  function BitsPerPixel(f: Format): nat {
    match f
    case RGB565 => 16 case GS8 => 8 case GS4_HMSB => 4 case GS2_HMSB => 2 case _ => 1
  }

  lemma RoundUpIs(v: nat, n: nat)
    requires v > 0 && n > 0
    ensures RoundUp(v, n) == ((v - 1) / n + 1) * n >= v
  {
    ModPlusMultiple(v - 1, 1, n);
    DivModIdentity(v - 1, n);
  }

  lemma RoundUpOne(v: nat)
    ensures RoundUp(v, 1) == v
  {
  }

  /** The rounded stride is the smallest one that is large enough and, where rows are packed, ends with a unit. */
  lemma RoundedIs(f: Format, stride: nat)
    requires stride > 0
    ensures stride <= Rounded(f, stride) < stride + PerUnit(f)
    ensures if f == MVLSB then Rounded(f, stride) == stride else Rounded(f, stride) % PerUnit(f) == 0
  {
    if f != MVLSB {
      RoundUpIs(stride, PerUnit(f));
      DivModIdentity(stride - 1, PerUnit(f));
      DivModUnique(Rounded(f, stride), PerUnit(f), (stride - 1) / PerUnit(f) + 1, 0);
    }
  }

  lemma MeantIsRegular(width: nat, height: nat, f: Format, stride: nat)
    requires 0 < width <= stride && height > 0
    ensures Regular(Meant(width, height, f, stride))
  {
    RoundedIs(f, stride);
  }

  /** The size asked for ends with the unit of the last pixel. */
  lemma SizeIsExact(width: nat, height: nat, f: Format, stride: nat)
    requires 0 < width <= stride && height > 0
    ensures SizeBits(width, height, f, stride) == 8 * ((Unit(Meant(width, height, f, stride), width - 1, height - 1) + 1) * UnitBytes(f))
  {
    hide RoundUp;
    if f == MVLSB {
      RoundUpIs(height, 8);
      EightTimes((height - 1) / 8, stride, width);
    } else {
      PackedSize(width, height, f, stride);
    }
  }

  lemma EightTimes(a: nat, stride: nat, width: nat)
    ensures (((a + 1) * 8 - 8) * stride + ((a + 1) * 8 - ((a + 1) * 8 - 8)) * width) * 1 == 8 * (a * stride + width)
  {
    assert ((a + 1) * 8 - 8) * stride == 8 * (a * stride);
  }

  lemma PackedSize(width: nat, height: nat, f: Format, stride: nat)
    requires 0 < width <= stride && height > 0 && f != MVLSB
    ensures SizeBits(width, height, f, stride) == 8 * ((Unit(Meant(width, height, f, stride), width - 1, height - 1) + 1) * UnitBytes(f))
  {
    hide Unit, RoundUp, PerUnit, BitsPerPixel, UnitBytes, Rounded;
    var g, n := Meant(width, height, f, stride), PerUnit(f);
    var k, q := LastUnit(width, height, f, stride);
    RowsInUnits(n, height, k, q, g.stride, RoundUp(width, n));
    var total := (height - 1) * Rounded(f, stride) + (height - (height - 1)) * RoundUp(width, PerUnit(f));
    BitsOfUnits(f, total, Unit(g, width - 1, height - 1) + 1);
  }

  /** Units in a row, and in the last row before the unit of the last pixel. */
  lemma LastUnit(width: nat, height: nat, f: Format, stride: nat) returns (k: nat, q: nat)
    requires 0 < width <= stride && height > 0 && f != MVLSB
    ensures Unit(Meant(width, height, f, stride), width - 1, height - 1) == q + (height - 1) * k
    ensures Rounded(f, stride) == PerUnit(f) * k && RoundUp(width, PerUnit(f)) == (q + 1) * PerUnit(f)
  {
    hide Unit, RoundUp, PerUnit, Rounded;
    var g := Meant(width, height, f, stride);
    MeantIsRegular(width, height, f, stride);
    k := StrideUnits(g);
    q := LastQuotient(g, k);
  }

  lemma LastQuotient(g: Geometry, k: nat) returns (q: nat)
    requires Regular(g) && !Vertical(g) && g.stride == PerUnit(g.format) * k
    ensures Unit(g, g.width - 1, g.height - 1) == q + (g.height - 1) * k
    ensures RoundUp(g.width, PerUnit(g.format)) == (q + 1) * PerUnit(g.format)
  {
    hide Unit, RoundUp, PerUnit;
    q := (g.width - 1) / PerUnit(g.format);
    RoundUpIs(g.width, PerUnit(g.format));
    UnitInRow(g, g.width - 1, g.height - 1, k);
  }

  lemma StrideUnits(g: Geometry) returns (k: nat)
    requires Regular(g) && !Vertical(g)
    ensures g.stride == PerUnit(g.format) * k
  {
    DivModIdentity(g.stride, PerUnit(g.format));
    k := g.stride / PerUnit(g.format);
  }

  lemma UnitInRow(g: Geometry, x: nat, y: nat, k: nat)
    requires Regular(g) && !Vertical(g) && g.stride == PerUnit(g.format) * k
    ensures Unit(g, x, y) == x / PerUnit(g.format) + y * k
  {
    UnitOfRow(g, x, y);
    DivModUnique(g.stride, PerUnit(g.format), k, 0);
  }

  lemma RowsInUnits(n: nat, height: nat, k: nat, q: nat, stride: nat, w: nat)
    requires height > 0 && stride == n * k && w == (q + 1) * n
    ensures (height - 1) * stride + (height - (height - 1)) * w == n * (q + (height - 1) * k + 1)
  {
    Swap(height - 1, n, k);
    Distribute((height - 1) * k, q + 1, n);
  }

  lemma Swap(a: int, b: int, c: int)
    ensures a * (b * c) == b * (a * c)
  {
  }

  lemma BitsOfUnits(f: Format, total: int, u: int)
    requires total == PerUnit(f) * u
    ensures total * BitsPerPixel(f) == 8 * (u * UnitBytes(f))
  {
  }

  lemma FitsUnits(size: int, u: int, f: Format, len: nat)
    requires size == (u + 1) * UnitBytes(f)
    ensures size <= len <==> u < Units(f, len)
  {
  }

  /** While the bit total does not wrap, the test passes exactly when the last pixel is in the buffer; for buffers that
      memory can hold, a total that wraps passes only with too small a buffer. */
  lemma SizeTestIsExact(len: nat, width: int, height: int, code: int, stride: int, range: nat)
    requires range > 0 && InRange(width, height, code, stride)
    ensures var bits := SizeBits(width, height, FormatOf(code).value, stride);
            && (bits < range ==> (Accepted(len, width, height, code, stride, range) <==> Roomy(len, width, height, code, stride)))
            && (Accepted(len, width, height, code, stride, range) && 8 * len < range ==>
                  (Roomy(len, width, height, code, stride) <==> bits < range))
  {
    hide Unit, SizeBits;
    var f := FormatOf(code).value;
    var last := Unit(Meant(width, height, f, stride), width - 1, height - 1);
    SizeIsExact(width, height, f, stride);
    FitsUnits((last + 1) * UnitBytes(f), last, f, len);
    var bits := SizeBits(width, height, f, stride);
    LastIsNonNegative(width, height, f, stride);
    assert bits >= 0;
    if bits < range {
      DivModUnique(bits, range, 0, bits);
    }
  }

  lemma LastIsNonNegative(width: nat, height: nat, f: Format, stride: nat)
    requires 0 < width <= stride && height > 0
    ensures Unit(Meant(width, height, f, stride), width - 1, height - 1) >= 0
  {
    hide Unit;
    MeantIsRegular(width, height, f, stride);
    UnitMonotone(Meant(width, height, f, stride), Rounded(f, stride), width - 1, height - 1);
  }

  /** `framebuf_make_new`: checks the arguments against a buffer of `len` bytes. The size is computed in `size_t`, the
      rounded stride is stored in 16 bits. */
  method MakeNew(len: nat, width: int, height: int, code: int, stride: int, range: nat) returns (r: Result<Geometry>)
    requires range > 0
    ensures r.Ok? <==> Accepted(len, width, height, code, stride, range)
    ensures r.Ok? ==> r.value == Stored(width, height, FormatOf(code).value, stride)
  {
    hide Unit, RoundUp;
    if width < 1 || height < 1 || width > 0xffff || height > 0xffff || stride > 0xffff || stride < width {
      return Err;
    }
    RoundUpOne(stride);
    RoundUpOne(width);
    var bpp := 1;
    var heightRequired: int, widthRequired: int, stridesRequired: int, rounded: int := height, width, height - 1, stride;
    var f: Format;
    if code == 0 {
      f := MVLSB;
      heightRequired := RoundUp(height, 8);
      stridesRequired := heightRequired - 8;
    } else if code == 3 || code == 4 {
      f := if code == 3 then MHLSB else MHMSB;
      rounded := RoundUp(stride, 8);
      widthRequired := RoundUp(width, 8);
    } else if code == 5 {
      f := GS2_HMSB;
      rounded := RoundUp(stride, 4);
      widthRequired := RoundUp(width, 4);
      bpp := 2;
    } else if code == 2 {
      f := GS4_HMSB;
      rounded := RoundUp(stride, 2);
      widthRequired := RoundUp(width, 2);
      bpp := 4;
    } else if code == 6 {
      f := GS8;
      bpp := 8;
    } else if code == 1 {
      f := RGB565;
      bpp := 16;
    } else {
      return Err;
    }
    var bits := (stridesRequired * rounded + (heightRequired - stridesRequired) * widthRequired) * bpp;
    if bits % range / 8 > len {
      return Err;
    }
    r := Ok(Geometry(width, height, rounded % 0x10000, f));
  }

  // ---------- What the constructor guarantees ----------

  lemma UnitMonotone(g: Geometry, stride: nat, x: nat, y: nat)
    requires stride <= g.stride && InFrame(g, x, y)
    ensures 0 <= Unit(g.(stride := stride), x, y) <= Unit(g, g.width - 1, g.height - 1)
  {
    if Vertical(g) {
      MulNonNegative(y / 8, stride);
      MulMonotone(y / 8, stride, g.stride);
      Distribute((g.height - 1) / 8 - y / 8, y / 8, g.stride);
      MulNonNegative((g.height - 1) / 8 - y / 8, g.stride);
    } else {
      MulNonNegative(y, stride);
      MulMonotone(y, stride, g.stride);
      Distribute(g.height - 1 - y, y, g.stride);
      MulNonNegative(g.height - 1 - y, g.stride);
    }
  }

  ghost predicate AllInside(g: Geometry, units: nat) {
    forall x: nat, y: nat :: x < g.width && y < g.height ==> 0 <= Unit(g, x, y) < units
  }

  lemma RoomyIsSafe(len: nat, width: int, height: int, code: int, stride: int)
    requires Roomy(len, width, height, code, stride)
    ensures AllInside(Stored(width, height, FormatOf(code).value, stride), Units(FormatOf(code).value, len))
  {
    hide Unit, Rounded;
    var f := FormatOf(code).value;
    forall x: nat, y: nat | x < width && y < height
      ensures 0 <= Unit(Stored(width, height, f, stride), x, y) < Units(f, len)
    {
      UnitMonotone(Meant(width, height, f, stride), Rounded(f, stride) % 0x10000, x, y);
    }
  }

  /** An accepted buffer holds every pixel of the frame if the bit total does not wrap, whatever the stride. For
      buffers that memory can hold, and strides that are not cut, only then. */
  lemma AcceptedIsSafe(len: nat, width: int, height: int, code: int, stride: int, range: nat)
    requires range > 0 && Accepted(len, width, height, code, stride, range)
    ensures var f := FormatOf(code).value;
            var inside := AllInside(Stored(width, height, f, stride), Units(f, len));
            && (SizeBits(width, height, f, stride) < range ==> inside)
            && (8 * len < range && Rounded(f, stride) <= 0xffff ==> (inside <==> SizeBits(width, height, f, stride) < range))
  {
    hide Unit, Rounded, SizeBits;
    var f := FormatOf(code).value;
    SizeTestIsExact(len, width, height, code, stride, range);
    if Roomy(len, width, height, code, stride) {
      RoomyIsSafe(len, width, height, code, stride);
    }
    if Rounded(f, stride) <= 0xffff && AllInside(Stored(width, height, f, stride), Units(f, len)) {
      var g := Stored(width, height, f, stride);
      assert Unit(g, g.width - 1, g.height - 1) < Units(f, len);
      assert g == Meant(width, height, f, stride);
    }
  }

  const SIZE_T_32 := 0x1_0000_0000

  /** Where `size_t` has 32 bits, the total of this frame wraps to 0: it is accepted without any buffer. */
  lemma WrappedSize()
    ensures Accepted(0, 32768, 8192, 1, 32768, SIZE_T_32)
    ensures SizeBits(32768, 8192, RGB565, 32768) == SIZE_T_32
    ensures !AllInside(Stored(32768, 8192, RGB565, 32768), Units(RGB565, 0))
  {
    var g := Stored(32768, 8192, RGB565, 32768);
    RoundUpOne(32768);
    assert Unit(g, 0, 0) >= Units(RGB565, 0);
  }

  ghost predicate SharesPlace(g: Geometry, x: nat, y: nat, x1: nat, y1: nat) {
    && InFrame(g, x, y) && InFrame(g, x1, y1) && (x != x1 || y != y1)
    && Unit(g, x, y) == Unit(g, x1, y1) && Pos(g, x, y) == Pos(g, x1, y1)
  }

  /** Two pixels of a frame share bits if and only if rounding lifts the stride over 16 bits and the frame has more
      than one row. */
  lemma AcceptedIsInjective(width: int, height: int, code: int, stride: int)
    requires InRange(width, height, code, stride)
    ensures (forall x: nat, y: nat, x1: nat, y1: nat ::
               !SharesPlace(Stored(width, height, FormatOf(code).value, stride), x, y, x1, y1))
            <==> Rounded(FormatOf(code).value, stride) <= 0xffff || height == 1
  {
    hide SharesPlace, Rounded;
    var f := FormatOf(code).value;
    var g := Stored(width, height, f, stride);
    MeantIsRegular(width, height, f, stride);
    if Rounded(f, stride) <= 0xffff {
      forall x: nat, y: nat, x1: nat, y1: nat ensures !SharesPlace(g, x, y, x1, y1) {
        RegularShares(Meant(width, height, f, stride), x, y, x1, y1);
      }
    } else if height == 1 {
      forall x: nat, y: nat, x1: nat, y1: nat ensures !SharesPlace(g, x, y, x1, y1) {
        RowShares(g, Meant(width, height, f, stride), x, y, x1, y1);
      }
    } else {
      WrappedShares(width, height, f, stride);
      assert SharesPlace(g, 0, 0, 0, 1);
    }
  }

  lemma RegularShares(g: Geometry, x: nat, y: nat, x1: nat, y1: nat)
    requires Regular(g)
    ensures !SharesPlace(g, x, y, x1, y1)
  {
    hide Unit, Pos;
    if SharesPlace(g, x, y, x1, y1) {
      PlacesDistinct(g, x, y, x1, y1);
    }
  }

  /** In a single row the stride does not matter. */
  lemma RowShares(g: Geometry, g1: Geometry, x: nat, y: nat, x1: nat, y1: nat)
    requires g.height == 1 && g1 == g.(stride := g1.stride) && Regular(g1)
    ensures !SharesPlace(g, x, y, x1, y1)
  {
    if SharesPlace(g, x, y, x1, y1) {
      RegularShares(g1, x, y, x1, y1);
    }
  }

  lemma WrappedShares(width: nat, height: nat, f: Format, stride: nat)
    requires 0 < width <= stride <= 0xffff && height > 1 && Rounded(f, stride) > 0xffff
    ensures SharesPlace(Stored(width, height, f, stride), 0, 0, 0, 1)
  {
    assert f != MVLSB;
    RoundUpIs(stride, PerUnit(f));
    assert Rounded(f, stride) == 0x10000;
  }
}
