/** The quadrature decoder of `rotary.py`: two transition tables, the value range modes, and
    the guarantee that contact bounce never makes the count drift. */
module RotaryEncoder {
  import opened Arith

  /** Encoder states. */
  datatype State = START | CW_1 | CW_2 | CW_3 | CCW_1 | CCW_2 | CCW_3 | ILLEGAL

  datatype Dir = Still | Cw | Ccw

  /** A table entry packs the next state (low three bits) and a direction flag (bits 4 and 5)
      in one integer; here they are two fields. */
  datatype Entry = Entry(next: State, dir: Dir)

  /** The levels of CLK and DT. */
  datatype Pins = P00 | P01 | P10 | P11

  function Row(e00: Entry, e01: Entry, e10: Entry, e11: Entry, pins: Pins): Entry {
    match pins
    case P00 => e00
    case P01 => e01
    case P10 => e10
    case P11 => e11
  }

  function To(next: State): Entry { Entry(next, Still) }

  function FullStepTable(state: State, pins: Pins): Entry {
    match state
    case START => Row(To(START), To(CCW_1), To(CW_1), To(START), pins)
    case CW_1 => Row(To(CW_2), To(START), To(CW_1), To(START), pins)
    case CW_2 => Row(To(CW_2), To(CW_3), To(CW_1), To(START), pins)
    case CW_3 => Row(To(CW_2), To(CW_3), To(START), Entry(START, Cw), pins)
    case CCW_1 => Row(To(CCW_2), To(CCW_1), To(START), To(START), pins)
    case CCW_2 => Row(To(CCW_2), To(CCW_1), To(CCW_3), To(START), pins)
    case CCW_3 => Row(To(CCW_2), To(START), To(CCW_3), Entry(START, Ccw), pins)
    case ILLEGAL => Row(To(START), To(START), To(START), To(START), pins)
  }

  function HalfStepTable(state: State, pins: Pins): Entry {
    match state
    case START => Row(To(CW_3), To(CW_2), To(CW_1), To(START), pins)
    case CW_1 => Row(Entry(CW_3, Ccw), To(START), To(CW_1), To(START), pins)
    case CW_2 => Row(Entry(CW_3, Cw), To(CW_2), To(START), To(START), pins)
    case CW_3 => Row(To(CW_3), To(CCW_2), To(CCW_1), To(START), pins)
    case CCW_1 => Row(To(CW_3), To(CW_2), To(CCW_1), Entry(START, Cw), pins)
    case CCW_2 => Row(To(CW_3), To(CCW_2), To(CW_3), Entry(START, Ccw), pins)
    case CCW_3 => Row(To(START), To(START), To(START), To(START), pins)
    case ILLEGAL => Row(To(START), To(START), To(START), To(START), pins)
  }

  function Table(half: bool, state: State, pins: Pins): Entry {
    if half then HalfStepTable(state, pins) else FullStepTable(state, pins)
  }

  /** The direction flag as a signed step. */
  function Sign(dir: Dir): int {
    match dir
    case Still => 0
    case Cw => 1
    case Ccw => -1
  }

  // ---------- Range modes ----------

  /** Python's floor division, for a positive divisor. */
  function FloorDiv(a: int, b: int): int
    requires b > 0
  {
    a / b
  }

  /** `_wrap`. */
  function Wrap(value: int, incr: int, lower: int, upper: int): int
    requires lower <= upper
  {
    var range := upper - lower + 1;
    var moved := value + incr;
    var lifted := if moved < lower then moved + range * (FloorDiv(lower - moved, range) + 1) else moved;
    lower + (lifted - lower) % range
  }

  /** `_bound`. */
  function Bound(value: int, incr: int, lower: int, upper: int): int {
    var raised := if lower < value + incr then value + incr else lower;
    if raised < upper then raised else upper
  }

  /** Inside the range the sum is exact; what goes beyond a bound stops there. */
  lemma BoundIs(value: int, incr: int, lower: int, upper: int)
    requires lower <= upper
    ensures lower <= value + incr <= upper ==> Bound(value, incr, lower, upper) == value + incr
    ensures value + incr < lower ==> Bound(value, incr, lower, upper) == lower
    ensures value + incr > upper ==> Bound(value, incr, lower, upper) == upper
  {
  }

  datatype RangeMode = Unbounded | Wrapped | Bounded

  function Advance(mode: RangeMode, value: int, incr: int, lower: int, upper: int): int
    requires mode.Wrapped? ==> lower <= upper
  {
    match mode
    case Wrapped => Wrap(value, incr, lower, upper)
    case Bounded => Bound(value, incr, lower, upper)
    case Unbounded => value + incr
  }

  // ---------- The decoder object ----------

  function Complement(pins: Pins): Pins {
    match pins
    case P00 => P11
    case P01 => P10
    case P10 => P01
    case P11 => P00
  }

  /** CLK is the higher bit. */
  function Levels(clk: bool, dt: bool): Pins { if clk then if dt then P11 else P10 else if dt then P01 else P00 }

  /** Inverting exchanges the levels of both lines, so it undoes itself. */
  lemma ComplementIs(clk: bool, dt: bool)
    ensures Complement(Levels(clk, dt)) == Levels(!clk, !dt) && Complement(Complement(Levels(clk, dt))) == Levels(clk, dt)
  {
  }

  class Rotary {
    var minVal: int
    var maxVal: int
    var incr: int
    var reverse: int
    var mode: RangeMode
    var value: int
    var state: Entry
    const halfStep: bool
    const invert: bool

    constructor (minVal: int, maxVal: int, incr: int, reverse: bool, mode: RangeMode, halfStep: bool, invert: bool)
      ensures this.minVal == minVal && this.maxVal == maxVal && this.incr == incr && this.mode == mode
      ensures this.halfStep == halfStep && this.invert == invert
      ensures this.reverse == (if reverse then -1 else 1)
      ensures value == minVal && state == To(START)
    {
      this.minVal, this.maxVal, this.incr := minVal, maxVal, incr;
      this.reverse := if reverse then -1 else 1;
      this.mode, this.value, this.state := mode, minVal, To(START);
      this.halfStep, this.invert := halfStep, invert;
    }

    /** `_process_rotary_pins`; the result says whether the listeners are called. */
    method ProcessPins(pins: Pins) returns (changed: bool)
      requires mode.Wrapped? ==> minVal <= maxVal
      modifies this`state, this`value
      ensures state == Table(halfStep, old(state).next, if invert then Complement(pins) else pins)
      ensures value == Advance(mode, old(value), Sign(state.dir) * incr * reverse, minVal, maxVal)
      ensures changed <==> value != old(value)
    {
      var oldValue := value;
      var clkDt := pins;
      if invert {
        clkDt := Complement(clkDt);
      }
      state := if halfStep then HalfStepTable(state.next, clkDt) else FullStepTable(state.next, clkDt);
      var step := 0;
      if state.dir == Cw {
        step := incr;
      } else if state.dir == Ccw {
        step := -incr;
      }
      assert step == Sign(state.dir) * incr;
      step := step * reverse;
      if mode.Wrapped? {
        value := Wrap(value, step, minVal, maxVal);
      } else if mode.Bounded? {
        value := Bound(value, step, minVal, maxVal);
      } else {
        value := value + step;
      }
      changed := oldValue != value;
    }
  }

  // ---------- Walks of the shaft ----------

  /** The pin levels at quarter turn `q` of the shaft: a two-bit Gray code whose detent (q = 0) is 11. */
  function GrayCode(q: int): Pins {
    if q % 4 == 0 then P11 else if q % 4 == 1 then P10 else if q % 4 == 2 then P00 else P01
  }

  /** Consecutive positions differ in at most one line; bounce is any going back and forth. */
  predicate IsWalk(start: int, walk: seq<int>)
    decreases |walk|
  {
    walk == [] || (start - 1 <= walk[0] <= start + 1 && IsWalk(walk[0], walk[1..]))
  }

  datatype Decoder = Decoder(state: State, count: int)

  function Observe(half: bool, d: Decoder, q: int): Decoder {
    var e := Table(half, d.state, GrayCode(q));
    Decoder(e.next, d.count + Sign(e.dir))
  }

  function Run(half: bool, d: Decoder, walk: seq<int>): Decoder
    decreases |walk|
  {
    if walk == [] then d else Run(half, Observe(half, d, walk[0]), walk[1..])
  }

  /** Full-step mode: the state is the exact distance from the last counted detent. */
  predicate FullStepInv(d: Decoder, q: int) {
    match d.state
    case START => q - 4 * d.count == 0
    case CW_1 => q - 4 * d.count == 1
    case CW_2 => q - 4 * d.count == 2
    case CW_3 => q - 4 * d.count == 3
    case CCW_1 => q - 4 * d.count == -1
    case CCW_2 => q - 4 * d.count == -2
    case CCW_3 => q - 4 * d.count == -3
    case ILLEGAL => false
  }

  /** Half-step mode: detents at 11 and 00; this table counts down when full-step mode counts up. */
  predicate HalfStepInv(d: Decoder, q: int) {
    match d.state
    case START => -q - 2 * d.count == 0 && GrayCode(q) == P11
    case CW_3 => -q - 2 * d.count == 0 && GrayCode(q) == P00
    case CW_1 => -q - 2 * d.count == -1 && GrayCode(q) == P10
    case CCW_2 => -q - 2 * d.count == -1 && GrayCode(q) == P01
    case CW_2 => -q - 2 * d.count == 1 && GrayCode(q) == P01
    case CCW_1 => -q - 2 * d.count == 1 && GrayCode(q) == P10
    case _ => false
  }

  lemma GrayMod(q: int, k: int, r: int)
    requires q - 4 * k == r && -4 <= r <= 4
    ensures GrayCode(q) == GrayCode(r)
  {
  }

  lemma FullStepKeeps(d: Decoder, q: int, next: int)
    requires FullStepInv(d, q) && q - 1 <= next <= q + 1
    ensures FullStepInv(Observe(false, d, next), next)
  {
    GrayMod(next, d.count, next - 4 * d.count);
  }

  lemma GrayNeighbours(q: int)
    ensures GrayCode(q) == P11 ==> GrayCode(q + 1) == P10 && GrayCode(q - 1) == P01
    ensures GrayCode(q) == P10 ==> GrayCode(q + 1) == P00 && GrayCode(q - 1) == P11
    ensures GrayCode(q) == P00 ==> GrayCode(q + 1) == P01 && GrayCode(q - 1) == P10
    ensures GrayCode(q) == P01 ==> GrayCode(q + 1) == P11 && GrayCode(q - 1) == P00
  {
  }

  lemma HalfStepKeeps(d: Decoder, q: int, next: int)
    requires HalfStepInv(d, q) && q - 1 <= next <= q + 1
    ensures HalfStepInv(Observe(true, d, next), next)
  {
    hide GrayCode;
    GrayNeighbours(q);
    if next == q {
    } else if next == q + 1 {
    } else {
    }
  }

  function Last(start: int, walk: seq<int>): int {
    if walk == [] then start else walk[|walk| - 1]
  }

  lemma FullStepExact(d: Decoder, q: int)
    requires FullStepInv(d, q)
    ensures -4 < q - 4 * d.count < 4
    ensures GrayCode(q) == P11 ==> q == 4 * d.count
  {
    GrayMod(q, d.count, q - 4 * d.count);
  }

  lemma HalfStepExact(d: Decoder, q: int)
    requires HalfStepInv(d, q)
    ensures -1 <= -q - 2 * d.count <= 1
    ensures GrayCode(q) == P00 || GrayCode(q) == P11 ==> -q == 2 * d.count
  {
  }

  lemma {:induction false} RunKeeps(half: bool, d: Decoder, start: int, walk: seq<int>)
    requires IsWalk(start, walk)
    requires if half then HalfStepInv(d, start) else FullStepInv(d, start)
    ensures if half then HalfStepInv(Run(half, d, walk), Last(start, walk)) else FullStepInv(Run(half, d, walk), Last(start, walk))
    decreases |walk|
  {
    if walk == [] {
    } else {
      if half {
        HalfStepKeeps(d, start, walk[0]);
      } else {
        FullStepKeeps(d, start, walk[0]);
      }
      RunKeeps(half, Observe(half, d, walk[0]), walk[0], walk[1..]);
    }
  }

  /** Full-step mode never drifts: after any walk from a detent, bounce included, the position is less
      than one detent away from the count, and at every 11 detent the count is exact. */
  lemma FullStepNeverDrifts(d: Decoder, from: int, walk: seq<int>)
    requires d.state == START && from == 4 * d.count && IsWalk(from, walk)
    ensures var end, q := Run(false, d, walk), Last(from, walk);
            -4 < q - 4 * end.count < 4 && (GrayCode(q) == P11 ==> q == 4 * end.count)
  {
    RunKeeps(false, d, from, walk);
    FullStepExact(Run(false, d, walk), Last(from, walk));
  }

  /** Half-step mode never drifts: the position is at most one quarter turn from the count,
      and exact at both kinds of detent. */
  lemma HalfStepNeverDrifts(d: Decoder, from: int, walk: seq<int>)
    requires d.state == START && GrayCode(from) == P11 && -from == 2 * d.count && IsWalk(from, walk)
    ensures var end, q := Run(true, d, walk), Last(from, walk);
            -1 <= -q - 2 * end.count <= 1 && (GrayCode(q) == P00 || GrayCode(q) == P11 ==> -q == 2 * end.count)
  {
    RunKeeps(true, d, from, walk);
    HalfStepExact(Run(true, d, walk), Last(from, walk));
  }

  /** Whatever the state was, also after a reset in mid-turn, the first 11 detent
      brings the decoder back into step. */
  lemma DetentResynchronises(half: bool, d: Decoder, q: int)
    requires q % 4 == 0
    ensures Observe(half, d, q).state == START
  {
  }

  lemma {:induction false} RunCountShift(half: bool, d: Decoder, walk: seq<int>, extra: int)
    ensures Run(half, d.(count := d.count + extra), walk) ==
            Run(half, d, walk).(count := Run(half, d, walk).count + extra)
    decreases |walk|
  {
    if walk == [] {
    } else {
      RunCountShift(half, Observe(half, d, walk[0]), walk[1..], extra);
    }
  }

  /** The net count of a movement between two 11 detents: one per cycle of the Gray code, or two in half-step mode,
      whose table counts the other way. */
  function Turns(half: bool, from: int, to: int): int {
    if half then (from - to) / 2 else (to - from) / 4
  }

  /** From any state at all, between two visits of an 11 detent the count changes by exactly the
      number of detents between them. */
  lemma CountBetweenDetents(half: bool, d: Decoder, from: int, walk: seq<int>)
    requires from % 4 == 0 && IsWalk(from, walk) && Last(from, walk) % 4 == 0
    ensures var first := Observe(half, d, from);
            Run(half, first, walk).count - first.count == Turns(half, from, Last(from, walk))
  {
    hide Run, IsWalk, Last, Observe, FullStepInv, HalfStepInv;
    var first := Observe(half, d, from);
    DetentResynchronises(half, d, from);
    var e := Decoder(START, DetentCount(half, from));
    RunCountShift(half, e, walk, first.count - e.count);
    InStepAtDetent(half, e, from);
    RunKeeps(half, e, from, walk);
    InStepAtDetent(half, Run(half, e, walk), Last(from, walk));
    TurnsCounted(half, from, Last(from, walk));
  }

  /** The count of a decoder in step at an 11 detent. */
  function DetentCount(half: bool, q: int): int { if half then -q / 2 else q / 4 }

  lemma DetentCountIs(half: bool, q: int, k: int)
    requires q == 4 * k
    ensures DetentCount(half, q) == if half then -2 * k else k
  {
    if half {
      DivModUnique(-q, 2, -2 * k, 0);
    } else {
      DivModUnique(q, 4, k, 0);
    }
  }

  lemma QuarterTurns(q: int) returns (k: int)
    requires q % 4 == 0
    ensures q == 4 * k && GrayCode(q) == P11
  {
    k := q / 4;
    DivModIdentity(q, 4);
  }

  lemma InStepAtDetent(half: bool, d: Decoder, q: int)
    requires q % 4 == 0
    ensures d == Decoder(START, DetentCount(half, q)) ==> if half then HalfStepInv(d, q) else FullStepInv(d, q)
    ensures (if half then HalfStepInv(d, q) else FullStepInv(d, q)) ==> d.count == DetentCount(half, q)
  {
    hide GrayCode, DetentCount;
    var k := QuarterTurns(q);
    DetentCountIs(half, q, k);
    if half {
      if HalfStepInv(d, q) {
        HalfStepExact(d, q);
      }
    } else if FullStepInv(d, q) {
      FullStepExact(d, q);
    }
  }

  lemma TurnsCounted(half: bool, from: int, to: int)
    requires from % 4 == 0 && to % 4 == 0
    ensures DetentCount(half, to) - DetentCount(half, from) == Turns(half, from, to)
  {
    hide DetentCount;
    var j := QuarterTurns(from);
    var k := QuarterTurns(to);
    DetentCountIs(half, from, j);
    DetentCountIs(half, to, k);
    if half {
      DivModUnique(from - to, 2, 2 * (j - k), 0);
    } else {
      DivModUnique(to - from, 4, k - j, 0);
    }
  }

  // ---------- Values ----------

  /** The residue of `v` in the range `lower..upper`. */
  function Residue(v: int, lower: int, upper: int): int
    requires lower <= upper
  {
    lower + (v - lower) % (upper - lower + 1)
  }

  /** `_wrap` is arithmetic modulo the range, for any step, also far below the lower bound. */
  lemma WrapIsResidue(value: int, incr: int, lower: int, upper: int)
    requires lower <= upper
    ensures Wrap(value, incr, lower, upper) == Residue(value + incr, lower, upper)
    ensures lower <= Wrap(value, incr, lower, upper) <= upper
  {
    var range := upper - lower + 1;
    var moved := value + incr;
    if moved < lower {
      var k := FloorDiv(lower - moved, range) + 1;
      ModPlusMultiple(moved - lower, k, range);
      assert moved + range * k - lower == moved - lower + range * k;
    }
  }

  lemma ResidueTwice(v: int, more: int, lower: int, upper: int)
    requires lower <= upper
    ensures Residue(Residue(v, lower, upper) + more, lower, upper) == Residue(v + more, lower, upper)
  {
    ModCompose(v - lower, more, upper - lower + 1);
    assert v - lower + more == v + more - lower;
  }

  lemma ResidueInside(v: int, lower: int, upper: int)
    requires lower <= v <= upper
    ensures Residue(v, lower, upper) == v
  {
    DivModUnique(v - lower, upper - lower + 1, 0, v - lower);
  }

  function Scale(count: int, unit: int): int { count * unit }

  /** The signed value increments that a walk of the shaft causes, one per pin change. */
  function Increments(half: bool, d: Decoder, unit: int, walk: seq<int>): seq<int>
    decreases |walk|
  {
    if walk == [] then []
    else
      var e := Table(half, d.state, GrayCode(walk[0]));
      var next := Observe(half, d, walk[0]);
      [Scale(Sign(e.dir), unit)] + Increments(half, next, unit, walk[1..])
  }

  function Sum(xs: seq<int>): int {
    if xs == [] then 0 else xs[0] + Sum(xs[1..])
  }

  lemma ScaleAdds(a: int, b: int, unit: int)
    ensures Scale(a, unit) + Scale(b, unit) == Scale(a + b, unit)
    ensures Scale(0, unit) == 0
  {
    Distribute(a, b, unit);
  }

  /** The increments of a walk add up to (net count) x (signed unit). */
  lemma {:induction false} IncrementsAddUp(half: bool, d: Decoder, unit: int, walk: seq<int>)
    ensures Sum(Increments(half, d, unit, walk)) == Scale(Run(half, d, walk).count - d.count, unit)
    decreases |walk|
  {
    hide Table, Scale, Sign;
    if walk == [] {
      ScaleAdds(0, 0, unit);
    } else {
      var e := Table(half, d.state, GrayCode(walk[0]));
      var next := Observe(half, d, walk[0]);
      var rest := Increments(half, next, unit, walk[1..]);
      IncrementsAddUp(half, next, unit, walk[1..]);
      ScaleAdds(Sign(e.dir), Run(half, next, walk[1..]).count - next.count, unit);
      assert Increments(half, d, unit, walk)[1..] == rest;
    }
  }

  /** The value after a run of increments, as `ProcessPins` applies them one by one. */
  function RunValue(mode: RangeMode, value: int, lower: int, upper: int, incs: seq<int>): int
    requires lower <= upper
    decreases |incs|
  {
    if incs == [] then value
    else RunValue(mode, Advance(mode, value, incs[0], lower, upper), lower, upper, incs[1..])
  }

  lemma {:induction false} WrapRunSum(value: int, lower: int, upper: int, incs: seq<int>)
    requires lower <= upper && (incs == [] ==> lower <= value <= upper)
    ensures RunValue(Wrapped, value, lower, upper, incs) == Residue(value + Sum(incs), lower, upper)
    decreases |incs|
  {
    hide Wrap, Residue;
    if incs == [] {
      ResidueInside(value, lower, upper);
    } else {
      WrapIsResidue(value, incs[0], lower, upper);
      ResidueTwice(value + incs[0], Sum(incs[1..]), lower, upper);
      WrapRunSum(Wrap(value, incs[0], lower, upper), lower, upper, incs[1..]);
      assert value + Sum(incs) == value + incs[0] + Sum(incs[1..]);
    }
  }

  /** In wrap mode the value after any run of pin changes is the starting value moved by
      (net count) x (signed increment), modulo the range. */
  lemma WrapRun(half: bool, d: Decoder, value: int, unit: int, lower: int, upper: int, walk: seq<int>)
    requires lower <= value <= upper
    ensures RunValue(Wrapped, value, lower, upper, Increments(half, d, unit, walk)) ==
            Residue(value + Scale(Run(half, d, walk).count - d.count, unit), lower, upper)
  {
    WrapRunSum(value, lower, upper, Increments(half, d, unit, walk));
    IncrementsAddUp(half, d, unit, walk);
  }

  /** In bounded mode no run of increments takes the value out of its range, and a run all of whose
      partial sums stay inside the range is the plain sum. */
  lemma {:induction false} BoundedRun(value: int, lower: int, upper: int, incs: seq<int>)
    requires lower <= value <= upper
    ensures lower <= RunValue(Bounded, value, lower, upper, incs) <= upper
    ensures incs != [] && value + incs[0] > upper ==>
              RunValue(Bounded, value, lower, upper, incs) == RunValue(Bounded, upper, lower, upper, incs[1..])
    ensures incs != [] && value + incs[0] < lower ==>
              RunValue(Bounded, value, lower, upper, incs) == RunValue(Bounded, lower, lower, upper, incs[1..])
    ensures StaysInside(value, lower, upper, incs) ==> RunValue(Bounded, value, lower, upper, incs) == value + Sum(incs)
    decreases |incs|
  {
    if incs == [] {
    } else {
      assert StaysInside(value, lower, upper, incs) ==>
          lower <= value + incs[0] <= upper && StaysInside(value + incs[0], lower, upper, incs[1..]) by {
        if StaysInside(value, lower, upper, incs) {
          assert incs[1..] == [] || StaysInside(value + incs[0], lower, upper, incs[1..]);
        }
      }
      BoundedRun(Bound(value, incs[0], lower, upper), lower, upper, incs[1..]);
    }
  }

  predicate StaysInside(value: int, lower: int, upper: int, incs: seq<int>)
    decreases |incs|
  {
    lower <= value <= upper && (incs == [] || StaysInside(value + incs[0], lower, upper, incs[1..]))
  }

  lemma {:induction false} UnboundedRun(value: int, lower: int, upper: int, incs: seq<int>)
    requires lower <= upper
    ensures RunValue(Unbounded, value, lower, upper, incs) == value + Sum(incs)
    decreases |incs|
  {
    if incs == [] {
    } else {
      UnboundedRun(value + incs[0], lower, upper, incs[1..]);
    }
  }

  lemma CountFromRest(half: bool, walk: seq<int>)
    requires IsWalk(0, walk) && Last(0, walk) % 4 == 0
    ensures Run(half, Decoder(START, 0), walk).count == Turns(half, 0, Last(0, walk))
  {
    hide Run, IsWalk, Last;
    if half {
      HalfStepNeverDrifts(Decoder(START, 0), 0, walk);
    } else {
      FullStepNeverDrifts(Decoder(START, 0), 0, walk);
    }
  }

  /** What a new encoder shows once its shaft, at rest in a detent when it was made, has been moved to a detent in
      any way, bounce included: its lower bound plus the net number of detents times the increment, in each of the
      three range modes. */
  lemma FreshValue(half: bool, unit: int, lower: int, upper: int, walk: seq<int>)
    requires lower <= upper && IsWalk(0, walk) && Last(0, walk) % 4 == 0
    ensures var incs := Increments(half, Decoder(START, 0), unit, walk);
            var moved := Scale(Turns(half, 0, Last(0, walk)), unit);
            && RunValue(Unbounded, lower, lower, upper, incs) == lower + moved
            && RunValue(Wrapped, lower, lower, upper, incs) == Residue(lower + moved, lower, upper)
            && (StaysInside(lower, lower, upper, incs) ==> RunValue(Bounded, lower, lower, upper, incs) == lower + moved)
  {
    hide *;
    var d := Decoder(START, 0);
    CountFromRest(half, walk);
    IncrementsAddUp(half, d, unit, walk);
    var incs := Increments(half, d, unit, walk);
    UnboundedRun(lower, lower, upper, incs);
    WrapRunSum(lower, lower, upper, incs);
    BoundedRun(lower, lower, upper, incs);
  }
}
