/** The RC-5 and RC-6 mode 0 decoders of `ir_rx/philips.py` on top of the edge capture of `ir_rx/__init__.py`. */
module Philips {
  import opened Arith
  import opened Biphase
  import opened BitStrings

  // ---------- Time ----------

  const TICKS_PERIOD := 0x4000_0000
  const HALF_PERIOD := 0x2000_0000

  /** `utime.ticks_diff`. */
  function TicksDiff(end: int, start: int): int {
    (end - start + HALF_PERIOD) % TICKS_PERIOD - HALF_PERIOD
  }

  /** The wrapped counter still gives true intervals, if they are shorter than half its period. */
  lemma TicksDiffIs(t0: int, t1: int)
    requires 0 <= t1 - t0 < 0x2000_0000
    ensures TicksDiff(t1 % 0x4000_0000, t0 % 0x4000_0000) == t1 - t0
  {
    var a, b := t0 / TICKS_PERIOD, t1 / TICKS_PERIOD;
    var d := t1 - t0 + HALF_PERIOD;
    assert t1 % TICKS_PERIOD - t0 % TICKS_PERIOD + HALF_PERIOD == d + TICKS_PERIOD * (a - b);
    ModPlusMultiple(d, a - b, TICKS_PERIOD);
    DivModUnique(d, TICKS_PERIOD, 0, d);
  }

  // ---------- Results ----------

  const BADSTART := -2
  const BADBLOCK := -3
  const OVERRUN := -5

  datatype Decoded = Word(val: int, addr: int, ctrl: int) | Error(code: int)

  datatype Report = Callback(cmd: int, addr: int, ext: int) | ErrorCallback(code: int)

  /** `do_callback` with threshold 0. */
  function ReportOf(d: Decoded): Report {
    match d
    case Word(val, addr, ctrl) => if val >= 0 then Callback(val, addr, ctrl) else ErrorCallback(val)
    case Error(code) => if code >= 0 then Callback(code, 0, 0) else ErrorCallback(code)
  }

  function Width(times: seq<int>, x: nat): int
    requires x + 1 < |times|
  {
    TicksDiff(times[x + 1], times[x])
  }

  // ---------- The decoding walk shared by both protocols ----------

  /** The widths a decoder accepts: outside `lo..hi` is an error, below `split` is one half-bit. */
  datatype Window = Window(lo: int, split: int, hi: int)

  const RC5_WINDOW := Window(500, 1334, 2100)
  const RC6_WINDOW := Window(222, 666, 1111)

  datatype Walked = Walked(v: nat) | Lost

  function Bit(b: bool): nat { if b then 1 else 0 }

  /** Bits are read off until there are `total`; `x` is the index of an edge in the middle of the last bit read. */
  function Walk(times: seq<int>, w: Window, x: nat, bit: bool, v: nat, bits: nat, total: nat): Walked
    decreases total - bits
  {
    if bits >= total then Walked(v)
    else if x + 2 > |times| || !(w.lo < Width(times, x) < w.hi) then Lost
    else
      var short := Width(times, x) < w.split;
      var next := if short then bit else !bit;
      Walk(times, w, if short then x + 2 else x + 1, next, 2 * v + Bit(next), bits + 1, total)
  }

  predicate Fits(width: int, units: nat, w: Window) {
    if units == 1 then w.lo < width < w.split else if units == 2 then w.split <= width < w.hi else true
  }

  /** The widths from edge `x` on are a jittered version of `runs`. */
  ghost predicate Jittered(times: seq<int>, x: nat, runs: seq<nat>, w: Window) {
    && |times| == x + |runs| + 1
    && forall k :: 0 <= k < |runs| ==> Fits(Width(times, x + k), runs[k], w)
  }

  lemma JitteredTail(times: seq<int>, x: nat, runs: seq<nat>, w: Window, n: nat)
    requires Jittered(times, x, runs, w) && n <= |runs|
    ensures Jittered(times, x + n, runs[n..], w)
  {
    forall k | 0 <= k < |runs[n..]| ensures Fits(Width(times, x + n + k), runs[n..][k], w) {
      assert runs[n..][k] == runs[n + k];
      assert Fits(Width(times, x + (n + k)), runs[n + k], w);
    }
  }

  /** Following a jittered waveform from the middle of one bit, the walk reads off exactly the bits that come next. */
  lemma {:induction false} WalkReads(times: seq<int>, w: Window, x: nat, prev: bool, v: nat, done: nat, bits: seq<bool>, rising: bool)
    requires Jittered(times, x, BitRuns(prev, bits, rising), w) && w.lo < w.split < w.hi
    ensures Walk(times, w, x, prev, v, done, done + |bits|) == Walked(Extended(v, bits))
    decreases |bits|
  {
    hide TicksDiff;
    var runs := BitRuns(prev, bits, rising);
    if bits == [] {
    } else {
      assert Fits(Width(times, x + 0), runs[0], w);
      if bits[0] == prev {
        JitteredTail(times, x, runs, w, 2);
        assert runs[2..] == BitRuns(bits[0], bits[1..], rising);
        WalkReads(times, w, x + 2, bits[0], 2 * v + Bit(bits[0]), done + 1, bits[1..], rising);
      } else {
        JitteredTail(times, x, runs, w, 1);
        assert runs[1..] == BitRuns(bits[0], bits[1..], rising);
        WalkReads(times, w, x + 1, bits[0], 2 * v + Bit(bits[0]), done + 1, bits[1..], rising);
      }
    }
  }

  /** `v` with more binary digits appended. */
  function Extended(v: nat, bits: seq<bool>): nat
    decreases |bits|
  {
    if bits == [] then v else Extended(2 * v + Bit(bits[0]), bits[1..])
  }

  lemma {:induction false} ExtendedValue(head: seq<bool>, bits: seq<bool>)
    ensures Extended(Value(head), bits) == Value(head + bits)
    decreases |bits|
  {
    hide Value;
    if bits == [] {
      assert head + bits == head;
    } else {
      ValueSnoc(head, bits[0]);
      ExtendedValue(head + [bits[0]], bits[1..]);
      assert head + [bits[0]] + bits[1..] == head + bits;
    }
  }

  // ---------- RC-5 ----------

  function Rc5Fields(v: nat): Decoded {
    Word(v % 64 + (if v / 4096 % 2 == 1 then 0 else 64), v / 64 % 32, v / 2048 % 2)
  }

  /** The result of `RC5_IR.decode` on the captured edge times. */
  function Rc5Decode(times: seq<int>): Decoded {
    if !(14 <= |times| <= 28) then Error(if |times| > 28 then OVERRUN else BADSTART)
    else
      match Walk(times, RC5_WINDOW, 0, true, 1, 1, 14)
      case Lost => Error(BADBLOCK)
      case Walked(v) => Rc5Fields(v)
  }

  predicate Rc5Command(cmd: nat, addr: nat, ctrl: nat) { cmd < 128 && addr < 32 && ctrl < 2 }

  /** The 14-bit word: a one, the inverse of command bit 6, the toggle bit, five address and six command bits. */
  function Rc5Word(cmd: nat, addr: nat, ctrl: nat): nat {
    8192 + (if cmd < 64 then 4096 else 0) + 2048 * ctrl + 64 * addr + cmd % 64
  }

  lemma Rc5FieldsOfWord(cmd: nat, addr: nat, ctrl: nat)
    requires Rc5Command(cmd, addr, ctrl)
    ensures Rc5Fields(Rc5Word(cmd, addr, ctrl)) == Word(cmd, addr, ctrl)
    ensures 8192 <= Rc5Word(cmd, addr, ctrl) < 16384
  {
    var v, s2 := Rc5Word(cmd, addr, ctrl), if cmd < 64 then 1 else 0;
    FieldAt(v, 1, 64, 128 + 64 * s2 + 32 * ctrl + addr, cmd % 64, 0);
    FieldAt(v, 64, 32, 4 + 2 * s2 + ctrl, addr, cmd % 64);
    FieldAt(v, 2048, 2, 2 + s2, ctrl, 64 * addr + cmd % 64);
    FieldAt(v, 4096, 2, 1, s2, 2048 * ctrl + 64 * addr + cmd % 64);
  }

  /** A field of a number is found by division and remainder. */
  lemma FieldAt(v: nat, unit: nat, size: nat, high: nat, field: nat, low: nat)
    requires low < unit && field < size && v == unit * (size * high + field) + low
    ensures v / unit % size == field
  {
    DivModUnique(v, unit, size * high + field, low);
    DivModUnique(size * high + field, size, high, field);
  }

  /** Captured times of edges that happen at `edges` on an unbounded clock. */
  function Captured(edges: seq<nat>): (times: seq<int>)
    ensures |times| == |edges|
  {
    seq(|edges|, k requires 0 <= k < |edges| => edges[k] % 0x4000_0000)
  }

  ghost predicate Increasing(edges: seq<nat>) {
    forall k :: 0 <= k < |edges| - 1 ==> 0 <= edges[k + 1] - edges[k] < 0x2000_0000
  }

  lemma CapturedWidth(edges: seq<nat>, k: nat)
    requires k + 1 < |edges| && Increasing(edges)
    ensures Width(Captured(edges), k) == edges[k + 1] - edges[k]
  {
    TicksDiffIs(edges[k], edges[k + 1]);
  }

  /** Edges of a waveform with the given runs, each width anywhere inside the window of its run. */
  ghost predicate EdgeJitter(edges: seq<nat>, runs: seq<nat>, w: Window) {
    && |edges| == |runs| + 1 && Increasing(edges)
    && forall k :: 0 <= k < |runs| ==> Fits(edges[k + 1] - edges[k], runs[k], w)
  }

  lemma JitterCaptured(edges: seq<nat>, runs: seq<nat>, w: Window)
    requires EdgeJitter(edges, runs, w)
    ensures Jittered(Captured(edges), 0, runs, w)
  {
    hide TicksDiff, Fits;
    forall k | 0 <= k < |runs| ensures Fits(Width(Captured(edges), 0 + k), runs[k], w) {
      CapturedWidth(edges, k);
    }
  }

  lemma {:induction false} TopBit(v: nat, n: nat)
    requires Pow2(n) <= v < 2 * Pow2(n)
    ensures Bits(v, n + 1)[0]
    decreases n
  {
    if n == 0 {
    } else {
      TopBit(v / 2, n - 1);
      assert Bits(v, n + 1)[0] == Bits(v / 2, n)[0];
    }
  }

  lemma Pow2Values()
    ensures Pow2(13) == 8192 && Pow2(14) == 16384 && Pow2(17) == 131072
  {
    assert Pow2(4) == 16;
    assert Pow2(6) == 4 * Pow2(4);
    assert Pow2(8) == 4 * Pow2(6);
    assert Pow2(10) == 4 * Pow2(8);
    assert Pow2(12) == 4 * Pow2(10);
    assert Pow2(14) == 4 * Pow2(12);
    assert Pow2(16) == 4 * Pow2(14);
  }

  /** A word whose first bit is a one starts at the edge in the middle of that bit. */
  lemma OneFirst(bits: seq<bool>)
    requires bits != [] && bits[0]
    ensures EdgeRuns(Cells(bits, true)) == BitRuns(true, bits[1..], true)
  {
    hide Runs, BitRuns;
    var rest := Cells(bits[1..], true);
    assert Cells(bits, true) == [false] + ([true] + rest);
    RunsSame([true] + rest, false, 0);
    RunsChange(rest, false, 1);
    BitRunsAreRuns(true, bits[1..], true);
  }

  /** RC-5: for every command, address and toggle bit, and edges more than 500 and less than 1334 microseconds apart for
      one half-bit, at least 1334 and less than 2100 for two, decoding the captured edges gives the fields back. */
  lemma Rc5RoundTrip(cmd: nat, addr: nat, ctrl: nat, edges: seq<nat>)
    requires Rc5Command(cmd, addr, ctrl)
    requires EdgeJitter(edges, EdgeRuns(Cells(Bits(Rc5Word(cmd, addr, ctrl), 14), true)), Window(500, 1334, 2100))
    ensures Rc5Decode(Captured(edges)) == Word(cmd, addr, ctrl)
  {
    hide Runs, EdgeRuns, BitRuns, Bits, Value, Walk, Rc5Word, Rc5Fields, Pow2, EdgeJitter, Cells;
    var word := Rc5Word(cmd, addr, ctrl);
    var bits := Bits(word, 14);
    Rc5FieldsOfWord(cmd, addr, ctrl);
    Pow2Values();
    TopBit(word, 13);
    OneFirst(bits);
    var runs := BitRuns(true, bits[1..], true);
    JitterCaptured(edges, runs, RC5_WINDOW);
    BitRunsLength(true, bits[1..], true);
    WalkReads(Captured(edges), RC5_WINDOW, 0, true, 1, 1, bits[1..], true);
    ExtendedValue([true], bits[1..]);
    OneValue();
    assert [true] + bits[1..] == bits;
    ValueOfBits(word, 14);
  }

  lemma OneValue()
    ensures Value([true]) == 1
  {
    assert [true][..0] == [];
  }

  // ---------- RC-6 mode 0 ----------

  datatype Limits = Limits(lo: int, hi: int)

  const HEADER := [Limits(1800, 4000), Limits(593, 1333), Limits(222, 750), Limits(593, 1333),
                   Limits(222, 750), Limits(222, 750), Limits(222, 750), Limits(222, 750)]

  function Inside(width: int, l: Limits): bool { l.lo < width < l.hi }

  function HeaderOk(times: seq<int>, from: nat): bool
    requires |times| > 8
    decreases 8 - from
  {
    from >= 8 || (Inside(Width(times, from), HEADER[from]) && HeaderOk(times, from + 1))
  }

  function Rc6Fields(v: nat): Decoded {
    Word(v % 256, v / 256 % 256, v / 65536 % 2)
  }

  /** The part of `RC6_M0.decode` after the header. The toggle bit is twice as wide as the others. */
  function Rc6Walked(times: seq<int>): Walked
    requires |times| > 11
  {
    if !(222 < Width(times, 8) < 1555) then Lost
    else
      var toggle := !(Width(times, 8) < 889);
      var x := if toggle then 9 else 10;
      if !(222 < Width(times, x) < 1555) then Lost
      else
        var short := Width(times, x) < 1111;
        var bit := if short then toggle else !toggle;
        Walk(times, RC6_WINDOW, if short then x + 2 else x + 1, bit, 2 * Bit(toggle) + Bit(bit), 2, 17)
  }

  /** The result of `RC6_M0.decode` on the captured edge times. */
  function Rc6Decode(times: seq<int>): Decoded {
    if !(22 <= |times| <= 44) then Error(if |times| > 28 then OVERRUN else BADSTART)
    else if !HeaderOk(times, 0) then Error(BADSTART)
    else
      match Rc6Walked(times)
      case Lost => Error(BADBLOCK)
      case Walked(v) => Rc6Fields(v)
  }

  predicate Rc6Command(cmd: nat, addr: nat, ctrl: nat) { cmd < 256 && addr < 256 && ctrl < 2 }

  /** The 17 bits after the header: toggle, address, command. */
  function Rc6Word(cmd: nat, addr: nat, ctrl: nat): nat { 65536 * ctrl + 256 * addr + cmd }

  lemma Rc6FieldsOfWord(cmd: nat, addr: nat, ctrl: nat)
    requires Rc6Command(cmd, addr, ctrl)
    ensures Rc6Fields(Rc6Word(cmd, addr, ctrl)) == Word(cmd, addr, ctrl) && Rc6Word(cmd, addr, ctrl) < 131072
  {
    var v := Rc6Word(cmd, addr, ctrl);
    FieldAt(v, 1, 256, 256 * ctrl + addr, cmd, 0);
    FieldAt(v, 256, 256, ctrl, addr, cmd);
    FieldAt(v, 65536, 2, 0, ctrl, 256 * addr + cmd);
  }

  /** The signal: leader of six units on and two off, start bit 1, mode 000, the double-width toggle bit, the rest. */
  function Rc6Levels(bits: seq<bool>): seq<bool>
    requires bits != []
  {
    Repeat(true, 6) + Repeat(false, 2) + Cells([true, false, false, false], false)
    + Repeat(bits[0], 2) + Repeat(!bits[0], 2) + Cells(bits[1..], false)
  }

  const HEADER_RUNS: seq<nat> := [6, 2, 1, 2, 1, 1, 1, 1]

  /** The runs of an RC-6 transmission, with the toggle bit spelt out. */
  function Rc6Runs(bits: seq<bool>): seq<nat>
    requires bits != []
  {
    HEADER_RUNS + (if bits[0] then [3] else [1, 2]) + Longer(BitRuns(bits[0], bits[1..], false))
  }

  /** Microseconds allowed by position: in the header, for the toggle bit, for the two widths that border on it, and for
      one and two half-bits after that. */
  predicate Rc6Fits(width: int, k: nat, runs: seq<nat>)
    requires k < |runs| && |runs| > 8
  {
    if k == 0 then 1800 < width < 4000
    else if k == 1 || k == 3 then 593 < width < 1333
    else if k < 8 then 222 < width < 750
    else if k == 8 then if runs[8] == 1 then 222 < width < 889 else 889 <= width < 1555
    else if k == 9 && runs[8] == 1 then true
    else if k == 9 || (k == 10 && runs[8] == 1) then if runs[k] == 2 then 222 < width < 1111 else 1111 <= width < 1555
    else Fits(width, runs[k], Window(222, 666, 1111))
  }

  ghost predicate Rc6Jitter(edges: seq<nat>, runs: seq<nat>) {
    && |edges| == |runs| + 1 && Increasing(edges) && |runs| > 8
    && forall k :: 0 <= k < |runs| ==> Rc6Fits(edges[k + 1] - edges[k], k, runs)
  }

  lemma Rc6JitterAt(edges: seq<nat>, runs: seq<nat>, k: nat)
    requires Rc6Jitter(edges, runs) && k < |runs|
    ensures Rc6Fits(Width(Captured(edges), k), k, runs)
  {
    CapturedWidth(edges, k);
  }

  lemma {:induction false} HeaderAccepted(edges: seq<nat>, runs: seq<nat>, from: nat)
    requires Rc6Jitter(edges, runs) && from <= 8
    ensures HeaderOk(Captured(edges), from)
    decreases 8 - from
  {
    hide Width, Rc6Jitter;
    if from < 8 {
      JitterSize(edges, runs);
      Rc6JitterAt(edges, runs, from);
      HeaderAccepted(edges, runs, from + 1);
    } else {
      JitterSize(edges, runs);
    }
  }

  lemma JitterSize(edges: seq<nat>, runs: seq<nat>)
    requires Rc6Jitter(edges, runs)
    ensures |edges| == |runs| + 1 && |runs| > 8
  {
  }

  lemma OneRun(level: bool, n: nat, levels: seq<bool>, all: seq<bool>, run: nat)
    requires n > 0 && all == Repeat(level, n) + levels
    ensures Runs(all, !level, run) == [run] + Runs(levels, level, n)
  {
    RunsTurn(level, n, levels, run);
  }

  /** What follows the header in level form. */
  function AfterHeader(bits: seq<bool>): seq<bool>
    requires bits != []
  {
    Repeat(bits[0], 2) + (Repeat(!bits[0], 2) + Cells(bits[1..], false))
  }

  lemma HeaderCells()
    ensures Cells([true, false, false, false], false) == [true, false, false, true, false, true, false, true]
  {
    assert [true, false, false, false][1..] == [false, false, false];
    assert [false, false, false][1..] == [false, false];
    assert [false, false][1..] == [false];
    assert [false][1..] == [];
  }

  /** From the start bit on: off-runs of two half-bits where two off halves meet. */
  lemma StartBitRuns(tail: seq<bool>, b: seq<bool>, run: nat)
    requires b == Repeat(true, 1) + (Repeat(false, 2) + (Repeat(true, 1) + (Repeat(false, 1) +
                    (Repeat(true, 1) + (Repeat(false, 1) + (Repeat(true, 1) + tail))))))
    ensures Runs(b, false, run) == [run] + ([1] + ([2] + ([1] + ([1] + ([1] + ([1] + Runs(tail, true, 1)))))))
  {
    hide Runs;
    var g := Repeat(true, 1) + tail;
    var f := Repeat(false, 1) + g;
    var e := Repeat(true, 1) + f;
    var d := Repeat(false, 1) + e;
    var c := Repeat(true, 1) + d;
    OneRun(true, 1, tail, g, 1);
    OneRun(false, 1, g, f, 1);
    OneRun(true, 1, f, e, 1);
    OneRun(false, 1, e, d, 1);
    OneRun(true, 1, d, c, 2);
    OneRun(false, 2, c, Repeat(false, 2) + c, 1);
    OneRun(true, 1, Repeat(false, 2) + c, b, run);
  }

  lemma EdgeRunsAre(levels: seq<bool>, runs: seq<nat>)
    requires Runs(levels, false, 0) == [0] + runs
    ensures EdgeRuns(levels) == runs
  {
    assert ([0] + runs)[1..] == runs;
  }

  lemma Regroup(x: seq<nat>)
    ensures [6] + ([2] + ([1] + ([2] + ([1] + ([1] + ([1] + ([1] + x))))))) == HEADER_RUNS + x
  {
  }

  /** The header's level changes, one run at a time. */
  lemma HeaderRuns(bits: seq<bool>)
    requires bits != []
    ensures EdgeRuns(Rc6Levels(bits)) == HEADER_RUNS + Runs(AfterHeader(bits), true, 1)
  {
    hide Runs, EdgeRuns, Rc6Levels, AfterHeader;
    var tail := AfterHeader(bits);
    var b := Repeat(true, 1) + (Repeat(false, 2) + (Repeat(true, 1) + (Repeat(false, 1) +
                (Repeat(true, 1) + (Repeat(false, 1) + (Repeat(true, 1) + tail))))));
    var l := Repeat(false, 2) + b;
    StartBitRuns(tail, b, 2);
    OneRun(false, 2, b, l, 6);
    OneRun(true, 6, l, Repeat(true, 6) + l, 0);
    LevelsRegrouped(bits, l);
    Regroup(Runs(tail, true, 1));
    EdgeRunsAre(Rc6Levels(bits), HEADER_RUNS + Runs(tail, true, 1));
  }

  lemma LevelsRegrouped(bits: seq<bool>, l: seq<bool>)
    requires bits != []
    requires l == Repeat(false, 2) + (Repeat(true, 1) + (Repeat(false, 2) + (Repeat(true, 1) + (Repeat(false, 1) +
                    (Repeat(true, 1) + (Repeat(false, 1) + (Repeat(true, 1) + AfterHeader(bits))))))))
    ensures Rc6Levels(bits) == Repeat(true, 6) + l
  {
    HeaderCells();
    hide Cells;
  }

  lemma Rc6RunsAre(bits: seq<bool>)
    requires |bits| > 1
    ensures EdgeRuns(Rc6Levels(bits)) == Rc6Runs(bits)
  {
    hide Runs, Cells, EdgeRuns, BitRuns, Longer;
    var t, rest := bits[0], Cells(bits[1..], false);
    HeaderRuns(bits);
    RunsLonger(rest, !t, 1);
    BitRunsAreRuns(t, bits[1..], false);
    if t {
      RunsContinue(true, 2, Repeat(false, 2) + rest, 1);
      OneRun(false, 2, rest, Repeat(false, 2) + rest, 3);
    } else {
      OneRun(false, 2, Repeat(true, 2) + rest, AfterHeader(bits), 1);
      OneRun(true, 2, rest, Repeat(true, 2) + rest, 2);
    }
  }

  lemma {:induction false} BitRunsUnits(prev: bool, bits: seq<bool>, rising: bool)
    ensures forall k :: 0 <= k < |BitRuns(prev, bits, rising)| ==> BitRuns(prev, bits, rising)[k] == 1 || BitRuns(prev, bits, rising)[k] == 2
    decreases |bits|
  {
    if bits == [] {
    } else {
      BitRunsUnits(bits[0], bits[1..], rising);
    }
  }

  /** The edge in the middle of the first data bit. */
  function FirstDataEdge(bits: seq<bool>): nat
    requires |bits| > 1
  {
    (if bits[0] then 9 else 10) + (if bits[1] == bits[0] then 2 else 1)
  }

  lemma Rc6RunsTail(bits: seq<bool>)
    requires |bits| > 1
    ensures var x, after := FirstDataEdge(bits), BitRuns(bits[1], bits[2..], false);
            |Rc6Runs(bits)| == x + |after| && Rc6Runs(bits)[x..] == after && (x > 9 || Rc6Runs(bits)[8] != 1) && x > 8
    ensures Rc6Runs(bits)[8] == 1 ==> FirstDataEdge(bits) > 10
  {
    hide BitRuns;
    BitRunsStep(bits[0], bits[1..], false);
    assert bits[1..][0] == bits[1] && bits[1..][1..] == bits[2..];
  }

  /** The part of an RC-6 transmission that the common walk decodes: from the middle of the first data bit. */
  lemma Rc6Tail(edges: seq<nat>, bits: seq<bool>)
    requires |bits| == 17 && Rc6Jitter(edges, Rc6Runs(bits))
    ensures Jittered(Captured(edges), FirstDataEdge(bits), BitRuns(bits[1], bits[2..], false), RC6_WINDOW)
    ensures 22 <= |edges| <= 44
  {
    hide Width, Rc6Jitter, BitRuns, Rc6Runs, FirstDataEdge;
    var runs, after, x := Rc6Runs(bits), BitRuns(bits[1], bits[2..], false), FirstDataEdge(bits);
    JitterSize(edges, runs);
    Rc6RunsTail(bits);
    EdgeRange(bits);
    BitRunsLength(bits[1], bits[2..], false);
    forall k | 0 <= k < |after| ensures Fits(Width(Captured(edges), x + k), after[k], RC6_WINDOW) {
      Rc6JitterAt(edges, runs, x + k);
      assert runs[x..][k] == runs[x + k];
    }
  }

  lemma EdgeRange(bits: seq<bool>)
    requires |bits| > 1
    ensures 10 <= FirstDataEdge(bits) <= 12
  {
  }

  lemma BitRunsStep(prev: bool, bits: seq<bool>, rising: bool)
    requires bits != []
    ensures BitRuns(prev, bits, rising) ==
            (if bits[0] == prev then [1, 1] else [2]) + BitRuns(bits[0], bits[1..], rising)
  {
  }

  /** The two widths around the toggle bit. */
  lemma Rc6Toggle(edges: seq<nat>, bits: seq<bool>)
    requires |bits| > 1 && Rc6Jitter(edges, Rc6Runs(bits))
    ensures |edges| > (if bits[0] then 10 else 11)
    ensures var times := Captured(edges);
            var x := if bits[0] then 9 else 10;
            && 222 < Width(times, 8) < 1555 && (Width(times, 8) < 889 <==> !bits[0])
            && 222 < Width(times, x) < 1555 && (Width(times, x) < 1111 <==> bits[1] == bits[0])
  {
    hide Width, Rc6Jitter, BitRuns;
    var runs := Rc6Runs(bits);
    JitterSize(edges, runs);
    BitRunsStep(bits[0], bits[1..], false);
    Rc6JitterAt(edges, runs, 8);
    Rc6JitterAt(edges, runs, if bits[0] then 9 else 10);
  }

  /** RC-6 mode 0: for every command, address and toggle bit, and edges anywhere inside the decoder's width
      windows, decoding the captured edges gives the fields back, the double-width toggle bit included. */
  lemma Rc6RoundTrip(cmd: nat, addr: nat, ctrl: nat, edges: seq<nat>)
    requires Rc6Command(cmd, addr, ctrl)
    requires Rc6Jitter(edges, EdgeRuns(Rc6Levels(Bits(Rc6Word(cmd, addr, ctrl), 17))))
    ensures Rc6Decode(Captured(edges)) == Word(cmd, addr, ctrl)
  {
    hide Width, Runs, EdgeRuns, BitRuns, Bits, Value, Walk, Rc6Word, Rc6Fields, Pow2, Rc6Jitter, Rc6Levels, HeaderOk, Jittered;
    var word := Rc6Word(cmd, addr, ctrl);
    var bits := Bits(word, 17);
    Rc6FieldsOfWord(cmd, addr, ctrl);
    Pow2Values();
    Rc6RunsAre(bits);
    HeaderAccepted(edges, Rc6Runs(bits), 0);
    Rc6Toggle(edges, bits);
    Rc6Tail(edges, bits);
    var x := FirstDataEdge(bits);
    var v := 2 * Bit(bits[0]) + Bit(bits[1]);
    WalkReads(Captured(edges), RC6_WINDOW, x, bits[1], v, 2, bits[2..], false);
    TwoValue(bits[0], bits[1]);
    ExtendedValue([bits[0], bits[1]], bits[2..]);
    assert [bits[0], bits[1]] + bits[2..] == bits;
    ValueOfBits(word, 17);
  }

  lemma TwoValue(a: bool, b: bool)
    ensures Value([a, b]) == 2 * Bit(a) + Bit(b)
  {
    ValueSnoc([a], b);
    assert [a][..0] == [];
    assert [a] + [b] == [a, b];
  }

  /** The sign of the first argument tells the two callbacks apart: whatever was captured, the user's callback gets
      exactly the decoded words, with all fields in range, and the error function exactly the errors. */
  lemma ReportsAreClear(times: seq<int>, rc6: bool)
    ensures var d := if rc6 then Rc6Decode(times) else Rc5Decode(times);
            && (ReportOf(d).ErrorCallback? <==> d.Error?)
            && (d.Error? ==> ReportOf(d).code == d.code < 0)
            && (d.Word? ==> ReportOf(d) == Callback(d.val, d.addr, d.ctrl)
                            && (if rc6 then Rc6Command(d.val, d.addr, d.ctrl) else Rc5Command(d.val, d.addr, d.ctrl)))
  {
    hide Walk, HeaderOk, Width;
  }

  // ---------- Exactly what is decoded ----------

  /** From edge `x` on the widths spell out `bits` after the bit `prev`: a width of one half-bit stands for the same bit
      again, and the next width is not looked at; one of two half-bits stands for the other bit. */
  predicate Spells(times: seq<int>, x: nat, prev: bool, bits: seq<bool>, lo: int, split: int, hi: int)
    decreases |bits|
  {
    || bits == []
    || (&& x + 1 < |times|
        && if bits[0] == prev then lo < Width(times, x) < split && Spells(times, x + 2, bits[0], bits[1..], lo, split, hi)
           else split <= Width(times, x) < hi && Spells(times, x + 1, bits[0], bits[1..], lo, split, hi))
  }

  lemma {:induction false} ExtendedRange(v: nat, bits: seq<bool>)
    ensures Pow2(|bits|) * v <= Extended(v, bits) < Pow2(|bits|) * (v + 1)
    decreases |bits|
  {
    if bits == [] {
    } else {
      ExtendedRange(2 * v + Bit(bits[0]), bits[1..]);
      RangeStep(Pow2(|bits| - 1), v, Bit(bits[0]));
    }
  }

  lemma RangeStep(p: nat, v: nat, b: nat)
    requires b < 2
    ensures 2 * p * v <= p * (2 * v + b) && p * (2 * v + b + 1) <= 2 * p * (v + 1)
  {
    MulMonotone(p, 2 * v, 2 * v + b);
    MulMonotone(p, 2 * v + b + 1, 2 * v + 2);
  }

  lemma {:induction false} WalkRange(times: seq<int>, w: Window, x: nat, prev: bool, v: nat, done: nat, n: nat)
    ensures var r := Walk(times, w, x, prev, v, done, done + n);
            r.Walked? ==> Pow2(n) * v <= r.v < Pow2(n) * (v + 1)
    decreases n
  {
    hide Width;
    if n > 0 && x + 2 <= |times| {
      var short := Width(times, x) < w.split;
      var next := if short then prev else !prev;
      WalkRange(times, w, if short then x + 2 else x + 1, next, 2 * v + Bit(next), done + 1, n - 1);
      RangeStep(Pow2(n - 1), v, Bit(next));
    }
  }

  /** The walk reads off certain bits exactly if the widths spell them out. */
  lemma {:induction false} WalkSpells(times: seq<int>, w: Window, x: nat, prev: bool, v: nat, done: nat, bits: seq<bool>)
    requires w.lo < w.split < w.hi
    ensures Walk(times, w, x, prev, v, done, done + |bits|) == Walked(Extended(v, bits))
            <==> Spells(times, x, prev, bits, w.lo, w.split, w.hi)
    decreases |bits|
  {
    hide Width, Pow2;
    if bits != [] && x + 2 <= |times| && w.lo < Width(times, x) < w.hi {
      var short := Width(times, x) < w.split;
      var next := if short then prev else !prev;
      var y := if short then x + 2 else x + 1;
      WalkSpells(times, w, y, next, 2 * v + Bit(next), done + 1, bits[1..]);
      if next != bits[0] {
        WalkRange(times, w, y, next, 2 * v + Bit(next), done + 1, |bits| - 1);
        ExtendedRange(2 * v + Bit(bits[0]), bits[1..]);
        RangesApart(Pow2(|bits| - 1), 2 * v + Bit(next), 2 * v + Bit(bits[0]));
      }
    }
  }

  lemma RangesApart(p: nat, a: nat, b: nat)
    requires a != b
    ensures a < b ==> p * (a + 1) <= p * b
    ensures b < a ==> p * (b + 1) <= p * a
  {
    if a < b {
      MulMonotone(p, a + 1, b);
    } else {
      MulMonotone(p, b + 1, a);
    }
  }

  lemma Rc5WordOfFields(v: nat, cmd: nat, addr: nat, ctrl: nat)
    requires 8192 <= v < 16384 && Rc5Command(cmd, addr, ctrl)
    ensures Rc5Fields(v) == Word(cmd, addr, ctrl) <==> v == Rc5Word(cmd, addr, ctrl)
  {
    hide Rc5Fields, Rc5Word;
    Rc5FieldsOfWord(cmd, addr, ctrl);
    var s2, r := (v - 8192) / 4096, v % 4096;
    var c, q := r / 2048, r % 2048;
    var k := q % 64 + if s2 == 1 then 0 else 64;
    assert v == 8192 + 4096 * s2 + 2048 * c + 64 * (q / 64) + q % 64;
    Rc5FieldsOfWord(k, q / 64, c);
    Rc5WordIs(k, q / 64, c);
  }

  lemma Rc5WordIs(cmd: nat, addr: nat, ctrl: nat)
    ensures Rc5Word(cmd, addr, ctrl) == 8192 + (if cmd < 64 then 4096 else 0) + 2048 * ctrl + 64 * addr + cmd % 64
  {
  }

  /** RC-5 decodes captured times to a word exactly if their number is right and the widths that it looks at spell the
      word out, in microseconds. */
  lemma Rc5Exactly(times: seq<int>, cmd: nat, addr: nat, ctrl: nat)
    requires Rc5Command(cmd, addr, ctrl)
    ensures Rc5Decode(times) == Word(cmd, addr, ctrl) <==>
            14 <= |times| <= 28 && Spells(times, 0, true, Bits(Rc5Word(cmd, addr, ctrl), 14)[1..], 500, 1334, 2100)
  {
    hide Width, Walk, Spells, Rc5Word, Rc5Fields, Pow2, Bits, Extended;
    var bits := Bits(Rc5Word(cmd, addr, ctrl), 14)[1..];
    Rc5Starts(cmd, addr, ctrl);
    WalkSpells(times, RC5_WINDOW, 0, true, 1, 1, bits);
    WalkRange(times, RC5_WINDOW, 0, true, 1, 1, 13);
    Pow2Values();
    var walked := Walk(times, RC5_WINDOW, 0, true, 1, 1, 14);
    if walked.Walked? {
      Rc5WordOfFields(walked.v, cmd, addr, ctrl);
    }
  }

  lemma Rc5Starts(cmd: nat, addr: nat, ctrl: nat)
    requires Rc5Command(cmd, addr, ctrl)
    ensures Extended(1, Bits(Rc5Word(cmd, addr, ctrl), 14)[1..]) == Rc5Word(cmd, addr, ctrl)
  {
    hide Rc5Word, Pow2, Bits, Extended, Value;
    var word := Rc5Word(cmd, addr, ctrl);
    var bits := Bits(word, 14);
    Rc5FieldsOfWord(cmd, addr, ctrl);
    Pow2Values();
    TopBit(word, 13);
    ExtendedValue([true], bits[1..]);
    OneValue();
    assert [true] + bits[1..] == bits;
    ValueOfBits(word, 14);
  }

  /** Everything else is an error that says what is wrong. */
  lemma Rc5Errors(times: seq<int>)
    ensures |times| < 14 ==> Rc5Decode(times) == Error(-2)
    ensures |times| > 28 ==> Rc5Decode(times) == Error(-5)
    ensures 14 <= |times| <= 28 ==>
              Rc5Decode(times) == Error(-3)
              || exists cmd: nat, addr: nat, ctrl: nat :: Rc5Command(cmd, addr, ctrl) && Rc5Decode(times) == Word(cmd, addr, ctrl)
  {
    hide Walk;
    if 14 <= |times| <= 28 && Rc5Decode(times).Word? {
      var d := Rc5Decode(times);
      assert Rc5Command(d.val, d.addr, d.ctrl);
    }
  }

  /** The header of RC-6 in microseconds. */
  predicate Rc6Header(times: seq<int>)
    requires |times| > 8
  {
    && 1800 < Width(times, 0) < 4000 && 593 < Width(times, 1) < 1333 && 222 < Width(times, 2) < 750
    && 593 < Width(times, 3) < 1333 && 222 < Width(times, 4) < 750 && 222 < Width(times, 5) < 750
    && 222 < Width(times, 6) < 750 && 222 < Width(times, 7) < 750
  }

  /** The toggle bit, twice as wide as the others, then the first bit after it, then the rest. */
  predicate Rc6Spells(times: seq<int>, bits: seq<bool>)
    requires |times| > 11 && |bits| >= 2
  {
    var x := if bits[0] then 9 else 10;
    && (if bits[0] then 889 <= Width(times, 8) < 1555 else 222 < Width(times, 8) < 889)
    && (if bits[1] == bits[0] then 222 < Width(times, x) < 1111 else 1111 <= Width(times, x) < 1555)
    && Spells(times, if bits[1] == bits[0] then x + 2 else x + 1, bits[1], bits[2..], 222, 666, 1111)
  }

  lemma HeaderIs(times: seq<int>)
    requires |times| > 8
    ensures HeaderOk(times, 0) <==> Rc6Header(times)
  {
    hide HeaderOk, Width;
    HeaderStep(times, 0);
    HeaderStep(times, 1);
    HeaderStep(times, 2);
    HeaderStep(times, 3);
    HeaderStep(times, 4);
    HeaderStep(times, 5);
    HeaderStep(times, 6);
    HeaderStep(times, 7);
    HeaderStep(times, 8);
  }

  lemma HeaderStep(times: seq<int>, k: nat)
    requires |times| > 8 && k <= 8
    ensures HeaderOk(times, k) <==> k == 8 || (Inside(Width(times, k), HEADER[k]) && HeaderOk(times, k + 1))
  {
    hide Width;
  }

  lemma Rc6WordOfFields(v: nat, cmd: nat, addr: nat, ctrl: nat)
    requires v < 131072 && Rc6Command(cmd, addr, ctrl)
    ensures Rc6Fields(v) == Word(cmd, addr, ctrl) <==> v == Rc6Word(cmd, addr, ctrl)
  {
    Rc6FieldsOfWord(cmd, addr, ctrl);
    hide Rc6Fields, Rc6Word;
    var c, r := v / 65536, v % 65536;
    var q, m := r / 256, r % 256;
    assert v == 65536 * c + 256 * q + m;
    Rc6FieldsOfWord(m, q, c);
    assert Rc6Word(m, q, c) == v by {
      Rc6WordIs(m, q, c);
    }
  }

  lemma Rc6WordIs(cmd: nat, addr: nat, ctrl: nat)
    ensures Rc6Word(cmd, addr, ctrl) == 65536 * ctrl + 256 * addr + cmd
  {
  }

  /** RC-6 decodes captured times to a word exactly if their number is right, the header is, and the widths that it looks
      at after that spell the word out. */
  lemma Rc6Exactly(times: seq<int>, cmd: nat, addr: nat, ctrl: nat)
    requires Rc6Command(cmd, addr, ctrl)
    ensures Rc6Decode(times) == Word(cmd, addr, ctrl) <==>
            22 <= |times| <= 44 && Rc6Header(times) && Rc6Spells(times, Bits(Rc6Word(cmd, addr, ctrl), 17))
  {
    hide Width, Walk, Spells, Rc6Word, Rc6Fields, Pow2, Bits, Extended, HeaderOk, Rc6Header, Value;
    var word := Rc6Word(cmd, addr, ctrl);
    var bits := Bits(word, 17);
    Rc6FieldsOfWord(cmd, addr, ctrl);
    Pow2Values();
    ValueOfBits(word, 17);
    TwoValue(bits[0], bits[1]);
    ExtendedValue([bits[0], bits[1]], bits[2..]);
    assert [bits[0], bits[1]] + bits[2..] == bits;
    if 22 <= |times| <= 44 {
      HeaderIs(times);
      Rc6WalkSpells(times, bits, word);
      if Rc6Walked(times).Walked? {
        Rc6WordOfFields(Rc6Walked(times).v, cmd, addr, ctrl);
      }
    }
  }

  lemma Rc6WalkSpells(times: seq<int>, bits: seq<bool>, word: nat)
    requires |times| > 11 && |bits| == 17 && word == Extended(2 * Bit(bits[0]) + Bit(bits[1]), bits[2..])
    ensures Rc6Walked(times) == Walked(word) <==> Rc6Spells(times, bits)
    ensures Rc6Walked(times).Walked? ==> Rc6Walked(times).v < 131072
  {
    hide Width, Walk, Spells, Pow2, Extended;
    var toggle := !(Width(times, 8) < 889);
    var x := if toggle then 9 else 10;
    var short := Width(times, x) < 1111;
    var bit := if short then toggle else !toggle;
    var y := if short then x + 2 else x + 1;
    var v := 2 * Bit(toggle) + Bit(bit);
    WalkSpells(times, RC6_WINDOW, y, bit, v, 2, bits[2..]);
    WalkRange(times, RC6_WINDOW, y, bit, v, 2, 15);
    assert Pow2(15) == 32768 by {
      Pow2Values();
      Pow2Step(13);
      Pow2Step(14);
    }
    ExtendedRange(2 * Bit(bits[0]) + Bit(bits[1]), bits[2..]);
  }

  lemma Pow2Step(n: nat)
    ensures Pow2(n + 1) == 2 * Pow2(n)
  {
  }

  lemma Rc6Errors(times: seq<int>)
    ensures |times| < 22 ==> Rc6Decode(times) == Error(-2)
    ensures |times| > 44 ==> Rc6Decode(times) == Error(-5)
    ensures 22 <= |times| <= 44 && !Rc6Header(times) ==> Rc6Decode(times) == Error(-2)
    ensures 22 <= |times| <= 44 && Rc6Header(times) ==>
              Rc6Decode(times) == Error(-3)
              || exists cmd: nat, addr: nat, ctrl: nat :: Rc6Command(cmd, addr, ctrl) && Rc6Decode(times) == Word(cmd, addr, ctrl)
  {
    hide Walk, HeaderOk, Width, Rc6Header;
    if 22 <= |times| <= 44 {
      HeaderIs(times);
      var d := Rc6Decode(times);
      if d.Word? {
        assert Rc6Command(d.val, d.addr, d.ctrl);
      }
    }
  }

  // ---------- Undisturbed transmissions ----------

  /** The edges of a transmission with half-bits of exactly `unit` microseconds. */
  function Timed(runs: seq<nat>, unit: nat, from: nat): (edges: seq<nat>)
    ensures |edges| == |runs| + 1 && edges[0] == from
    decreases |runs|
  {
    if runs == [] then [from] else [from] + Timed(runs[1..], unit, from + unit * runs[0])
  }

  lemma {:induction false} TimedWidth(runs: seq<nat>, unit: nat, from: nat, k: nat)
    requires k < |runs|
    ensures Timed(runs, unit, from)[k + 1] == Timed(runs, unit, from)[k] + unit * runs[k]
    decreases |runs|
  {
    if k == 0 {
    } else {
      TimedWidth(runs[1..], unit, from + unit * runs[0], k - 1);
    }
  }

  lemma TimedFits(runs: seq<nat>, start: nat)
    requires forall k :: 0 <= k < |runs| ==> runs[k] == 1 || runs[k] == 2
    ensures EdgeJitter(Timed(runs, 889, start), runs, Window(500, 1334, 2100))
  {
    hide Timed;
    var edges := Timed(runs, 889, start);
    forall k | 0 <= k < |runs| ensures edges[k + 1] == edges[k] + 889 * runs[k] {
      TimedWidth(runs, 889, start, k);
    }
  }

  /** An undisturbed RC-5 transmission at any time, also while the microsecond counter wraps, is decoded. */
  lemma Rc5Nominal(cmd: nat, addr: nat, ctrl: nat, start: nat)
    requires Rc5Command(cmd, addr, ctrl)
    ensures var runs := EdgeRuns(Cells(Bits(Rc5Word(cmd, addr, ctrl), 14), true));
            Rc5Decode(Captured(Timed(runs, 889, start))) == Word(cmd, addr, ctrl)
  {
    hide Rc5Word, Pow2, Cells, EdgeRuns, BitRuns, Timed, Rc5Decode, Bits, EdgeJitter, Captured;
    var bits := Bits(Rc5Word(cmd, addr, ctrl), 14);
    Rc5FieldsOfWord(cmd, addr, ctrl);
    Pow2Values();
    TopBit(Rc5Word(cmd, addr, ctrl), 13);
    OneFirst(bits);
    var runs := BitRuns(true, bits[1..], true);
    BitRunsUnits(true, bits[1..], true);
    TimedFits(runs, start);
    Rc5RoundTrip(cmd, addr, ctrl, Timed(runs, 889, start));
  }

  lemma HeaderFits(k: nat)
    requires k < 8
    ensures Inside(444 * HEADER_RUNS[k], HEADER[k]) && HEADER_RUNS[k] <= 6
  {
  }

  lemma Rc6RunAt(bits: seq<bool>, k: nat)
    requires |bits| > 1 && k < |Rc6Runs(bits)|
    ensures |Rc6Runs(bits)| > 8 && Rc6Fits(444 * Rc6Runs(bits)[k], k, Rc6Runs(bits)) && Rc6Runs(bits)[k] <= 6
  {
    hide BitRuns, Inside;
    if k < 8 {
      HeaderFits(k);
    } else {
      BitRunsUnits(bits[0], bits[1..], false);
      BitRunsStep(bits[0], bits[1..], false);
    }
  }

  /** An undisturbed RC-6 transmission at any time is decoded. */
  lemma Rc6Nominal(cmd: nat, addr: nat, ctrl: nat, start: nat)
    requires Rc6Command(cmd, addr, ctrl)
    ensures var runs := EdgeRuns(Rc6Levels(Bits(Rc6Word(cmd, addr, ctrl), 17)));
            Rc6Decode(Captured(Timed(runs, 444, start))) == Word(cmd, addr, ctrl)
  {
    hide Rc6Word, EdgeRuns, Timed, Rc6Decode, Rc6Fits, Rc6Runs, Rc6Levels;
    var bits := Bits(Rc6Word(cmd, addr, ctrl), 17);
    Rc6RunsAre(bits);
    var runs := Rc6Runs(bits);
    assert |runs| > 8 by {
      Rc6RunsTail(bits);
    }
    var edges := Timed(runs, 444, start);
    forall k | 0 <= k < |runs|
      ensures edges[k] <= edges[k + 1] < edges[k] + HALF_PERIOD && Rc6Fits(edges[k + 1] - edges[k], k, runs)
    {
      TimedWidth(runs, 444, start, k);
      Rc6RunAt(bits, k);
    }
    Rc6RoundTrip(cmd, addr, ctrl, edges);
  }

  // ---------- The receiver object ----------

  class IrReceiver {
    const nedges: nat
    const times: array<int>
    var edge: nat
    /** Every edge since the last decoding, also those beyond the capacity. */
    ghost var seen: seq<int>

    ghost predicate Valid()
      reads this, times
    {
      && times.Length == nedges + 1
      && edge == (if |seen| <= nedges + 1 then |seen| else nedges + 1)
      && times[..edge] == seen[..edge]
    }

    /** `IR_RX.__init__`. */
    constructor (nedges: nat)
      ensures Valid() && seen == [] && this.nedges == nedges && fresh(times)
    {
      this.nedges := nedges;
      times := new int[nedges + 1](_ => 0);
      edge, seen := 0, [];
    }

    /** `_cb_pin`: record the edge; the first one starts the block timer; beyond one extra, edges are ignored. */
    method OnEdge(t: int) returns (startTimer: bool)
      requires Valid()
      modifies this, times
      ensures Valid() && seen == old(seen) + [t]
      ensures startTimer <==> old(seen) == []
    {
      startTimer := false;
      if edge <= nedges {
        startTimer := edge == 0;
        times[edge] := t;
        edge := edge + 1;
      }
      seen := seen + [t];
    }

    /** `do_callback`: ready for the next burst. */
    method DoCallback(cmd: int, addr: int, ext: int) returns (r: Report)
      requires Valid()
      modifies this
      ensures Valid() && seen == []
      ensures r.ErrorCallback? <==> cmd < 0
      ensures r.ErrorCallback? ==> r.code == cmd
      ensures r.Callback? ==> r.cmd == cmd && r.addr == addr && r.ext == ext
    {
      edge, seen := 0, [];
      r := if cmd >= 0 then Callback(cmd, addr, ext) else ErrorCallback(cmd);
    }

    /** The loop of both `decode` methods; every access stays below the number of captured edges. */
    method WalkEdges(w: Window, from: nat, start: bool, v0: nat, done: nat, total: nat) returns (r: Walked)
      requires edge <= times.Length
      ensures r == Walk(times[..edge], w, from, start, v0, done, total)
    {
      var x: nat, bit, v: nat, bits: nat := from, start, v0, done;
      while bits < total
        invariant Walk(times[..edge], w, from, start, v0, done, total) == Walk(times[..edge], w, x, bit, v, bits, total)
        decreases total - bits
      {
        if x + 2 > edge {
          return Lost;
        }
        var width := TicksDiff(times[x + 1], times[x]);
        assert width == Width(times[..edge], x);
        if !(w.lo < width < w.hi) {
          return Lost;
        }
        var short := width < w.split;
        if !short {
          bit := !bit;
        }
        v := 2 * v + Bit(bit);
        bits := bits + 1;
        x := if short then x + 2 else x + 1;
      }
      r := Walked(v);
    }

    /** `RC5_IR.decode` (constructed with room for 28 edges). */
    method DecodeRc5() returns (r: Report)
      requires Valid() && nedges == 28
      modifies this
      ensures Valid() && seen == []
      ensures r == ReportOf(if |old(seen)| > 28 then Error(OVERRUN) else Rc5Decode(old(seen)))
    {
      hide TicksDiff, Walk;
      if !(14 <= edge <= 28) {
        r := DoCallback(if edge > 28 then OVERRUN else BADSTART, 0, 0);
        return;
      }
      assert times[..edge] == seen;
      var walked := WalkEdges(RC5_WINDOW, 0, true, 1, 1, 14);
      match walked
      case Lost => r := DoCallback(BADBLOCK, 0, 0);
      case Walked(v) =>
        r := DoCallback(v % 64 + (if v / 4096 % 2 == 1 then 0 else 64), v / 64 % 32, v / 2048 % 2);
    }

    /** `RC6_M0.decode` (constructed with room for 44 edges). */
    method DecodeRc6() returns (r: Report)
      requires Valid() && nedges == 44
      modifies this
      ensures Valid() && seen == []
      ensures r == ReportOf(if |old(seen)| > 44 then Error(OVERRUN) else Rc6Decode(old(seen)))
    {
      hide TicksDiff, Walk;
      if !(22 <= edge <= 44) {
        r := DoCallback(if edge > 28 then OVERRUN else BADSTART, 0, 0);
        return;
      }
      assert times[..edge] == seen;
      var x := 0;
      while x < 8
        invariant 0 <= x <= 8 && HeaderOk(seen, 0) == HeaderOk(seen, x)
        invariant edge == |seen| && times[..edge] == seen && Valid() && edge == old(edge) && seen == old(seen)
      {
        var width := TicksDiff(times[x + 1], times[x]);
        assert width == Width(seen, x);
        if !(HEADER[x].lo < width < HEADER[x].hi) {
          r := DoCallback(BADSTART, 0, 0);
          return;
        }
        x := x + 1;
      }
      var width := TicksDiff(times[x + 1], times[x]);
      assert width == Width(seen, 8);
      if !(222 < width < 1555) {
        r := DoCallback(BADBLOCK, 0, 0);
        return;
      }
      var toggle := !(width < 889);
      x := if toggle then 9 else 10;
      width := TicksDiff(times[x + 1], times[x]);
      assert width == Width(seen, x);
      if !(222 < width < 1555) {
        r := DoCallback(BADBLOCK, 0, 0);
        return;
      }
      var short := width < 1111;
      var bit := if short then toggle else !toggle;
      x := if short then x + 2 else x + 1;
      var walked := WalkEdges(RC6_WINDOW, x, bit, 2 * Bit(toggle) + Bit(bit), 2, 17);
      match walked
      case Lost => r := DoCallback(BADBLOCK, 0, 0);
      case Walked(v) => r := DoCallback(v % 256, v / 256 % 256, v / 65536 % 2);
    }
  }
}
