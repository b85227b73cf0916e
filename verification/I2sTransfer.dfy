/** Non-blocking transfers of `machine_i2s.c` between an application buffer and the byte ring. */
module I2sTransfer {
  import opened Arith
  import opened Bytes
  import opened RingBuffer

  const FRAME := 8

  datatype Started = Size(bytes: nat) | EPERM | EINVAL

  // ---------- Sample layout ----------

  /** Bytes of one sample in the application buffer. */
  function SampleSize(bits: nat, stereo: bool): nat {
    (if bits == 16 then 2 else 4) * (if stereo then 2 else 1)
  }

  /** Ring bytes needed for `n` application bytes: `n * (8 / sampleSize)`. */
  function ToRing(n: nat, sample: nat): nat {
    if sample == 2 then 4 * n else if sample == 4 then 2 * n else n
  }

  /** A port's frame map: for each byte of an 8-byte frame, its place in the sample or -1; every place of the
      sample is filled by exactly one frame byte. */
  ghost predicate IsFrameMap(map8: seq<int>, sample: nat) {
    && |map8| == FRAME
    && (forall i :: 0 <= i < FRAME ==> -1 <= map8[i] < sample)
    && (forall i, j :: 0 <= i < j < FRAME && map8[i] != -1 ==> map8[i] != map8[j])
    && (forall b :: 0 <= b < sample ==> PlaceOf(map8, b) < FRAME)
  }

  /** The first frame byte that the map sends to `b`. */
  function PlaceOf(map8: seq<int>, b: int): (i: nat)
    ensures i <= |map8|
    ensures i < |map8| ==> map8[i] == b
    ensures forall k :: 0 <= k < i ==> map8[k] != b
  {
    if map8 == [] then 0 else if map8[0] == b then 0 else PlaceOf(map8[1..], b) + 1
  }

  /** The map of the rp2 port. */
  function Rp2Map(bits: nat, stereo: bool): seq<int> {
    if !stereo then
      if bits == 16 then [-1, -1, 0, 1, -1, -1, -1, -1] else [0, 1, 2, 3, -1, -1, -1, -1]
    else
      if bits == 16 then [-1, -1, 0, 1, -1, -1, 2, 3] else [0, 1, 2, 3, 4, 5, 6, 7]
  }

  lemma PlaceAt(map8: seq<int>, i: nat)
    requires i < |map8| && forall k :: 0 <= k < i ==> map8[k] != map8[i]
    ensures PlaceOf(map8, map8[i]) == i
  {
  }

  lemma Rp2Mono16()
    ensures IsFrameMap([-1, -1, 0, 1, -1, -1, -1, -1], 2)
  {
    hide PlaceOf;
    var m := [-1, -1, 0, 1, -1, -1, -1, -1];
    PlaceAt(m, 2);
    PlaceAt(m, 3);
  }

  lemma Rp2Mono32()
    ensures IsFrameMap([0, 1, 2, 3, -1, -1, -1, -1], 4)
  {
    hide PlaceOf;
    var m := [0, 1, 2, 3, -1, -1, -1, -1];
    PlaceAt(m, 0);
    PlaceAt(m, 1);
    PlaceAt(m, 2);
    PlaceAt(m, 3);
  }

  lemma Rp2Stereo16()
    ensures IsFrameMap([-1, -1, 0, 1, -1, -1, 2, 3], 4)
  {
    hide PlaceOf;
    var m := [-1, -1, 0, 1, -1, -1, 2, 3];
    PlaceAt(m, 2);
    PlaceAt(m, 3);
    PlaceAt(m, 6);
    PlaceAt(m, 7);
  }

  lemma Rp2Stereo32()
    ensures IsFrameMap([0, 1, 2, 3, 4, 5, 6, 7], 8)
  {
    hide PlaceOf;
    var m := [0, 1, 2, 3, 4, 5, 6, 7];
    forall b | 0 <= b < 8 ensures PlaceOf(m, b) < FRAME {
      assert m[b] == b;
      PlaceAt(m, b);
    }
  }

  lemma Rp2MapFits(bits: nat, stereo: bool)
    requires bits == 16 || bits == 32
    ensures IsFrameMap(Rp2Map(bits, stereo), SampleSize(bits, stereo))
  {
    hide IsFrameMap;
    Rp2Mono16();
    Rp2Mono32();
    Rp2Stereo16();
    Rp2Stereo32();
  }

  /** One sample, picked out of one frame. */
  function Picked(frame: seq<Byte>, map8: seq<int>, sample: nat): (s: seq<Byte>)
    requires |frame| == FRAME && IsFrameMap(map8, sample)
    ensures |s| == sample
  {
    seq(sample, b requires 0 <= b < sample => frame[PlaceOf(map8, b)])
  }

  /** Every byte of the frame that the map does not discard is at its place in the sample. */
  lemma PickedAt(frame: seq<Byte>, map8: seq<int>, sample: nat, i: nat)
    requires |frame| == FRAME && IsFrameMap(map8, sample) && i < FRAME && map8[i] != -1
    ensures Picked(frame, map8, sample)[map8[i]] == frame[i]
  {
    PlaceAt(map8, i);
  }

  /** All whole frames of `raw`, converted. */
  function Formatted(raw: seq<Byte>, map8: seq<int>, sample: nat): (s: seq<Byte>)
    requires IsFrameMap(map8, sample)
    decreases |raw|
  {
    if |raw| < FRAME then [] else Picked(raw[..FRAME], map8, sample) + Formatted(raw[FRAME..], map8, sample)
  }

  lemma {:induction false} FormattedSnoc(raw: seq<Byte>, frame: seq<Byte>, map8: seq<int>, sample: nat)
    requires IsFrameMap(map8, sample) && |raw| % FRAME == 0 && |frame| == FRAME
    ensures Formatted(raw + frame, map8, sample) == Formatted(raw, map8, sample) + Picked(frame, map8, sample)
    decreases |raw|
  {
    hide IsFrameMap, Picked;
    if raw == [] {
      assert raw + frame == frame && frame[..FRAME] == frame && frame[FRAME..] == [];
    } else {
      assert (raw + frame)[..FRAME] == raw[..FRAME] && (raw + frame)[FRAME..] == raw[FRAME..] + frame;
      FormattedSnoc(raw[FRAME..], frame, map8, sample);
    }
  }

  /** Frame `k` of the ring bytes is sample `k` of the application: ring byte `8 * k + i` is at the place of `i`. */
  predicate SampleKept(raw: seq<Byte>, app: seq<Byte>, map8: seq<int>, sample: nat, k: nat) {
    && |map8| == 8 && 8 * k + 8 <= |raw| && k * sample + sample <= |app|
    && forall i :: 0 <= i < 8 && map8[i] != -1 ==> 0 <= map8[i] < sample && app[k * sample + map8[i]] == raw[8 * k + i]
  }

  lemma {:induction false} FormattedKeeps(raw: seq<Byte>, map8: seq<int>, sample: nat, k: nat)
    requires IsFrameMap(map8, sample) && 8 * k + 8 <= |raw|
    ensures SampleKept(raw, Formatted(raw, map8, sample), map8, sample, k)
    decreases k
  {
    hide IsFrameMap, Picked;
    var frame, rest := raw[..FRAME], raw[FRAME..];
    var app, more := Formatted(raw, map8, sample), Formatted(rest, map8, sample);
    assert app == Picked(frame, map8, sample) + more;
    MapPlaces(map8, sample);
    if k == 0 {
      forall i | 0 <= i < 8 && map8[i] != -1 ensures app[map8[i]] == raw[i] {
        PickedAt(frame, map8, sample, i);
      }
    } else {
      FormattedKeeps(rest, map8, sample, k - 1);
      Distribute(k - 1, 1, sample);
      MulNonNegative(k - 1, sample);
      forall i | 0 <= i < 8 && map8[i] != -1 ensures app[k * sample + map8[i]] == raw[8 * k + i] {
        assert more[(k - 1) * sample + map8[i]] == rest[8 * (k - 1) + i];
      }
    }
  }

  lemma MapPlaces(map8: seq<int>, sample: nat)
    requires IsFrameMap(map8, sample)
    ensures |map8| == 8 && forall i :: 0 <= i < 8 && map8[i] != -1 ==> 0 <= map8[i] < sample
  {
  }

  // ---------- The descriptor ----------

  /** Progress of a transfer: `index` of `len` application bytes done. */
  datatype Progress = Progress(index: nat, len: nat, active: bool, callbacks: nat)

  /** Ring bytes that the next step wants to move. */
  function Wanted(p: Progress, sample: nat, chunk: nat): nat
    requires p.index <= p.len
  {
    var remaining := ToRing(p.len - p.index, sample);
    if chunk < remaining then chunk else remaining
  }

  /** Application bytes that `ring` ring bytes make up. */
  function FromRing(ring: nat, sample: nat): nat {
    if sample == 2 then ring / 4 else if sample == 4 then ring / 2 else ring
  }

  /** One step: all of the wanted bytes if the ring can serve them, otherwise nothing. */
  function Stepped(p: Progress, sample: nat, chunk: nat, serviceable: nat): Progress
    requires p.index <= p.len
  {
    if !p.active || serviceable < Wanted(p, sample, chunk) then p
    else
      var done := p.index + FromRing(Wanted(p, sample, chunk), sample);
      Progress(done, p.len, done < p.len, p.callbacks + if done >= p.len then 1 else 0)
  }

  predicate KnownSample(sample: nat) { sample == 2 || sample == 4 || sample == 8 }

  /** `n` is a whole number of samples. */
  predicate Whole(n: nat, sample: nat) {
    if sample == 2 then n % 2 == 0 else if sample == 4 then n % 4 == 0 else n % 8 == 0
  }

  /** Both the position and the length are whole samples, and the callback has been scheduled
      exactly when the transfer is over. */
  predicate Orderly(p: Progress, sample: nat) {
    && KnownSample(sample) && p.len > 0 && Whole(p.len, sample) && Whole(p.index, sample) && p.index <= p.len
    && (p.active <==> p.index < p.len) && p.callbacks == (if p.active then 0 else 1)
  }

  lemma WholeDifference(a: nat, b: nat, sample: nat)
    requires KnownSample(sample) && Whole(a, sample) && Whole(b, sample) && a <= b
    ensures Whole(b - a, sample)
  {
    if sample == 2 {
      ModPlusMultiple(b, -(a / 2), 2);
    } else if sample == 4 {
      ModPlusMultiple(b, -(a / 4), 4);
    } else {
      ModPlusMultiple(b, -(a / 8), 8);
    }
  }

  lemma WholeSum(a: nat, b: nat, sample: nat)
    requires KnownSample(sample) && Whole(a, sample) && Whole(b, sample)
    ensures Whole(a + b, sample)
  {
    if sample == 2 {
      ModPlusMultiple(a, b / 2, 2);
    } else if sample == 4 {
      ModPlusMultiple(a, b / 4, 4);
    } else {
      ModPlusMultiple(a, b / 8, 8);
    }
  }

  lemma ToRingWhole(n: nat, sample: nat)
    requires KnownSample(sample) && Whole(n, sample)
    ensures ToRing(n, sample) % FRAME == 0 && FromRing(ToRing(n, sample), sample) == n
  {
    if sample == 2 {
      DivModUnique(4 * n, 8, n / 2, 0);
    } else if sample == 4 {
      DivModUnique(2 * n, 8, n / 4, 0);
    }
  }

  lemma FromRingWhole(r: nat, sample: nat)
    requires KnownSample(sample) && r % FRAME == 0
    ensures Whole(FromRing(r, sample), sample) && ToRing(FromRing(r, sample), sample) == r
    ensures r > 0 ==> FromRing(r, sample) > 0
  {
  }

  lemma FromRingMonotone(r: nat, q: nat, sample: nat)
    requires r <= q
    ensures FromRing(r, sample) <= FromRing(q, sample)
  {
  }

  /** The wanted bytes are whole frames, so the countdown in steps of eight ends at exactly zero. */
  lemma WantedWholeFrames(p: Progress, sample: nat, chunk: nat)
    requires Orderly(p, sample) && chunk % FRAME == 0
    ensures Wanted(p, sample, chunk) % FRAME == 0
    ensures Whole(FromRing(Wanted(p, sample, chunk), sample), sample)
    ensures ToRing(FromRing(Wanted(p, sample, chunk), sample), sample) == Wanted(p, sample, chunk)
    ensures p.index + FromRing(Wanted(p, sample, chunk), sample) <= p.len
    ensures p.active && chunk > 0 ==> FromRing(Wanted(p, sample, chunk), sample) > 0
  {
    hide Whole, ToRing, FromRing;
    var left := p.len - p.index;
    WholeDifference(p.index, p.len, sample);
    ToRingWhole(left, sample);
    FromRingWhole(Wanted(p, sample, chunk), sample);
    FromRingMonotone(Wanted(p, sample, chunk), ToRing(left, sample), sample);
    NoneLeft(sample);
  }

  lemma NoneLeft(sample: nat)
    ensures FromRing(0, sample) == 0
  {
  }

  lemma SteppedOrderly(p: Progress, sample: nat, chunk: nat, serviceable: nat)
    requires Orderly(p, sample) && chunk % FRAME == 0
    ensures Orderly(Stepped(p, sample, chunk, serviceable), sample)
  {
    hide Whole, FromRing, Wanted;
    WantedWholeFrames(p, sample, chunk);
    WholeSum(p.index, FromRing(Wanted(p, sample, chunk), sample), sample);
  }

  function Run(p: Progress, sample: nat, chunk: nat, offers: seq<nat>): Progress
    decreases |offers|
  {
    if offers == [] || p.index > p.len then p else Run(Stepped(p, sample, chunk, offers[0]), sample, chunk, offers[1..])
  }

  /** Whatever the other side of the ring offers at each step, the transfer stays orderly: one callback at most,
      scheduled exactly when the last byte has been moved. */
  lemma {:induction false} RunOrderly(p: Progress, sample: nat, chunk: nat, offers: seq<nat>)
    requires Orderly(p, sample) && chunk % FRAME == 0
    ensures Orderly(Run(p, sample, chunk, offers), sample) && Run(p, sample, chunk, offers).len == p.len
    decreases |offers|
  {
    hide Whole, FromRing, Wanted;
    if offers == [] {
    } else {
      SteppedOrderly(p, sample, chunk, offers[0]);
      RunOrderly(Stepped(p, sample, chunk, offers[0]), sample, chunk, offers[1..]);
    }
  }

  /** As many offers of a full chunk as there are bytes always finish the transfer. */
  lemma {:induction false} RunCompletes(p: Progress, sample: nat, chunk: nat, offers: seq<nat>)
    requires Orderly(p, sample) && chunk % FRAME == 0 && chunk > 0
    requires |offers| >= p.len - p.index && forall i :: 0 <= i < |offers| ==> offers[i] >= chunk
    ensures var e := Run(p, sample, chunk, offers); e.index == p.len && !e.active && e.callbacks == 1
    decreases |offers|
  {
    hide Whole, FromRing, ToRing;
    if offers == [] {
    } else {
      WantedWholeFrames(p, sample, chunk);
      SteppedOrderly(p, sample, chunk, offers[0]);
      RunCompletes(Stepped(p, sample, chunk, offers[0]), sample, chunk, offers[1..]);
    }
  }

  /** A transfer to the ring: its length is arbitrary, and the callback has been scheduled exactly when it is over. */
  predicate Sendable(p: Progress) {
    p.len > 0 && p.index <= p.len && (p.active <==> p.index < p.len) && p.callbacks == (if p.active then 0 else 1)
  }

  lemma SteppedSendable(p: Progress, chunk: nat, space: nat)
    requires Sendable(p)
    ensures Sendable(Stepped(p, 8, chunk, space)) && Stepped(p, 8, chunk, space).len == p.len
    ensures p.index <= Stepped(p, 8, chunk, space).index
    ensures p.active && chunk > 0 && space >= chunk ==> Stepped(p, 8, chunk, space).index > p.index
  {
  }

  /** A write of any length, a whole number of samples or not, stays orderly over every run of offers of space: one
      callback at most, scheduled exactly when the last byte has been moved. */
  lemma {:induction false} SendRunOrderly(p: Progress, chunk: nat, offers: seq<nat>)
    requires Sendable(p)
    ensures Sendable(Run(p, 8, chunk, offers)) && Run(p, 8, chunk, offers).len == p.len
    decreases |offers|
  {
    hide Sendable, Stepped;
    if offers == [] {
    } else {
      assert p.index <= p.len by {
        SendableInside(p);
      }
      SteppedSendable(p, chunk, offers[0]);
      SendRunOrderly(Stepped(p, 8, chunk, offers[0]), chunk, offers[1..]);
    }
  }

  lemma SendableInside(p: Progress)
    requires Sendable(p)
    ensures p.index <= p.len
  {
  }

  /** A write of any length is finished by as many offers of a full chunk as there are bytes left. */
  lemma {:induction false} SendRunCompletes(p: Progress, chunk: nat, offers: seq<nat>)
    requires Sendable(p) && chunk > 0
    requires |offers| >= p.len - p.index && forall i :: 0 <= i < |offers| ==> offers[i] >= chunk
    ensures var e := Run(p, 8, chunk, offers); e.index == p.len && !e.active && e.callbacks == 1
    decreases |offers|
  {
    hide Wanted, FromRing;
    if offers == [] {
    } else {
      SteppedSendable(p, chunk, offers[0]);
      SendRunCompletes(Stepped(p, 8, chunk, offers[0]), chunk, offers[1..]);
    }
  }

  // ---------- Steps with their bytes ----------

  /** A read in progress: the ring bytes moved since its start, what the ring holds, and the application buffer. */
  datatype Receiving = Receiving(p: Progress, moved: seq<Byte>, ring: seq<Byte>, app: seq<Byte>)

  ghost predicate ReceivingOk(s: Receiving, map8: seq<int>, sample: nat) {
    && IsFrameMap(map8, sample) && Orderly(s.p, sample) && s.p.len == |s.app|
    && |s.moved| == ToRing(s.p.index, sample) && s.app[..s.p.index] == Formatted(s.moved, map8, sample)
  }

  ghost function ReceiveStep(s: Receiving, map8: seq<int>, sample: nat, chunk: nat): Receiving
    requires ReceivingOk(s, map8, sample) && chunk % FRAME == 0
  {
    var w := Wanted(s.p, sample, chunk);
    WantedWholeFrames(s.p, sample, chunk);
    if !s.p.active || |s.ring| < w then s
    else
      Receiving(Stepped(s.p, sample, chunk, |s.ring|), s.moved + s.ring[..w], s.ring[w..],
                s.app[..s.p.index] + Formatted(s.ring[..w], map8, sample) + s.app[s.p.index + FromRing(w, sample)..])
  }

  lemma ReceiveStepKeeps(s: Receiving, map8: seq<int>, sample: nat, chunk: nat)
    requires ReceivingOk(s, map8, sample) && chunk % FRAME == 0
    ensures var t := ReceiveStep(s, map8, sample, chunk);
            && ReceivingOk(t, map8, sample) && t.moved + t.ring == s.moved + s.ring && t.p.len == s.p.len
            && t.p.index >= s.p.index && t.app[t.p.index..] == s.app[t.p.index..]
  {
    hide Formatted, IsFrameMap, Whole, Wanted, FromRing, ToRing, KnownSample;
    var w := Wanted(s.p, sample, chunk);
    WantedWholeFrames(s.p, sample, chunk);
    SteppedOrderly(s.p, sample, chunk, |s.ring|);
    OrderlyInside(s.p, sample);
    if s.p.active && |s.ring| >= w {
      var n := FromRing(w, sample);
      FormattedSize(s.ring[..w], map8, sample);
      ToRingSum(s.p.index, n, sample);
      WholeToRing(s.p.index, sample);
      FormattedConcat(s.moved, s.ring[..w], map8, sample);
      var t := ReceiveStep(s, map8, sample, chunk);
      SpliceParts(s.app, s.p.index, Formatted(s.ring[..w], map8, sample));
      assert s.moved + s.ring[..w] + s.ring[w..] == s.moved + s.ring;
    }
  }

  /** Overwriting the middle of a sequence. */
  lemma SpliceParts(app: seq<Byte>, at: nat, new_: seq<Byte>)
    requires at + |new_| <= |app|
    ensures var r := app[..at] + new_ + app[at + |new_|..];
            |r| == |app| && r[..at + |new_|] == app[..at] + new_ && r[at + |new_|..] == app[at + |new_|..]
  {
  }

  lemma {:induction false} FormattedSize(raw: seq<Byte>, map8: seq<int>, sample: nat)
    requires IsFrameMap(map8, sample) && KnownSample(sample) && |raw| % FRAME == 0
    ensures |Formatted(raw, map8, sample)| == FromRing(|raw|, sample)
    decreases |raw|
  {
    hide IsFrameMap, Picked, FromRing, KnownSample;
    if raw == [] {
      NoFrames(map8, sample);
    } else {
      FormattedSize(raw[FRAME..], map8, sample);
      FromRingStep(|raw| - FRAME, sample);
    }
  }

  /** A state that has the old bytes up to the ring bytes that left, and the right progress, is the next state. */
  lemma ReceiveStepIs(s: Receiving, t: Receiving, map8: seq<int>, sample: nat, chunk: nat)
    requires ReceivingOk(s, map8, sample) && ReceivingOk(t, map8, sample) && chunk % FRAME == 0
    requires t.p == Stepped(s.p, sample, chunk, |s.ring|) && t.app[t.p.index..] == s.app[t.p.index..]
    requires |t.ring| <= |s.ring| && t.moved == s.moved + s.ring[..|s.ring| - |t.ring|] && t.ring == s.ring[|s.ring| - |t.ring|..]
    ensures t == ReceiveStep(s, map8, sample, chunk)
  {
    hide Formatted, IsFrameMap, Whole, Wanted, FromRing, ToRing, KnownSample, Orderly;
    var u := ReceiveStep(s, map8, sample, chunk);
    ReceiveStepKeeps(s, map8, sample, chunk);
    assert u.p == t.p;
    OrderlyInside(t.p, sample);
    SameCut(s.moved, s.ring, t.moved, t.ring, u.moved, u.ring);
    assert t.app == t.app[..t.p.index] + t.app[t.p.index..];
    assert u.app == u.app[..t.p.index] + u.app[t.p.index..];
  }

  lemma SameCut(a: seq<Byte>, b: seq<Byte>, x: seq<Byte>, y: seq<Byte>, u: seq<Byte>, v: seq<Byte>)
    requires x + y == a + b && u + v == a + b && |x| == |u|
    ensures x == u && y == v
  {
    assert x == (a + b)[..|x|] && u == (a + b)[..|x|];
    assert y == (a + b)[|x|..] && v == (a + b)[|x|..];
  }

  /** A write in progress: what the other side has taken out of the ring, what the ring holds, the application buffer. */
  datatype Sending = Sending(p: Progress, taken: seq<Byte>, ring: seq<Byte>, app: seq<Byte>)

  predicate SendingOk(s: Sending) { Sendable(s.p) && s.p.len == |s.app| }

  /** One step with a ring of `size` slots, one of which stays free. */
  function SendStep(s: Sending, chunk: nat, size: nat): (t: Sending)
    requires SendingOk(s) && |s.ring| < size
    ensures |t.ring| < size
  {
    var w := Wanted(s.p, 8, chunk);
    if !s.p.active || size - 1 - |s.ring| < w then s
    else s.(p := Stepped(s.p, 8, chunk, size - 1 - |s.ring|), ring := s.ring + s.app[s.p.index..s.p.index + w])
  }

  // ---------- The device ----------

  class I2s {
    const ring: Ring
    const receives: bool
    const bits: nat
    const stereo: bool
    const map8: seq<int>
    const chunk: nat
    var appbuf: array<Byte>
    var index: nat
    var inProgress: bool
    var callbacks: nat
    ghost var moved: seq<Byte>

    ghost function Sample(): nat { SampleSize(bits, stereo) }

    /** The fixed facts of a device. */
    ghost predicate Configured() {
      && (bits == 16 || bits == 32) && IsFrameMap(map8, Sample()) && chunk > 0 && chunk % FRAME == 0
    }

    ghost function State(): Progress
      reads this
    {
      Progress(index, appbuf.Length, inProgress, callbacks)
    }

    /** A read that has been started: `moved` are the ring bytes taken since, and they are exactly what the first
        `index` bytes of the application buffer were made from. */
    ghost predicate Reading()
      reads this, ring, ring.buffer, appbuf
    {
      && Configured() && ring.Valid() && appbuf != ring.buffer && receives
      && Orderly(State(), Sample())
      && |moved| == ToRing(index, Sample())
      && appbuf[..index] == Formatted(moved, map8, Sample())
    }

    /** A write that has been started: the first `index` bytes have been pushed. */
    ghost predicate Writing()
      reads this, ring, ring.buffer, appbuf
    {
      && Configured() && ring.Valid() && appbuf != ring.buffer && !receives
      && 0 < appbuf.Length && index <= appbuf.Length
      && (inProgress <==> index < appbuf.Length) && callbacks == (if inProgress then 0 else 1)
      && moved == appbuf[..index]
    }

    constructor (ring: Ring, receives: bool, bits: nat, stereo: bool, map8: seq<int>, chunk: nat)
      requires bits == 16 || bits == 32
      requires IsFrameMap(map8, SampleSize(bits, stereo)) && chunk > 0 && chunk % FRAME == 0
      ensures this.ring == ring && this.receives == receives && Configured() && !inProgress
    {
      this.ring, this.receives, this.bits, this.stereo, this.map8, this.chunk := ring, receives, bits, stereo, map8, chunk;
      appbuf := new Byte[0];
      index, inProgress, callbacks, moved := 0, false, 0, [];
    }

    /** `machine_i2s_stream_read` in non-blocking mode. */
    method StreamRead(buf: array<Byte>) returns (r: Started)
      requires Configured() && ring.Valid() && buf != ring.buffer
      modifies this
      ensures r == (if !receives then EPERM else if !Whole(buf.Length, Sample()) then EINVAL else Size(buf.Length))
      ensures r.Size? && r.bytes > 0 ==> Reading() && appbuf == buf && index == 0 && moved == []
      ensures !r.Size? || r.bytes == 0 ==> State() == old(State()) && appbuf == old(appbuf) && moved == old(moved)
    {
      if !receives {
        return EPERM;
      }
      var sample := (bits / 8) * (if stereo then 2 else 1);
      SampleIs(bits, stereo, buf.Length);
      if buf.Length % sample != 0 {
        return EINVAL;
      }
      if buf.Length == 0 {
        return Size(0);
      }
      appbuf, index, inProgress := buf, 0, true;
      callbacks, moved := 0, [];
      r := Size(buf.Length);
      assert appbuf[..0] == [];
    }

    /** `machine_i2s_stream_write` in non-blocking mode. */
    method StreamWrite(buf: array<Byte>) returns (r: Started)
      requires Configured() && ring.Valid() && buf != ring.buffer
      modifies this
      ensures r == if receives then EPERM else Size(buf.Length)
      ensures r.Size? && r.bytes > 0 ==> Writing() && appbuf == buf && index == 0 && moved == []
      ensures !r.Size? || r.bytes == 0 ==> State() == old(State()) && appbuf == old(appbuf) && moved == old(moved)
    {
      if receives {
        return EPERM;
      }
      if buf.Length == 0 {
        return Size(0);
      }
      appbuf, index, inProgress := buf, 0, true;
      callbacks, moved := 0, [];
      r := Size(buf.Length);
      assert appbuf[..0] == [];
    }

    /** The inner loop of `fill_appbuf_from_ringbuf_non_blocking`: one frame of eight ring bytes, no pop failing. */
    method FillFrame(at: nat)
      requires Configured() && ring.Valid() && appbuf != ring.buffer
      requires |ring.contents| >= FRAME && at + Sample() <= appbuf.Length
      modifies ring, appbuf
      ensures ring.Valid() && ring.contents == old(ring.contents)[FRAME..]
      ensures appbuf[..at + Sample()] == old(appbuf[..at]) + Picked(old(ring.contents)[..FRAME], map8, Sample())
      ensures appbuf[at + Sample()..] == old(appbuf[at + Sample()..])
      ensures forall i :: 0 <= i < FRAME && map8[i] != -1 ==> appbuf[at + map8[i]] == old(ring.contents)[i]
    {
      hide PlaceOf, SampleSize, Holds;
      ghost var raw, n := ring.contents, Sample();
      for i := 0 to FRAME
        invariant ring.Valid() && ring.contents == raw[i..]
        invariant forall b :: 0 <= b < appbuf.Length && !(at <= b < at + n) ==> appbuf[b] == old(appbuf[b])
        invariant forall k :: 0 <= k < i && map8[k] != -1 ==> appbuf[at + map8[k]] == raw[k]
      {
        var ok, data := ring.Pop();
        assert data == raw[i] && ring.contents == raw[i + 1..];
        if map8[i] != -1 {
          appbuf[at + map8[i]] := data;
        }
      }
      forall b | 0 <= b < n ensures appbuf[at + b] == Picked(raw[..FRAME], map8, n)[b] {
        assert map8[PlaceOf(map8, b)] == b;
      }
    }

    /** `fill_appbuf_from_ringbuf_non_blocking`, called while a copy is in progress. */
    method FillStep()
      requires Reading() && inProgress
      modifies this, ring, appbuf
      ensures Reading() && appbuf == old(appbuf)
      ensures State() == Stepped(old(State()), Sample(), chunk, |old(ring.contents)|)
      // Exactly the bytes that left the ring were moved, oldest first.
      ensures var k := |old(ring.contents)| - |ring.contents|;
              k >= 0 && moved == old(moved) + old(ring.contents)[..k] && ring.contents == old(ring.contents)[k..]
      // Nothing beyond the new index was touched.
      ensures appbuf[index..] == old(appbuf[..])[index..]
      ensures ReceivingOk(old(Received()), map8, Sample()) && Received() == ReceiveStep(old(Received()), map8, Sample(), chunk)
    {
      ghost var was := Received();
      FillBlock();
      StillReceiving(was);
    }

    ghost function Received(): Receiving
      reads this, ring, appbuf
    {
      Receiving(State(), moved, ring.contents, appbuf[..])
    }

    lemma StillReceiving(was: Receiving)
      requires Reading() && ReceivingOk(was, map8, Sample())
      requires State() == Stepped(was.p, Sample(), chunk, |was.ring|) && appbuf[index..] == was.app[index..]
      requires var k := |was.ring| - |ring.contents|;
               k >= 0 && moved == was.moved + was.ring[..k] && ring.contents == was.ring[k..]
      ensures Received() == ReceiveStep(was, map8, Sample(), chunk)
    {
      hide SampleSize, Orderly, Wanted, ToRing, FromRing, IsFrameMap, Whole, KnownSample, Formatted, Holds;
      ReceiveStepIs(was, Received(), map8, Sample(), chunk);
    }

    /** The body of `FillStep`. */
    method FillBlock()
      requires Reading() && inProgress
      modifies this, ring, appbuf
      ensures Reading() && appbuf == old(appbuf)
      ensures State() == Stepped(old(State()), Sample(), chunk, |old(ring.contents)|)
      ensures var k := |old(ring.contents)| - |ring.contents|;
              k >= 0 && moved == old(moved) + old(ring.contents)[..k] && ring.contents == old(ring.contents)[k..]
      ensures appbuf[index..] == old(appbuf[..])[index..]
    {
      hide SampleSize, Orderly, Wanted, ToRing, FromRing, IsFrameMap, Whole, KnownSample, Formatted, Holds;
      ghost var n, start, raw, p0, m0 := Sample(), index, ring.contents, State(), moved;
      SampleIs(bits, stereo, 0);
      OrderlyInside(p0, n);
      WantedWholeFrames(p0, n, chunk);
      SteppedOrderly(p0, n, chunk, |raw|);
      var needed := NeededNow();
      assert raw[0..] == raw && moved == m0 + raw[..0];
      if ring.Available() >= needed {
        var copied := CopyFrames(needed);
        index := index + copied;
        moved := moved + raw[..needed];
        ToRingSum(start, copied, n);
        WholeToRing(start, n);
        FormattedConcat(m0, raw[..needed], map8, n);
        if index >= appbuf.Length {
          inProgress := false;
          callbacks := callbacks + 1;
        }
      }
    }

    /** The block size of one step, as computed at the top of the source function. */
    method NeededNow() returns (needed: nat)
      requires Reading()
      ensures needed == Wanted(State(), Sample(), chunk)
    {
      var sample := (if bits == 16 then 2 else 4) * (if stereo then 2 else 1);
      var remaining := (appbuf.Length - index) * (FRAME / sample);
      needed := if chunk < remaining then chunk else remaining;
    }

    /** One round of the outer loop. */
    method CopyFrame(at: nat, ghost raw: seq<Byte>, ghost done: nat, ghost before: seq<Byte>)
      requires Configured() && ring.Valid() && appbuf != ring.buffer && index <= at && at + Sample() <= appbuf.Length
      requires done % FRAME == 0 && done + FRAME <= |raw| && ring.contents == raw[done..]
      requires |before| == appbuf.Length && appbuf[..at] == before[..index] + Formatted(raw[..done], map8, Sample())
      requires appbuf[at..] == before[at..]
      modifies ring, appbuf
      ensures ring.Valid() && ring.contents == raw[done + FRAME..]
      ensures appbuf[..at + Sample()] == before[..index] + Formatted(raw[..done + FRAME], map8, Sample())
      ensures appbuf[at + Sample()..] == before[at + Sample()..]
    {
      hide SampleSize, IsFrameMap, Picked, Formatted, FromRing, Holds;
      NextFrame(raw, done, map8, Sample());
      DropTwice(appbuf[..], before, at, Sample());
      FillFrame(at);
    }

    /** The outer loop of the source function. */
    method CopyFrames(needed: nat) returns (copied: nat)
      requires Configured() && ring.Valid() && appbuf != ring.buffer && KnownSample(Sample())
      requires needed % FRAME == 0 && needed <= |ring.contents|
      requires index + FromRing(needed, Sample()) <= appbuf.Length
      modifies ring, appbuf
      ensures ring.Valid() && ring.contents == old(ring.contents)[needed..]
      ensures copied == FromRing(needed, Sample())
      ensures appbuf[..index + copied] == old(appbuf[..index]) + Formatted(old(ring.contents)[..needed], map8, Sample())
      ensures appbuf[index + copied..] == old(appbuf[..])[index + copied..]
    {
      hide SampleSize, IsFrameMap, Picked, Formatted, FromRing, Holds;
      copied := 0;
      var left := needed;
      ghost var raw, n, before := ring.contents, Sample(), appbuf[..];
      NoFrames(map8, n);
      assert raw[..0] == [] && before[..index] + [] == before[..index];
      while left > 0
        invariant ring.Valid() && 0 <= left <= needed && left % FRAME == 0
        invariant ring.contents == raw[needed - left..]
        invariant copied == FromRing(needed - left, n)
        invariant index + copied <= appbuf.Length
        invariant appbuf[..index + copied] == before[..index] + Formatted(raw[..needed - left], map8, n)
        invariant appbuf[index + copied..] == before[index + copied..]
      {
        var at := index + copied;
        ghost var done := needed - left;
        FromRingStep(done, n);
        FromRingMonotone(done + FRAME, needed, n);
        CopyFrame(at, raw, done, before);
        SampleSizeIs(bits, stereo);
        copied := copied + (if bits == 16 then 2 else 4) * (if stereo then 2 else 1);
        left := left - FRAME;
      }
      assert raw[..needed - 0] == raw[..needed];
    }

    /** `copy_appbuf_to_ringbuf_non_blocking`, called while a copy is in progress. */
    method CopyStep()
      requires Writing() && inProgress
      modifies this, ring, ring.buffer
      ensures Writing() && appbuf == old(appbuf) && appbuf[..] == old(appbuf[..])
      ensures State() == Stepped(old(State()), 8, chunk, |old(ring.buffer[..])| - 1 - |old(ring.contents)|)
      // Exactly the application bytes passed over were appended to the ring.
      ensures ring.contents == old(ring.contents) + appbuf[old(index)..index]
      ensures Sent([]) == SendStep(old(Sent([])), chunk, ring.buffer.Length)
    {
      hide Holds;
      var remaining := appbuf.Length - index;
      var count := if chunk < remaining then chunk else remaining;
      if ring.Space() >= count {
        PushBytes(count);
        index := index + count;
        moved := appbuf[..index];
        if index >= appbuf.Length {
          inProgress := false;
          callbacks := callbacks + 1;
        }
      }
    }

    ghost function Sent(taken: seq<Byte>): Sending
      reads this, ring, appbuf
    {
      Sending(State(), taken, ring.contents, appbuf[..])
    }

    /** The loop of the source function: no push fails. */
    method PushBytes(count: nat)
      requires ring.Valid() && appbuf != ring.buffer && index + count <= appbuf.Length
      requires count <= ring.buffer.Length - 1 - |ring.contents|
      modifies ring, ring.buffer
      ensures ring.Valid() && ring.contents == old(ring.contents) + appbuf[index..index + count]
    {
      ghost var before, app := ring.contents, appbuf[..];
      assert before + app[index..index] == before;
      for i := 0 to count
        invariant ring.Valid() && appbuf[..] == app
        invariant ring.contents == before + app[index..index + i]
      {
        assert app[index..index + i] + [app[index + i]] == app[index..index + i + 1];
        var ok := ring.Push(appbuf[index + i]);
        assert ok;
      }
    }
  }

  /** One more frame off the front of the ring. */
  lemma NextFrame(raw: seq<Byte>, done: nat, map8: seq<int>, sample: nat)
    requires IsFrameMap(map8, sample) && done % FRAME == 0 && done + FRAME <= |raw|
    ensures raw[done..][FRAME..] == raw[done + FRAME..] && |raw[done..][..FRAME]| == FRAME
    ensures Formatted(raw[..done + FRAME], map8, sample) ==
            Formatted(raw[..done], map8, sample) + Picked(raw[done..][..FRAME], map8, sample)
  {
    hide IsFrameMap, Picked;
    FormattedSnoc(raw[..done], raw[done..][..FRAME], map8, sample);
    assert raw[..done] + raw[done..][..FRAME] == raw[..done + FRAME];
  }

  lemma DropTwice(s: seq<Byte>, t: seq<Byte>, at: nat, n: nat)
    requires at + n <= |s| && |s| == |t| && s[at..] == t[at..]
    ensures s[at + n..] == t[at + n..]
  {
    assert s[at..][n..] == s[at + n..] && t[at..][n..] == t[at + n..];
  }

  lemma SampleSizeIs(bits: nat, stereo: bool)
    ensures SampleSize(bits, stereo) == (if bits == 16 then 2 else 4) * (if stereo then 2 else 1)
  {
  }

  lemma NoFrames(map8: seq<int>, sample: nat)
    requires IsFrameMap(map8, sample)
    ensures Formatted([], map8, sample) == [] && FromRing(0, sample) == 0
  {
  }

  lemma FromRingStep(r: nat, sample: nat)
    requires KnownSample(sample) && r % FRAME == 0
    ensures FromRing(r + FRAME, sample) == FromRing(r, sample) + sample
  {
  }

  lemma WholeToRing(a: nat, sample: nat)
    requires KnownSample(sample) && Whole(a, sample)
    ensures ToRing(a, sample) % FRAME == 0
  {
    ToRingWhole(a, sample);
  }

  lemma ToRingSum(a: nat, b: nat, sample: nat)
    ensures ToRing(a + b, sample) == ToRing(a, sample) + ToRing(b, sample)
  {
  }

  /** Whole frames convert independently of what came before them. */
  lemma {:induction false} FormattedConcat(a: seq<Byte>, b: seq<Byte>, map8: seq<int>, sample: nat)
    requires IsFrameMap(map8, sample) && |a| % FRAME == 0
    ensures Formatted(a + b, map8, sample) == Formatted(a, map8, sample) + Formatted(b, map8, sample)
    decreases |a|
  {
    hide IsFrameMap, Picked;
    if a == [] {
      assert a + b == b;
    } else {
      assert (a + b)[..FRAME] == a[..FRAME] && (a + b)[FRAME..] == a[FRAME..] + b;
      FormattedConcat(a[FRAME..], b, map8, sample);
    }
  }

  lemma OrderlyInside(p: Progress, sample: nat)
    requires Orderly(p, sample)
    ensures KnownSample(sample) && p.index <= p.len && Whole(p.index, sample)
  {
  }

  lemma SampleIs(bits: nat, stereo: bool, n: nat)
    requires bits == 16 || bits == 32
    ensures (bits / 8) * (if stereo then 2 else 1) == SampleSize(bits, stereo)
    ensures KnownSample(SampleSize(bits, stereo))
    ensures n % SampleSize(bits, stereo) == 0 <==> Whole(n, SampleSize(bits, stereo))
  {
  }
}
