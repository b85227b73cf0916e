/** Whole non-blocking transfers of `machine_i2s.c`: every interleaving of steps with the traffic of the other side. */
module I2sRuns {
  import opened Bytes
  import opened I2sTransfer
  import opened RingBuffer

  // ---------- Reads ----------

  /** The hardware side pushes bytes, the interrupt handler makes a step. */
  datatype ReadEvent = Pushed(bytes: seq<Byte>) | FillStep

  function In(es: seq<ReadEvent>): seq<Byte> {
    if es == [] then [] else (if es[0].Pushed? then es[0].bytes else []) + In(es[1..])
  }

  ghost function ReadRun(s: Receiving, map8: seq<int>, sample: nat, chunk: nat, es: seq<ReadEvent>): (e: Receiving)
    requires ReceivingOk(s, map8, sample) && chunk % FRAME == 0
    decreases |es|
  {
    if es == [] then s
    else
      match es[0]
      case Pushed(bytes) => ReadRun(s.(ring := s.ring + bytes), map8, sample, chunk, es[1..])
      case FillStep =>
        ReceiveStepKeeps(s, map8, sample, chunk);
        ReadRun(ReceiveStep(s, map8, sample, chunk), map8, sample, chunk, es[1..])
  }

  /** Over every interleaving of arriving bytes and steps: the bytes moved followed by those in the ring are all the
      bytes there ever were, in order; what is done of the application buffer is made from exactly the bytes moved; the
      rest of it is untouched; and the callback has been scheduled exactly when the transfer is over. */
  lemma {:induction false} ReadRunConserves(s: Receiving, map8: seq<int>, sample: nat, chunk: nat, es: seq<ReadEvent>)
    requires ReceivingOk(s, map8, sample) && chunk % FRAME == 0
    ensures var e := ReadRun(s, map8, sample, chunk, es);
            && ReceivingOk(e, map8, sample) && e.p.len == s.p.len && e.p.index >= s.p.index
            && e.moved + e.ring == s.moved + s.ring + In(es)
            && e.app[e.p.index..] == s.app[e.p.index..]
    decreases |es|
  {
    hide ReceivingOk, ReceiveStep, In;
    ReceivingInside(s, map8, sample);
    if es == [] {
      NothingIn();
      assert s.moved + s.ring + [] == s.moved + s.ring;
    } else {
      InStep(es);
      match es[0]
      case Pushed(bytes) =>
        var t := s.(ring := s.ring + bytes);
        ReceivingPushed(s, bytes, map8, sample);
        ReadRunConserves(t, map8, sample, chunk, es[1..]);
        assert s.moved + (s.ring + bytes) + In(es[1..]) == s.moved + s.ring + (bytes + In(es[1..]));
      case FillStep =>
        var t := ReceiveStep(s, map8, sample, chunk);
        ReceiveStepKeeps(s, map8, sample, chunk);
        ReadRunConserves(t, map8, sample, chunk, es[1..]);
        var e := ReadRun(s, map8, sample, chunk, es);
        ReceivingInside(t, map8, sample);
        ReceivingInside(e, map8, sample);
        TailsAgree(s.app, t.app, t.p.index, e.p.index);
        assert [] + In(es[1..]) == In(es[1..]);
    }
  }

  lemma ReceivingInside(s: Receiving, map8: seq<int>, sample: nat)
    requires ReceivingOk(s, map8, sample)
    ensures s.p.index <= s.p.len == |s.app|
  {
  }

  lemma ReceivingPushed(s: Receiving, bytes: seq<Byte>, map8: seq<int>, sample: nat)
    requires ReceivingOk(s, map8, sample)
    ensures ReceivingOk(s.(ring := s.ring + bytes), map8, sample)
  {
  }

  lemma TailsAgree(a: seq<Byte>, b: seq<Byte>, i: nat, j: nat)
    requires i <= j <= |a| && |a| == |b| && a[i..] == b[i..]
    ensures a[j..] == b[j..]
  {
    assert a[i..][j - i..] == a[j..] && b[i..][j - i..] == b[j..];
  }

  lemma NothingIn()
    ensures In([]) == []
  {
  }

  lemma InStep(es: seq<ReadEvent>)
    requires es != []
    ensures In(es) == (if es[0].Pushed? then es[0].bytes else []) + In(es[1..])
  {
  }

  /** A read from its start: once it is over, the application buffer is made from exactly the first ring bytes of the
      stream, each used once and in order, and the callback has been scheduled once. */
  lemma ReadDelivers(app: seq<Byte>, ring: seq<Byte>, map8: seq<int>, sample: nat, chunk: nat, es: seq<ReadEvent>)
    requires IsFrameMap(map8, sample) && KnownSample(sample) && app != [] && Whole(|app|, sample) && chunk % FRAME == 0
    ensures var s := Receiving(Progress(0, |app|, true, 0), [], ring, app);
            && ReceivingOk(s, map8, sample)
            && var e := ReadRun(s, map8, sample, chunk, es);
            && |e.moved| <= |ring + In(es)| && e.moved == (ring + In(es))[..|e.moved|]
            && (!e.p.active ==> e.p.callbacks == 1 && |e.moved| == ToRing(|app|, sample)
                                && e.app == Formatted(e.moved, map8, sample))
            && (e.p.active ==> e.p.callbacks == 0)
  {
    hide IsFrameMap, In;
    var s := Receiving(Progress(0, |app|, true, 0), [], ring, app);
    NoFrames(map8, sample);
    ReadRunConserves(s, map8, sample, chunk, es);
    var e := ReadRun(s, map8, sample, chunk, es);
    assert [] + ring == ring;
    assert (e.moved + e.ring)[..|e.moved|] == e.moved;
    if !e.p.active {
      assert e.app == e.app[..e.p.index];
    }
  }

  /** The same, byte by byte: the stream is the ring contents at the start and what arrived since. A finished read has
      used eight bytes of it for each sample, and each of them that the map does not discard is at its place. */
  lemma ReadKeepsSamples(app: seq<Byte>, ring: seq<Byte>, map8: seq<int>, sample: nat, chunk: nat, es: seq<ReadEvent>)
    requires IsFrameMap(map8, sample) && KnownSample(sample) && app != [] && Whole(|app|, sample) && chunk % FRAME == 0
    requires ReceivingOk(Receiving(Progress(0, |app|, true, 0), [], ring, app), map8, sample)
    ensures var e := ReadRun(Receiving(Progress(0, |app|, true, 0), [], ring, app), map8, sample, chunk, es);
            !e.p.active ==>
              && |e.app| == |app| && 8 * (|app| / sample) <= |ring + In(es)| && e.ring == (ring + In(es))[8 * (|app| / sample)..]
              && forall k :: 0 <= k < |app| / sample ==> SampleKept(ring + In(es), e.app, map8, sample, k)
  {
    hide IsFrameMap, In, SampleKept, ReceivingOk, Whole, ToRing, Formatted, ReadRun;
    var s := Receiving(Progress(0, |app|, true, 0), [], ring, app);
    var stream := ring + In(es);
    ReadDelivers(app, ring, map8, sample, chunk, es);
    ReadRunConserves(s, map8, sample, chunk, es);
    var e := ReadRun(s, map8, sample, chunk, es);
    if !e.p.active {
      WholeSamples(|app|, sample);
      RestOfStream(e.moved, e.ring, ring, In(es));
      ToRingWhole(|app|, sample);
      FormattedSize(e.moved, map8, sample);
      AllKept(e.moved, stream, map8, sample, |app| / sample);
    }
  }

  lemma RestOfStream(moved: seq<Byte>, rest: seq<Byte>, ring: seq<Byte>, later: seq<Byte>)
    requires moved + rest == [] + ring + later
    ensures |moved| <= |ring + later| && rest == (ring + later)[|moved|..]
  {
    assert [] + ring == ring;
  }

  lemma AllKept(moved: seq<Byte>, stream: seq<Byte>, map8: seq<int>, sample: nat, n: nat)
    requires IsFrameMap(map8, sample) && moved <= stream && |moved| == 8 * n
    ensures forall k :: 0 <= k < n ==> SampleKept(stream, Formatted(moved, map8, sample), map8, sample, k)
  {
    hide IsFrameMap, SampleKept;
    forall k | 0 <= k < n ensures SampleKept(stream, Formatted(moved, map8, sample), map8, sample, k) {
      FormattedKeeps(moved, map8, sample, k);
      KeptInPrefix(moved, stream, Formatted(moved, map8, sample), map8, sample, k);
    }
  }

  lemma WholeSamples(len: nat, sample: nat)
    requires KnownSample(sample) && Whole(len, sample)
    ensures ToRing(len, sample) == 8 * (len / sample)
  {
  }

  lemma KeptInPrefix(raw: seq<Byte>, stream: seq<Byte>, app: seq<Byte>, map8: seq<int>, sample: nat, k: nat)
    requires raw <= stream && SampleKept(raw, app, map8, sample, k)
    ensures SampleKept(stream, app, map8, sample, k)
  {
    assert forall i :: 0 <= i < |raw| ==> stream[i] == raw[i];
  }

  lemma KeptByte(raw: seq<Byte>, app: seq<Byte>, map8: seq<int>, sample: nat, k: nat, i: nat, place: nat)
    requires SampleKept(raw, app, map8, sample, k) && i < 8 && map8[i] == place
    ensures place < sample && app[k * sample + place] == raw[8 * k + i]
  {
  }

  /** What the rp2 port keeps of a frame, which is two samples of 32 bits, left and right: with 16 bits the upper half of
      a sample, with mono the left one. */
  lemma Rp2Keeps(bits: nat, stereo: bool, raw: seq<Byte>, app: seq<Byte>, k: nat)
    requires bits == 16 || bits == 32
    requires SampleKept(raw, app, Rp2Map(bits, stereo), SampleSize(bits, stereo), k)
    ensures bits == 16 && !stereo ==> app[2 * k] == raw[8 * k + 2] && app[2 * k + 1] == raw[8 * k + 3]
    ensures bits == 32 && !stereo ==>
              app[4 * k] == raw[8 * k] && app[4 * k + 1] == raw[8 * k + 1]
              && app[4 * k + 2] == raw[8 * k + 2] && app[4 * k + 3] == raw[8 * k + 3]
    ensures bits == 16 && stereo ==>
              app[4 * k] == raw[8 * k + 2] && app[4 * k + 1] == raw[8 * k + 3]
              && app[4 * k + 2] == raw[8 * k + 6] && app[4 * k + 3] == raw[8 * k + 7]
    ensures bits == 32 && stereo ==> app[8 * k..8 * k + 8] == raw[8 * k..8 * k + 8]
  {
    hide SampleKept;
    if bits == 16 {
      if stereo {
        KeptStereo16(raw, app, k);
      } else {
        KeptMono16(raw, app, k);
      }
    } else {
      var m, n := Rp2Map(bits, stereo), SampleSize(bits, stereo);
      KeptWhole(raw, app, m, n, k);
    }
  }

  lemma KeptMono16(raw: seq<Byte>, app: seq<Byte>, k: nat)
    requires SampleKept(raw, app, [-1, -1, 0, 1, -1, -1, -1, -1], 2, k)
    ensures app[2 * k] == raw[8 * k + 2] && app[2 * k + 1] == raw[8 * k + 3]
  {
    hide SampleKept;
    KeptByte(raw, app, [-1, -1, 0, 1, -1, -1, -1, -1], 2, k, 2, 0);
    KeptByte(raw, app, [-1, -1, 0, 1, -1, -1, -1, -1], 2, k, 3, 1);
    KeptInside(raw, app, [-1, -1, 0, 1, -1, -1, -1, -1], 2, k);
  }

  lemma KeptStereo16(raw: seq<Byte>, app: seq<Byte>, k: nat)
    requires SampleKept(raw, app, [-1, -1, 0, 1, -1, -1, 2, 3], 4, k)
    ensures app[4 * k] == raw[8 * k + 2] && app[4 * k + 1] == raw[8 * k + 3]
    ensures app[4 * k + 2] == raw[8 * k + 6] && app[4 * k + 3] == raw[8 * k + 7]
  {
    hide SampleKept;
    var m := [-1, -1, 0, 1, -1, -1, 2, 3];
    KeptInside(raw, app, m, 4, k);
    KeptByte(raw, app, m, 4, k, 2, 0);
    KeptByte(raw, app, m, 4, k, 3, 1);
    KeptByte(raw, app, m, 4, k, 6, 2);
    KeptByte(raw, app, m, 4, k, 7, 3);
  }

  lemma KeptWhole(raw: seq<Byte>, app: seq<Byte>, map8: seq<int>, sample: nat, k: nat)
    requires SampleKept(raw, app, map8, sample, k) && sample <= 8 && forall i :: 0 <= i < sample ==> map8[i] == i
    ensures app[k * sample..k * sample + sample] == raw[8 * k..8 * k + sample]
    ensures sample >= 4 ==>
              app[k * sample] == raw[8 * k] && app[k * sample + 1] == raw[8 * k + 1]
              && app[k * sample + 2] == raw[8 * k + 2] && app[k * sample + 3] == raw[8 * k + 3]
  {
    hide SampleKept;
    KeptInside(raw, app, map8, sample, k);
    var a, b := app[k * sample..k * sample + sample], raw[8 * k..8 * k + sample];
    forall i | 0 <= i < sample ensures a[i] == b[i] {
      KeptByte(raw, app, map8, sample, k, i, i);
    }
    if sample >= 4 {
      assert a[0] == b[0] && a[1] == b[1] && a[2] == b[2] && a[3] == b[3];
    }
  }

  lemma KeptInside(raw: seq<Byte>, app: seq<Byte>, map8: seq<int>, sample: nat, k: nat)
    requires SampleKept(raw, app, map8, sample, k)
    ensures |app| >= k * sample + sample && |raw| >= 8 * k + 8
  {
  }

  // ---------- Writes ----------

  /** The hardware side takes up to `n` bytes out of the ring, the interrupt handler makes a step. */
  datatype WriteEvent = Popped(n: nat) | CopyStep

  function PopSome(s: Sending, n: nat): Sending {
    var k := if n <= |s.ring| then n else |s.ring|;
    s.(taken := s.taken + s.ring[..k], ring := s.ring[k..])
  }

  function WriteRun(s: Sending, chunk: nat, size: nat, es: seq<WriteEvent>): (e: Sending)
    requires SendingOk(s) && |s.ring| < size
    decreases |es|
  {
    if es == [] then s
    else
      match es[0]
      case Popped(n) => WriteRun(PopSome(s, n), chunk, size, es[1..])
      case CopyStep =>
        SendStepKeeps(s, chunk, size);
        WriteRun(SendStep(s, chunk, size), chunk, size, es[1..])
  }

  lemma SendStepKeeps(s: Sending, chunk: nat, size: nat)
    requires SendingOk(s) && |s.ring| < size
    ensures var t := SendStep(s, chunk, size);
            && SendingOk(t) && t.app == s.app && t.taken == s.taken && s.p.index <= t.p.index
            && t.ring == s.ring + s.app[s.p.index..t.p.index]
  {
    SteppedSendable(s.p, chunk, size - 1 - |s.ring|);
    assert s.ring + s.app[s.p.index..s.p.index] == s.ring;
  }

  /** Over every interleaving of departing bytes and steps, for a write of any length: what has left the ring followed
      by what it holds is what was there, followed by exactly the application bytes passed over, each once and in
      order; and the callback has been scheduled exactly when the transfer is over. */
  lemma {:induction false} WriteRunConserves(s: Sending, chunk: nat, size: nat, es: seq<WriteEvent>)
    requires SendingOk(s) && |s.ring| < size
    ensures var e := WriteRun(s, chunk, size, es);
            && SendingOk(e) && e.app == s.app && s.p.index <= e.p.index && |e.ring| < size
            && e.taken + e.ring == s.taken + s.ring + s.app[s.p.index..e.p.index]
    decreases |es|
  {
    hide SendStep, Sendable;
    SendableInside(s.p);
    if es == [] {
      assert s.taken + s.ring + s.app[s.p.index..s.p.index] == s.taken + s.ring;
    } else {
      match es[0]
      case Popped(n) =>
        var t := PopSome(s, n);
        WriteRunConserves(t, chunk, size, es[1..]);
        assert t.taken + t.ring == s.taken + s.ring;
      case CopyStep =>
        var t := SendStep(s, chunk, size);
        SendStepKeeps(s, chunk, size);
        WriteRunConserves(t, chunk, size, es[1..]);
        var e := WriteRun(s, chunk, size, es);
        SendableInside(e.p);
        Pieces(s.taken, s.ring, s.app, s.p.index, t.p.index, e.p.index);
    }
  }

  lemma Pieces(a: seq<Byte>, b: seq<Byte>, app: seq<Byte>, i: nat, j: nat, k: nat)
    requires i <= j <= k <= |app|
    ensures a + (b + app[i..j]) + app[j..k] == a + b + app[i..k]
  {
    assert app[i..j] + app[j..k] == app[i..k];
  }

  /** A write from its start: once it is over, the whole application buffer has followed the earlier ring contents. */
  lemma WriteDelivers(app: seq<Byte>, ring: seq<Byte>, chunk: nat, size: nat, es: seq<WriteEvent>)
    requires app != [] && |ring| < size
    ensures var e := WriteRun(Sending(Progress(0, |app|, true, 0), [], ring, app), chunk, size, es);
            && e.p.index <= |app| && e.taken + e.ring == ring + app[..e.p.index]
            && (!e.p.active ==> e.p.callbacks == 1 && e.taken + e.ring == ring + app)
            && (e.p.active ==> e.p.callbacks == 0)
  {
    var s := Sending(Progress(0, |app|, true, 0), [], ring, app);
    WriteRunConserves(s, chunk, size, es);
    var e := WriteRun(s, chunk, size, es);
    assert app[0..e.p.index] == app[..e.p.index] && [] + ring == ring;
    if !e.p.active {
      assert app[..e.p.index] == app;
    }
  }
}
