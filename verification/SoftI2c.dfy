/** The bit-banged I2C master of `machine_i2c.c`, and what a listener on the two wires hears
    (sections 3.1.3 to 3.1.6 of NXP UM10204). */
module SoftI2c {
  import opened BitStrings
  import opened Bytes

  lemma ByteRange(bits: seq<bool>)
    requires |bits| == 8
    ensures Value(bits) < 256
  {
    ValueBound(bits);
    Pow2Eight();
  }

  // ---------- The listener ----------

  datatype BusEvent = Start | Stop | Bit(b: bool)

  /** What a device on the bus remembers: the last levels, whether SDA has been steady since SCL rose, and what
      it has heard. SDA falling while SCL is high is a START, SDA rising then is a STOP, and a clock pulse
      during which SDA was steady carries one bit. */
  datatype Listener = Listener(scl: bool, sda: bool, steady: bool, heard: seq<BusEvent>)

  function Hear(l: Listener, scl: bool, sda: bool): Listener {
    if !l.scl && scl then Listener(scl, sda, true, l.heard)
    else if l.scl && !scl then Listener(scl, sda, false, if l.steady then l.heard + [Bit(l.sda)] else l.heard)
    else if l.scl && l.sda && !sda then Listener(scl, sda, false, l.heard + [Start])
    else if l.scl && !l.sda && sda then Listener(scl, sda, false, l.heard + [Stop])
    else Listener(scl, sda, l.steady, l.heard)
  }

  /** A transmission as its parts: START, bytes with their acknowledge bit (true is NACK), STOP. */
  datatype Frame = S | P | Data(value: Byte, nack: bool)

  function BitEvents(bits: seq<bool>): (e: seq<BusEvent>)
    ensures |e| == |bits|
  {
    if bits == [] then [] else [Bit(bits[0])] + BitEvents(bits[1..])
  }

  function FrameEvents(f: Frame): seq<BusEvent> {
    match f
    case S => [Start]
    case P => [Stop]
    case Data(v, nack) => BitEvents(Bits(v, 8)) + [Bit(nack)]
  }

  function Events(fs: seq<Frame>): seq<BusEvent> {
    if fs == [] then [] else FrameEvents(fs[0]) + Events(fs[1..])
  }

  predicate AllBits(e: seq<BusEvent>) {
    e == [] || (e[0].Bit? && AllBits(e[1..]))
  }

  /** The bits in a run of bit events. */
  function BitsIn(e: seq<BusEvent>): (bits: seq<bool>)
    requires AllBits(e)
    ensures |bits| == |e|
  {
    if e == [] then [] else [e[0].b] + BitsIn(e[1..])
  }

  /** How a listener groups what it hears: START and STOP stand alone, nine bits are a byte and its acknowledge. */
  function Parse(e: seq<BusEvent>): seq<Frame>
    decreases |e|
  {
    if e == [] then []
    else if e[0] == Start then [S] + Parse(e[1..])
    else if e[0] == Stop then [P] + Parse(e[1..])
    else if |e| >= 9 && AllBits(e[..8]) && e[8].Bit? then
      ByteRange(BitsIn(e[..8]));
      [Data(Value(BitsIn(e[..8])), e[8].b)] + Parse(e[9..])
    else []
  }

  lemma {:induction false} BitsInEvents(bits: seq<bool>)
    ensures AllBits(BitEvents(bits)) && BitsIn(BitEvents(bits)) == bits
  {
    if bits == [] {
    } else {
      BitsInEvents(bits[1..]);
      assert BitEvents(bits)[1..] == BitEvents(bits[1..]);
    }
  }

  lemma ParseNine(head: seq<BusEvent>, last: bool, rest: seq<BusEvent>)
    requires |head| == 8 && AllBits(head) && head[0].Bit? && Value(BitsIn(head)) < 256
    ensures Parse(head + ([Bit(last)] + rest)) == [Data(Value(BitsIn(head)), last)] + Parse(rest)
  {
    hide AllBits, BitsIn, Value;
    var e := head + ([Bit(last)] + rest);
    assert e[..8] == head;
    assert e[9..] == rest;
  }

  lemma ParseByte(v: Byte, nack: bool, rest: seq<BusEvent>)
    ensures Parse(FrameEvents(Data(v, nack)) + rest) == [Data(v, nack)] + Parse(rest)
  {
    hide Bits, BitEvents, Value, Pow2, AllBits, BitsIn, Parse;
    var b := Bits(v, 8);
    FirstIsBit(b);
    BitsInEvents(b);
    Pow2Eight();
    ValueOfBits(v, 8);
    ParseNine(BitEvents(b), nack, rest);
    assert FrameEvents(Data(v, nack)) + rest == BitEvents(b) + ([Bit(nack)] + rest);
  }

  lemma FirstIsBit(bits: seq<bool>)
    requires bits != []
    ensures BitEvents(bits)[0].Bit?
  {
  }

  lemma ParseNothing()
    ensures Parse([]) == []
  {
  }

  lemma ParseOne(f: Frame, rest: seq<BusEvent>)
    ensures Parse(FrameEvents(f) + rest) == [f] + Parse(rest)
  {
    hide AllBits, BitsIn, Value;
    match f
    case S => assert ([Start] + rest)[1..] == rest;
    case P => assert ([Stop] + rest)[1..] == rest;
    case Data(v, nack) => ParseByte(v, nack, rest);
  }

  /** A listener recovers exactly the frames that were sent. */
  lemma {:induction false} ParseEvents(fs: seq<Frame>)
    ensures Parse(Events(fs)) == fs
  {
    hide Parse, FrameEvents;
    if fs == [] {
      ParseNothing();
    } else {
      ParseEvents(fs[1..]);
      ParseOne(fs[0], Events(fs[1..]));
      assert [fs[0]] + fs[1..] == fs;
    }
  }

  lemma {:induction false} EventsConcat(a: seq<Frame>, b: seq<Frame>)
    ensures Events(a + b) == Events(a) + Events(b)
  {
    if a == [] {
      assert a + b == b;
    } else {
      assert (a + b)[1..] == a[1..] + b;
      EventsConcat(a[1..], b);
    }
  }

  // ---------- The master ----------

  datatype WriteResult = Ack | Nack | WriteTimeout

  datatype Result = Done(acks: nat) | NoDevice | TimedOut

  class Master {
    /** The other side of the bus. During clock pulse `p` (numbered by the falling edges before it) the slaves
        let SDA go high iff `sdaFree(p)`, and they hold SCL low for `stretch(p)` polls after its release. */
    const sdaFree: nat -> bool
    const stretch: nat -> nat
    const usTimeout: nat
    var sclOut: bool
    var sdaOut: bool
    var scl: bool
    var pulse: nat
    ghost var wire: Listener

    constructor (sdaFree: nat -> bool, stretch: nat -> nat, usTimeout: nat)
      ensures Valid() && scl && sdaOut && wire.heard == [] && pulse == 0
      ensures this.sdaFree == sdaFree && this.stretch == stretch && this.usTimeout == usTimeout
    {
      this.sdaFree, this.stretch, this.usTimeout := sdaFree, stretch, usTimeout;
      sclOut, sdaOut, scl, pulse := true, true, true, 0;
      wire := Listener(true, sdaFree(0), false, []);
    }

    /** The level on the SDA wire: both sides are open-drain. */
    function Sda(): bool
      reads this
    {
      sdaOut && sdaFree(pulse)
    }

    ghost predicate Valid()
      reads this
    {
      (scl ==> sclOut) && wire.scl == scl && wire.sda == Sda()
    }

    /** In pulses `a` to `b - 1` no slave stretches the clock as long as the timeout. */
    ghost predicate Prompt(a: nat, b: nat) {
      forall p: nat :: a <= p < b ==> stretch(p) < usTimeout
    }

    /** In the present pulse one does. */
    ghost predicate TooLate()
      reads this
    {
      stretch(pulse) >= usTimeout
    }

    /** `mp_hal_i2c_scl_low`; once the clock is low the slaves set SDA for the next pulse. */
    method SclLow()
      requires Valid()
      modifies this
      ensures Valid() && !scl && sdaOut == old(sdaOut)
      ensures pulse == if old(scl) then old(pulse) + 1 else old(pulse)
      ensures wire.heard == if old(scl) && old(wire.steady) then old(wire.heard) + [Bit(old(wire.sda))] else old(wire.heard)
    {
      sclOut := false;
      if scl {
        scl := false;
        wire := Hear(wire, false, wire.sda);
        pulse := pulse + 1;
        wire := Hear(wire, false, Sda());
      }
    }

    /** `mp_hal_i2c_scl_release`: wait for the slaves to let go of SCL, but not for ever. */
    method SclRelease() returns (ok: bool)
      requires Valid()
      modifies this
      ensures Valid() && sdaOut == old(sdaOut) && pulse == old(pulse) && wire.heard == old(wire.heard)
      ensures ok <==> (if old(scl) then 0 else stretch(pulse)) < usTimeout
      ensures ok ==> scl && (wire.steady <==> !old(scl) || old(wire.steady))
    {
      var count := usTimeout;
      sclOut := true;
      ghost var was := scl;
      var polls := 0;
      RaiseIfFree(polls);
      while !scl && count > 0
        invariant Valid() && sclOut && sdaOut == old(sdaOut) && pulse == old(pulse) && wire.heard == old(wire.heard)
        invariant count == usTimeout - polls
        invariant scl <==> was || polls >= stretch(pulse)
        invariant was ==> polls == 0 && wire.steady == old(wire.steady)
        invariant !was ==> polls <= stretch(pulse) && (scl ==> wire.steady)
      {
        count := count - 1;
        polls := polls + 1;
        RaiseIfFree(polls);
      }
      ok := count != 0;
    }

    /** SCL goes high when the slaves let it, at the poll their stretching ends. */
    method RaiseIfFree(polls: nat)
      requires Valid() && sclOut
      modifies this
      ensures Valid() && sclOut && sdaOut == old(sdaOut) && pulse == old(pulse) && wire.heard == old(wire.heard)
      ensures scl <==> old(scl) || polls >= stretch(pulse)
      ensures wire.steady <==> if !old(scl) && scl then true else old(wire.steady)
    {
      if !scl && polls >= stretch(pulse) {
        scl := true;
        wire := Hear(wire, true, Sda());
      }
    }

    /** `mp_hal_i2c_sda_low` and `mp_hal_i2c_sda_release`. */
    method SdaSet(free: bool)
      requires Valid()
      modifies this
      ensures Valid() && sdaOut == free && scl == old(scl) && pulse == old(pulse)
      ensures wire.heard == old(wire.heard) + (if scl && old(wire.sda) && !wire.sda then [Start]
                                               else if scl && !old(wire.sda) && wire.sda then [Stop] else [])
      ensures wire.steady == (old(wire.steady) && (scl ==> wire.sda == old(wire.sda)))
    {
      sdaOut := free;
      wire := Hear(wire, scl, Sda());
    }

    // ---------- What the slaves let through ----------

    /** The bits on the wire in pulses `p`, `p + 1`, ... when the master sends `bits`. */
    ghost function Seen(bits: seq<bool>, p: nat): (s: seq<bool>)
      ensures |s| == |bits|
    {
      seq(|bits|, i requires 0 <= i < |bits| => bits[i] && sdaFree(p + i))
    }

    /** The byte on the wire when the master sends `v`. */
    ghost function Sent(v: Byte, p: nat): Byte {
      ByteRange(Seen(Bits(v, 8), p));
      Value(Seen(Bits(v, 8), p))
    }

    /** The byte the slaves send while the master leaves SDA alone. */
    ghost function SlaveByte(p: nat): Byte {
      ByteRange(Seen(Released(8), p));
      Value(Seen(Released(8), p))
    }

    // ---------- START, STOP and bytes ----------

    /** `mp_hal_i2c_start`. */
    method StartCondition() returns (ok: bool)
      requires Valid() && sdaOut
      modifies this
      ensures Valid() && pulse == old(pulse)
      ensures ok <==> if old(scl) then usTimeout > 0 else !TooLate()
      ensures ok ==> scl
      ensures ok && sdaFree(pulse) ==> !wire.steady && wire.heard == old(wire.heard) + Events([S])
      ensures !ok ==> sdaOut && wire.heard == old(wire.heard)
    {
      SdaSet(true);
      ok := SclRelease();
      if !ok {
        return;
      }
      SdaSet(false);
      OneFrame(S);
    }

    /** `mp_hal_i2c_stop`. */
    method StopCondition() returns (ok: bool)
      requires Valid() && !scl
      modifies this
      ensures Valid() && sdaOut && pulse == old(pulse)
      ensures ok && sdaFree(pulse) ==> scl && !wire.steady && wire.heard == old(wire.heard) + Events([P])
      ensures ok <==> !TooLate()
    {
      SdaSet(false);
      ok := SclRelease();
      SdaSet(true);
      OneFrame(P);
    }

    /** One clock pulse: set SDA, let SCL go, look at SDA, pull SCL low. */
    method ClockBit(level: bool) returns (ok: bool, seen: bool)
      requires Valid() && !scl
      modifies this
      ensures Valid() && sdaOut == level
      ensures ok <==> stretch(old(pulse)) < usTimeout
      ensures !ok ==> pulse == old(pulse)
      ensures ok ==> !scl && pulse == old(pulse) + 1 && seen == (level && sdaFree(old(pulse)))
      ensures ok ==> wire.heard == old(wire.heard) + [Bit(seen)]
    {
      SdaSet(level);
      ok := SclRelease();
      seen := Sda();
      if ok {
        SclLow();
      }
    }

    /** `mp_hal_i2c_write_byte`. */
    method WriteByte(val: Byte) returns (r: WriteResult)
      requires Valid()
      modifies this
      ensures Valid() && sdaOut
      ensures var p := if old(scl) then old(pulse) + 1 else old(pulse);
              p <= pulse && Prompt(p, pulse) && (r == WriteTimeout ==> TooLate())
      ensures r != WriteTimeout ==>
                var p := if old(scl) then old(pulse) + 1 else old(pulse);
                && !scl && pulse == p + 9 && (r == Nack <==> sdaFree(p + 8))
                && (!(old(scl) && old(wire.steady)) ==>
                      wire.heard == old(wire.heard) + Events([Data(Sent(val, p), sdaFree(p + 8))]))
    {
      SclLow();
      r := ClockOutByte(val);
    }

    /** The nine clock pulses of a written byte. */
    method ClockOutByte(val: Byte) returns (r: WriteResult)
      requires Valid() && !scl
      modifies this
      ensures Valid() && sdaOut && old(pulse) <= pulse && Prompt(old(pulse), pulse)
      ensures r == WriteTimeout ==> TooLate()
      ensures r != WriteTimeout ==>
                var p := old(pulse);
                && !scl && pulse == p + 9 && (r == Nack <==> sdaFree(p + 8))
                && wire.heard == old(wire.heard) + Events([Data(Sent(val, p), sdaFree(p + 8))])
    {
      hide Bits, BitEvents, Value, Events, Valid, Prompt;
      ghost var p, before := pulse, wire.heard;
      ghost var seen := Seen(Bits(val, 8), p);
      var sent := ClockOutBits(val);
      if !sent {
        SdaSet(true);
        return WriteTimeout;
      }
      PromptNext(p, pulse);
      var ok, ack := ClockBit(true);
      if !ok {
        return WriteTimeout;
      }
      BitsOfValue(seen);
      OneFrame(Data(Sent(val, p), sdaFree(p + 8)));
      assert wire.heard == before + BitEvents(seen) + [Bit(sdaFree(p + 8))];
      r := if ack then Nack else Ack;
    }

    /** The eight data pulses of a written byte. */
    method ClockOutBits(val: Byte) returns (ok: bool)
      requires Valid() && !scl
      modifies this
      ensures Valid() && old(pulse) <= pulse && Prompt(old(pulse), pulse)
      ensures !ok ==> TooLate()
      ensures ok ==>
                var p := old(pulse);
                !scl && pulse == p + 8 && wire.heard == old(wire.heard) + BitEvents(Seen(Bits(val, 8), p))
    {
      hide Bits, BitEvents, Value, Valid, Prompt;
      ghost var p, before := pulse, wire.heard;
      ghost var seen := Seen(Bits(val, 8), p);
      NoBitEvents();
      PromptNone(p);
      var i: int := 7;
      assert seen[..0] == [] && before + [] == before;
      while i >= 0
        invariant -1 <= i <= 7
        invariant Valid() && !scl && pulse == p + (7 - i)
        invariant wire.heard == before + BitEvents(seen[..7 - i])
        invariant Prompt(p, pulse)
      {
        BitAt(val, 8, i);
        PromptNext(p, pulse);
        var up, _ := ClockBit(ShiftRight(val, i) % 2 == 1);
        if !up {
          return false;
        }
        BitEventsSnoc(seen[..7 - i], seen[7 - i]);
        assert seen[..7 - i] + [seen[7 - i]] == seen[..8 - i];
        i := i - 1;
      }
      assert seen[..8] == seen;
      ok := true;
    }

    /** `mp_hal_i2c_read_byte`. */
    method ReadByte(nack: bool) returns (ok: bool, val: Byte)
      requires Valid() && !scl && sdaOut
      modifies this
      ensures Valid() && sdaOut && old(pulse) <= pulse && Prompt(old(pulse), pulse)
      ensures !ok ==> TooLate()
      ensures ok ==>
                var p := old(pulse);
                && !scl && sdaOut && pulse == p + 9 && val == SlaveByte(p)
                && wire.heard == old(wire.heard) + Events([Data(SlaveByte(p), nack && sdaFree(p + 8))])
    {
      hide Bits, BitEvents, Value, Events, Hear, Valid, Prompt;
      ghost var before, p := wire.heard, pulse;
      ghost var seen := Seen(Released(8), p);
      SclLow();
      var read, data := ReadBits();
      if !read {
        return false, 0;
      }
      val := data;
      PromptNext(p, pulse);
      var up, _ := ClockBit(nack);
      SdaSet(true);
      if !up {
        return false, val;
      }
      BitsOfValue(seen);
      OneFrame(Data(val, nack && sdaFree(p + 8)));
      assert wire.heard == before + BitEvents(seen) + [Bit(nack && sdaFree(p + 8))];
      ok := true;
    }

    lemma PromptNext(a: nat, b: nat)
      requires Prompt(a, b)
      ensures stretch(b) < usTimeout ==> Prompt(a, b + 1)
    {
    }

    lemma PromptNone(a: nat)
      ensures Prompt(a, a)
    {
    }

    /** The eight data pulses of a byte that is read. */
    method ReadBits() returns (ok: bool, val: Byte)
      requires Valid() && !scl && sdaOut
      modifies this
      ensures Valid() && sdaOut && old(pulse) <= pulse && Prompt(old(pulse), pulse)
      ensures !ok ==> TooLate()
      ensures ok ==>
                var p := old(pulse);
                && !scl && pulse == p + 8 && val == SlaveByte(p)
                && wire.heard == old(wire.heard) + BitEvents(Seen(Released(8), p))
    {
      hide Bits, BitEvents, Value, Valid, Prompt;
      ghost var before, p := wire.heard, pulse;
      ghost var seen := Seen(Released(8), p);
      NoBitEvents();
      PromptNone(p);
      var data: nat := 0;
      var i: int := 7;
      assert seen[..0] == [] && before + [] == before;
      while i >= 0
        invariant -1 <= i <= 7
        invariant Valid() && !scl && sdaOut && pulse == p + (7 - i)
        invariant data == Value(seen[..7 - i])
        invariant wire.heard == before + BitEvents(seen[..7 - i])
        invariant Prompt(p, pulse)
      {
        PromptNext(p, pulse);
        var up, b := ClockBit(true);
        if !up {
          return false, 0;
        }
        ValueSnoc(seen[..7 - i], seen[7 - i]);
        BitEventsSnoc(seen[..7 - i], seen[7 - i]);
        assert seen[..7 - i] + [seen[7 - i]] == seen[..8 - i];
        data := 2 * data + (if b then 1 else 0);
        i := i - 1;
      }
      assert seen[..8] == seen;
      ByteRange(seen);
      ok, val := true, data;
    }

    // ---------- Whole transfers ----------

    /** What is heard when `bytes` are written from pulse `p` on: up to and including the first NACK. */
    ghost function WriteFrames(bytes: seq<Byte>, p: nat): seq<Frame>
      decreases |bytes|
    {
      if bytes == [] then []
      else [Data(Sent(bytes[0], p), sdaFree(p + 8))] + if sdaFree(p + 8) then [] else WriteFrames(bytes[1..], p + 9)
    }

    /** The number of bytes acknowledged before the first NACK. */
    ghost function WriteAcks(bytes: seq<Byte>, p: nat): nat
      decreases |bytes|
    {
      if bytes == [] || sdaFree(p + 8) then 0 else 1 + WriteAcks(bytes[1..], p + 9)
    }

    ghost function WritePulses(bytes: seq<Byte>, p: nat): nat
      decreases |bytes|
    {
      if bytes == [] then 0 else 9 + if sdaFree(p + 8) then 0 else WritePulses(bytes[1..], p + 9)
    }

    /** What is heard when bytes are read from pulse `p` on; `plan` says which ones the master refuses. */
    ghost function ReadFrames(plan: seq<bool>, p: nat): seq<Frame>
      decreases |plan|
    {
      if plan == [] then [] else [Data(SlaveByte(p), plan[0] && sdaFree(p + 8))] + ReadFrames(plan[1..], p + 9)
    }

    ghost function SlaveBytes(n: nat, p: nat): (s: seq<Byte>)
      ensures |s| == n
    {
      seq(n, j requires 0 <= j < n => SlaveByte(p + 9 * j))
    }

    lemma WriteOne(bytes: seq<Byte>, p: nat)
      requires bytes != []
      ensures WriteFrames(bytes, p) == [Data(Sent(bytes[0], p), sdaFree(p + 8))] + if sdaFree(p + 8) then [] else WriteFrames(bytes[1..], p + 9)
      ensures WriteAcks(bytes, p) == if sdaFree(p + 8) then 0 else 1 + WriteAcks(bytes[1..], p + 9)
      ensures WritePulses(bytes, p) == 9 + if sdaFree(p + 8) then 0 else WritePulses(bytes[1..], p + 9)
    {
    }

    lemma WriteNone(p: nat)
      ensures WriteFrames([], p) == [] && WriteAcks([], p) == 0 && WritePulses([], p) == 0
    {
    }

    /** Writing `a` and then `b`: a NACK in `a` ends both. */
    lemma {:induction false} WriteConcat(a: seq<Byte>, b: seq<Byte>, p: nat)
      ensures WritePulses(a, p) == 9 * |a| || WriteAcks(a, p) < |a|
      ensures WriteAcks(a, p) <= |a|
      ensures WriteAcks(a, p) < |a| ==>
                && WriteFrames(a + b, p) == WriteFrames(a, p) && WriteAcks(a + b, p) == WriteAcks(a, p)
                && WritePulses(a + b, p) == WritePulses(a, p)
      ensures WriteAcks(a, p) == |a| ==>
                && WriteFrames(a + b, p) == WriteFrames(a, p) + WriteFrames(b, p + WritePulses(a, p))
                && WriteAcks(a + b, p) == |a| + WriteAcks(b, p + WritePulses(a, p))
                && WritePulses(a + b, p) == WritePulses(a, p) + WritePulses(b, p + WritePulses(a, p))
      decreases |a|
    {
      hide Sent, WriteFrames, WriteAcks, WritePulses;
      if a == [] {
        assert a + b == b;
        WriteNone(p);
        assert [] + WriteFrames(b, p) == WriteFrames(b, p);
      } else {
        assert (a + b)[1..] == a[1..] + b && (a + b)[0] == a[0];
        WriteOne(a, p);
        WriteOne(a + b, p);
        WriteConcat(a[1..], b, p + 9);
      }
    }

    /** One buffer of a write; `nacked` ends the transfer. */
    method WriteBuffer(buf: seq<Byte>) returns (timedOut: bool, nacked: bool, acks: nat)
      requires Valid() && !scl && sdaOut
      modifies this
      ensures Valid() && sdaOut && old(pulse) <= pulse && Prompt(old(pulse), pulse)
      ensures timedOut ==> TooLate()
      ensures !timedOut ==>
                var p := old(pulse);
                && !scl && acks == WriteAcks(buf, p) && pulse == p + WritePulses(buf, p)
                && (nacked <==> acks < |buf|)
                && wire.heard == old(wire.heard) + Events(WriteFrames(buf, p))
    {
      hide Events, Sent, WriteFrames, WriteAcks, WritePulses;
      ghost var before, p := wire.heard, pulse;
      ghost var done: seq<Frame> := [];
      timedOut, nacked, acks := false, false, 0;
      var j := 0;
      NoFrames();
      assert buf[0..] == buf && before + [] == before;
      assert [] + WriteFrames(buf, p) == WriteFrames(buf, p);
      while j < |buf|
        invariant 0 <= j <= |buf| && acks == j
        invariant p <= pulse && Prompt(p, pulse)
        invariant Valid() && !scl && sdaOut
        invariant wire.heard == before + Events(done)
        invariant WriteFrames(buf, p) == done + WriteFrames(buf[j..], pulse)
        invariant WriteAcks(buf, p) == j + WriteAcks(buf[j..], pulse)
        invariant pulse + WritePulses(buf[j..], pulse) == p + WritePulses(buf, p)
      {
        WriteOne(buf[j..], pulse);
        assert buf[j..][1..] == buf[j + 1..];
        ghost var f := Data(Sent(buf[j], pulse), sdaFree(pulse + 8));
        EventsConcat(done, [f]);
        var r := WriteByte(buf[j]);
        if r == WriteTimeout {
          timedOut := true;
          return;
        }
        assert done + ([f] + []) == done + [f];
        done := done + [f];
        if r == Nack {
          nacked := true;
          return;
        }
        acks := acks + 1;
        j := j + 1;
      }
      assert buf[j..] == [];
      WriteNone(pulse);
      assert done + [] == done;
    }

    /** The write side of the buffer loop. */
    method WriteBuffers(bufs: seq<seq<Byte>>) returns (timedOut: bool, acks: nat)
      requires Valid() && !scl && sdaOut
      modifies this
      ensures Valid() && sdaOut && old(pulse) <= pulse && Prompt(old(pulse), pulse)
      ensures timedOut ==> TooLate()
      ensures !timedOut ==>
                var p, all := old(pulse), Concat(bufs);
                && !scl && acks == WriteAcks(all, p) && pulse == p + WritePulses(all, p)
                && wire.heard == old(wire.heard) + Events(WriteFrames(all, p))
    {
      hide Events, WriteFrames, WriteAcks, WritePulses, Concat;
      ghost var before, p, all := wire.heard, pulse, Concat(bufs);
      ghost var done: seq<Frame> := [];
      timedOut, acks := false, 0;
      var k := 0;
      NoFrames();
      assert bufs[0..] == bufs && before + [] == before;
      assert [] + WriteFrames(all, p) == WriteFrames(all, p);
      while k < |bufs|
        invariant 0 <= k <= |bufs|
        invariant p <= pulse && Prompt(p, pulse)
        invariant Valid() && !scl && sdaOut
        invariant wire.heard == before + Events(done)
        invariant WriteFrames(all, p) == done + WriteFrames(Concat(bufs[k..]), pulse)
        invariant WriteAcks(all, p) == acks + WriteAcks(Concat(bufs[k..]), pulse)
        invariant pulse + WritePulses(Concat(bufs[k..]), pulse) == p + WritePulses(all, p)
      {
        ConcatStep(bufs, k);
        WriteConcat(bufs[k], Concat(bufs[k + 1..]), pulse);
        EventsConcat(done, WriteFrames(bufs[k], pulse));
        ghost var part := WriteFrames(bufs[k], pulse);
        var late, nacked, some := WriteBuffer(bufs[k]);
        if late {
          timedOut := true;
          return;
        }
        done := done + part;
        acks := acks + some;
        if nacked {
          return;
        }
        k := k + 1;
      }
      assert bufs[k..] == [];
      ConcatNone();
      WriteNone(pulse);
      assert done + [] == done;
    }

    /** The read side of the buffer loop: the buffers come back filled. */
    method ReadBuffers(lens: seq<nat>) returns (ok: bool, data: seq<seq<Byte>>)
      requires Valid() && !scl && sdaOut
      modifies this
      ensures Valid() && sdaOut && old(pulse) <= pulse && Prompt(old(pulse), pulse)
      ensures !ok ==> TooLate()
      ensures ok ==>
                var p, plan := old(pulse), NackPlan(lens);
                && !scl && pulse == p + 9 * |plan|
                && |data| == |lens| && (forall k :: 0 <= k < |lens| ==> |data[k]| == lens[k])
                && Concat(data) == SlaveBytes(|plan|, p)
                && wire.heard == old(wire.heard) + Events(ReadFrames(plan, p))
    {
      hide Events, ReadFrames, NackPlan, SlaveByte, Concat;
      ConcatNone();
      ghost var before, p, plan := wire.heard, pulse, NackPlan(lens);
      ghost var done: seq<Frame> := [];
      ok, data := true, [];
      var k := 0;
      NoFrames();
      assert lens[0..] == lens && before + [] == before;
      assert [] + ReadFrames(plan, p) == ReadFrames(plan, p);
      while k < |lens|
        invariant 0 <= k <= |lens| && |data| == k && ok
        invariant p <= pulse && Prompt(p, pulse)
        invariant Valid() && !scl && sdaOut
        invariant forall i :: 0 <= i < k ==> |data[i]| == lens[i]
        invariant Concat(data) == SlaveBytes(|Concat(data)|, p) && pulse == p + 9 * |Concat(data)|
        invariant |Concat(data)| + |NackPlan(lens[k..])| == |plan|
        invariant wire.heard == before + Events(done)
        invariant ReadFrames(plan, p) == done + ReadFrames(NackPlan(lens[k..]), pulse)
      {
        ghost var part, q := BufferPlan(lens[k], k + 1 == |lens|), pulse;
        NackPlanStep(lens, k);
        ReadConcat(part, NackPlan(lens[k + 1..]), pulse);
        EventsConcat(done, ReadFrames(part, pulse));
        var read, bytes := ReadBuffer(lens[k], k + 1 == |lens|);
        if !read {
          ok := false;
          return;
        }
        done := done + ReadFrames(part, q);
        SlaveBytesConcat(|Concat(data)|, lens[k], p);
        ConcatSnoc(data, bytes);
        data := data + [bytes];
        k := k + 1;
      }
      assert lens[k..] == [];
      NoPlan(pulse);
      assert done + [] == done;
    }

    /** START and the address byte. */
    ghost function Header(addr: nat, read: bool, p: nat): seq<Frame> {
      [S, Data(Sent(AddressByte(addr, read), p + 1), sdaFree(p + 9))]
    }

    /** What follows the address byte. */
    ghost function Body(read: bool, bufs: seq<seq<Byte>>, p: nat): seq<Frame> {
      if read then ReadFrames(NackPlan(Lengths(bufs)), p) else WriteFrames(Concat(bufs), p)
    }

    /** `mp_machine_soft_i2c_transfer`. Nothing is assumed of the slaves; what is heard on the wire is stated for
        the case that they leave SDA alone at the START, and at the STOP if there is one. */
    method Transfer(addr: nat, read: bool, stop: bool, bufs: seq<seq<Byte>>) returns (r: Result, data: seq<seq<Byte>>)
      requires Valid() && sdaOut
      modifies this
      ensures Valid() && sdaOut
      // It times out in the first pulse whose clock is held too long; a clock that is high already is not waited for.
      ensures Prompt(if old(scl) then old(pulse) + 1 else old(pulse), pulse)
      ensures r == TimedOut ==> TooLate() && (pulse > old(pulse) || !old(scl) || usTimeout == 0)
      ensures r.Done? && stop ==> !TooLate()
      ensures r == NoDevice ==>
                && sdaFree(old(pulse) + 9) && pulse == old(pulse) + 10
                && (!TooLate() && sdaFree(old(pulse)) && sdaFree(pulse) ==>
                      wire.heard == old(wire.heard) + Events(Header(addr, read, old(pulse)) + [P]))
      ensures r.Done? ==>
                var p := old(pulse);
                && !sdaFree(p + 9)
                && r.acks == (if read then 0 else WriteAcks(Concat(bufs), p + 10))
                && (if read then Lengths(data) == Lengths(bufs) && Concat(data) == SlaveBytes(|Concat(bufs)|, p + 10) else data == bufs)
                && (sdaFree(p) && (stop ==> sdaFree(pulse)) ==>
                      wire.heard == old(wire.heard) + Events(Header(addr, read, p) + Body(read, bufs, p + 10) + (if stop then [P] else [])))
    {
      hide Events, SlaveByte, WriteFrames, ReadFrames, NackPlan, WriteAcks, WritePulses, Concat, Header, Valid, Prompt;
      data := bufs;
      ghost var before, p, from := wire.heard, pulse, if scl then pulse + 1 else pulse;
      var ack := AddressPhase(addr, read);
      if ack == WriteTimeout {
        return TimedOut, data;
      }
      ghost var header, body := Header(addr, read, p), Body(read, bufs, p + 10);
      if ack == Nack {
        EventsConcat(header, [P]);
        var _ := StopCondition();
        return NoDevice, data;
      }
      var late, acks, filled := DataPhase(read, bufs);
      data := filled;
      PromptConcat(from, p + 10, pulse);
      if late {
        return TimedOut, data;
      }
      EventsConcat(header, body);
      EventsConcat(header + body, [P]);
      assert header + body + [] == header + body;
      if stop {
        var ok := StopCondition();
        if !ok {
          return TimedOut, data;
        }
      }
      r := Done(acks);
    }

    lemma PromptConcat(a: nat, b: nat, c: nat)
      requires Prompt(a, b) && Prompt(b, c)
      ensures Prompt(a, c)
    {
    }

    /** START and the address byte. */
    method AddressPhase(addr: nat, read: bool) returns (ack: WriteResult)
      requires Valid() && sdaOut
      modifies this
      ensures Valid() && sdaOut
      ensures Prompt(if old(scl) then old(pulse) + 1 else old(pulse), pulse)
      ensures ack == WriteTimeout ==>
                TooLate() && old(pulse) <= pulse && (pulse > old(pulse) || !old(scl) || usTimeout == 0)
      ensures ack != WriteTimeout ==>
                && !scl && pulse == old(pulse) + 10 && (ack == Nack <==> sdaFree(old(pulse) + 9))
                && (sdaFree(old(pulse)) ==> wire.heard == old(wire.heard) + Events(Header(addr, read, old(pulse))))
    {
      hide Events, Sent, AddressByte, Valid;
      ghost var before, p := wire.heard, pulse;
      var started := StartCondition();
      if !started {
        return WriteTimeout;
      }
      ack := WriteByte(AddressByte(addr, read));
      EventsConcat([S], [Data(Sent(AddressByte(addr, read), p + 1), sdaFree(p + 9))]);
      assert [S] + [Data(Sent(AddressByte(addr, read), p + 1), sdaFree(p + 9))] == Header(addr, read, p);
    }

    /** The buffer loop of `mp_machine_soft_i2c_transfer`. */
    method DataPhase(read: bool, bufs: seq<seq<Byte>>) returns (late: bool, acks: nat, data: seq<seq<Byte>>)
      requires Valid() && !scl && sdaOut
      modifies this
      ensures Valid() && sdaOut && old(pulse) <= pulse && Prompt(old(pulse), pulse)
      ensures late ==> TooLate()
      ensures !late ==>
                var p := old(pulse);
                && !scl && acks == (if read then 0 else WriteAcks(Concat(bufs), p))
                && (if read then Lengths(data) == Lengths(bufs) && Concat(data) == SlaveBytes(|Concat(bufs)|, p) else data == bufs)
                && wire.heard == old(wire.heard) + Events(Body(read, bufs, p))
    {
      hide Events, SlaveByte, WriteFrames, ReadFrames, NackPlan, WriteAcks, WritePulses, Concat, Hear;
      late, acks, data := false, 0, bufs;
      if read {
        var ok, filled := ReadBuffers(Lengths(bufs));
        if !ok {
          late := true;
          return;
        }
        PlanLength(bufs);
        data := filled;
        assert Lengths(data) == Lengths(bufs);
      } else {
        late, acks := WriteBuffers(bufs);
      }
    }

    // ---------- What a well-behaved slave makes of it ----------

    /** The slaves leave SDA alone during the eight data pulses from `p` on. */
    ghost predicate DataFree(p: nat) {
      forall q: nat :: p <= q < p + 8 ==> sdaFree(q)
    }

    /** The same for every byte that is sent when `n` bytes are written: the sending ends with the first NACK. */
    ghost predicate SentFree(n: nat, p: nat)
      decreases n
    {
      n == 0 || (DataFree(p) && (sdaFree(p + 8) || SentFree(n - 1, p + 9)))
    }

    /** The slaves leave SDA alone where the master refuses a byte that it reads. */
    ghost predicate RefusalsFree(plan: seq<bool>, p: nat)
      decreases |plan|
    {
      plan == [] || ((plan[0] ==> sdaFree(p + 8)) && RefusalsFree(plan[1..], p + 9))
    }

    /** Then the byte on the wire is the byte sent. */
    lemma SentUnchanged(v: Byte, p: nat)
      requires DataFree(p)
      ensures Sent(v, p) == v
    {
      hide Bits, Value, Pow2;
      assert Seen(Bits(v, 8), p) == Bits(v, 8);
      Pow2Eight();
      ValueOfBits(v, 8);
    }

    /** A write puts on the wire exactly the given bytes up to the first one that is not acknowledged, and the
        result of the transfer is the number of bytes before it. */
    lemma {:induction false} WriteHeard(bytes: seq<Byte>, p: nat)
      requires SentFree(|bytes|, p)
      ensures WriteAcks(bytes, p) <= |bytes|
      ensures WriteFrames(bytes, p) == Outgoing(bytes, WriteAcks(bytes, p))
      decreases |bytes|
    {
      hide Sent;
      if bytes == [] {
      } else {
        SentUnchanged(bytes[0], p);
        if !sdaFree(p + 8) {
          WriteHeard(bytes[1..], p + 9);
          OutgoingStep(bytes, WriteAcks(bytes[1..], p + 9));
        }
      }
    }

    /** The count of a write: the slaves acknowledge that many bytes, and not the next one. */
    lemma {:induction false} AcksCounted(bytes: seq<Byte>, p: nat)
      ensures var n := WriteAcks(bytes, p);
              && n <= |bytes| && (n < |bytes| ==> sdaFree(p + 9 * n + 8))
              && forall j :: 0 <= j < n ==> !sdaFree(p + 9 * j + 8)
      decreases |bytes|
    {
      if bytes != [] && !sdaFree(p + 8) {
        AcksCounted(bytes[1..], p + 9);
        var n := WriteAcks(bytes[1..], p + 9);
        forall j | 0 <= j < n + 1 ensures !sdaFree(p + 9 * j + 8) {
          assert j > 0 ==> p + 9 * j + 8 == p + 9 + 9 * (j - 1) + 8;
        }
      }
    }

    /** A read puts the slave's bytes on the wire and answers each one as planned. */
    lemma {:induction false} ReadHeard(plan: seq<bool>, p: nat)
      requires RefusalsFree(plan, p)
      ensures ReadFrames(plan, p) == Incoming(SlaveBytes(|plan|, p), plan)
      decreases |plan|
    {
      hide SlaveByte;
      if plan == [] {
      } else {
        ReadHeard(plan[1..], p + 9);
        SlaveBytesConcat(1, |plan| - 1, p);
        assert SlaveBytes(1, p) == [SlaveByte(p)];
        IncomingStep(SlaveByte(p), SlaveBytes(|plan| - 1, p + 9), plan);
      }
    }

    /** A complete write to a 7-bit address, as any listener hears it. */
    lemma WriteTransferHeard(addr: nat, bufs: seq<seq<Byte>>, p: nat)
      requires addr < 128 && DataFree(p + 1) && !sdaFree(p + 9) && SentFree(|Concat(bufs)|, p + 10)
      ensures WriteAcks(Concat(bufs), p + 10) <= |Concat(bufs)|
      ensures Parse(Events(Header(addr, false, p) + Body(false, bufs, p + 10) + [P])) ==
              [S, Data(2 * addr, false)] + Outgoing(Concat(bufs), WriteAcks(Concat(bufs), p + 10)) + [P]
    {
      hide Sent, WriteFrames, WriteAcks, Events, Parse;
      SentUnchanged(AddressByte(addr, false), p + 1);
      WriteHeard(Concat(bufs), p + 10);
      ParseEvents(Header(addr, false, p) + Body(false, bufs, p + 10) + [P]);
    }

    /** A complete read from a 7-bit address, as any listener hears it. */
    lemma ReadTransferHeard(addr: nat, bufs: seq<seq<Byte>>, p: nat)
      requires addr < 128 && DataFree(p + 1) && !sdaFree(p + 9)
      requires RefusalsFree(NackPlan(Lengths(bufs)), p + 10)
      ensures |NackPlan(Lengths(bufs))| == |Concat(bufs)|
      ensures Parse(Events(Header(addr, true, p) + Body(true, bufs, p + 10) + [P])) ==
              [S, Data(2 * addr + 1, false)] + Incoming(SlaveBytes(|Concat(bufs)|, p + 10), NackPlan(Lengths(bufs))) + [P]
    {
      hide Sent, ReadFrames, SlaveByte, Events, Parse, NackPlan;
      PlanLength(bufs);
      SentUnchanged(AddressByte(addr, true), p + 1);
      ReadHeard(NackPlan(Lengths(bufs)), p + 10);
      ParseEvents(Header(addr, true, p) + Body(true, bufs, p + 10) + [P]);
    }

    lemma SlaveBytesConcat(a: nat, b: nat, p: nat)
      ensures SlaveBytes(a + b, p) == SlaveBytes(a, p) + SlaveBytes(b, p + 9 * a)
    {
    }

    lemma {:induction false} ReadConcat(a: seq<bool>, b: seq<bool>, p: nat)
      ensures ReadFrames(a + b, p) == ReadFrames(a, p) + ReadFrames(b, p + 9 * |a|)
      decreases |a|
    {
      hide SlaveByte, ReadFrames;
      if a == [] {
        assert a + b == b;
        NoPlan(p);
        assert [] + ReadFrames(b, p) == ReadFrames(b, p);
      } else {
        assert (a + b)[1..] == a[1..] + b && (a + b)[0] == a[0];
        ReadOne(a, p);
        ReadOne(a + b, p);
        ReadConcat(a[1..], b, p + 9);
      }
    }

    lemma NoPlan(p: nat)
      ensures NackPlan([]) == [] && ReadFrames([], p) == []
    {
    }

    lemma ReadOne(plan: seq<bool>, p: nat)
      requires plan != []
      ensures ReadFrames(plan, p) == [Data(SlaveByte(p), plan[0] && sdaFree(p + 8))] + ReadFrames(plan[1..], p + 9)
    {
    }

    /** One buffer of a read; only the last byte of the last buffer is refused. */
    method ReadBuffer(len: nat, last: bool) returns (ok: bool, data: seq<Byte>)
      requires Valid() && !scl && sdaOut
      modifies this
      ensures Valid() && sdaOut && old(pulse) <= pulse && Prompt(old(pulse), pulse)
      ensures !ok ==> TooLate()
      ensures ok ==>
                var p := old(pulse);
                && !scl && pulse == p + 9 * len && data == SlaveBytes(len, p)
                && wire.heard == old(wire.heard) + Events(ReadFrames(BufferPlan(len, last), p))
    {
      hide Events, ReadFrames, SlaveByte;
      ghost var before, p, plan := wire.heard, pulse, BufferPlan(len, last);
      ghost var done: seq<Frame> := [];
      ok, data := true, [];
      var left := len;
      NoFrames();
      assert plan[0..] == plan && before + [] == before;
      assert [] + ReadFrames(plan, p) == ReadFrames(plan, p);
      while left > 0
        invariant 0 <= left <= len && ok
        invariant p <= pulse && Prompt(p, pulse)
        invariant Valid() && !scl && sdaOut && pulse == p + 9 * (len - left)
        invariant data == SlaveBytes(len - left, p)
        invariant wire.heard == before + Events(done)
        invariant ReadFrames(plan, p) == done + ReadFrames(plan[len - left..], pulse)
      {
        left := left - 1;
        ghost var j := len - 1 - left;
        ReadOne(plan[j..], pulse);
        assert plan[j..][1..] == plan[j + 1..];
        ghost var f := Data(SlaveByte(pulse), plan[j] && sdaFree(pulse + 8));
        EventsConcat(done, [f]);
        var read, b := ReadByte(last && left == 0);
        if !read {
          ok := false;
          return;
        }
        done := done + [f];
        data := data + [b];
      }
      assert plan[len..] == [];
      NoPlan(pulse);
      assert done + [] == done;
    }
  }

  function Concat(bufs: seq<seq<Byte>>): seq<Byte> {
    if bufs == [] then [] else bufs[0] + Concat(bufs[1..])
  }

  lemma ConcatStep(bufs: seq<seq<Byte>>, k: nat)
    requires k < |bufs|
    ensures Concat(bufs[k..]) == bufs[k] + Concat(bufs[k + 1..])
  {
    assert bufs[k..][1..] == bufs[k + 1..];
  }

  lemma ConcatNone()
    ensures Concat([]) == []
  {
  }

  lemma {:induction false} ConcatSnoc(bufs: seq<seq<Byte>>, last: seq<Byte>)
    ensures Concat(bufs + [last]) == Concat(bufs) + last
  {
    if bufs == [] {
      assert [] + [last] == [last] && [last][1..] == [];
      assert last + [] == [] + last;
    } else {
      assert (bufs + [last])[1..] == bufs[1..] + [last];
      ConcatSnoc(bufs[1..], last);
    }
  }

  function Lengths(bufs: seq<seq<Byte>>): (lens: seq<nat>)
    ensures |lens| == |bufs| && forall k :: 0 <= k < |bufs| ==> lens[k] == |bufs[k]|
  {
    seq(|bufs|, k requires 0 <= k < |bufs| => |bufs[k]|)
  }

  /** The seven address bits and the direction bit, as stored in a `uint8_t`. */
  function AddressByte(addr: nat, read: bool): Byte {
    (2 * addr + if read then 1 else 0) % 256
  }

  lemma {:induction false} PlanLength(bufs: seq<seq<Byte>>)
    ensures |NackPlan(Lengths(bufs))| == |Concat(bufs)|
  {
    if bufs == [] {
    } else {
      assert Lengths(bufs)[1..] == Lengths(bufs[1..]);
      PlanLength(bufs[1..]);
    }
  }

  /** The first `acks` bytes acknowledged, and the next one, if any, refused. */
  function Outgoing(bytes: seq<Byte>, acks: nat): seq<Frame>
    requires acks <= |bytes|
  {
    seq(acks, j requires 0 <= j < acks => Data(bytes[j], false)) + if acks < |bytes| then [Data(bytes[acks], true)] else []
  }

  lemma OutgoingStep(bytes: seq<Byte>, acks: nat)
    requires bytes != [] && acks < |bytes|
    ensures Outgoing(bytes, acks + 1) == [Data(bytes[0], false)] + Outgoing(bytes[1..], acks)
  {
  }

  function Incoming(bytes: seq<Byte>, plan: seq<bool>): seq<Frame>
    requires |bytes| == |plan|
  {
    seq(|bytes|, j requires 0 <= j < |bytes| => Data(bytes[j], plan[j]))
  }

  lemma IncomingStep(b: Byte, bytes: seq<Byte>, plan: seq<bool>)
    requires |plan| == |bytes| + 1
    ensures Incoming([b] + bytes, plan) == [Data(b, plan[0])] + Incoming(bytes, plan[1..])
  {
  }

  ghost predicate OnlyLast(plan: seq<bool>) {
    forall j :: 0 <= j < |plan| ==> (plan[j] <==> j == |plan| - 1)
  }

  /** The byte that is refused, if the last buffer is not empty, is the final one; otherwise none is. */
  lemma {:induction false} PlanIs(lens: seq<nat>)
    requires lens != []
    ensures forall j :: 0 <= j < |NackPlan(lens)| ==> (NackPlan(lens)[j] <==> lens[|lens| - 1] > 0 && j == |NackPlan(lens)| - 1)
    decreases |lens|
  {
    var plan := NackPlan(lens);
    if |lens| == 1 {
      assert NackPlan(lens[1..]) == [];
      assert plan == BufferPlan(lens[0], true);
    } else {
      PlanIs(lens[1..]);
      PlanNotEmpty(lens[1..]);
      var rest := NackPlan(lens[1..]);
      assert lens[1..][|lens| - 2] == lens[|lens| - 1];
      assert forall j :: lens[0] <= j < |plan| ==> plan[j] == rest[j - lens[0]];
    }
  }

  predicate AllZero(lens: seq<nat>) { forall k :: 0 <= k < |lens| ==> lens[k] == 0 }

  /** A read refuses exactly its final byte if and only if the last buffer is not empty or all are empty. */
  lemma NackOnlyFinal(lens: seq<nat>)
    requires lens != []
    ensures OnlyLast(NackPlan(lens)) <==> AllZero(lens) || lens[|lens| - 1] > 0
  {
    hide NackPlan, OnlyLast, AllZero;
    PlanIsEmpty(lens);
    OnlyLastRefused(lens);
  }

  lemma {:induction false} OnlyLastRefused(lens: seq<nat>)
    requires lens != []
    ensures OnlyLast(NackPlan(lens)) <==> NackPlan(lens) == [] || lens[|lens| - 1] > 0
  {
    var plan := NackPlan(lens);
    assert lens[1..] != [] ==> lens[1..][|lens| - 2] == lens[|lens| - 1];
    if |lens| == 1 {
      assert NackPlan(lens[1..]) == [];
      assert plan == BufferPlan(lens[0], true);
    } else {
      OnlyLastRefused(lens[1..]);
      var head, rest := BufferPlan(lens[0], false), NackPlan(lens[1..]);
      PlanNotEmpty(lens[1..]);
      if rest == [] {
        assert lens[|lens| - 1] == 0;
        if plan != [] {
          assert !plan[|plan| - 1];
        }
      } else {
        assert OnlyLast(plan) <==> OnlyLast(rest) by {
          assert forall j :: 0 <= j < |rest| ==> plan[lens[0] + j] == rest[j];
          assert forall j :: lens[0] <= j < |plan| ==> plan[j] == rest[j - lens[0]];
        }
      }
    }
  }

  lemma {:induction false} PlanIsEmpty(lens: seq<nat>)
    ensures NackPlan(lens) == [] <==> AllZero(lens)
    decreases |lens|
  {
    if lens == [] {
    } else {
      PlanIsEmpty(lens[1..]);
      assert lens == [lens[0]] + lens[1..];
      assert AllZero(lens) ==> AllZero(lens[1..]) by {
        assert forall k :: 0 <= k < |lens[1..]| ==> lens[1..][k] == lens[k + 1];
      }
    }
  }

  lemma {:induction false} PlanNotEmpty(lens: seq<nat>)
    requires lens != []
    ensures lens[|lens| - 1] > 0 ==> NackPlan(lens) != []
  {
    if |lens| > 1 {
      PlanNotEmpty(lens[1..]);
    }
  }

  /** Which bytes of a buffer the master answers with NACK: the test is `(n | len) == 0` on the buffers
      and bytes still to come. */
  function BufferPlan(len: nat, last: bool): (plan: seq<bool>)
    ensures |plan| == len
  {
    seq(len, j => last && len - 1 - j == 0)
  }

  function NackPlan(lens: seq<nat>): seq<bool> {
    if lens == [] then [] else BufferPlan(lens[0], |lens| == 1) + NackPlan(lens[1..])
  }

  lemma NackPlanStep(lens: seq<nat>, k: nat)
    requires k < |lens|
    ensures NackPlan(lens[k..]) == BufferPlan(lens[k], k + 1 == |lens|) + NackPlan(lens[k + 1..])
  {
    assert lens[k..][1..] == lens[k + 1..];
  }

  lemma NoFrames()
    ensures Events([]) == []
  {
  }

  function Released(n: nat): (s: seq<bool>)
    ensures |s| == n && forall i :: 0 <= i < n ==> s[i]
  {
    seq(n, _ => true)
  }

  lemma OneFrame(f: Frame)
    ensures Events([f]) == FrameEvents(f)
  {
    assert [f][1..] == [];
    assert FrameEvents(f) + [] == FrameEvents(f);
  }

  lemma NoBitEvents()
    ensures BitEvents([]) == [] && Value([]) == 0
  {
  }

  lemma {:induction false} BitEventsSnoc(bits: seq<bool>, b: bool)
    ensures BitEvents(bits + [b]) == BitEvents(bits) + [Bit(b)]
  {
    if bits == [] {
      assert [] + [b] == [b] && [b][1..] == [];
    } else {
      assert (bits + [b])[1..] == bits[1..] + [b];
      BitEventsSnoc(bits[1..], b);
    }
  }
}
