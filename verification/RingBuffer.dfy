/** The lock-free byte ring of `machine_i2s.c`: one producer, one consumer, one slot kept free. */
module RingBuffer {
  import opened Arith
  import opened Bytes
  import opened Circle

  function Next(i: nat, size: nat): nat
    requires size > 0
  {
    (i + 1) % size
  }

  /** `ringbuf_available_data` and `ringbuf_available_space`. */
  function AvailableData(head: nat, tail: nat, size: nat): nat
    requires head < size && tail < size
  {
    (tail - head + size) % size
  }

  function AvailableSpace(head: nat, tail: nat, size: nat): int
    requires head < size && tail < size
  {
    size - AvailableData(head, tail, size) - 1
  }

  lemma NextIs(i: nat, size: nat)
    requires i < size
    ensures Next(i, size) == Around(i + 1, size)
  {
    if i + 1 == size {
      DivModUnique(i + 1, size, 1, 0);
    } else {
      DivModUnique(i + 1, size, 0, i + 1);
    }
  }

  lemma AvailableIs(head: nat, count: nat, size: nat)
    requires head < size && count < size
    ensures Around(head + count, size) < size && AvailableData(head, Around(head + count, size), size) == count
  {
    var tail := Around(head + count, size);
    if tail < head {
      DivModUnique(tail - head + size, size, 0, count);
    } else {
      DivModUnique(tail - head + size, size, 1, count);
    }
  }

  /** The byte `j` places after `head`. */
  function Ahead(buf: seq<Byte>, head: nat, j: nat): Byte
    requires head < |buf| && j < |buf|
  {
    buf[Around(head + j, |buf|)]
  }

  /** The ring holds `s`, oldest byte at `head`, and `tail` is the slot after the newest. */
  ghost predicate Holds(buf: seq<Byte>, head: nat, tail: nat, s: seq<Byte>) {
    && head < |buf| && |s| < |buf| && tail == Around(head + |s|, |buf|)
    && forall j :: 0 <= j < |s| ==> Ahead(buf, head, j) == s[j]
  }

  lemma HoldsStore(buf: seq<Byte>, head: nat, tail: nat, s: seq<Byte>, x: Byte)
    requires Holds(buf, head, tail, s)
    ensures tail < |buf| && Holds(buf[tail := x], head, tail, s)
    ensures Ahead(buf[tail := x], head, |s|) == x
  {
    var t := buf[tail := x];
    forall j | 0 <= j < |s| ensures Ahead(t, head, j) == s[j] {
      assert Ahead(buf, head, j) == s[j];
    }
  }

  lemma HoldsGrow(buf: seq<Byte>, head: nat, tail: nat, s: seq<Byte>)
    requires Holds(buf, head, tail, s) && |s| + 1 < |buf|
    ensures Holds(buf, head, Next(tail, |buf|), s + [Ahead(buf, head, |s|)])
  {
    NextIs(tail, |buf|);
  }

  lemma AheadNext(buf: seq<Byte>, head: nat, j: nat)
    requires head < |buf| && j + 1 < |buf|
    ensures Next(head, |buf|) < |buf| && Ahead(buf, Next(head, |buf|), j) == Ahead(buf, head, j + 1)
  {
    NextIs(head, |buf|);
  }

  lemma HoldsShrink(buf: seq<Byte>, head: nat, tail: nat, s: seq<Byte>)
    requires Holds(buf, head, tail, s) && s != []
    ensures buf[head] == s[0] && Holds(buf, Next(head, |buf|), tail, s[1..])
  {
    NextIs(head, |buf|);
    assert Ahead(buf, head, 0) == s[0];
    var next := Next(head, |buf|);
    forall j | 0 <= j < |s| - 1 ensures Ahead(buf, next, j) == s[1..][j] {
      assert Ahead(buf, head, j + 1) == s[j + 1];
    }
  }

  /** The emptiness and fullness tests see exactly the two extreme fill levels. */
  lemma HoldsLevel(buf: seq<Byte>, head: nat, tail: nat, s: seq<Byte>)
    requires Holds(buf, head, tail, s)
    ensures tail < |buf| && (head == tail <==> s == [])
    ensures Next(tail, |buf|) == head <==> |s| == |buf| - 1
    ensures AvailableData(head, tail, |buf|) == |s| && AvailableSpace(head, tail, |buf|) == |buf| - 1 - |s|
  {
    NextIs(tail, |buf|);
    AvailableIs(head, |s|, |buf|);
  }

  // ---------- Used by one side at a time ----------

  class Ring {
    const buffer: array<Byte>
    var head: nat
    var tail: nat
    ghost var contents: seq<Byte>

    ghost predicate Valid()
      reads this, buffer
    {
      Holds(buffer[..], head, tail, contents)
    }

    /** `ringbuf_init`. */
    constructor (buffer: array<Byte>)
      requires buffer.Length > 0
      ensures Valid() && contents == [] && this.buffer == buffer
    {
      this.buffer := buffer;
      head, tail := 0, 0;
      contents := [];
    }

    /** `ringbuf_push`. */
    method Push(data: Byte) returns (ok: bool)
      requires Valid()
      modifies this, buffer
      ensures Valid()
      ensures ok <==> |old(contents)| < buffer.Length - 1
      ensures contents == if ok then old(contents) + [data] else old(contents)
    {
      hide Holds, Next, Ahead;
      HoldsSize(buffer[..], head, tail, contents);
      HoldsLevel(buffer[..], head, tail, contents);
      var nextTail := Next(tail, buffer.Length);
      if nextTail != head {
        HoldsStore(buffer[..], head, tail, contents, data);
        HoldsGrow(buffer[..][tail := data], head, tail, contents);
        buffer[tail] := data;
        tail := nextTail;
        contents := contents + [data];
        return true;
      }
      return false;
    }

    /** `ringbuf_pop`. */
    method Pop() returns (ok: bool, data: Byte)
      requires Valid()
      modifies this
      ensures Valid()
      ensures ok <==> old(contents) != []
      ensures ok ==> old(contents) == [data] + contents
      ensures !ok ==> contents == old(contents)
    {
      hide Holds, Next, Ahead;
      HoldsSize(buffer[..], head, tail, contents);
      HoldsLevel(buffer[..], head, tail, contents);
      if head == tail {
        return false, 0;
      }
      HoldsShrink(buffer[..], head, tail, contents);
      data := buffer[head];
      head := Next(head, buffer.Length);
      contents := contents[1..];
      ok := true;
    }

    function Available(): (n: nat)
      requires Valid()
      reads this, buffer
      ensures n == |contents|
    {
      HoldsLevel(buffer[..], head, tail, contents);
      AvailableData(head, tail, buffer.Length)
    }

    function Space(): (n: nat)
      requires Valid()
      reads this, buffer
      ensures n == buffer.Length - 1 - |contents|
    {
      HoldsLevel(buffer[..], head, tail, contents);
      AvailableSpace(head, tail, buffer.Length)
    }
  }

  lemma HoldsSize(buf: seq<Byte>, head: nat, tail: nat, s: seq<Byte>)
    requires Holds(buf, head, tail, s)
    ensures head < |buf| && |s| < |buf|
  {
  }

  // ---------- Used by both sides at once ----------

  /** Where each side stands inside its operation; every step below is one access to shared memory. */
  datatype Producer = Resting | Storing(data: Byte) | Publishing(data: Byte)
  datatype Consumer = Idle | Loading | Releasing(data: Byte)

  datatype Shared = Shared(buf: seq<Byte>, head: nat, tail: nat, producer: Producer, consumer: Consumer,
                           pushed: seq<Byte>, popped: seq<Byte>)

  datatype Step = PushTest(data: Byte) | PushStore | PushPublish | PopTest | PopLoad | PopRelease

  /** One atomic step; a step that is not that side's next one does nothing. */
  function Take(s: Shared, step: Step): Shared
    requires s.head < |s.buf| && s.tail < |s.buf|
  {
    match step
    case PushTest(d) =>
      if s.producer.Resting? && Next(s.tail, |s.buf|) != s.head then s.(producer := Storing(d)) else s
    case PushStore =>
      if s.producer.Storing? then s.(buf := s.buf[s.tail := s.producer.data], producer := Publishing(s.producer.data)) else s
    case PushPublish =>
      if s.producer.Publishing? then
        s.(tail := Next(s.tail, |s.buf|), producer := Resting, pushed := s.pushed + [s.producer.data])
      else s
    case PopTest =>
      if s.consumer.Idle? && s.head != s.tail then s.(consumer := Loading) else s
    case PopLoad =>
      if s.consumer.Loading? then s.(consumer := Releasing(s.buf[s.head])) else s
    case PopRelease =>
      if s.consumer.Releasing? then
        s.(head := Next(s.head, |s.buf|), consumer := Idle, popped := s.popped + [s.consumer.data])
      else s
  }

  /** What is in the ring: pushed and not yet popped. */
  function InRing(s: Shared): seq<Byte> {
    if |s.popped| <= |s.pushed| then s.pushed[|s.popped|..] else []
  }

  ghost predicate SharedInv(s: Shared) {
    && s.popped <= s.pushed
    && Holds(s.buf, s.head, s.tail, InRing(s))
    && (!s.producer.Resting? ==> |InRing(s)| + 1 < |s.buf|)
    && (s.producer.Publishing? ==> Ahead(s.buf, s.head, |InRing(s)|) == s.producer.data)
    && (!s.consumer.Idle? ==> InRing(s) != [])
    && (s.consumer.Releasing? ==> s.consumer.data == InRing(s)[0])
  }

  lemma ProducerKeeps(s: Shared, step: Step)
    requires SharedInv(s) && (step.PushTest? || step.PushStore? || step.PushPublish?)
    ensures s.tail < |s.buf| && SharedInv(Take(s, step))
    // What the consumer found available stays available.
    ensures InRing(s) <= InRing(Take(s, step))
  {
    hide Holds, Ahead, Next;
    var r := InRing(s);
    HoldsSize(s.buf, s.head, s.tail, r);
    HoldsLevel(s.buf, s.head, s.tail, r);
    match step
    case PushTest(d) =>
    case PushStore =>
      if s.producer.Storing? {
        HoldsStore(s.buf, s.head, s.tail, r, s.producer.data);
      }
    case PushPublish =>
      if s.producer.Publishing? {
        HoldsGrow(s.buf, s.head, s.tail, r);
        assert InRing(Take(s, step)) == r + [s.producer.data];
      }
  }

  lemma ConsumerKeeps(s: Shared, step: Step)
    requires SharedInv(s) && (step.PopTest? || step.PopLoad? || step.PopRelease?)
    ensures s.tail < |s.buf| && SharedInv(Take(s, step))
    // The space the producer found stays free.
    ensures |InRing(Take(s, step))| <= |InRing(s)|
  {
    hide Holds, Next, Ahead;
    var r := InRing(s);
    HoldsSize(s.buf, s.head, s.tail, r);
    HoldsLevel(s.buf, s.head, s.tail, r);
    match step
    case PopTest =>
    case PopLoad =>
      if s.consumer.Loading? {
        HoldsShrink(s.buf, s.head, s.tail, r);
      }
    case PopRelease =>
      if s.consumer.Releasing? {
        HoldsShrink(s.buf, s.head, s.tail, r);
        if s.producer.Publishing? {
          AheadNext(s.buf, s.head, |r| - 1);
        }
        assert InRing(Take(s, step)) == r[1..];
        assert s.popped + [s.consumer.data] <= s.pushed by { assert r[0] == s.pushed[|s.popped|]; }
      }
  }

  function TakeAll(s: Shared, steps: seq<Step>): Shared
    decreases |steps|
  {
    if steps == [] || s.head >= |s.buf| || s.tail >= |s.buf| then s
    else TakeAll(Take(s, steps[0]), steps[1..])
  }

  /** Over every interleaving of the two sides' single memory accesses: the bytes popped, followed by the bytes
      in the ring, are the bytes pushed, and the two availability counts always add up to size - 1. */
  lemma {:induction false} EveryInterleaving(s: Shared, steps: seq<Step>)
    requires SharedInv(s)
    ensures var e := TakeAll(s, steps);
            && SharedInv(e) && e.popped + InRing(e) == e.pushed
            && e.head < |e.buf| && e.tail < |e.buf|
            && AvailableData(e.head, e.tail, |e.buf|) == |InRing(e)|
            && AvailableData(e.head, e.tail, |e.buf|) + AvailableSpace(e.head, e.tail, |e.buf|) == |e.buf| - 1
    decreases |steps|
  {
    hide Holds, Ahead, Next, Take;
    HoldsSize(s.buf, s.head, s.tail, InRing(s));
    HoldsLevel(s.buf, s.head, s.tail, InRing(s));
    if steps == [] {
    } else {
      if steps[0].PushTest? || steps[0].PushStore? || steps[0].PushPublish? {
        ProducerKeeps(s, steps[0]);
      } else {
        ConsumerKeeps(s, steps[0]);
      }
      EveryInterleaving(Take(s, steps[0]), steps[1..]);
    }
  }

  /** The same from an empty ring of any size. */
  lemma FromEmpty(buf: seq<Byte>, steps: seq<Step>)
    requires |buf| > 0
    ensures var e := TakeAll(Shared(buf, 0, 0, Resting, Idle, [], []), steps);
            && e.popped + InRing(e) == e.pushed && |InRing(e)| <= |buf| - 1 && |e.buf| == |buf|
            && e.head < |buf| && e.tail < |buf| && Holds(e.buf, e.head, e.tail, InRing(e))
            && AvailableData(e.head, e.tail, |buf|) == |InRing(e)|
            && AvailableData(e.head, e.tail, |buf|) + AvailableSpace(e.head, e.tail, |buf|) == |buf| - 1
  {
    EveryInterleaving(Shared(buf, 0, 0, Resting, Idle, [], []), steps);
    SizeStays(Shared(buf, 0, 0, Resting, Idle, [], []), steps);
  }

  lemma {:induction false} SizeStays(s: Shared, steps: seq<Step>)
    ensures |TakeAll(s, steps).buf| == |s.buf|
    decreases |steps|
  {
    if steps == [] || s.head >= |s.buf| || s.tail >= |s.buf| {
    } else {
      SizeStays(Take(s, steps[0]), steps[1..]);
    }
  }

  /** A test goes ahead exactly when there is room, or a byte, and changes nothing otherwise. */
  lemma TestsDecide(s: Shared, data: Byte)
    requires SharedInv(s) && s.tail < |s.buf|
    ensures s.producer.Resting? ==>
              Take(s, PushTest(data)) == if |InRing(s)| < |s.buf| - 1 then s.(producer := Storing(data)) else s
    ensures s.consumer.Idle? ==> Take(s, PopTest) == if InRing(s) != [] then s.(consumer := Loading) else s
  {
    hide Holds, Ahead, Next;
    HoldsSize(s.buf, s.head, s.tail, InRing(s));
    HoldsLevel(s.buf, s.head, s.tail, InRing(s));
  }

  lemma TakeThree(s: Shared, a: Step, b: Step, c: Step)
    requires SharedInv(s) && (a.PushTest? || a.PopTest?)
    requires if a.PushTest? then b == PushStore && c == PushPublish else b == PopLoad && c == PopRelease
    ensures s.head < |s.buf| && s.tail < |s.buf|
    ensures var t := Take(s, a);
            && t.head < |t.buf| && t.tail < |t.buf|
            && var u := Take(t, b);
            && u.head < |u.buf| && u.tail < |u.buf| && TakeAll(s, [a, b, c]) == Take(u, c)
  {
    hide Holds, Ahead, Next, Take;
    StaysInside(s, a);
    var t := Take(s, a);
    StaysInside(t, b);
    var u := Take(t, b);
    StaysInside(u, c);
    assert [a, b, c][1..] == [b, c] && [b, c][1..] == [c] && [c][1..] == [];
    assert TakeAll(t, [b, c]) == TakeAll(u, [c]);
    assert TakeAll(u, [c]) == TakeAll(Take(u, c), []);
  }

  lemma StaysInside(s: Shared, step: Step)
    requires SharedInv(s)
    ensures s.head < |s.buf| && s.tail < |s.buf| && SharedInv(Take(s, step))
    ensures Take(s, step).head < |Take(s, step).buf| && Take(s, step).tail < |Take(s, step).buf|
  {
    hide Holds, Ahead, Next, Take;
    HoldsLevel(s.buf, s.head, s.tail, InRing(s));
    HoldsSize(s.buf, s.head, s.tail, InRing(s));
    if step.PushTest? || step.PushStore? || step.PushPublish? {
      ProducerKeeps(s, step);
    } else {
      ConsumerKeeps(s, step);
    }
    var t := Take(s, step);
    HoldsLevel(t.buf, t.head, t.tail, InRing(t));
    HoldsSize(t.buf, t.head, t.tail, InRing(t));
  }

  /** A push that nothing comes between does what `Ring.Push` does: it appends unless `size - 1` bytes are held. */
  lemma UndisturbedPush(s: Shared, data: Byte)
    requires SharedInv(s) && s.producer.Resting?
    ensures var e := TakeAll(s, [PushTest(data), PushStore, PushPublish]);
            && e.producer == Resting && e.consumer == s.consumer && e.popped == s.popped && e.head == s.head
            && e.pushed == (if |InRing(s)| < |s.buf| - 1 then s.pushed + [data] else s.pushed)
            && InRing(e) == (if |InRing(s)| < |s.buf| - 1 then InRing(s) + [data] else InRing(s))
  {
    hide Holds, Ahead, Next;
    TakeThree(s, PushTest(data), PushStore, PushPublish);
    TestsDecide(s, data);
  }

  /** A pop that nothing comes between does what `Ring.Pop` does: it takes the oldest byte unless there is none. */
  lemma UndisturbedPop(s: Shared)
    requires SharedInv(s) && s.consumer.Idle?
    ensures var e := TakeAll(s, [PopTest, PopLoad, PopRelease]);
            && e.consumer == Idle && e.producer == s.producer && e.pushed == s.pushed && e.tail == s.tail && e.buf == s.buf
            && e.popped == (if InRing(s) != [] then s.popped + [InRing(s)[0]] else s.popped)
            && InRing(e) == (if InRing(s) != [] then InRing(s)[1..] else [])
  {
    hide Holds, Ahead, Next;
    TakeThree(s, PopTest, PopLoad, PopRelease);
    TestsDecide(s, 0);
    if InRing(s) != [] {
      LoadsOldest(s);
    }
  }

  lemma LoadsOldest(s: Shared)
    requires SharedInv(s) && InRing(s) != []
    ensures s.head < |s.buf| && s.buf[s.head] == InRing(s)[0]
  {
    hide Ahead, Next;
    HoldsShrink(s.buf, s.head, s.tail, InRing(s));
  }
}
