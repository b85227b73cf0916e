/** The accept queue of a listening socket in `modlwip.c`: a circular array of connection
    slots, filled by one lwIP callback, thinned out by another and emptied by `accept`. */
module AcceptQueue {
  import opened Circle

  /** A slot holds NULL or a connection, named by a number. */
  datatype Slot = Null | Pcb(id: nat)

  /** What the network can do while the lwIP lock is free. */
  datatype NetEvent = Arrive(id: nat) | Lost(id: nat)

  /** One round of the waiting loop in `accept`: what happened meanwhile, and whether the timeout ran out. */
  datatype Poll = Poll(events: seq<NetEvent>, expired: bool)

  datatype Accepted = Connection(id: nat) | TimedOut | Waiting

  // ---------- The queue as a bounded FIFO with removal ----------

  /** `q` without the first occurrence of `id`. */
  function Without(q: seq<nat>, id: nat): (r: seq<nat>)
    ensures |r| <= |q|
  {
    if q == [] then [] else if q[0] == id then q[1..] else [q[0]] + Without(q[1..], id)
  }

  function Happen(q: seq<nat>, cap: nat, e: NetEvent): seq<nat> {
    match e
    case Arrive(id) => if |q| < cap then q + [id] else q
    case Lost(id) => Without(q, id)
  }

  function HappenAll(q: seq<nat>, cap: nat, es: seq<NetEvent>): seq<nat>
    decreases |es|
  {
    if es == [] then q else HappenAll(Happen(q, cap, es[0]), cap, es[1..])
  }

  /** The result of `accept` and the queue it leaves. */
  function Taken(q: seq<nat>, cap: nat, polls: seq<Poll>): (Accepted, seq<nat>)
    decreases |polls|
  {
    if q != [] then (Connection(q[0]), q[1..])
    else if polls == [] then (Waiting, q)
    else
      var q' := HappenAll(q, cap, polls[0].events);
      if q' == [] && polls[0].expired then (TimedOut, q') else Taken(q', cap, polls[1..])
  }

  // ---------- The circular array ----------

  /** The slot `j` places after `start`. */
  function Ahead(slots: seq<Slot>, start: nat, j: nat): Slot
    requires start < |slots| && j < |slots|
  {
    slots[Around(start + j, |slots|)]
  }

  lemma AheadUpdate(slots: seq<Slot>, start: nat, j: nat, s: Slot, k: nat)
    requires start < |slots| && j < |slots| && k < |slots|
    ensures Ahead(slots[Around(start + j, |slots|) := s], start, k) == if k == j then s else Ahead(slots, start, k)
  {
  }

  function Entry(q: seq<nat>, j: nat): Slot {
    if j < |q| then Pcb(q[j]) else Null
  }

  /** The slots, read from `start` round the circle, hold `q` followed by NULLs. */
  ghost predicate Holds(slots: seq<Slot>, start: nat, q: seq<nat>)
    requires start < |slots|
  {
    |q| <= |slots| && forall j :: 0 <= j < |slots| ==> Ahead(slots, start, j) == Entry(q, j)
  }

  lemma HoldsAt(slots: seq<Slot>, start: nat, q: seq<nat>, j: nat)
    requires start < |slots| && Holds(slots, start, q) && j < |slots|
    ensures Ahead(slots, start, j) == Entry(q, j) && |q| <= |slots|
  {
  }

  lemma AheadIs(slots: seq<Slot>, start: nat, j: nat)
    requires start < |slots| && j < |slots|
    ensures Ahead(slots, start, j) == slots[Around(start + j, |slots|)]
  {
  }

  lemma SlotAt(slots: seq<Slot>, start: nat, q: seq<nat>, j: nat)
    requires start < |slots| && Holds(slots, start, q) && j < |slots|
    ensures |q| <= |slots| && slots[Around(start + j, |slots|)] == if j < |q| then Pcb(q[j]) else Null
  {
    HoldsAt(slots, start, q, j);
  }

  lemma HoldsPut(slots: seq<Slot>, start: nat, q: seq<nat>, id: nat)
    requires start < |slots| && Holds(slots, start, q) && |q| < |slots|
    ensures Holds(slots[Around(start + |q|, |slots|) := Pcb(id)], start, q + [id])
  {
    var t := slots[Around(start + |q|, |slots|) := Pcb(id)];
    forall j | 0 <= j < |t| ensures Ahead(t, start, j) == Entry(q + [id], j) {
      AheadUpdate(slots, start, |q|, Pcb(id), j);
    }
  }

  lemma HoldsTake(slots: seq<Slot>, start: nat, q: seq<nat>)
    requires start < |slots| && Holds(slots, start, q) && q != []
    ensures Holds(slots[start := Null], Around(start + 1, |slots|), q[1..])
  {
    var t, next := slots[start := Null], Around(start + 1, |slots|);
    forall j | 0 <= j < |t| ensures Ahead(t, next, j) == Entry(q[1..], j) {
      if j + 1 < |t| {
        HoldsAt(slots, start, q, j + 1);
        AheadUpdate(slots, start, 0, Null, j + 1);
      } else {
        assert Around(next + j, |t|) == start;
      }
    }
  }

  /** An entry in the middle of a removal: those from `found` on have moved down one place, as far as `k`. */
  function ShiftedEntry(q: seq<nat>, found: nat, k: nat, j: nat): Slot {
    if found <= j && j + 1 < k then Entry(q, j + 1) else Entry(q, j)
  }

  ghost predicate Shifted(slots: seq<Slot>, start: nat, q: seq<nat>, found: nat, k: nat)
    requires start < |slots|
  {
    |q| <= |slots| && forall j :: 0 <= j < |slots| ==> Ahead(slots, start, j) == ShiftedEntry(q, found, k, j)
  }

  /** The next entry moves into the slot that the last one left. */
  lemma ShiftOne(slots: seq<Slot>, start: nat, q: seq<nat>, found: nat, k: nat)
    requires start < |slots| && found < k < |slots| && Shifted(slots, start, q, found, k)
    ensures Shifted(slots[Around(start + (k - 1), |slots|) := Ahead(slots, start, k)], start, q, found, k + 1)
  {
    var t := slots[Around(start + (k - 1), |slots|) := Ahead(slots, start, k)];
    forall j | 0 <= j < |t| ensures Ahead(t, start, j) == ShiftedEntry(q, found, k + 1, j) {
      AheadUpdate(slots, start, k - 1, Ahead(slots, start, k), j);
    }
  }

  lemma NothingShifted(slots: seq<Slot>, start: nat, q: seq<nat>, found: nat)
    requires start < |slots|
    ensures Shifted(slots, start, q, found, found + 1) <==> Holds(slots, start, q)
  {
    assert forall j :: 0 <= j < |slots| ==> ShiftedEntry(q, found, found + 1, j) == Entry(q, j);
  }

  lemma {:induction false} WithoutAt(q: seq<nat>, found: nat, id: nat)
    requires found < |q| && q[found] == id && forall j :: 0 <= j < found ==> q[j] != id
    ensures Without(q, id) == q[..found] + q[found + 1..]
    decreases found
  {
    if found == 0 {
    } else {
      forall j | 0 <= j < found - 1 ensures q[1..][j] != id {
        assert q[1..][j] == q[j + 1];
      }
      WithoutAt(q[1..], found - 1, id);
      assert q[..found] == [q[0]] + q[1..][..found - 1];
      assert q[found + 1..] == q[1..][found..];
    }
  }

  lemma {:induction false} WithoutAbsent(q: seq<nat>, id: nat)
    requires id !in q
    ensures Without(q, id) == q
  {
    if q == [] {
    } else {
      WithoutAbsent(q[1..], id);
    }
  }

  /** Clearing the last shifted slot completes the removal. */
  lemma RemovalDone(slots: seq<Slot>, start: nat, q: seq<nat>, found: nat, id: nat)
    requires start < |slots| && found < |q| && q[found] == id && forall j :: 0 <= j < found ==> q[j] != id
    requires Shifted(slots, start, q, found, |q|)
    ensures Holds(slots[Around(start + (|q| - 1), |slots|) := Null], start, Without(q, id))
    ensures |Without(q, id)| == |q| - 1
  {
    WithoutAt(q, found, id);
    var r := Without(q, id);
    var t := slots[Around(start + (|q| - 1), |slots|) := Null];
    forall j | 0 <= j < |t| ensures Ahead(t, start, j) == Entry(r, j) {
      AheadUpdate(slots, start, |q| - 1, Null, j);
    }
  }

  /** How many slots are used for a stored size: size 0 means the single slot inside the socket. */
  function Slots(alloc: nat): nat {
    if alloc <= 1 then 1 else alloc
  }

  /** How many connections can wait for a requested backlog, whose size is stored in 8 bits. */
  function Capacity(backlog: int): nat {
    if backlog <= 1 then 1 else Slots(backlog % 256)
  }

  /** A listener holds as many connections as requested, and always one, if and only if the backlog fits 8 bits. */
  lemma CapacityAsRequested(backlog: int)
    ensures Capacity(backlog) == (if backlog <= 1 then 1 else backlog) <==> backlog <= 255
  {
  }

  /** One place further, and when two counts meet. */
  lemma AroundNext(start: nat, k: nat, m: nat, size: nat)
    requires start < size && k <= size && m <= size
    ensures Around(start, size) == start && Around(start + k, size) < size
    ensures k > 0 ==> Around(start + k, size) == if Around(start + (k - 1), size) + 1 >= size then 0 else Around(start + (k - 1), size) + 1
    ensures Around(start + k, size) == Around(start + m, size) <==> k == m || (k == 0 && m == size) || (k == size && m == 0)
  {
  }

  lemma TakenStep(cap: nat, polls: seq<Poll>, p: nat)
    requires p < |polls|
    ensures var q' := HappenAll([], cap, polls[p].events);
            Taken([], cap, polls[p..]) ==
            if q' == [] && polls[p].expired then (TimedOut, q') else Taken(q', cap, polls[p + 1..])
  {
    assert polls[p..][1..] == polls[p + 1..];
  }

  class Listener {
    const alloc: nat
    const slots: array<Slot>
    var iget: nat
    var iput: nat
    ghost var queue: seq<nat>

    ghost predicate Valid()
      reads this, slots
    {
      && slots.Length == Slots(alloc)
      && iget < slots.Length && iput == Around(iget + |queue|, slots.Length)
      && Holds(slots[..], iget, queue)
    }

    /** `listen`: up to 1 the single-slot form is used; of the array only as many slots as the stored size are
        reached. */
    constructor Listen(backlog: int)
      requires backlog > 1 ==> backlog % 256 != 0
      ensures Valid() && queue == [] && fresh(slots) && slots.Length == Capacity(backlog)
    {
      alloc := if backlog <= 1 then 0 else backlog % 256;
      slots := new Slot[Slots(if backlog <= 1 then 0 else backlog % 256)](_ => Null);
      iget, iput := 0, 0;
      queue := [];
    }

    /** `_lwip_tcp_accept`: true is ERR_OK, false is ERR_BUF. An error
        report from lwIP (`noMemory`) is acknowledged and ignored. */
    method OnConnection(id: nat, noMemory: bool) returns (ok: bool)
      requires Valid()
      modifies this, slots
      ensures Valid()
      ensures queue == if noMemory then old(queue) else Happen(old(queue), slots.Length, Arrive(id))
      ensures queue == if noMemory || |old(queue)| >= slots.Length then old(queue) else old(queue) + [id]
      ensures ok <==> noMemory || |old(queue)| < slots.Length
    {
      hide Holds;
      if noMemory {
        return true;
      }
      if |queue| < slots.Length {
        HoldsAt(slots[..], iget, queue, |queue|);
        HoldsPut(slots[..], iget, queue, id);
      } else {
        HoldsAt(slots[..], iget, queue, 0);
      }
      if slots[iput] == Null {
        slots[iput] := Pcb(id);
        iput := if iput + 1 >= alloc then 0 else iput + 1;
        queue := queue + [id];
        return true;
      }
      return false;
    }

    /** `_lwip_tcp_err_unaccepted`: take a dropped connection out of the middle of the queue. */
    method OnLost(id: nat)
      requires Valid()
      modifies this, slots
      ensures Valid()
      ensures queue == Happen(old(queue), slots.Length, Lost(id))
    {
      hide Shifted, Holds, Without, Entry, Ahead, Around;
      ghost var q, n := queue, slots.Length;
      ghost var k: nat, found: nat := 0, 0;
      SlotAt(slots[..], iget, q, 0);
      var shiftDown := -1;
      var i := iget;
      AroundNext(iget, 0, |q|, n);
      var going := true;
      while going
        invariant 0 <= k <= n && i == Around(iget + k, n) && 0 <= i < n && -1 <= shiftDown < n
        invariant iget == old(iget) && iput == old(iput) && queue == q
        invariant going <==> k == 0 || (k < n && k != |q|)
        invariant k <= |q| || |q| == 0
        invariant shiftDown == -1 ==> Holds(slots[..], iget, q) && id !in q[..if k <= |q| then k else |q|]
        invariant shiftDown != -1 ==> found < k && k <= |q| && q[found] == id && shiftDown == Around(iget + (k - 1), n)
        invariant shiftDown != -1 ==> id !in q[..found] && Shifted(slots[..], iget, q, found, k)
        decreases n - k, going
      {
        if shiftDown == -1 {
          SlotAt(slots[..], iget, q, k);
          if slots[i] == Pcb(id) {
            shiftDown := i;
            found := k;
            NothingShifted(slots[..], iget, q, found);
          }
        } else {
          ShiftOne(slots[..], iget, q, found, k);
          AheadIs(slots[..], iget, k);
          slots[shiftDown] := slots[i];
          shiftDown := i;
        }
        i := if i + 1 >= alloc then 0 else i + 1;
        k := k + 1;
        AroundNext(iget, k, |q|, n);
        going := i != iput;
      }
      if shiftDown != -1 {
        RemovalDone(slots[..], iget, q, found, id);
        slots[shiftDown] := Null;
        iput := shiftDown;
        queue := Without(q, id);
      } else {
        assert q[..|q|] == q;
        WithoutAbsent(q, id);
      }
    }

    /** One event from the network. */
    method On(e: NetEvent)
      requires Valid()
      modifies this, slots
      ensures Valid() && queue == Happen(old(queue), slots.Length, e)
    {
      match e
      case Arrive(id) => var _ := OnConnection(id, false);
      case Lost(id) => OnLost(id);
    }

    /** `accept` on a listening socket. */
    method Accept(polls: seq<Poll>) returns (r: Accepted)
      requires Valid()
      modifies this, slots
      ensures Valid()
      ensures (r, queue) == Taken(old(queue), slots.Length, polls)
    {
      hide Holds;
      var p := 0;
      assert polls[0..] == polls;
      HoldsAt(slots[..], iget, queue, 0);
      while slots[iget] == Null
        invariant 0 <= p <= |polls| && Valid()
        invariant slots[iget] == Null <==> queue == []
        invariant Taken(old(queue), slots.Length, polls) == Taken(queue, slots.Length, polls[p..])
        decreases |polls| - p
      {
        if p == |polls| {
          assert polls[p..] == [];
          return Waiting;
        }
        TakenStep(slots.Length, polls, p);
        Network(polls[p].events);
        HoldsAt(slots[..], iget, queue, 0);
        if slots[iget] == Null && polls[p].expired {
          return TimedOut;
        }
        p := p + 1;
      }
      r := TakeFirst();
    }

    /** The end of `accept`: hand out the connection in the slot at `iget`. */
    method TakeFirst() returns (r: Accepted)
      requires Valid() && queue != []
      modifies this, slots
      ensures Valid()
      ensures r == Connection(old(queue)[0]) && queue == old(queue)[1..]
    {
      HoldsAt(slots[..], iget, queue, 0);
      HoldsTake(slots[..], iget, queue);
      r := Connection(slots[iget].id);
      var taken := iget;
      iget := if iget + 1 >= alloc then 0 else iget + 1;
      slots[taken] := Null;
      queue := queue[1..];
    }

    /** What lwIP does while `accept` has released the lock. */
    method Network(events: seq<NetEvent>)
      requires Valid()
      modifies this, slots
      ensures Valid() && queue == HappenAll(old(queue), slots.Length, events)
    {
      assert events[0..] == events;
      for i := 0 to |events|
        invariant Valid()
        invariant HappenAll(old(queue), slots.Length, events) == HappenAll(queue, slots.Length, events[i..])
      {
        assert events[i..][0] == events[i] && events[i..][1..] == events[i + 1..];
        On(events[i]);
      }
    }
  }

  // ---------- Whole runs ----------

  datatype Event = Net(e: NetEvent) | Accept

  /** What has happened so far: the queue, every connection ever admitted (oldest first), those accepted,
      and those lost while they were queued. */
  datatype History = History(queue: seq<nat>, admitted: seq<nat>, accepted: seq<nat>, lost: set<nat>)

  function Advance(h: History, cap: nat, e: Event): History {
    match e
    case Net(Arrive(id)) =>
      if |h.queue| < cap then h.(queue := Happen(h.queue, cap, e.e), admitted := h.admitted + [id]) else h
    case Net(Lost(id)) =>
      if id in h.queue then h.(queue := Happen(h.queue, cap, e.e), lost := h.lost + {id}) else h
    case Accept =>
      if h.queue == [] then h else h.(queue := h.queue[1..], accepted := h.accepted + [h.queue[0]])
  }

  function Replay(h: History, cap: nat, es: seq<Event>): History
    decreases |es|
  {
    if es == [] then h else Replay(Advance(h, cap, es[0]), cap, es[1..])
  }

  /** A connection arrives at most once. */
  predicate ArriveOnce(seen: set<nat>, es: seq<Event>)
    decreases |es|
  {
    es == [] ||
    (if es[0].Net? && es[0].e.Arrive? then es[0].e.id !in seen && ArriveOnce(seen + {es[0].e.id}, es[1..])
     else ArriveOnce(seen, es[1..]))
  }

  /** `s` without the members of `gone`, in the same order. */
  function Survivors(s: seq<nat>, gone: set<nat>): seq<nat> {
    if s == [] then []
    else Survivors(s[..|s| - 1], gone) + (if s[|s| - 1] in gone then [] else [s[|s| - 1]])
  }

  ghost predicate Distinct(s: seq<nat>) {
    forall i, j :: 0 <= i < j < |s| ==> s[i] != s[j]
  }

  ghost predicate FifoInv(h: History, cap: nat, seen: set<nat>) {
    && |h.queue| <= cap
    && Distinct(h.admitted)
    && (forall id :: id in h.admitted ==> id in seen)
    && (forall id :: id in h.lost ==> id in h.admitted)
    && h.accepted + h.queue == Survivors(h.admitted, h.lost)
  }

  lemma {:induction false} SurvivorsAmong(s: seq<nat>, gone: set<nat>)
    ensures forall id :: id in Survivors(s, gone) ==> id in s && id !in gone
  {
    if s == [] {
    } else {
      SurvivorsAmong(s[..|s| - 1], gone);
    }
  }

  lemma {:induction false} SurvivorsDistinct(s: seq<nat>, gone: set<nat>)
    requires Distinct(s)
    ensures Distinct(Survivors(s, gone))
  {
    if s == [] {
    } else {
      SurvivorsDistinct(s[..|s| - 1], gone);
      SurvivorsAmong(s[..|s| - 1], gone);
    }
  }

  lemma {:induction false} SurvivorsUnaffected(s: seq<nat>, gone: set<nat>, id: nat)
    requires id !in s
    ensures Survivors(s, gone + {id}) == Survivors(s, gone)
  {
    if s == [] {
    } else {
      SurvivorsUnaffected(s[..|s| - 1], gone, id);
    }
  }

  lemma {:induction false} WithoutSnoc(a: seq<nat>, x: nat, id: nat)
    ensures Without(a + [x], id) == if id in a then Without(a, id) + [x] else if x == id then a else a + [x]
  {
    if a == [] {
      assert a + [x] == [x] && [x][1..] == [];
    } else {
      assert (a + [x])[1..] == a[1..] + [x];
      if a[0] != id {
        WithoutSnoc(a[1..], x, id);
        assert id in a <==> id in a[1..];
      }
    }
  }

  lemma {:induction false} WithoutConcat(a: seq<nat>, b: seq<nat>, id: nat)
    requires id !in a
    ensures Without(a + b, id) == a + Without(b, id)
  {
    if a == [] {
      assert a + b == b;
    } else {
      assert (a + b)[1..] == a[1..] + b;
      WithoutConcat(a[1..], b, id);
    }
  }

  /** Losing one more connection removes exactly that one from the survivors. */
  lemma {:induction false} SurvivorsLose(s: seq<nat>, gone: set<nat>, id: nat)
    requires Distinct(s)
    ensures Survivors(s, gone + {id}) == Without(Survivors(s, gone), id)
  {
    if s == [] {
    } else {
      var init, x := s[..|s| - 1], s[|s| - 1];
      var rest := Survivors(init, gone);
      SurvivorsLose(init, gone, id);
      SurvivorsAmong(init, gone);
      assert rest + [] == rest && Survivors(init, gone + {id}) + [] == Survivors(init, gone + {id});
      if x !in gone {
        WithoutSnoc(rest, x, id);
        if x == id {
          assert x !in init;
        }
        if id !in rest {
          WithoutAbsent(rest, id);
        }
      }
    }
  }

  lemma AdvanceKeeps(h: History, cap: nat, e: Event, seen: set<nat>)
    requires FifoInv(h, cap, seen)
    requires e.Net? && e.e.Arrive? ==> e.e.id !in seen
    ensures FifoInv(Advance(h, cap, e), cap, if e.Net? && e.e.Arrive? then seen + {e.e.id} else seen)
  {
    var g := Advance(h, cap, e);
    match e
    case Net(Arrive(id)) =>
      if |h.queue| < cap {
        assert g.admitted[..|g.admitted| - 1] == h.admitted;
        assert g.accepted + g.queue == (h.accepted + h.queue) + [id];
      }
    case Net(Lost(id)) =>
      if id in h.queue {
        LostKeeps(h, id);
      }
    case Accept =>
      if h.queue != [] {
        assert h.queue == [h.queue[0]] + h.queue[1..];
        assert g.accepted + g.queue == h.accepted + h.queue;
      }
  }

  lemma LostKeeps(h: History, id: nat)
    requires Distinct(h.admitted) && h.accepted + h.queue == Survivors(h.admitted, h.lost) && id in h.queue
    ensures h.accepted + Without(h.queue, id) == Survivors(h.admitted, h.lost + {id})
    ensures id in h.admitted
  {
    SurvivorsLose(h.admitted, h.lost, id);
    SurvivorsDistinct(h.admitted, h.lost);
    SurvivorsAmong(h.admitted, h.lost);
    var all := h.accepted + h.queue;
    var j :| 0 <= j < |h.queue| && h.queue[j] == id;
    assert all[|h.accepted| + j] == id;
    forall i | 0 <= i < |h.accepted| ensures h.accepted[i] != id {
      assert all[i] == h.accepted[i];
    }
    WithoutConcat(h.accepted, h.queue, id);
  }

  /** Over every interleaving of arrivals, losses and accepts: the connections accepted so far, followed by
      those still queued, are exactly the admitted ones that were not lost while waiting, in order of arrival;
      and the queue never exceeds the number of slots. */
  lemma {:induction false} FifoAlways(h: History, cap: nat, es: seq<Event>, seen: set<nat>)
    requires FifoInv(h, cap, seen) && ArriveOnce(seen, es)
    ensures var end := Replay(h, cap, es);
            |end.queue| <= cap && end.accepted + end.queue == Survivors(end.admitted, end.lost)
    decreases |es|
  {
    if es == [] {
    } else {
      AdvanceKeeps(h, cap, es[0], seen);
      FifoAlways(Advance(h, cap, es[0]), cap, es[1..],
                 if es[0].Net? && es[0].e.Arrive? then seen + {es[0].e.id} else seen);
    }
  }

  /** The same from a fresh listener. */
  lemma FifoFromStart(cap: nat, es: seq<Event>)
    requires ArriveOnce({}, es)
    ensures var end := Replay(History([], [], [], {}), cap, es);
            |end.queue| <= cap && end.accepted + end.queue == Survivors(end.admitted, end.lost)
  {
    FifoAlways(History([], [], [], {}), cap, es, {});
  }

  /** The connections that arrive, in order. */
  function Arrivals(es: seq<Event>): seq<nat> {
    if es == [] then [] else (if es[0].Net? && es[0].e.Arrive? then [es[0].e.id] else []) + Arrivals(es[1..])
  }

  /** While there is room for all and none is lost, every connection that arrives is accepted or waits, in order. */
  lemma {:induction false} AllAdmitted(h: History, cap: nat, es: seq<Event>)
    requires |h.queue| + |Arrivals(es)| <= cap
    requires forall i :: 0 <= i < |es| && es[i].Net? ==> es[i].e.Arrive?
    ensures var end := Replay(h, cap, es);
            end.accepted + end.queue == h.accepted + h.queue + Arrivals(es) && end.lost == h.lost
    decreases |es|
  {
    if es == [] {
      assert h.accepted + h.queue + [] == h.accepted + h.queue;
    } else {
      var g := Advance(h, cap, es[0]);
      var more := if es[0].Net? then [es[0].e.id] else [];
      assert g.accepted + g.queue == h.accepted + h.queue + more by {
        if es[0].Accept? && h.queue != [] {
          assert h.queue == [h.queue[0]] + h.queue[1..];
        }
      }
      AllAdmitted(g, cap, es[1..]);
      assert h.accepted + h.queue + more + Arrivals(es[1..]) == h.accepted + h.queue + (more + Arrivals(es[1..]));
    }
  }

  // ---------- A waiting accept in a run ----------

  /** What the network does until `accept` returns. */
  function Meanwhile(q: seq<nat>, cap: nat, polls: seq<Poll>): seq<NetEvent>
    decreases |polls|
  {
    if q != [] || polls == [] then []
    else
      var q' := HappenAll(q, cap, polls[0].events);
      polls[0].events + (if q' == [] && polls[0].expired then [] else Meanwhile(q', cap, polls[1..]))
  }

  function Nets(es: seq<NetEvent>): (s: seq<Event>)
    ensures |s| == |es| && forall i :: 0 <= i < |es| ==> s[i] == Net(es[i])
  {
    seq(|es|, i requires 0 <= i < |es| => Net(es[i]))
  }

  lemma {:induction false} ReplayConcat(h: History, cap: nat, a: seq<Event>, b: seq<Event>)
    ensures Replay(h, cap, a + b) == Replay(Replay(h, cap, a), cap, b)
    decreases |a|
  {
    hide Advance;
    if a == [] {
      assert a + b == b;
    } else {
      assert (a + b)[1..] == a[1..] + b;
      ReplayConcat(Advance(h, cap, a[0]), cap, a[1..], b);
    }
  }

  /** Network events act on the queue of a history as on a queue, and accept nothing. */
  lemma {:induction false} ReplayNets(h: History, cap: nat, es: seq<NetEvent>)
    ensures Replay(h, cap, Nets(es)).queue == HappenAll(h.queue, cap, es)
    ensures Replay(h, cap, Nets(es)).accepted == h.accepted
    decreases |es|
  {
    hide Without;
    if es == [] {
    } else {
      assert Nets(es)[1..] == Nets(es[1..]);
      if es[0].Lost? && es[0].id !in h.queue {
        WithoutAbsent(h.queue, es[0].id);
      }
      ReplayNets(Advance(h, cap, Net(es[0])), cap, es[1..]);
    }
  }

  lemma {:induction false} HappenAllConcat(q: seq<nat>, cap: nat, a: seq<NetEvent>, b: seq<NetEvent>)
    ensures HappenAll(q, cap, a + b) == HappenAll(HappenAll(q, cap, a), cap, b)
    decreases |a|
  {
    hide Happen;
    if a == [] {
      assert a + b == b;
    } else {
      assert (a + b)[1..] == a[1..] + b;
      HappenAllConcat(Happen(q, cap, a[0]), cap, a[1..], b);
    }
  }

  /** `accept` takes the head of the queue as the network has left it when it returns, or finds the queue empty. */
  lemma {:induction false} TakenAfter(q: seq<nat>, cap: nat, polls: seq<Poll>)
    ensures var (r, rest) := Taken(q, cap, polls);
            var q' := HappenAll(q, cap, Meanwhile(q, cap, polls));
            if r.Connection? then q' == [r.id] + rest else q' == [] && rest == []
    decreases |polls|
  {
    hide HappenAll;
    NothingHappens(q, cap);
    if q != [] || polls == [] {
      assert q != [] ==> q == [q[0]] + q[1..];
    } else {
      var es := polls[0].events;
      var q' := HappenAll(q, cap, es);
      if q' == [] && polls[0].expired {
        assert es + [] == es;
      } else {
        TakenAfter(q', cap, polls[1..]);
        HappenAllConcat(q, cap, es, Meanwhile(q', cap, polls[1..]));
      }
    }
  }

  /** The queue after `n` polls. */
  function During(q: seq<nat>, cap: nat, polls: seq<Poll>, n: nat): seq<nat>
    requires n <= |polls|
  {
    if n == 0 then q else HappenAll(During(q, cap, polls, n - 1), cap, polls[n - 1].events)
  }

  lemma {:induction false} DuringLater(q: seq<nat>, cap: nat, polls: seq<Poll>, m: nat)
    requires m + 1 <= |polls|
    ensures During(q, cap, polls, m + 1) == During(HappenAll(q, cap, polls[0].events), cap, polls[1..], m)
    decreases m
  {
    hide HappenAll;
    if m == 0 {
      assert During(q, cap, polls, 0) == q;
    } else {
      DuringLater(q, cap, polls, m - 1);
    }
  }

  /** `accept` returns after the first poll that leaves a connection in the queue, with the oldest one; it times out
      after an expired poll that leaves none, and not before; and it goes on waiting otherwise. */
  lemma {:induction false} TakenUntil(q: seq<nat>, cap: nat, polls: seq<Poll>) returns (n: nat)
    ensures n <= |polls| && forall m :: 0 <= m < n ==> During(q, cap, polls, m) == []
    ensures forall m :: 0 <= m < n - 1 ==> !polls[m].expired
    ensures var (r, rest) := Taken(q, cap, polls);
            match r
            case Connection(id) => During(q, cap, polls, n) == [id] + rest
            case TimedOut => n > 0 && polls[n - 1].expired && During(q, cap, polls, n) == [] == rest
            case Waiting => n == |polls| && During(q, cap, polls, n) == [] == rest && (n > 0 ==> !polls[n - 1].expired)
    decreases |polls|
  {
    hide HappenAll;
    n := 0;
    if q == [] && polls != [] {
      var next := HappenAll(q, cap, polls[0].events);
      assert During(q, cap, polls, 0) == q;
      assert During(q, cap, polls, 1) == next;
      if next == [] && polls[0].expired {
        n := 1;
      } else {
        n := TakenUntil(next, cap, polls[1..]);
        forall m | 0 <= m <= n ensures During(q, cap, polls, m + 1) == During(next, cap, polls[1..], m) {
          DuringLater(q, cap, polls, m);
        }
        forall m | 0 <= m < n + 1 ensures During(q, cap, polls, m) == [] {
          if m > 0 {
            assert During(q, cap, polls, (m - 1) + 1) == During(next, cap, polls[1..], m - 1);
          }
        }
        forall m | 0 <= m < n ensures !polls[m].expired {
          if m > 0 {
            assert polls[m] == polls[1..][m - 1];
          }
        }
        n := n + 1;
      }
    }
  }

  lemma NothingHappens(q: seq<nat>, cap: nat)
    ensures HappenAll(q, cap, []) == q
  {
  }

  /** A waiting `accept` is, in a run, the network events of its wait followed by one accept event; so what is proved of
      runs holds of runs of whole `accept` calls. */
  lemma TakenIsReplayed(h: History, cap: nat, polls: seq<Poll>)
    ensures var (r, rest) := Taken(h.queue, cap, polls);
            var end := Replay(h, cap, Nets(Meanwhile(h.queue, cap, polls)) + [Event.Accept]);
            end.queue == rest && end.accepted == h.accepted + (if r.Connection? then [r.id] else [])
  {
    hide HappenAll, Meanwhile, Taken;
    var es := Nets(Meanwhile(h.queue, cap, polls));
    var mid := Replay(h, cap, es);
    ReplayNets(h, cap, Meanwhile(h.queue, cap, polls));
    TakenAfter(h.queue, cap, polls);
    ReplayConcat(h, cap, es, [Event.Accept]);
    assert [Event.Accept][1..] == [];
    assert Replay(mid, cap, [Event.Accept]) == Advance(mid, cap, Event.Accept);
  }
}
