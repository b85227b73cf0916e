/** The receiving side of a TCP socket in `modlwip.c`: a chain of packet buffers filled by the
    lwIP callback and emptied by `recv`, one buffer at a time. */
module TcpReceive {
  import opened Bytes

  /** A chain of pbufs; lwIP never delivers an empty one. */
  type Chain = seq<seq<Byte>>

  datatype State = New | Listening | Connecting | Connected | PeerClosed | Fault(code: nat)

  datatype Timeout = NonBlocking | Blocking

  datatype Errno = EAGAIN | ETIMEDOUT | ENOTCONN | Lwip(code: nat)

  datatype Received = Data(bytes: seq<Byte>) | Failed(errno: Errno) | Waiting

  datatype NetEvent = Deliver(chain: Chain) | Close | Abort(code: nat)

  /** One round of the waiting loop: has the timeout run out, and if not, what arrives during the poll. */
  datatype Poll = Expired | Happens(events: seq<NetEvent>)

  function Flatten(chain: Chain): seq<Byte> {
    if chain == [] then [] else chain[0] + Flatten(chain[1..])
  }

  lemma {:induction false} FlattenConcat(a: Chain, b: Chain)
    ensures Flatten(a + b) == Flatten(a) + Flatten(b)
  {
    if a == [] {
      assert a + b == b;
    } else {
      assert (a + b)[1..] == a[1..] + b;
      FlattenConcat(a[1..], b);
    }
  }

  lemma NothingFlat()
    ensures Flatten([]) == []
  {
  }

  predicate NoEmpty(chain: Chain) {
    forall i :: 0 <= i < |chain| ==> chain[i] != []
  }

  predicate Positioned(chain: Chain, offset: nat) {
    NoEmpty(chain) && if chain == [] then offset == 0 else offset < |chain[0]|
  }

  /** Bytes delivered but not yet read. */
  function Pending(chain: Chain, offset: nat): seq<Byte> {
    var all := Flatten(chain);
    if offset <= |all| then all[offset..] else []
  }

  /** What one read of up to `len` bytes takes from a non-empty chain, and what it leaves. */
  datatype Taken = Taken(bytes: seq<Byte>, chain: Chain, offset: nat)

  function Take(chain: Chain, offset: nat, len: nat): (t: Taken)
    requires chain != [] && Positioned(chain, offset)
    ensures Positioned(t.chain, t.offset)
  {
    var remaining := |chain[0]| - offset;
    var n := if len > remaining then remaining else len;
    if n == remaining then Taken(chain[0][offset..], chain[1..], 0)
    else Taken(chain[0][offset..offset + n], chain, offset + n)
  }

  lemma DropConcat(a: seq<Byte>, b: seq<Byte>, n: nat)
    requires n <= |a|
    ensures (a + b)[n..] == a[n..] + b
  {
  }

  lemma PendingFront(chain: Chain, offset: nat)
    requires chain != [] && offset <= |chain[0]|
    ensures Pending(chain, offset) == chain[0][offset..] + Flatten(chain[1..])
  {
    DropConcat(chain[0], Flatten(chain[1..]), offset);
  }

  lemma PendingAll(chain: Chain)
    ensures Pending(chain, 0) == Flatten(chain)
  {
  }

  lemma SplitAt(s: seq<Byte>, i: nat, j: nat, rest: seq<Byte>)
    requires i <= j <= |s|
    ensures s[i..] + rest == s[i..j] + (s[j..] + rest)
  {
  }

  /** A read moves a prefix of the pending bytes to the caller, never empty unless none was asked for,
      and leaves the rest pending in order. */
  lemma TakeConserves(chain: Chain, offset: nat, len: nat)
    requires chain != [] && Positioned(chain, offset)
    ensures var t := Take(chain, offset, len);
            && Pending(chain, offset) == t.bytes + Pending(t.chain, t.offset)
            && |t.bytes| == (if len <= |chain[0]| - offset then len else |chain[0]| - offset)
            && (len > 0 ==> t.bytes != [])
  {
    hide Pending;
    PendingFront(chain, offset);
    PendingAll(chain[1..]);
    var t := Take(chain, offset, len);
    if t.chain == chain {
      PendingFront(chain, t.offset);
      SplitAt(chain[0], offset, t.offset, Flatten(chain[1..]));
    }
  }

  lemma AppendPositioned(chain: Chain, offset: nat, more: Chain)
    requires Positioned(chain, offset) && NoEmpty(more) && more != []
    ensures Positioned(chain + more, offset)
  {
  }

  /** Appending to the chain appends to the pending bytes. */
  lemma AppendPending(chain: Chain, offset: nat, more: Chain)
    requires Positioned(chain, offset)
    ensures Pending(chain + more, offset) == Pending(chain, offset) + Flatten(more)
  {
    FlattenConcat(chain, more);
    OffsetInside(chain, offset);
    DropConcat(Flatten(chain), Flatten(more), offset);
  }

  lemma OffsetInside(chain: Chain, offset: nat)
    requires Positioned(chain, offset)
    ensures offset <= |Flatten(chain)|
    ensures |Pending(chain, offset)| > 0 <==> chain != []
  {
    if chain != [] {
      PendingFront(chain, offset);
    }
  }

  // ---------- The network ----------

  /** What callbacks change of a socket. */
  datatype Sock = Sock(chain: Chain, offset: nat, state: State, delivered: seq<Byte>)

  /** One callback: an empty chain reports that the peer closed. After an error there is no pcb and so no callback. */
  function Heard(s: Sock, single: bool, e: NetEvent): Sock {
    if s.state.Fault? then s
    else
      match e
      case Deliver(p) =>
        if p == [] then s.(state := PeerClosed)
        else if s.chain != [] && single then s
        else s.(chain := s.chain + p, delivered := s.delivered + Flatten(p))
      case Close => s.(state := PeerClosed)
      case Abort(code) => s.(chain := [], state := Fault(code))
  }

  function HeardAll(s: Sock, single: bool, es: seq<NetEvent>): Sock
    decreases |es|
  {
    if es == [] then s else HeardAll(Heard(s, single, es[0]), single, es[1..])
  }

  /** The buffers that arrive, in order. */
  function Arriving(es: seq<NetEvent>): Chain {
    if es == [] then [] else (if es[0].Deliver? then es[0].chain else []) + Arriving(es[1..])
  }

  predicate Closes(e: NetEvent) { e.Close? || (e.Deliver? && e.chain == []) }

  lemma HeardStep(s: Sock, single: bool, e: NetEvent, es: seq<NetEvent>)
    ensures HeardAll(s, single, [e] + es) == HeardAll(Heard(s, single, e), single, es)
  {
    assert ([e] + es)[1..] == es;
  }

  /** Without an error, everything that arrives is appended in order. */
  lemma {:induction false} HeardInOrder(s: Sock, es: seq<NetEvent>)
    requires !s.state.Fault? && forall i :: 0 <= i < |es| ==> !es[i].Abort?
    ensures var t := HeardAll(s, false, es);
            t.chain == s.chain + Arriving(es) && t.delivered == s.delivered + Flatten(Arriving(es)) && t.offset == s.offset
    decreases |es|
  {
    hide Flatten;
    NothingFlat();
    if es == [] {
      assert s.chain + [] == s.chain && s.delivered + [] == s.delivered;
    } else {
      var arrived := if es[0].Deliver? then es[0].chain else [];
      var next := Heard(s, false, es[0]);
      assert next.chain == s.chain + arrived && next.delivered == s.delivered + Flatten(arrived);
      HeardInOrder(next, es[1..]);
      FlattenConcat(arrived, Arriving(es[1..]));
      Regroup(s.chain, arrived, Arriving(es[1..]));
      Regroup(s.delivered, Flatten(arrived), Flatten(Arriving(es[1..])));
    }
  }

  lemma Regroup<T>(a: seq<T>, b: seq<T>, c: seq<T>)
    ensures a + b + c == a + (b + c)
  {
  }

  /** Without an error, the state tells whether the peer closed. */
  lemma {:induction false} HeardState(s: Sock, single: bool, es: seq<NetEvent>)
    requires !s.state.Fault? && forall i :: 0 <= i < |es| ==> !es[i].Abort?
    ensures HeardAll(s, single, es).state == if exists i :: 0 <= i < |es| && Closes(es[i]) then PeerClosed else s.state
    decreases |es|
  {
    hide Flatten;
    if es == [] {
    } else {
      HeardState(Heard(s, single, es[0]), single, es[1..]);
      assert forall i :: 1 <= i < |es| ==> es[i] == es[1..][i - 1];
      assert forall i :: 0 <= i < |es| - 1 ==> es[1..][i] == es[i + 1];
    }
  }

  /** In the single-buffer build only the first chain gets in. */
  lemma {:induction false} HeardSingle(s: Sock, es: seq<NetEvent>)
    requires !s.state.Fault? && forall i :: 0 <= i < |es| ==> !es[i].Abort?
    ensures var t := HeardAll(s, true, es);
            && (s.chain != [] ==> t.chain == s.chain && t.delivered == s.delivered)
            && (s.chain == [] ==> (t.chain == [] && t.delivered == s.delivered && Arriving(es) == [])
                                  || exists i :: 0 <= i < |es| && es[i].Deliver? && t.chain == es[i].chain != []
                                                 && t.delivered == s.delivered + Flatten(es[i].chain))
    decreases |es|
  {
    hide Flatten;
    if es == [] {
    } else {
      var next := Heard(s, true, es[0]);
      HeardSingle(next, es[1..]);
      if s.chain == [] && next.chain == [] {
        if i :| 0 <= i < |es| - 1 && es[1..][i].Deliver? && HeardAll(s, true, es).chain == es[1..][i].chain != []
               && HeardAll(s, true, es).delivered == s.delivered + Flatten(es[1..][i].chain) {
          assert es[i + 1] == es[1..][i];
        }
      } else if s.chain == [] {
        assert [] + es[0].chain == es[0].chain;
      }
    }
  }

  predicate WellFormed(es: seq<NetEvent>) {
    forall i :: 0 <= i < |es| && es[i].Deliver? ==> NoEmpty(es[i].chain)
  }

  /** Unless an error took everything away, buffers were added exactly if bytes were delivered. */
  lemma {:induction false} HeardGrows(s: Sock, single: bool, es: seq<NetEvent>)
    requires WellFormed(es)
    ensures var t := HeardAll(s, single, es);
            && (t.state == s.state || t.state == PeerClosed || t.state.Fault?)
            && (!t.state.Fault? ==> |s.chain| <= |t.chain| && |s.delivered| <= |t.delivered|
                                    && (|s.chain| < |t.chain| <==> |s.delivered| < |t.delivered|))
    decreases |es|
  {
    hide Flatten;
    if es == [] {
    } else {
      if es[0].Deliver? {
        SomethingFlat(es[0].chain);
      }
      var next := Heard(s, single, es[0]);
      if next.state.Fault? {
        NothingHeard(next, single, es[1..]);
      } else {
        HeardGrows(next, single, es[1..]);
      }
    }
  }

  lemma SomethingFlat(chain: Chain)
    requires NoEmpty(chain)
    ensures chain != [] ==> |Flatten(chain)| > 0
  {
  }

  /** The first error stays, and nothing is left to read. */
  lemma {:induction false} HeardError(s: Sock, single: bool, es: seq<NetEvent>, i: nat)
    requires !s.state.Fault? && i < |es| && es[i].Abort? && forall j :: 0 <= j < i ==> !es[j].Abort?
    ensures HeardAll(s, single, es).state == Fault(es[i].code) && HeardAll(s, single, es).chain == []
    decreases |es|
  {
    hide Flatten;
    var next := Heard(s, single, es[0]);
    if i == 0 {
      NothingHeard(next, single, es[1..]);
    } else {
      assert es[1..][i - 1] == es[i];
      HeardError(next, single, es[1..], i - 1);
    }
  }

  lemma {:induction false} NothingHeard(s: Sock, single: bool, es: seq<NetEvent>)
    requires s.state.Fault?
    ensures HeardAll(s, single, es) == s
    decreases |es|
  {
    if es == [] {
    } else {
      NothingHeard(s, single, es[1..]);
    }
  }

  /** A blocking read waits while the connection is open and nothing is there to read. */
  function Waited(s: Sock, single: bool, polls: seq<Poll>): Sock
    decreases |polls|
  {
    if s.state != Connected || s.chain != [] || polls == [] || polls[0] == Expired then s
    else Waited(HeardAll(s, single, polls[0].events), single, polls[1..])
  }

  /** What happens during the first `n` polls. */
  function HeardDuring(s: Sock, single: bool, polls: seq<Poll>, n: nat): Sock
    requires n <= |polls| && forall i :: 0 <= i < n ==> polls[i].Happens?
  {
    if n == 0 then s else HeardAll(HeardDuring(s, single, polls, n - 1), single, polls[n - 1].events)
  }

  predicate IsWaiting(s: Sock) { s.state == Connected && s.chain == [] }

  /** A wait ends with the first poll after which there is something to read or the connection is no longer open; it is
      given up when the timeout has run out before that, or no more polls are made. */
  lemma {:induction false} WaitedUntil(s: Sock, single: bool, polls: seq<Poll>) returns (n: nat)
    ensures n <= |polls| && (forall i :: 0 <= i < n ==> polls[i].Happens?)
    ensures Waited(s, single, polls) == HeardDuring(s, single, polls, n)
    ensures forall m :: 0 <= m < n ==> IsWaiting(HeardDuring(s, single, polls, m))
    ensures IsWaiting(HeardDuring(s, single, polls, n)) ==> n == |polls| || polls[n] == Expired
    decreases |polls|
  {
    if !IsWaiting(s) || polls == [] || polls[0] == Expired {
      n := 0;
    } else {
      var next := HeardAll(s, single, polls[0].events);
      n := WaitedUntil(next, single, polls[1..]);
      forall m | 0 <= m <= n ensures HeardDuring(s, single, polls, m + 1) == HeardDuring(next, single, polls[1..], m) {
        DuringLater(s, single, polls, m);
      }
      forall m | 0 <= m < n + 1 ensures IsWaiting(HeardDuring(s, single, polls, m)) {
        if m > 0 {
          assert IsWaiting(HeardDuring(next, single, polls[1..], m - 1));
        }
      }
      n := n + 1;
    }
  }

  lemma {:induction false} DuringLater(s: Sock, single: bool, polls: seq<Poll>, m: nat)
    requires m + 1 <= |polls| && polls[0].Happens? && forall i :: 0 <= i < m ==> polls[1..][i].Happens?
    ensures forall i :: 0 <= i < m + 1 ==> polls[i].Happens?
    ensures HeardDuring(s, single, polls, m + 1)
            == HeardDuring(HeardAll(s, single, polls[0].events), single, polls[1..], m)
    decreases m
  {
    hide HeardAll;
    assert forall i :: 1 <= i < m + 1 ==> polls[i] == polls[1..][i - 1];
    if m == 0 {
      assert HeardDuring(s, single, polls, 0) == s;
    } else {
      DuringLater(s, single, polls, m - 1);
    }
  }

  // ---------- The socket ----------

  class TcpSocket {
    var chain: Chain
    var offset: nat
    var state: State
    const timeout: Timeout
    const singlePbuf: bool
    var windowOpened: nat
    ghost var delivered: seq<Byte>
    ghost var returned: seq<Byte>

    /** Conservation: what was returned plus what is pending is what the peer delivered. */
    ghost predicate Valid()
      reads this
    {
      && windowOpened == |returned|
      && if state.Fault? then chain == [] && returned <= delivered
         else Positioned(chain, offset) && delivered == returned + Pending(chain, offset)
    }

    ghost function Now(): Sock
      reads this
    {
      Sock(chain, offset, state, delivered)
    }

    constructor (timeout: Timeout, singlePbuf: bool)
      ensures Valid() && state == Connected && delivered == [] && returned == []
      ensures this.timeout == timeout && this.singlePbuf == singlePbuf
    {
      chain, offset, state, windowOpened := [], 0, Connected, 0;
      this.timeout, this.singlePbuf := timeout, singlePbuf;
      delivered, returned := [], [];
    }

    /** `_lwip_tcp_recv`: NULL (here the empty chain) reports that the peer closed; a chain is appended, unless
        the single-buffer build refuses it, in which case lwIP keeps it. */
    method OnRecv(p: Chain) returns (ok: bool)
      requires Valid() && !state.Fault? && NoEmpty(p)
      modifies this
      ensures Valid() && returned == old(returned)
      ensures ok <==> p == [] || old(chain) == [] || !singlePbuf
      ensures state == if p == [] then PeerClosed else old(state)
      ensures delivered == if ok then old(delivered) + Flatten(p) else old(delivered)
      ensures chain == (if ok then old(chain) + p else old(chain)) && offset == old(offset)
    {
      hide Pending, Flatten, Positioned, NoEmpty;
      if p == [] {
        NothingFlat();
        state := PeerClosed;
        assert chain + p == chain;
        return true;
      }
      AppendPending(chain, offset, p);
      AppendPositioned(chain, offset, p);
      if chain == [] {
        assert [] + p == p;
        chain := p;
      } else if singlePbuf {
        return false;
      } else {
        chain := chain + p;
      }
      delivered := delivered + Flatten(p);
      return true;
    }

    /** `_lwip_tcp_error`: the pending buffers are freed and the socket keeps only the error. */
    method OnError(code: nat)
      requires Valid()
      modifies this
      ensures Valid() && state == Fault(code) && chain == [] && offset == old(offset)
      ensures delivered == old(delivered) && returned == old(returned)
    {
      chain := [];
      state := Fault(code);
    }

    /** Callbacks in the order lwIP makes them. */
    method Network(events: seq<NetEvent>)
      requires Valid() && WellFormed(events)
      modifies this
      ensures Valid() && returned == old(returned) && old(delivered) <= delivered
      ensures Now() == HeardAll(old(Now()), singlePbuf, events)
    {
      hide Pending, Flatten, Positioned;
      for i := 0 to |events|
        invariant Valid() && returned == old(returned) && old(delivered) <= delivered
        invariant HeardAll(Now(), singlePbuf, events[i..]) == HeardAll(old(Now()), singlePbuf, events)
      {
        assert events[i..] == [events[i]] + events[i + 1..];
        HeardStep(Now(), singlePbuf, events[i], events[i + 1..]);
        Callback(events[i]);
      }
    }

    method Callback(e: NetEvent)
      requires Valid() && (e.Deliver? ==> NoEmpty(e.chain))
      modifies this
      ensures Valid() && returned == old(returned) && old(delivered) <= delivered
      ensures Now() == Heard(old(Now()), singlePbuf, e)
    {
      hide Pending, Flatten, Positioned;
      NothingFlat();
      if !state.Fault? {
        match e {
          case Deliver(p) => var _ := OnRecv(p);
          case Close => var _ := OnRecv([]);
          case Abort(code) => OnError(code);
        }
      }
    }

    /** `lwip_tcp_receive`. */
    method Receive(len: nat, polls: seq<Poll>) returns (r: Received)
      requires Valid() && forall i :: 0 <= i < |polls| && polls[i].Happens? ==> WellFormed(polls[i].events)
      modifies this
      ensures Valid() && old(delivered) <= delivered
      // Bytes come out in the order they went in, each once; a failed read takes none.
      ensures returned == old(returned) + (if r.Data? then r.bytes else []) && (r.Data? ==> |r.bytes| <= len)
      // Errors are reported at once, and also when they arrive during the wait.
      ensures old(state).Fault? ==> r == Failed(Lwip(old(state).code)) && Now() == old(Now())
      ensures state.Fault? ==> r == Failed(Lwip(state.code))
      // If bytes are there or arrive during the wait, some are returned; nothing but an error prevents it.
      ensures !state.Fault? && (old(chain) != [] || delivered != old(delivered)) ==> r.Data? && (len > 0 ==> r.bytes != [])
      ensures !old(state).Fault? && old(chain) != [] ==>
                var t := Take(old(chain), old(offset), len);
                r == Data(t.bytes) && Now() == Sock(t.chain, t.offset, old(state), old(delivered))
      // Otherwise nothing is there to read, and the state decides: end of file exactly if the peer has closed.
      ensures !state.Fault? && old(chain) == [] && delivered == old(delivered) ==>
                && chain == []
                && (state == PeerClosed ==> r == Data([]))
                && (state != PeerClosed && timeout == NonBlocking ==> r == Failed(EAGAIN))
                && (state == Connected && timeout == Blocking ==> r == Failed(ETIMEDOUT) || r == Waiting)
                && (state != PeerClosed && state != Connected && timeout == Blocking ==> r == Failed(ENOTCONN))
      // A read that does not block leaves the socket alone; one that does waits as the network says.
      ensures !old(state).Fault? && old(chain) == [] && timeout == NonBlocking ==> Now() == old(Now())
      ensures !old(state).Fault? && old(chain) == [] && timeout == Blocking ==>
                var w := Waited(old(Now()), singlePbuf, polls);
                && state == w.state && delivered == w.delivered
                && (w.chain == [] ==> chain == [])
                && (w.chain != [] ==>
                      && Positioned(w.chain, w.offset)
                      && var t := Take(w.chain, w.offset, len); r == Data(t.bytes) && chain == t.chain && offset == t.offset)
      ensures r == Failed(ETIMEDOUT) ==> exists i :: 0 <= i < |polls| && polls[i] == Expired
      ensures r == Waiting ==> forall i :: 0 <= i < |polls| ==> polls[i] != Expired
    {
      hide Pending, Flatten;
      if state.Fault? {
        return Failed(Lwip(state.code));
      }
      if chain == [] {
        if timeout == NonBlocking {
          if state == PeerClosed {
            return Data([]);
          }
          return Failed(EAGAIN);
        }
        var p := 0;
        assert polls[0..] == polls;
        while state == Connected && chain == []
          invariant Valid() && 0 <= p <= |polls| && returned == old(returned) && old(delivered) <= delivered
          invariant Waited(Now(), singlePbuf, polls[p..]) == Waited(old(Now()), singlePbuf, polls)
          invariant !state.Fault? && chain == [] ==> delivered == old(delivered)
          invariant !state.Fault? && chain != [] ==> delivered != old(delivered)
          invariant state == Connected || state == PeerClosed || state.Fault? || Now() == old(Now())
          invariant forall i :: 0 <= i < p ==> polls[i] != Expired
          decreases |polls| - p
        {
          if p == |polls| {
            return Waiting;
          }
          assert polls[p..][0] == polls[p];
          if polls[p] == Expired {
            return Failed(ETIMEDOUT);
          }
          assert polls[p..][1..] == polls[p + 1..];
          ghost var s := Now();
          Network(polls[p].events);
          HeardGrows(s, singlePbuf, polls[p].events);
          p := p + 1;
        }
        assert Waited(Now(), singlePbuf, polls[p..]) == Now();
        if state == PeerClosed {
          if chain == [] {
            return Data([]);
          }
        } else if state != Connected {
          if state.Fault? {
            return Failed(Lwip(state.code));
          }
          return Failed(ENOTCONN);
        }
      }
      r := TakeFront(len);
    }

    /** The tail of `lwip_tcp_receive`: copy out of the first buffer, drop it when it is used up. */
    method TakeFront(len: nat) returns (r: Received)
      requires Valid() && !state.Fault? && chain != []
      modifies this
      ensures Valid() && delivered == old(delivered) && state == old(state)
      ensures var t := Take(old(chain), old(offset), len); r == Data(t.bytes) && chain == t.chain && offset == t.offset
      ensures returned == old(returned) + r.bytes && |r.bytes| <= len && (len > 0 ==> r.bytes != [])
    {
      hide Pending, NoEmpty;
      TakeConserves(chain, offset, len);
      ghost var t := Take(chain, offset, len);
      assert returned + (t.bytes + Pending(t.chain, t.offset)) == returned + t.bytes + Pending(t.chain, t.offset);
      var first := chain[0];
      var remaining := |first| - offset;
      var n := if len > remaining then remaining else len;
      var bytes := first[offset..offset + n];
      remaining := remaining - n;
      if remaining == 0 {
        chain := chain[1..];
        offset := 0;
      } else {
        offset := offset + n;
      }
      windowOpened := windowOpened + n;
      returned := returned + bytes;
      r := Data(bytes);
    }
  }

  // ---------- Whole runs ----------

  datatype Op = Arrives(chain: Chain) | Read(len: nat)

  datatype Log = Log(chain: Chain, offset: nat, delivered: seq<Byte>, returned: seq<Byte>)

  predicate Conserved(l: Log) {
    Positioned(l.chain, l.offset) && l.delivered == l.returned + Pending(l.chain, l.offset)
  }

  function Arrival(l: Log, c: Chain): Log {
    if c == [] || !NoEmpty(c) then l else l.(chain := l.chain + c, delivered := l.delivered + Flatten(c))
  }

  function Reading(l: Log, len: nat): Log {
    if l.chain == [] || !Positioned(l.chain, l.offset) then l
    else
      var t := Take(l.chain, l.offset, len);
      Log(t.chain, t.offset, l.delivered, l.returned + t.bytes)
  }

  function Perform(l: Log, op: Op): Log {
    match op
    case Arrives(c) => Arrival(l, c)
    case Read(len) => Reading(l, len)
  }

  lemma ArrivalConserves(l: Log, c: Chain)
    requires Conserved(l)
    ensures Conserved(Arrival(l, c))
  {
    if c != [] && NoEmpty(c) {
      hide Pending;
      AppendPending(l.chain, l.offset, c);
      AppendPositioned(l.chain, l.offset, c);
    }
  }

  lemma ReadingConserves(l: Log, len: nat)
    requires Conserved(l)
    ensures Conserved(Reading(l, len))
    ensures len > 0 && Pending(l.chain, l.offset) != [] ==>
              |Pending(Reading(l, len).chain, Reading(l, len).offset)| < |Pending(l.chain, l.offset)|
  {
    hide Pending;
    OffsetInside(l.chain, l.offset);
    if l.chain != [] {
      TakeConserves(l.chain, l.offset, len);
    }
  }

  function PerformAll(l: Log, ops: seq<Op>): Log
    decreases |ops|
  {
    if ops == [] then l else PerformAll(Perform(l, ops[0]), ops[1..])
  }

  function PayloadOf(op: Op): seq<Byte> {
    match op
    case Arrives(c) => if NoEmpty(c) then Flatten(c) else []
    case Read(len) => []
  }

  function Payload(ops: seq<Op>): seq<Byte> {
    if ops == [] then [] else PayloadOf(ops[0]) + Payload(ops[1..])
  }

  lemma PerformConserves(l: Log, op: Op)
    requires Conserved(l)
    ensures Conserved(Perform(l, op)) && Perform(l, op).delivered == l.delivered + PayloadOf(op)
  {
    match op
    case Arrives(c) => ArrivalConserves(l, c);
    case Read(len) => ReadingConserves(l, len);
  }

  lemma {:induction false} RunConserves(l: Log, ops: seq<Op>)
    requires Conserved(l)
    ensures Conserved(PerformAll(l, ops)) && PerformAll(l, ops).delivered == l.delivered + Payload(ops)
    decreases |ops|
  {
    hide Conserved, Perform, PayloadOf;
    if ops == [] {
    } else {
      PerformConserves(l, ops[0]);
      RunConserves(Perform(l, ops[0]), ops[1..]);
      assert l.delivered + PayloadOf(ops[0]) + Payload(ops[1..]) == l.delivered + Payload(ops);
    }
  }

  /** Reads of any sizes, interleaved in any way with arriving buffers, return a prefix of the byte stream that
      arrived; the rest of the stream is exactly what is still pending. */
  lemma StreamPreserved(ops: seq<Op>)
    ensures var end := PerformAll(Log([], 0, [], []), ops);
            Payload(ops) == end.returned + Pending(end.chain, end.offset)
  {
    RunConserves(Log([], 0, [], []), ops);
  }

  /** Reads of positive length drain everything that is pending, in at most as many reads as there are bytes. */
  lemma {:induction false} ReadsDrain(l: Log, lens: seq<nat>)
    requires Conserved(l) && |Pending(l.chain, l.offset)| <= |lens|
    requires forall i :: 0 <= i < |lens| ==> lens[i] > 0
    ensures var end := PerformAll(l, Reads(lens));
            end.returned == l.delivered && end.chain == []
    decreases |lens|
  {
    hide Pending, Take, Reading;
    OffsetInside(l.chain, l.offset);
    if lens == [] {
    } else {
      assert Reads(lens)[1..] == Reads(lens[1..]);
      ReadingConserves(l, lens[0]);
      ReadingNothing(l, lens[0]);
      ReadsDrain(Reading(l, lens[0]), lens[1..]);
    }
  }

  lemma ReadingNothing(l: Log, len: nat)
    ensures Reading(l, len).delivered == l.delivered
    ensures l.chain == [] ==> Reading(l, len) == l
  {
  }

  function Reads(lens: seq<nat>): seq<Op> {
    seq(|lens|, i requires 0 <= i < |lens| => Read(lens[i]))
  }
}
