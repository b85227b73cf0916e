/** The binary heap of `modheapq.c`. */
module HeapQueue {

  /** A list element; elements are compared by key only, so equal keys stay distinguishable. */
  datatype Item = Item(key: int, payload: int)

  predicate Less(a: Item, b: Item) { a.key < b.key }

  datatype Popped = Top(item: Item) | EmptyHeap

  function Parent(i: int): int
    requires i > 0
  {
    (i - 1) / 2
  }

  /** The heap condition on every edge whose upper end is at `from` or later. */
  ghost predicate HeapFrom(s: seq<Item>, from: nat) {
    forall i :: 0 < i < |s| && Parent(i) >= from ==> !Less(s[i], s[Parent(i)])
  }

  ghost predicate IsHeap(s: seq<Item>) { HeapFrom(s, 0) }

  /** `pos` lies in the subtree rooted at `top`. */
  ghost predicate Below(top: nat, pos: nat)
    decreases pos
  {
    pos == top || (pos > top && Below(top, Parent(pos)))
  }

  /** Every edge at or below `from` is in order, except possibly the one from `pos` up to its parent;
      and what hangs below `pos` is in order with that parent. */
  ghost predicate HeapButFor(s: seq<Item>, from: nat, pos: nat) {
    && (forall i :: 0 < i < |s| && Parent(i) >= from && i != pos ==> !Less(s[i], s[Parent(i)]))
    && (forall i :: 0 < i < |s| && Parent(i) == pos && pos > from ==> !Less(s[i], s[Parent(pos)]))
  }

  /** Every edge at or below `from` that does not touch `hole` is in order, and so are the edges
      that would appear if `hole` were taken out. */
  ghost predicate HeapAround(s: seq<Item>, from: nat, hole: nat) {
    && (forall i :: 0 < i < |s| && Parent(i) >= from && i != hole && Parent(i) != hole ==> !Less(s[i], s[Parent(i)]))
    && (forall i :: 0 < i < |s| && Parent(i) == hole && hole > from ==> !Less(s[i], s[Parent(hole)]))
  }

  /** Moving the element at `j` into the place of `item` at `i`, and `item` to `j`, keeps the contents. */
  lemma MoveKeepsContents(s: seq<Item>, i: nat, j: nat, item: Item)
    requires i < |s| && j < |s| && i != j
    ensures multiset(s[i := s[j]][j := item]) == multiset(s[i := item])
  {
    var t := s[i := item];
    assert s[i := s[j]][j := item] == t[i := t[j]][j := t[i]];
  }

  /** Moving a too-small item one level up leaves only the next edge up in doubt. */
  lemma RaiseStep(s: seq<Item>, from: nat, pos: nat)
    requires from < pos < |s| && Below(from, pos) && HeapButFor(s, from, pos) && Less(s[pos], s[Parent(pos)])
    ensures var up := Parent(pos);
            from <= up && Below(from, up) && HeapButFor(s[pos := s[up]][up := s[pos]], from, up)
  {
    var up := Parent(pos);
    var t := s[pos := s[up]][up := s[pos]];
    BelowIsAfter(from, up);
    if up > from {
      assert !Less(s[up], s[Parent(up)]);
      forall i | 0 < i < |t| && Parent(i) == up ensures !Less(t[i], t[Parent(up)]) {
        assert i == pos || !Less(s[i], s[up]);
      }
    }
  }

  lemma RaiseDone(s: seq<Item>, from: nat, pos: nat)
    requires from <= pos < |s| && Below(from, pos) && HeapButFor(s, from, pos)
    requires pos == from || !Less(s[pos], s[Parent(pos)])
    ensures HeapFrom(s, from)
  {
  }

  lemma BelowIsAfter(top: nat, pos: nat)
    requires Below(top, pos)
    ensures top <= pos && (top < pos ==> top <= Parent(pos))
  {
  }

  lemma BelowChild(top: nat, pos: nat, child: nat)
    requires Below(top, pos) && (child == 2 * pos + 1 || child == 2 * pos + 2)
    ensures Below(top, child)
  {
    BelowIsAfter(top, pos);
    assert Parent(child) == pos;
  }

  /** Pulling the smaller child of the hole up moves the hole one level down. */
  lemma SinkAround(s: seq<Item>, from: nat, hole: nat, child: nat)
    requires Below(from, hole) && HeapAround(s, from, hole)
    requires hole < child < |s| && (child == 2 * hole + 1 || child == 2 * hole + 2)
    requires !Less(s[2 * hole + 1], s[child])
    requires 2 * hole + 2 < |s| ==> !Less(s[2 * hole + 2], s[child])
    ensures HeapAround(s[hole := s[child]], from, child)
  {
    BelowIsAfter(from, hole);
    var t := s[hole := s[child]];
    forall i | 0 < i < |t| && Parent(i) >= from && i != child && Parent(i) != child
      ensures !Less(t[i], t[Parent(i)])
    {
      if Parent(i) == hole {
        assert i == 2 * hole + 1 || i == 2 * hole + 2;
      } else if i == hole {
        assert Parent(child) == hole;
      }
    }
    forall i | 0 < i < |t| && Parent(i) == child ensures !Less(t[i], t[hole]) {
    }
    assert Parent(child) == hole;
  }

  /** `child` is the child of `hole` that the sinking loop picks: the right one unless the left is smaller. */
  predicate Picked(s: seq<Item>, hole: nat, child: nat) {
    var left := 2 * hole + 1;
    && left < |s|
    && child == (if left + 1 < |s| && !Less(s[left], s[left + 1]) then left + 1 else left)
  }

  lemma SinkStep(s: seq<Item>, from: nat, hole: nat, child: nat)
    requires Below(from, hole) && HeapAround(s, from, hole) && Picked(s, hole, child)
    ensures hole < child < |s| && Below(from, child)
    ensures HeapAround(s[hole := s[child]], from, child)
  {
    hide HeapAround, Below;
    BelowChild(from, hole, child);
    SinkAround(s, from, hole, child);
  }

  lemma SinkStart(s: seq<Item>, pos: nat)
    requires HeapFrom(s, pos + 1)
    ensures HeapAround(s, pos, pos) && Below(pos, pos)
  {
  }

  lemma SinkDone(s: seq<Item>, from: nat, hole: nat, item: Item)
    requires hole < |s| && 2 * hole + 1 >= |s| && HeapAround(s, from, hole)
    ensures HeapButFor(s[hole := item], from, hole)
  {
  }

  lemma {:induction false} RootIsMin(s: seq<Item>, i: nat)
    requires IsHeap(s) && i < |s|
    ensures !Less(s[i], s[0])
    decreases i
  {
    if i == 0 {
    } else {
      RootIsMin(s, Parent(i));
    }
  }

  class Heap {
    var items: seq<Item>

    constructor (items: seq<Item>)
      ensures this.items == items
    {
      this.items := items;
    }

    /** `heapq_heap_siftdown`: move the item at `pos` towards `startPos`. */
    method SiftDown(startPos: nat, pos: nat)
      requires startPos <= pos < |items| && Below(startPos, pos) && HeapButFor(items, startPos, pos)
      modifies this
      ensures HeapFrom(items, startPos)
      ensures multiset(items) == multiset(old(items)) && |items| == |old(items)|
    {
      hide HeapButFor, HeapFrom, Below;
      var item := items[pos];
      var at := pos;
      assert items[at := item] == items;
      while at > startPos
        invariant startPos <= at < |items| == |old(items)| && Below(startPos, at)
        invariant HeapButFor(items[at := item], startPos, at)
        invariant multiset(items[at := item]) == multiset(old(items))
      {
        var parentPos := (at - 1) / 2;
        var parent := items[parentPos];
        if Less(item, parent) {
          ghost var full := items[at := item];
          RaiseStep(full, startPos, at);
          MoveKeepsContents(items, at, parentPos, item);
          assert full[at := full[parentPos]][parentPos := full[at]] == items[at := parent][parentPos := item];
          items := items[at := parent];
          at := parentPos;
        } else {
          break;
        }
      }
      RaiseDone(items[at := item], startPos, at);
      items := items[at := item];
    }

    /** `heapq_heap_siftup`: sink the item at `pos` to a leaf along the smaller children,
        then let it rise again, at most to where it started. */
    method SiftUp(pos: nat)
      requires pos < |items| && HeapFrom(items, pos + 1)
      modifies this
      ensures HeapFrom(items, pos)
      ensures multiset(items) == multiset(old(items)) && |items| == |old(items)|
    {
      hide HeapAround, HeapButFor, HeapFrom, Below;
      SinkStart(items, pos);
      var endPos := |items|;
      var item := items[pos];
      var at := pos;
      assert items[at := item] == items;
      var childPos := 2 * at + 1;
      while childPos < endPos
        invariant pos <= at < endPos == |items| && childPos == 2 * at + 1 && Below(pos, at)
        invariant HeapAround(items, pos, at)
        invariant multiset(items[at := item]) == multiset(old(items))
        decreases endPos - at
      {
        if childPos + 1 < endPos && !Less(items[childPos], items[childPos + 1]) {
          childPos := childPos + 1;
        }
        SinkStep(items, pos, at, childPos);
        MoveKeepsContents(items, at, childPos, item);
        items := items[at := items[childPos]];
        at := childPos;
        childPos := 2 * at + 1;
      }
      SinkDone(items, pos, at, item);
      items := items[at := item];
      SiftDown(pos, at);
    }

    /** `heappush`. */
    method Push(item: Item)
      requires IsHeap(items)
      modifies this
      ensures IsHeap(items)
      ensures multiset(items) == multiset(old(items)) + multiset{item}
    {
      items := items + [item];
      BelowRoot(|items| - 1);
      SiftDown(0, |items| - 1);
    }

    /** `heappop`: IndexError on an empty heap, otherwise a minimum. */
    method Pop() returns (r: Popped)
      requires IsHeap(items)
      modifies this
      ensures IsHeap(items)
      ensures old(items) == [] <==> r.EmptyHeap?
      ensures r.EmptyHeap? ==> items == old(items)
      ensures r.Top? ==> multiset(old(items)) == multiset(items) + multiset{r.item}
      ensures r.Top? ==> forall i :: 0 <= i < |old(items)| ==> !Less(old(items)[i], r.item)
    {
      if |items| == 0 {
        return EmptyHeap;
      }
      ghost var before := items;
      var item := items[0];
      forall i | 0 <= i < |items| ensures !Less(items[i], item) {
        RootIsMin(items, i);
      }
      var last := items[|items| - 1];
      items := items[..|items| - 1];
      PopContents(before);
      if |items| > 0 {
        items := items[0 := last];
        SiftUp(0);
      }
      r := Top(item);
    }

    /** `heapify`: any list becomes a heap with the same elements. */
    method Heapify()
      modifies this
      ensures IsHeap(items)
      ensures multiset(items) == multiset(old(items))
    {
      var i := |items| / 2;
      while i > 0
        invariant 0 <= i <= |items| && |items| == |old(items)|
        invariant HeapFrom(items, i)
        invariant multiset(items) == multiset(old(items))
      {
        i := i - 1;
        SiftUp(i);
      }
    }
  }

  lemma {:induction false} BelowRoot(pos: nat)
    ensures Below(0, pos)
    decreases pos
  {
    if pos == 0 {
    } else {
      BelowRoot(Parent(pos));
    }
  }

  /** Taking the last element into the place of the first removes just the first. */
  lemma PopContents(s: seq<Item>)
    requires |s| > 0
    ensures var rest := s[..|s| - 1];
            multiset(s) == multiset(if rest == [] then rest else rest[0 := s[|s| - 1]]) + multiset{s[0]}
  {
    assert s == s[..|s| - 1] + [s[|s| - 1]];
    if |s| > 1 {
      var mid := s[1..|s| - 1];
      assert s[..|s| - 1] == [s[0]] + mid;
      assert s[..|s| - 1][0 := s[|s| - 1]] == [s[|s| - 1]] + mid;
    }
  }

  // ---------- Whole runs ----------

  ghost predicate SortedByKey(s: seq<Item>) { forall i, j :: 0 <= i < j < |s| ==> !Less(s[j], s[i]) }

  /** Nothing in `rest` is smaller than anything in `s`. */
  ghost predicate AllBefore(s: seq<Item>, rest: seq<Item>) {
    forall i, j :: 0 <= i < |s| && 0 <= j < |rest| ==> !Less(rest[j], s[i])
  }

  lemma SortedSnoc(s: seq<Item>, before: seq<Item>, item: Item, after: seq<Item>)
    requires SortedByKey(s) && AllBefore(s, before) && multiset(before) == multiset(after) + multiset{item}
    requires forall i :: 0 <= i < |before| ==> !Less(before[i], item)
    ensures SortedByKey(s + [item]) && AllBefore(s + [item], after)
  {
    hide Less;
    assert item in multiset(before);
    forall j | 0 <= j < |after| ensures after[j] in before {
      assert after[j] in multiset(after);
      assert after[j] in multiset(before);
    }
  }

  /** A list made into a heap and popped until it is empty comes out sorted, each element once. */
  method Drain(list: seq<Item>) returns (sorted: seq<Item>)
    ensures SortedByKey(sorted) && multiset(sorted) == multiset(list)
  {
    hide IsHeap, SortedByKey, AllBefore;
    var heap := new Heap(list);
    heap.Heapify();
    sorted := [];
    NothingSorted(heap.items);
    while |heap.items| > 0
      invariant IsHeap(heap.items) && SortedByKey(sorted) && AllBefore(sorted, heap.items)
      invariant multiset(sorted) + multiset(heap.items) == multiset(list)
      decreases |multiset(heap.items)|
    {
      ghost var before := heap.items;
      var r := heap.Pop();
      SortedSnoc(sorted, before, r.item, heap.items);
      sorted := sorted + [r.item];
    }
  }

  lemma NothingSorted(rest: seq<Item>)
    ensures SortedByKey([]) && AllBefore([], rest)
  {
  }
}
