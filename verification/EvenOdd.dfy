/** The node list of one scan line of `framebuf_poly`: its sort, and filling between pairs of nodes. */
module EvenOdd {

  // ---------- Counting ----------

  /** How many nodes are at `px` or to the left of it. */
  function CountUpTo(s: seq<int>, px: int): nat {
    if s == [] then 0 else CountUpTo(s[..|s| - 1], px) + if s[|s| - 1] <= px then 1 else 0
  }

  /** The even-odd rule: an odd number of nodes lies at or before `px`, or `px` is itself a node. */
  predicate Inside(s: seq<int>, px: int) { CountUpTo(s, px) % 2 == 1 || px in s }

  /** `px` is in one of the spans from an even-numbered node to the next. */
  predicate InSpans(s: seq<int>, px: int) {
    |s| >= 2 && (InSpans(s[..|s| - 2], px) || s[|s| - 2] <= px <= s[|s| - 1])
  }

  predicate Sorted(s: seq<int>) { forall i, j :: 0 <= i < j < |s| ==> s[i] <= s[j] }

  lemma CountSnoc(s: seq<int>, a: int, px: int)
    ensures CountUpTo(s + [a], px) == CountUpTo(s, px) + if a <= px then 1 else 0
  {
    assert (s + [a])[..|s|] == s;
  }

  lemma {:induction false} CountAll(s: seq<int>, px: int)
    requires forall i :: 0 <= i < |s| ==> s[i] <= px
    ensures CountUpTo(s, px) == |s|
  {
    if s == [] {
    } else {
      CountAll(s[..|s| - 1], px);
    }
  }

  /** Filling between pairs of sorted nodes is the even-odd rule. */
  lemma {:induction false} SpansAreEvenOdd(s: seq<int>, px: int)
    requires Sorted(s) && |s| % 2 == 0
    ensures InSpans(s, px) <==> Inside(s, px)
    decreases |s|
  {
    if s == [] {
    } else {
      var n := |s|;
      var t := s[..n - 2];
      assert s == t + [s[n - 2], s[n - 1]];
      SpansAreEvenOdd(t, px);
      LastPair(t, s[n - 2], s[n - 1], px);
    }
  }

  lemma LastPair(t: seq<int>, a: int, b: int, px: int)
    requires |t| % 2 == 0 && a <= b && forall i :: 0 <= i < |t| ==> t[i] <= a
    requires InSpans(t, px) <==> Inside(t, px)
    ensures InSpans(t + [a, b], px) <==> Inside(t + [a, b], px)
  {
    hide CountUpTo, InSpans;
    InSpansSnoc(t, a, b, px);
    CountSnoc(t, a, px);
    CountSnoc(t + [a], b, px);
    assert t + [a, b] == t + [a] + [b];
    InPair(t, a, b, px);
    if px >= a {
      CountAll(t, px);
    }
  }

  lemma InSpansSnoc(t: seq<int>, a: int, b: int, px: int)
    ensures InSpans(t + [a, b], px) <==> InSpans(t, px) || a <= px <= b
  {
    assert (t + [a, b])[..|t|] == t;
  }

  lemma InPair(t: seq<int>, a: int, b: int, px: int)
    ensures px in t + [a, b] <==> px in t || px == a || px == b
  {
  }

  lemma {:induction false} CountWithout(s: seq<int>, j: nat, px: int)
    requires j < |s|
    ensures CountUpTo(s, px) == CountUpTo(s[..j] + s[j + 1..], px) + if s[j] <= px then 1 else 0
    decreases |s|
  {
    var n := |s| - 1;
    if j == n {
      assert s[..j] + s[j + 1..] == s[..n];
    } else {
      CountWithout(s[..n], j, px);
      assert s[..n][..j] + s[..n][j + 1..] == (s[..j] + s[j + 1..])[..n - 1];
    }
  }

  lemma MultisetWithout(s: seq<int>, j: nat)
    requires j < |s|
    ensures multiset(s) == multiset(s[..j] + s[j + 1..]) + multiset{s[j]}
  {
    assert s == s[..j] + [s[j]] + s[j + 1..];
  }

  lemma Cancel(a: multiset<int>, b: multiset<int>, x: int)
    requires a + multiset{x} == b + multiset{x}
    ensures a == b
  {
    assert a + multiset{x} - multiset{x} == a;
    assert b + multiset{x} - multiset{x} == b;
  }

  /** Counting does not depend on the order. */
  lemma {:induction false} CountPermuted(s: seq<int>, t: seq<int>, px: int)
    requires multiset(s) == multiset(t)
    ensures CountUpTo(s, px) == CountUpTo(t, px)
    decreases |s|
  {
    if s == [] {
      assert |multiset(t)| == 0;
    } else {
      var n := |s| - 1;
      var last := s[n];
      MultisetWithout(s, n);
      assert s[..n] + s[n + 1..] == s[..n];
      assert last in multiset(t);
      var j :| 0 <= j < |t| && t[j] == last;
      MultisetWithout(t, j);
      CountWithout(t, j, px);
      Cancel(multiset(s[..n]), multiset(t[..j] + t[j + 1..]), last);
      CountPermuted(s[..n], t[..j] + t[j + 1..], px);
    }
  }

  /** The rule does not depend on the order of the nodes. */
  lemma InsidePermuted(s: seq<int>, t: seq<int>, px: int)
    requires multiset(s) == multiset(t)
    ensures Inside(s, px) <==> Inside(t, px)
  {
    hide CountUpTo;
    CountPermuted(s, t, px);
    assert px in s <==> px in multiset(s);
    assert px in t <==> px in multiset(t);
  }

  // ---------- The sort ----------

  /** How many nodes are greater than `a`. */
  function Greater(s: seq<int>, a: int): nat {
    if s == [] then 0 else Greater(s[..|s| - 1], a) + if s[|s| - 1] > a then 1 else 0
  }

  /** The number of pairs in the wrong order. */
  function Inversions(s: seq<int>): nat {
    if s == [] then 0 else Inversions(s[..|s| - 1]) + Greater(s[..|s| - 1], s[|s| - 1])
  }

  function Swapped(s: seq<int>, i: nat): seq<int>
    requires i + 1 < |s|
  {
    s[i := s[i + 1]][i + 1 := s[i]]
  }

  lemma GreaterSnoc(s: seq<int>, b: int, a: int)
    ensures Greater(s + [b], a) == Greater(s, a) + if b > a then 1 else 0
  {
    assert (s + [b])[..|s|] == s;
  }

  lemma InversionsSnoc(s: seq<int>, a: int)
    ensures Inversions(s + [a]) == Inversions(s) + Greater(s, a)
  {
    assert (s + [a])[..|s|] == s;
  }

  lemma {:induction false} GreaterSwapped(s: seq<int>, i: nat, a: int)
    requires i + 1 < |s|
    ensures Greater(Swapped(s, i), a) == Greater(s, a)
    decreases |s|
  {
    var n := |s| - 1;
    if i + 1 == n {
      var t := s[..n - 1];
      assert s == t + [s[n - 1]] + [s[n]];
      assert Swapped(s, i) == t + [s[n]] + [s[n - 1]];
      GreaterSnoc(t, s[n - 1], a);
      GreaterSnoc(t + [s[n - 1]], s[n], a);
      GreaterSnoc(t, s[n], a);
      GreaterSnoc(t + [s[n]], s[n - 1], a);
    } else {
      GreaterSwapped(s[..n], i, a);
      assert Swapped(s, i)[..n] == Swapped(s[..n], i);
    }
  }

  /** Swapping neighbours in the wrong order removes exactly one inversion. */
  lemma {:induction false} SwapRemovesInversion(s: seq<int>, i: nat)
    requires i + 1 < |s| && s[i] > s[i + 1]
    ensures Inversions(Swapped(s, i)) == Inversions(s) - 1
    decreases |s|
  {
    var n := |s| - 1;
    if i + 1 == n {
      SwapLast(s[..n - 1], s[n - 1], s[n]);
      assert s == s[..n - 1] + [s[n - 1]] + [s[n]];
      assert Swapped(s, i) == s[..n - 1] + [s[n]] + [s[n - 1]];
    } else {
      SwapRemovesInversion(s[..n], i);
      GreaterSwapped(s[..n], i, s[n]);
      assert Swapped(s, i)[..n] == Swapped(s[..n], i);
    }
  }

  lemma SwapLast(t: seq<int>, a: int, b: int)
    requires a > b
    ensures Inversions(t + [b] + [a]) == Inversions(t + [a] + [b]) - 1
  {
    hide Inversions, Greater;
    InversionsSnoc(t, a);
    InversionsSnoc(t + [a], b);
    InversionsSnoc(t, b);
    InversionsSnoc(t + [b], a);
    GreaterSnoc(t, a, b);
    GreaterSnoc(t, b, a);
  }

  lemma SwappedIsPermuted(s: seq<int>, i: nat)
    requires i + 1 < |s|
    ensures multiset(Swapped(s, i)) == multiset(s)
  {
    var t, u := s[..i], s[i + 2..];
    assert s == t + [s[i]] + [s[i + 1]] + u;
    assert Swapped(s, i) == t + [s[i + 1]] + [s[i]] + u;
  }

  lemma SortedPrefix(s: seq<int>, i: nat, j: nat)
    requires i <= j <= |s| && Sorted(s[..j])
    ensures Sorted(s[..i])
  {
    assert forall k :: 0 <= k < i ==> s[..i][k] == s[..j][k];
  }

  lemma SortedSnoc(s: seq<int>, i: nat)
    requires i + 1 < |s| && Sorted(s[..i + 1]) && s[i] <= s[i + 1]
    ensures Sorted(s[..i + 2])
  {
    var t := s[..i + 1];
    assert s[..i + 2] == t + [s[i + 1]];
    assert t[i] == s[i];
  }

  method SwapNodes(nodes: array<int>, i: nat, ghost n: nat)
    requires i + 1 < n <= nodes.Length
    modifies nodes
    ensures nodes[..n] == Swapped(old(nodes[..n]), i)
  {
    var swap := nodes[i];
    nodes[i] := nodes[i + 1];
    nodes[i + 1] := swap;
  }

  /** The sort: one position forward, or a swap and one position back. */
  method SortNodes(nodes: array<int>, n: nat)
    requires n <= nodes.Length
    modifies nodes
    ensures Sorted(nodes[..n]) && multiset(nodes[..n]) == multiset(old(nodes[..n]))
  {
    hide Inversions, Sorted;
    ShortSorted(nodes[..n]);
    var i := 0;
    while i < n - 1
      invariant 0 <= i && (n > 0 ==> i < n && Sorted(nodes[..n][..i + 1])) && (n == 0 ==> Sorted(nodes[..n]))
      invariant multiset(nodes[..n]) == multiset(old(nodes[..n]))
      decreases Inversions(nodes[..n]), n - i
    {
      ghost var before := nodes[..n];
      if nodes[i] > nodes[i + 1] {
        SwapRemovesInversion(before, i);
        SwappedIsPermuted(before, i);
        SwapNodes(nodes, i, n);
        SortedPrefix(before, if i > 0 then i else 1, i + 1);
        if i > 0 {
          assert nodes[..n][..i] == before[..i];
          i := i - 1;
        } else {
          ShortSorted(nodes[..n][..1]);
        }
      } else {
        SortedSnoc(before, i);
        i := i + 1;
      }
    }
    assert n > 0 ==> nodes[..n][..i + 1] == nodes[..n];
  }

  lemma ShortSorted(s: seq<int>)
    ensures |s| <= 1 ==> Sorted(s)
    ensures |s| > 0 ==> Sorted(s[..1])
  {
  }
}
