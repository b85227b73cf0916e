/** What the decoder of `modbinascii.c` makes of any text at all, in terms of the letters and the padding in it. */
module Base64Texts {
  import opened Base64
  import opened BitStrings
  import opened Bytes

  // ---------- Letters and bits ----------

  /** The values of the alphabet characters of a text, in order. */
  function Letters(text: seq<Byte>): (d: seq<nat>)
    ensures forall i :: 0 <= i < |d| ==> d[i] < 64
  {
    if text == [] then []
    else
      var n := |text| - 1;
      Letters(text[..n]) + if Sextet(text[n]) == -1 then [] else [Sextet(text[n])]
  }

  /** Numbers as binary digits of equal width, one after the other. */
  function Digits(d: seq<nat>, width: nat): seq<bool> {
    if d == [] then [] else Digits(d[..|d| - 1], width) + Bits(d[|d| - 1], width)
  }

  lemma DigitsSnoc(d: seq<nat>, x: nat, width: nat)
    ensures Digits(d + [x], width) == Digits(d, width) + Bits(x, width)
  {
    assert (d + [x])[..|d|] == d;
  }

  lemma {:induction false} DigitsLength(d: seq<nat>, width: nat)
    ensures |Digits(d, width)| == |d| * width
    decreases |d|
  {
    if d != [] {
      DigitsLength(d[..|d| - 1], width);
      assert |d| * width == (|d| - 1) * width + width;
    }
  }

  lemma {:induction false} BitsSplit(v: nat, m: nat, n: nat)
    ensures Bits(v, m + n) == Bits(BitStrings.ShiftRight(v, n), m) + Bits(v, n)
    decreases n
  {
    if n > 0 {
      BitsSplit(v / 2, m, n - 1);
    }
  }

  /** Only the low digits count. */
  lemma {:induction false} BitsLow(a: nat, b: nat, k: nat, n: nat)
    requires a == Pow2(n) * k + b
    ensures Bits(a, n) == Bits(b, n)
    decreases n
  {
    if n > 0 {
      var h := Pow2(n - 1) * k;
      assert a == 2 * h + b;
      assert a / 2 == h + b / 2 && a % 2 == b % 2;
      BitsLow(a / 2, b / 2, k, n - 1);
    }
  }

  lemma SmallPowers()
    ensures Pow2(2) == 4 && Pow2(4) == 16 && Pow2(6) == 64
  {
    assert Pow2(4) == 4 * Pow2(2);
    assert Pow2(6) == 4 * Pow2(4);
  }

  lemma Shifts(v: nat)
    ensures BitStrings.ShiftRight(v, 2) == v / 4 && BitStrings.ShiftRight(v, 4) == v / 16
    ensures BitStrings.ShiftRight(v, 6) == v / 64
  {
    assert BitStrings.ShiftRight(v, 2) == v / 2 / 2;
    assert BitStrings.ShiftRight(v / 4, 2) == v / 4 / 2 / 2;
    assert BitStrings.ShiftRight(v, 4) == BitStrings.ShiftRight(v / 2 / 2, 2);
    assert BitStrings.ShiftRight(v / 16, 2) == v / 16 / 2 / 2;
    assert BitStrings.ShiftRight(v, 6) == BitStrings.ShiftRight(v / 2 / 2, 4);
    assert BitStrings.ShiftRight(v / 4, 4) == BitStrings.ShiftRight(v / 4 / 2 / 2, 2);
  }

  /** The byte that one more letter completes has the digits that were outstanding and the first ones of the letter. */
  lemma ByteOfLetters(y: nat, x: nat)
    requires x < 64 && y < 64
    ensures Bits(y, 6) + Bits(x, 6) == Bits(y * 4 + x / 16, 8) + Bits(x, 4)
    ensures Bits(y, 4) + Bits(x, 6) == Bits(y % 16 * 16 + x / 4, 8) + Bits(x, 2)
    ensures Bits(y, 2) + Bits(x, 6) == Bits(y % 4 * 64 + x, 8)
  {
    hide Bits, BitStrings.ShiftRight, Pow2;
    SmallPowers();
    SixAndTwo(y, x);
    FourAndFour(y, x);
    TwoAndSix(y, x);
  }

  lemma SixAndTwo(y: nat, x: nat)
    requires x < 64
    ensures Bits(y, 6) + Bits(x, 6) == Bits(y * 4 + x / 16, 8) + Bits(x, 4)
  {
    hide Bits, BitStrings.ShiftRight, Pow2;
    SmallPowers();
    var b := y * 4 + x / 16;
    BitsSplit(b, 6, 2);
    Shifts(b);
    assert b / 4 == y;
    BitsLow(b, x / 16, y, 2);
    BitsSplit(x, 2, 4);
    Shifts(x);
  }

  lemma FourAndFour(y: nat, x: nat)
    requires x < 64
    ensures Bits(y, 4) + Bits(x, 6) == Bits(y % 16 * 16 + x / 4, 8) + Bits(x, 2)
  {
    hide Bits, BitStrings.ShiftRight, Pow2;
    SmallPowers();
    var b := y % 16 * 16 + x / 4;
    BitsSplit(b, 4, 4);
    Shifts(b);
    assert b / 16 == y % 16;
    BitsLow(y, y % 16, y / 16, 4);
    BitsLow(b, x / 4, y % 16, 4);
    BitsSplit(x, 4, 2);
    Shifts(x);
  }

  lemma TwoAndSix(y: nat, x: nat)
    requires x < 64
    ensures Bits(y, 2) + Bits(x, 6) == Bits(y % 4 * 64 + x, 8)
  {
    hide Bits, BitStrings.ShiftRight, Pow2;
    SmallPowers();
    var b := y % 4 * 64 + x;
    BitsSplit(b, 2, 6);
    Shifts(b);
    assert b / 64 == y % 4;
    BitsLow(y, y % 4, y / 4, 2);
    BitsLow(b, x, y % 4, 6);
  }

  // ---------- The state of the decoder ----------

  /** The last padding character is behind the last letter. */
  ghost predicate PadSince(text: seq<Byte>, i: nat)
    requires i <= |text|
  {
    exists j :: 0 <= j < i && text[j] == '=' as int && forall k :: j <= k < i ==> Sextet(text[k]) == -1
  }

  /** Padding that ends the text: it stands where the last character of a group is due, or it is a second one where two
      are due. */
  ghost predicate Stops(text: seq<Byte>, i: nat)
    requires i < |text|
  {
    && text[i] == '=' as int
    && (|Letters(text[..i])| % 4 == 3 || (|Letters(text[..i])| % 4 == 2 && PadSince(text, i)))
  }

  /** After `i` characters: the bytes written have the digits of the letters, but for the low `nbits` of the last one. */
  ghost predicate Follows(acc: Acc, text: seq<Byte>, i: nat)
    requires i <= |text|
  {
    var d := Letters(text[..i]);
    && Sane(acc) && acc.nbits == Outstanding(|d|)
    && Digits(acc.out, 8) + Bits(acc.shift % 64, acc.nbits) == Digits(d, 6)
    && (acc.hadpad <==> PadSince(text, i))
  }

  lemma LettersStep(text: seq<Byte>, i: nat)
    requires i < |text|
    ensures Letters(text[..i + 1]) == Letters(text[..i]) + if Sextet(text[i]) == -1 then [] else [Sextet(text[i])]
  {
    assert text[..i + 1][..i] == text[..i];
  }

  lemma PadStep(text: seq<Byte>, i: nat)
    requires i < |text|
    ensures PadSince(text, i + 1) <==> Sextet(text[i]) == -1 && (text[i] == '=' as int || PadSince(text, i))
  {
    hide Sextet;
    if PadSince(text, i + 1) {
      var j :| 0 <= j < i + 1 && text[j] == '=' as int && forall k :: j <= k < i + 1 ==> Sextet(text[k]) == -1;
      assert Sextet(text[i]) == -1;
      assert j < i ==> PadSince(text, i);
    }
    if PadSince(text, i) && Sextet(text[i]) == -1 {
      var j :| 0 <= j < i && text[j] == '=' as int && forall k :: j <= k < i ==> Sextet(text[k]) == -1;
      assert forall k :: j <= k < i + 1 ==> Sextet(text[k]) == -1;
    }
    if text[i] == '=' as int && Sextet(text[i]) == -1 {
      assert forall k :: i <= k < i + 1 ==> Sextet(text[k]) == -1;
    }
  }

  lemma StopsIsEnds(acc: Acc, text: seq<Byte>, i: nat)
    requires i < |text| && Follows(acc, text, i)
    ensures Ends(acc, text[i]) <==> Stops(text, i)
  {
    hide Digits, Letters, Bits;
  }

  /** How many digits of `n` letters do not make a byte yet. */
  function Outstanding(n: nat): nat { if n % 4 == 0 then 0 else 8 - 2 * (n % 4) }

  /** Another letter: six more digits, and a byte once there are eight. */
  lemma AbsorbFollows(acc: Acc, d: seq<nat>, x: nat)
    requires Sane(acc) && x < 64 && acc.nbits == Outstanding(|d|)
    requires Digits(acc.out, 8) + Bits(acc.shift % 64, acc.nbits) == Digits(d, 6)
    ensures var r := Absorb(acc, x);
            && r.nbits == Outstanding(|d| + 1) && !r.hadpad
            && Digits(r.out, 8) + Bits(r.shift % 64, r.nbits) == Digits(d + [x], 6)
  {
    hide Absorb, Digits, Bits, Outstanding;
    var y := acc.shift % 64;
    var r := Absorb(acc, x);
    AbsorbMeaning(acc, y, x);
    OutstandingNext(|d|);
    DigitsSnoc(d, x, 6);
    ByteOfLetters(y, x);
    if acc.nbits == 0 {
      NoBits(y);
      assert Digits(acc.out, 8) + [] == Digits(acc.out, 8);
    } else if acc.nbits == 6 {
      ByteCompletes(acc.out, y * 4 + x / 16, Bits(y, 6), Bits(x, 6), Bits(x, 4));
    } else if acc.nbits == 4 {
      ByteCompletes(acc.out, y % 16 * 16 + x / 4, Bits(y, 4), Bits(x, 6), Bits(x, 2));
    } else {
      NoBits(x);
      assert Bits(y % 4 * 64 + x, 8) + [] == Bits(y % 4 * 64 + x, 8);
      ByteCompletes(acc.out, y % 4 * 64 + x, Bits(y, 2), Bits(x, 6), []);
    }
  }

  lemma OutstandingNext(n: nat)
    ensures Outstanding(n + 1) ==
            if Outstanding(n) == 0 then 6 else Outstanding(n) - 2
  {
  }

  lemma ByteCompletes(out: seq<Byte>, b: Byte, had: seq<bool>, more: seq<bool>, left: seq<bool>)
    requires had + more == Bits(b, 8) + left
    ensures Digits(out, 8) + had + more == Digits(out + [b], 8) + left
  {
    hide Digits, Bits;
    DigitsSnoc(out, b, 8);
    assert Digits(out, 8) + had + more == Digits(out, 8) + (had + more);
    assert Digits(out, 8) + Bits(b, 8) + left == Digits(out, 8) + (Bits(b, 8) + left);
  }

  lemma NoBits(v: nat)
    ensures Bits(v, 0) == []
  {
  }

  lemma FeedFollows(acc: Acc, text: seq<Byte>, i: nat)
    requires i < |text| && Follows(acc, text, i)
    ensures Follows(Feed(acc, text[i]), text, i + 1)
  {
    hide Digits, Letters, Bits, Absorb, PadSince;
    LettersStep(text, i);
    PadStep(text, i);
    var d := Letters(text[..i]);
    if Sextet(text[i]) != -1 {
      var seen := if text[i] == PAD then acc.(hadpad := true) else acc;
      AbsorbFollows(seen, d, Sextet(text[i]));
    } else {
      assert d + [] == d;
    }
  }

  lemma StartFollows(text: seq<Byte>)
    ensures Follows(Acc(0, 0, false, []), text, 0)
  {
    assert text[..0] == [];
    NoBits(0);
    assert Digits([], 8) + [] == Digits([], 6);
  }

  /** The result for a text that stops at `n`, or does not stop before its end `n`. */
  ghost predicate DecodesTo(text: seq<Byte>, n: nat, r: Decoded)
    requires n <= |text|
  {
    var d := Letters(text[..n]);
    if n < |text| || |d| % 4 == 0 then
      r.Ok? && |r.data| == 6 * |d| / 8 && Digits(r.data, 8) <= Digits(d, 6)
    else r == IncorrectPadding
  }

  lemma FollowsLength(acc: Acc, text: seq<Byte>, n: nat)
    requires n <= |text| && Follows(acc, text, n)
    ensures var d := Letters(text[..n]);
            |acc.out| == 6 * |d| / 8 && Digits(acc.out, 8) <= Digits(d, 6)
  {
    hide Digits, Letters, Bits, PadSince;
    var d := Letters(text[..n]);
    DigitsLength(acc.out, 8);
    DigitsLength(d, 6);
    assert 8 * |acc.out| + acc.nbits == 6 * |d|;
  }

  lemma {:induction false} DecodesFrom(acc: Acc, text: seq<Byte>, i: nat, n: nat)
    requires i <= n <= |text| && Follows(acc, text, i)
    requires (forall k :: i <= k < n ==> !Stops(text, k)) && (n < |text| ==> Stops(text, n))
    ensures DecodesTo(text, n, DecodeFrom(acc, text[i..]))
    decreases n - i
  {
    hide Digits, Letters, Bits, Feed, Ends, Stops, Follows, DecodeFrom;
    FollowsBits(acc, text, i);
    if i < |text| {
      DecodeAt(acc, text, i);
      StopsIsEnds(acc, text, i);
    } else {
      assert text[i..] == [];
      DecodeEnd(acc);
    }
    if i < n {
      FeedFollows(acc, text, i);
      DecodesFrom(Feed(acc, text[i]), text, i + 1, n);
    } else {
      FollowsLength(acc, text, n);
    }
  }

  lemma FollowsBits(acc: Acc, text: seq<Byte>, n: nat)
    requires n <= |text| && Follows(acc, text, n)
    ensures Sane(acc) && (acc.nbits == 0 <==> |Letters(text[..n])| % 4 == 0)
  {
    hide Digits, Letters, Bits, PadSince;
  }

  /** Any text is decoded up to the padding that ends it, or else to its end. Up to there it stands for the binary digits
      of its letters, six each, cut into bytes; everything else in it is skipped. It is an error if there is no such
      padding and a group of four letters is not complete, and nothing else is. */
  lemma DecodedExactly(text: seq<Byte>, n: nat)
    requires n <= |text|
    requires (forall k :: 0 <= k < n ==> !Stops(text, k)) && (n < |text| ==> Stops(text, n))
    ensures DecodesTo(text, n, Decode(text))
  {
    hide DecodesTo, Stops, DecodeFrom;
    StartFollows(text);
    DecodesFrom(Acc(0, 0, false, []), text, 0, n);
    assert text[0..] == text;
  }
}
