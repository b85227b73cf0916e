/** The 1-Wire CRC-8 of `onewire_crc8`, and the error-detecting properties that
    Maxim Application Note 27 promises for it. */
module OneWire {

  /** A `uint8_t`, bit by bit; `b0` is the least significant bit. */
  datatype Octet = Octet(b0: bool, b1: bool, b2: bool, b3: bool, b4: bool, b5: bool, b6: bool, b7: bool)
  {
    function Xor(o: Octet): Octet {
      Octet(b0 != o.b0, b1 != o.b1, b2 != o.b2, b3 != o.b3, b4 != o.b4, b5 != o.b5, b6 != o.b6, b7 != o.b7)
    }

    function Or(o: Octet): Octet {
      Octet(b0 || o.b0, b1 || o.b1, b2 || o.b2, b3 || o.b3, b4 || o.b4, b5 || o.b5, b6 || o.b6, b7 || o.b7)
    }

    function And(o: Octet): Octet {
      Octet(b0 && o.b0, b1 && o.b1, b2 && o.b2, b3 && o.b3, b4 && o.b4, b5 && o.b5, b6 && o.b6, b7 && o.b7)
    }

    function ShiftRight(): Octet {
      Octet(b1, b2, b3, b4, b5, b6, b7, false)
    }
  }

  const ZERO := Octet(false, false, false, false, false, false, false, false)
  const X01 := Octet(true, false, false, false, false, false, false, false)
  const X18 := Octet(false, false, false, true, true, false, false, false)
  const X7F := Octet(true, true, true, true, true, true, true, false)
  const X80 := Octet(false, false, false, false, false, false, false, true)

  // ---------- What the checksum means ----------

  /** Division by x^8 + x^5 + x^4 + 1, one transmitted bit at a time: the feedback bit
      enters at the top and at the taps below bits 2 and 3. */
  function StepBit(c: Octet, bit: bool): Octet {
    var f := c.b0 != bit;
    Octet(c.b1, c.b2, c.b3 != f, c.b4 != f, c.b5, c.b6, c.b7, f)
  }

  /** The register after absorbing a string of transmitted bits, first bit first. */
  function CrcBits(c: Octet, bits: seq<bool>): Octet
    decreases |bits|
  {
    if bits == [] then c else CrcBits(StepBit(c, bits[0]), bits[1..])
  }

  /** The `n` low bits of a byte, least significant first. */
  function LowBits(o: Octet, n: nat): (bits: seq<bool>)
    ensures |bits| == n
    decreases n
  {
    if n == 0 then [] else [o.b0] + LowBits(o.ShiftRight(), n - 1)
  }

  /** The order in which a byte travels on the wire: least significant bit first. */
  function BitsOfOctet(o: Octet): (bits: seq<bool>)
    ensures |bits| == 8
  {
    LowBits(o, 8)
  }

  function BitsOf(data: seq<Octet>): (bits: seq<bool>)
    ensures |bits| == 8 * |data|
  {
    if data == [] then [] else BitsOfOctet(data[0]) + BitsOf(data[1..])
  }

  function Checksum(data: seq<Octet>): Octet {
    CrcBits(ZERO, BitsOf(data))
  }

  function XorBits(a: seq<bool>, b: seq<bool>): (c: seq<bool>)
    requires |a| == |b|
    ensures |c| == |a| && forall i :: 0 <= i < |c| ==> c[i] == (a[i] != b[i])
  {
    seq(|a|, i requires 0 <= i < |a| => a[i] != b[i])
  }

  function XorOctets(a: seq<Octet>, b: seq<Octet>): (c: seq<Octet>)
    requires |a| == |b|
    ensures |c| == |a| && forall i :: 0 <= i < |c| ==> c[i] == a[i].Xor(b[i])
  {
    seq(|a|, i requires 0 <= i < |a| => a[i].Xor(b[i]))
  }

  // ---------- Division of polynomials ----------

  /** The powers of x in the polynomial x^8 + x^5 + x^4 + 1 over GF(2). */
  predicate IsPower(n: int) { n == 8 || n == 5 || n == 4 || n == 0 }

  /** Add `f` times the polynomial; coefficients are written highest power first. */
  function AddPolynomial(s: seq<bool>, f: bool): (r: seq<bool>)
    requires |s| >= 9
    ensures |r| == |s|
  {
    seq(|s|, i requires 0 <= i < |s| => s[i] != (f && IsPower(|s| - 1 - i)))
  }

  /** `q` times the polynomial. */
  function Times(q: seq<bool>): (r: seq<bool>)
    ensures |r| == |q| + 8
    decreases |q|
  {
    if q == [] then seq(8, _ => false) else AddPolynomial(Times(q[..|q| - 1]) + [false], q[|q| - 1])
  }

  /** A register as coefficients of x^7 down to x^0. */
  function Coefficients(o: Octet): (s: seq<bool>)
    ensures |s| == 8
  {
    [o.b0, o.b1, o.b2, o.b3, o.b4, o.b5, o.b6, o.b7]
  }

  lemma BitsAreCoefficients(o: Octet)
    ensures BitsOfOctet(o) == Coefficients(o)
  {
    hide LowBits;
    var o1 := o.ShiftRight();
    var o2 := o1.ShiftRight();
    var o3 := o2.ShiftRight();
    var o4 := o3.ShiftRight();
    LowBitsFour(o, o1, o2, o3, o4, 4);
    var o5 := o4.ShiftRight();
    var o6 := o5.ShiftRight();
    var o7 := o6.ShiftRight();
    LowBitsFour(o4, o5, o6, o7, o7.ShiftRight(), 0);
    NoLowBits(o7.ShiftRight());
    assert o4.b0 == o.b4 && o5.b0 == o.b5 && o6.b0 == o.b6 && o7.b0 == o.b7;
  }

  lemma NoLowBits(o: Octet)
    ensures LowBits(o, 0) == []
  {
  }

  lemma LowBitsCons(o: Octet, n: nat)
    ensures LowBits(o, n + 1) == [o.b0] + LowBits(o.ShiftRight(), n)
  {
  }

  lemma LowBitsFour(o: Octet, o1: Octet, o2: Octet, o3: Octet, o4: Octet, n: nat)
    requires o1 == o.ShiftRight() && o2 == o1.ShiftRight() && o3 == o2.ShiftRight() && o4 == o3.ShiftRight()
    ensures LowBits(o, n + 4) == [o.b0, o.b1, o.b2, o.b3] + LowBits(o4, n)
  {
    hide LowBits;
    LowBitsCons(o, n + 3);
    LowBitsCons(o1, n + 2);
    LowBitsCons(o2, n + 1);
    LowBitsCons(o3, n);
  }

  lemma CrcSnoc(bits: seq<bool>, bit: bool)
    ensures CrcBits(ZERO, bits + [bit]) == StepBit(CrcBits(ZERO, bits), bit)
  {
    CrcBitsConcat(ZERO, bits, [bit]);
    assert [bit][1..] == [];
  }

  /** One more coefficient of the quotient moves the register one step. */
  lemma DivisionStep(bits: seq<bool>, c: Octet, f: bool)
    ensures AddPolynomial(bits + Coefficients(c) + [false], f) ==
            bits + [c.b0 != f] + Coefficients(StepBit(c, c.b0 != f))
  {
    hide Coefficients, StepBit;
    var low, next := Coefficients(c) + [false], [c.b0 != f] + Coefficients(StepBit(c, c.b0 != f));
    var s := bits + low;
    assert bits + Coefficients(c) + [false] == s;
    forall i | 0 <= i < |s| ensures AddPolynomial(s, f)[i] == (bits + next)[i] {
      assert AddPolynomial(s, f)[i] == (s[i] != (f && IsPower(|s| - 1 - i)));
      if i >= |bits| {
        var j := i - |bits|;
        LowNine(c, f, j);
        assert s[i] == low[j] && (bits + next)[i] == next[j] && |s| - 1 - i == 8 - j;
      } else {
        assert s[i] == bits[i] && !IsPower(|s| - 1 - i);
      }
    }
    assert AddPolynomial(s, f) == bits + next;
  }

  lemma LowNine(c: Octet, f: bool, j: nat)
    requires j < 9
    ensures ([c.b0 != f] + Coefficients(StepBit(c, c.b0 != f)))[j] == ((Coefficients(c) + [false])[j] != (f && IsPower(8 - j)))
  {
    var d := StepBit(c, c.b0 != f);
    if j > 0 {
      CoefficientAt(d, j - 1);
    }
    if j < 8 {
      CoefficientAt(c, j);
    }
    hide Coefficients;
  }

  lemma CoefficientAt(o: Octet, j: nat)
    requires j < 8
    ensures Coefficients(o)[j] ==
            if j == 0 then o.b0 else if j == 1 then o.b1 else if j == 2 then o.b2 else if j == 3 then o.b3
            else if j == 4 then o.b4 else if j == 5 then o.b5 else if j == 6 then o.b6 else o.b7
  {
  }

  /** Every multiple of the polynomial is a string of bits followed by what the register holds after them. */
  lemma {:induction false} MultipleIs(q: seq<bool>)
    ensures Times(q) == Times(q)[..|q|] + Coefficients(CrcBits(ZERO, Times(q)[..|q|]))
    decreases |q|
  {
    hide AddPolynomial, Coefficients, StepBit;
    if q == [] {
      assert Coefficients(ZERO) == seq(8, _ => false) by {
        ZeroCoefficients();
      }
      assert Times(q)[..0] == [];
    } else {
      var n := |q| - 1;
      var prior, f := Times(q[..n]), q[n];
      MultipleIs(q[..n]);
      var bits := prior[..n];
      var c := CrcBits(ZERO, bits);
      DivisionStep(bits, c, f);
      CrcSnoc(bits, c.b0 != f);
      assert Times(q)[..|q|] == bits + [c.b0 != f];
    }
  }

  lemma ZeroCoefficients()
    ensures Coefficients(ZERO) == seq(8, _ => false)
  {
  }

  /** Every string of bits followed by what the register holds after them is a multiple of the polynomial. */
  lemma {:induction false} IsMultiple(bits: seq<bool>) returns (q: seq<bool>)
    ensures |q| == |bits| && bits + Coefficients(CrcBits(ZERO, bits)) == Times(q)
    decreases |bits|
  {
    hide AddPolynomial, Coefficients, StepBit;
    if bits == [] {
      q := [];
      ZeroCoefficients();
    } else {
      var n := |bits| - 1;
      var pre, bit := bits[..n], bits[n];
      var more := IsMultiple(pre);
      var c := CrcBits(ZERO, pre);
      q := more + [c.b0 != bit];
      assert q[..n] == more;
      assert bits == pre + [bit];
      DivisionStep(pre, c, c.b0 != bit);
      CrcSnoc(pre, bit);
    }
  }

  /** The checksum is the remainder of a division by x^8 + x^5 + x^4 + 1: a byte behind a message makes it, in the order
      of transmission, a multiple of the polynomial if and only if it is the checksum. */
  lemma ChecksumIsRemainder(message: seq<Octet>, check: Octet)
    ensures (exists q: seq<bool> :: Times(q) == BitsOf(message + [check])) <==> check == Checksum(message)
  {
    hide CrcBits, Times, BitsOfOctet;
    var bits := BitsOf(message);
    CodewordIs(message, check);
    if q: seq<bool> :| Times(q) == bits + Coefficients(check) {
      MultipleIs(q);
      assert Times(q)[..|q|] == bits;
      assert Times(q)[|q|..] == Coefficients(check);
      assert Coefficients(check) == Coefficients(CrcBits(ZERO, bits));
      SameCoefficients(check, CrcBits(ZERO, bits));
    }
    if check == Checksum(message) {
      var q := IsMultiple(bits);
      assert Times(q) == bits + Coefficients(check);
    }
  }

  lemma CodewordIs(message: seq<Octet>, check: Octet)
    ensures BitsOf(message + [check]) == BitsOf(message) + Coefficients(check)
  {
    hide BitsOfOctet, Coefficients;
    BitsOfConcat(message, [check]);
    BitsAreCoefficients(check);
    assert [check][1..] == [];
    assert BitsOf([check]) == BitsOfOctet(check) + BitsOf([]);
    assert BitsOfOctet(check) + [] == BitsOfOctet(check);
  }

  lemma SameCoefficients(a: Octet, b: Octet)
    requires Coefficients(a) == Coefficients(b)
    ensures a == b
  {
    assert Coefficients(a)[0] == a.b0 && Coefficients(a)[1] == a.b1 && Coefficients(a)[2] == a.b2 && Coefficients(a)[3] == a.b3;
    assert Coefficients(a)[4] == a.b4 && Coefficients(a)[5] == a.b5 && Coefficients(a)[6] == a.b6 && Coefficients(a)[7] == a.b7;
  }

  // ---------- The routine ----------

  lemma {:induction false} CrcBitsConcat(c: Octet, a: seq<bool>, b: seq<bool>)
    ensures CrcBits(c, a + b) == CrcBits(CrcBits(c, a), b)
    decreases |a|
  {
    if a == [] {
      assert a + b == b;
    } else {
      assert (a + b)[1..] == a[1..] + b;
      CrcBitsConcat(StepBit(c, a[0]), a[1..], b);
    }
  }

  lemma {:induction false} BitsOfConcat(a: seq<Octet>, b: seq<Octet>)
    ensures BitsOf(a + b) == BitsOf(a) + BitsOf(b)
    decreases |a|
  {
    if a == [] {
      assert a + b == b;
    } else {
      assert (a + b)[1..] == a[1..] + b;
      BitsOfConcat(a[1..], b);
    }
  }

  lemma CrcCons(c: Octet, bit: bool, rest: seq<bool>)
    ensures CrcBits(c, [bit] + rest) == CrcBits(StepBit(c, bit), rest)
  {
    assert ([bit] + rest)[1..] == rest;
  }

  lemma ChecksumSnoc(data: seq<Octet>, last: Octet)
    ensures Checksum(data + [last]) == CrcBits(Checksum(data), BitsOfOctet(last))
  {
    BitsOfConcat(data, [last]);
    assert BitsOf([last]) == BitsOfOctet(last) by {
      assert [last][1..] == [];
      assert BitsOfOctet(last) + [] == BitsOfOctet(last);
    }
    CrcBitsConcat(ZERO, BitsOf(data), BitsOfOctet(last));
  }

  /** The masks and shifts of one inner iteration are one step of the polynomial division. */
  lemma StepIsStepBit(crc: Octet, byte: Octet)
    ensures crc.Xor(byte).And(X01) == X01 ==> crc.Xor(X18).ShiftRight().And(X7F).Or(X80) == StepBit(crc, byte.b0)
    ensures crc.Xor(byte).And(X01) != X01 ==> crc.ShiftRight().And(X7F) == StepBit(crc, byte.b0)
  {
  }

  /** The inner loop of `onewire_crc8`: absorb one byte, least significant bit first. */
  method AbsorbByte(start: Octet, data: Octet) returns (crc: Octet)
    ensures crc == CrcBits(start, BitsOfOctet(data))
  {
    crc := start;
    var byte := data;
    for b := 0 to 8
      invariant CrcBits(start, BitsOfOctet(data)) == CrcBits(crc, LowBits(byte, 8 - b))
    {
      CrcCons(crc, byte.b0, LowBits(byte.ShiftRight(), 7 - b));
      StepIsStepBit(crc, byte);
      var feedback := crc.Xor(byte).And(X01);
      if feedback == X01 {
        crc := crc.Xor(X18);
      }
      crc := crc.ShiftRight().And(X7F);
      if feedback == X01 {
        crc := crc.Or(X80);
      }
      byte := byte.ShiftRight();
    }
  }

  lemma ChecksumNone()
    ensures Checksum([]) == ZERO
  {
  }

  /** `onewire_crc8`: the bytes in order. */
  method Crc8(data: seq<Octet>) returns (crc: Octet)
    ensures crc == Checksum(data)
  {
    hide CrcBits, BitsOfOctet;
    crc := ZERO;
    ChecksumNone();
    for i := 0 to |data|
      invariant crc == Checksum(data[..i])
    {
      crc := AbsorbByte(crc, data[i]);
      ChecksumSnoc(data[..i], data[i]);
      assert data[..i + 1] == data[..i] + [data[i]];
    }
    assert data[..|data|] == data;
  }

  // ---------- Linearity ----------

  lemma StepLinear(c: Octet, d: Octet, x: bool, y: bool)
    ensures StepBit(c.Xor(d), x != y) == StepBit(c, x).Xor(StepBit(d, y))
  {
  }

  lemma {:induction false} CrcBitsLinear(c: Octet, d: Octet, a: seq<bool>, b: seq<bool>)
    requires |a| == |b|
    ensures CrcBits(c.Xor(d), XorBits(a, b)) == CrcBits(c, a).Xor(CrcBits(d, b))
    decreases |a|
  {
    if a == [] {
    } else {
      assert XorBits(a, b)[1..] == XorBits(a[1..], b[1..]);
      StepLinear(c, d, a[0], b[0]);
      CrcBitsLinear(StepBit(c, a[0]), StepBit(d, b[0]), a[1..], b[1..]);
    }
  }

  lemma XorOfShifted(a: Octet, b: Octet)
    ensures a.Xor(b).ShiftRight() == a.ShiftRight().Xor(b.ShiftRight())
    ensures a.Xor(b).b0 == (a.b0 != b.b0)
  {
  }

  lemma {:induction false} XorOfLowBits(a: Octet, b: Octet, n: nat)
    ensures LowBits(a.Xor(b), n) == XorBits(LowBits(a, n), LowBits(b, n))
    decreases n
  {
    if n == 0 {
    } else {
      XorOfShifted(a, b);
      XorOfLowBits(a.ShiftRight(), b.ShiftRight(), n - 1);
      XorOfCons(a.b0, LowBits(a.ShiftRight(), n - 1), b.b0, LowBits(b.ShiftRight(), n - 1));
    }
  }

  lemma XorOfCons(x: bool, a: seq<bool>, y: bool, b: seq<bool>)
    requires |a| == |b|
    ensures XorBits([x] + a, [y] + b) == [x != y] + XorBits(a, b)
  {
  }

  lemma XorOfConcat(a: seq<bool>, b: seq<bool>, c: seq<bool>, d: seq<bool>)
    requires |a| == |c| && |b| == |d|
    ensures XorBits(a + b, c + d) == XorBits(a, c) + XorBits(b, d)
  {
  }

  lemma {:induction false} XorOfBits(a: seq<Octet>, b: seq<Octet>)
    requires |a| == |b|
    ensures BitsOf(XorOctets(a, b)) == XorBits(BitsOf(a), BitsOf(b))
    decreases |a|
  {
    if a == [] {
    } else {
      assert XorOctets(a, b)[1..] == XorOctets(a[1..], b[1..]);
      XorOfBits(a[1..], b[1..]);
      XorOfLowBits(a[0], b[0], 8);
      XorOfConcat(BitsOfOctet(a[0]), BitsOf(a[1..]), BitsOfOctet(b[0]), BitsOf(b[1..]));
    }
  }

  /** The checksum of the bytewise XOR of two messages is the XOR of their checksums. */
  lemma ChecksumLinear(a: seq<Octet>, b: seq<Octet>)
    requires |a| == |b|
    ensures Checksum(XorOctets(a, b)) == Checksum(a).Xor(Checksum(b))
  {
    XorOfBits(a, b);
    CrcBitsLinear(ZERO, ZERO, BitsOf(a), BitsOf(b));
  }

  // ---------- A message followed by its checksum ----------

  function ShiftIn(low: bool, o: Octet): Octet {
    Octet(low, o.b0, o.b1, o.b2, o.b3, o.b4, o.b5, o.b6)
  }

  /** The byte whose low bits are `bits`, padded with zeros. */
  function Pad(bits: seq<bool>): Octet
    decreases |bits|
  {
    if bits == [] then ZERO else ShiftIn(bits[0], Pad(bits[1..]))
  }

  /** Bits `n` and above are zero. */
  predicate Fits(o: Octet, n: nat) {
    && (n <= 0 ==> !o.b0) && (n <= 1 ==> !o.b1) && (n <= 2 ==> !o.b2) && (n <= 3 ==> !o.b3)
    && (n <= 4 ==> !o.b4) && (n <= 5 ==> !o.b5) && (n <= 6 ==> !o.b6) && (n <= 7 ==> !o.b7)
  }

  lemma {:induction false} PadFits(bits: seq<bool>)
    requires |bits| <= 8
    ensures Fits(Pad(bits), |bits|)
    decreases |bits|
  {
    if bits == [] {
    } else {
      PadFits(bits[1..]);
    }
  }

  lemma UnshiftFits(o: Octet, n: nat)
    requires 0 < n && Fits(o, n)
    ensures Fits(o.ShiftRight(), n - 1)
    ensures ShiftIn(o.b0, o.ShiftRight()) == o
  {
  }

  lemma {:induction false} PadOfLowBits(o: Octet, n: nat)
    requires Fits(o, n)
    ensures Pad(LowBits(o, n)) == o
    decreases n
  {
    if n == 0 {
    } else {
      UnshiftFits(o, n);
      PadOfLowBits(o.ShiftRight(), n - 1);
      assert LowBits(o, n)[1..] == LowBits(o.ShiftRight(), n - 1);
    }
  }

  lemma StepToPad(c: Octet, bit: bool, p: Octet)
    requires !p.b7
    ensures StepBit(c, bit) == p <==> c == ShiftIn(bit, p)
  {
  }

  /** At most eight bits leave the register at zero exactly when they spell its old value. */
  lemma {:induction false} BitsToZero(c: Octet, bits: seq<bool>)
    requires |bits| <= 8
    ensures CrcBits(c, bits) == ZERO <==> c == Pad(bits)
    decreases |bits|
  {
    if bits == [] {
    } else {
      BitsToZero(StepBit(c, bits[0]), bits[1..]);
      PadFits(bits[1..]);
      StepToPad(c, bits[0], Pad(bits[1..]));
    }
  }

  /** A message followed by its own checksum byte checks to zero, and with any other byte it does not. */
  lemma ChecksumAppended(message: seq<Octet>, check: Octet)
    ensures Checksum(message + [check]) == ZERO <==> check == Checksum(message)
  {
    ChecksumSnoc(message, check);
    BitsToZero(Checksum(message), BitsOfOctet(check));
    PadOfLowBits(check, 8);
  }

  // ---------- Burst errors ----------

  ghost predicate Clear(bits: seq<bool>) {
    forall i :: 0 <= i < |bits| ==> !bits[i]
  }

  /** Zero bits never bring a register to zero, nor away from it. */
  lemma {:induction false} ClearBits(c: Octet, bits: seq<bool>)
    requires Clear(bits)
    ensures CrcBits(c, bits) == ZERO <==> c == ZERO
    decreases |bits|
  {
    if bits == [] {
    } else {
      assert StepBit(c, false) == ZERO <==> c == ZERO;
      ClearBits(StepBit(c, false), bits[1..]);
    }
  }

  lemma {:induction false} ClearPad(bits: seq<bool>)
    requires Pad(bits) == ZERO && |bits| <= 8
    ensures Clear(bits)
    decreases |bits|
  {
    if bits == [] {
    } else {
      PadFits(bits[1..]);
      ClearPad(bits[1..]);
    }
  }

  /** An error pattern inside a window of eight bits leaves a zero checksum only if it is no error. */
  lemma BurstIsClear(pre: seq<bool>, window: seq<bool>, post: seq<bool>)
    requires Clear(pre) && Clear(post) && |window| == 8
    requires CrcBits(ZERO, pre + (window + post)) == ZERO
    ensures Clear(window)
  {
    CrcBitsConcat(ZERO, pre, window + post);
    ClearBits(ZERO, pre);
    CrcBitsConcat(ZERO, window, post);
    ClearBits(CrcBits(ZERO, window), post);
    BitsToZero(ZERO, window);
    ClearPad(window);
  }

  lemma OctetOfBits(o: Octet)
    ensures Pad(BitsOfOctet(o)) == o
  {
    hide LowBits, Pad;
    PadOfLowBits(o, 8);
  }

  lemma {:induction false} BitsInjective(a: seq<Octet>, b: seq<Octet>)
    requires |a| == |b| && BitsOf(a) == BitsOf(b)
    ensures a == b
    decreases |a|
  {
    hide BitsOfOctet;
    if a == [] {
    } else {
      var x, y := BitsOf(a), BitsOf(b);
      assert x[..8] == BitsOfOctet(a[0]) && y[..8] == BitsOfOctet(b[0]);
      assert x[8..] == BitsOf(a[1..]) && y[8..] == BitsOf(b[1..]);
      BitsInjective(a[1..], b[1..]);
      OctetOfBits(a[0]);
      OctetOfBits(b[0]);
      assert a == [a[0]] + a[1..] && b == [b[0]] + b[1..];
    }
  }

  lemma XorSame(a: seq<bool>, b: seq<bool>)
    requires |a| == |b|
    ensures Clear(XorBits(a, b)) <==> a == b
  {
    if Clear(XorBits(a, b)) {
      forall i | 0 <= i < |a| ensures a[i] == b[i] {
        assert !XorBits(a, b)[i];
      }
    }
  }

  lemma BurstInBits(pre: seq<bool>, x: seq<bool>, y: seq<bool>, post: seq<bool>)
    requires |x| == |y| == 8
    requires CrcBits(ZERO, pre + (x + post)) == CrcBits(ZERO, pre + (y + post))
    ensures x == y
  {
    var a, b := pre + (x + post), pre + (y + post);
    CrcBitsLinear(ZERO, ZERO, a, b);
    XorOfConcat(pre, x + post, pre, y + post);
    XorOfConcat(x, post, y, post);
    XorSame(pre, pre);
    XorSame(post, post);
    BurstIsClear(XorBits(pre, pre), XorBits(x, y), XorBits(post, post));
    XorSame(x, y);
  }

  lemma Window(x: seq<bool>, at: nat)
    requires at + 8 <= |x|
    ensures x == x[..at] + (x[at..at + 8] + x[at + 8..])
  {
  }

  /** Two messages that differ, but only inside a window of eight consecutive transmitted
      bits (anywhere, also across byte boundaries), never have the same checksum. */
  lemma BurstDetected(a: seq<Octet>, b: seq<Octet>, at: nat)
    requires |a| == |b| && a != b && at + 8 <= 8 * |a|
    requires BitsOf(a)[..at] == BitsOf(b)[..at]
    requires BitsOf(a)[at + 8..] == BitsOf(b)[at + 8..]
    ensures Checksum(a) != Checksum(b)
  {
    var x, y := BitsOf(a), BitsOf(b);
    Window(x, at);
    Window(y, at);
    if Checksum(a) == Checksum(b) {
      BurstInBits(x[..at], x[at..at + 8], y[at..at + 8], x[at + 8..]);
      BitsInjective(a, b);
      assert false;
    }
  }
}
