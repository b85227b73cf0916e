/** Exactly which texts `py/parsenum.c` takes for decimal numbers, and the value of an integer. */
module NumberSyntax {
  import opened Bytes
  import opened ParseNumber

  /** Digits, with underscores anywhere. */
  predicate IsRun(s: seq<Byte>) { forall i :: 0 <= i < |s| ==> 0x30 <= s[i] <= 0x39 || s[i] == 0x5F }

  predicate AllSpaces(s: seq<Byte>) { forall i :: 0 <= i < |s| ==> 9 <= s[i] <= 13 || s[i] == 32 }

  predicate IsSign(s: seq<Byte>) { s == [] || s == [0x2B] || s == [0x2D] }

  lemma {:induction false} SkipsAll(s: seq<Byte>)
    ensures SkipSpace(s) == [] <==> AllSpaces(s)
  {
    if s == [] {
    } else {
      SkipsAll(s[1..]);
      assert s == [s[0]] + s[1..];
    }
  }

  /** White space at the front is skipped, and nothing else. */
  lemma {:induction false} SkipsFront(lead: seq<Byte>, s: seq<Byte>)
    requires AllSpaces(lead) && (s == [] || !AllSpaces(s[..1]))
    ensures SkipSpace(lead + s) == s
  {
    if lead == [] {
      assert lead + s == s;
      assert s != [] ==> s[..1] == [s[0]];
    } else {
      assert (lead + s)[1..] == lead[1..] + s;
      SkipsFront(lead[1..], s);
    }
  }

  // ---------- Integers ----------

  /** The value of a run, digit by digit from the right. */
  function RunValue(s: seq<Byte>): nat
    requires IsRun(s)
  {
    if s == [] then 0
    else
      var d := s[|s| - 1];
      if d == 0x5F then RunValue(s[..|s| - 1]) else 10 * RunValue(s[..|s| - 1]) + (d - 0x30)
  }

  lemma {:induction false} DigitsAre(done: seq<Byte>, s: seq<Byte>, rest: seq<Byte>)
    requires IsRun(done) && IsRun(s) && (rest == [] || !IsRun(rest[..1]))
    ensures Digits(s + rest, RunValue(done)) == Scanned(RunValue(done + s), rest)
    decreases |s|
  {
    hide Digits;
    if s == [] {
      assert s + rest == rest && done + s == done;
      assert rest != [] ==> rest[..1] == [rest[0]];
      DigitsEnd(rest, RunValue(done));
    } else {
      var more := done + [s[0]];
      assert (s + rest)[1..] == s[1..] + rest && done + s == more + s[1..];
      assert more[..|done|] == done;
      DigitsStep(s + rest, RunValue(done));
      DigitsAre(more, s[1..], rest);
    }
  }

  /** The longest run at the front. */
  lemma {:induction false} SplitRun(s: seq<Byte>) returns (run: seq<Byte>, rest: seq<Byte>)
    ensures s == run + rest && IsRun(run) && (rest == [] || !IsRun(rest[..1]))
  {
    if s == [] || !IsRun(s[..1]) {
      run, rest := [], s;
    } else {
      run, rest := SplitRun(s[1..]);
      assert s[..1] == [s[0]];
      run := [s[0]] + run;
    }
  }

  ghost predicate IsInteger(token: seq<Byte>, v: int) {
    exists lead: seq<Byte>, sign: seq<Byte>, run: seq<Byte>, trail: seq<Byte> ::
      IntegerParts(token, v, lead, sign, run, trail)
  }

  /** White space, a sign, digits, white space; the digits may not be missing. */
  predicate IntegerParts(token: seq<Byte>, v: int, lead: seq<Byte>, sign: seq<Byte>, run: seq<Byte>, trail: seq<Byte>) {
    && token == lead + (sign + (run + trail)) && AllSpaces(lead) && IsSign(sign) && IsRun(run) && run != [] && AllSpaces(trail)
    && v == if sign == [0x2D] then 0 - RunValue(run) else RunValue(run)
  }

  lemma {:induction false} SplitSpaces(s: seq<Byte>) returns (lead: seq<Byte>)
    ensures AllSpaces(lead) && s == lead + SkipSpace(s)
  {
    hide SkipSpace, AllSpaces;
    SpaceStep(s);
    lead := [];
    if s != [] && IsSpace(s[0]) {
      lead := SplitSpaces(s[1..]);
      SpacesCons(s[0], lead);
      assert s == [s[0]] + s[1..];
      assert [s[0]] + (lead + SkipSpace(s[1..])) == [s[0]] + lead + SkipSpace(s[1..]);
      lead := [s[0]] + lead;
    } else {
      assert [] + s == s;
    }
  }

  lemma SpaceStep(s: seq<Byte>)
    ensures SkipSpace(s) == if s != [] && IsSpace(s[0]) then SkipSpace(s[1..]) else s
    ensures AllSpaces([])
  {
  }

  lemma SpacesCons(c: Byte, s: seq<Byte>)
    requires IsSpace(c) && AllSpaces(s)
    ensures AllSpaces([c] + s)
  {
  }

  lemma SplitSign(s: seq<Byte>) returns (sign: seq<Byte>)
    ensures IsSign(sign) && s == sign + Unsigned(s) && (sign == [0x2D] <==> s != [] && s[0] == MINUS)
  {
    sign := if s != [] && (s[0] == PLUS || s[0] == MINUS) then s[..1] else [];
    assert s != [] ==> s[..1] == [s[0]];
  }

  /** A token is read as an integer exactly if it is written as one, and then as its value. */
  lemma IntegerExactly(token: seq<Byte>, v: int)
    ensures Integer(token) == Number(v) <==> IsInteger(token, v)
  {
    hide Digits, SkipSpace, RunValue;
    if Integer(token) == Number(v) {
      var lead := SplitSpaces(token);
      var s := SkipSpace(token);
      var sign := SplitSign(s);
      var run, trail := SplitRun(Unsigned(s));
      NoValue();
      DigitsAre([], run, trail);
      assert [] + run == run;
      SkipsAll(trail);
      assert IntegerParts(token, v, lead, sign, run, trail);
    }
    if lead: seq<Byte>, sign: seq<Byte>, run: seq<Byte>, trail: seq<Byte> :| IntegerParts(token, v, lead, sign, run, trail) {
      IntegerPartsRead(token, v, lead, sign, run, trail);
    }
  }

  lemma NoValue()
    ensures RunValue([]) == 0
  {
  }

  lemma UnsignedIs(sign: seq<Byte>, t: seq<Byte>)
    requires IsSign(sign) && (t == [] || (t[0] != 0x2B && t[0] != 0x2D))
    ensures Unsigned(sign + t) == t
    ensures sign + t != [] && (sign + t)[0] == MINUS <==> sign == [0x2D]
  {
    assert sign != [] ==> (sign + t)[1..] == t;
    assert sign == [] ==> sign + t == t;
  }

  lemma Heads(s: seq<Byte>)
    requires s != []
    ensures IsRun(s[..1]) <==> 0x30 <= s[0] <= 0x39 || s[0] == 0x5F
    ensures AllSpaces(s[..1]) <==> 9 <= s[0] <= 13 || s[0] == 32
  {
    assert s[..1] == [s[0]];
  }

  lemma IntegerPartsRead(token: seq<Byte>, v: int, lead: seq<Byte>, sign: seq<Byte>, run: seq<Byte>, trail: seq<Byte>)
    requires IntegerParts(token, v, lead, sign, run, trail)
    ensures Integer(token) == Number(v)
  {
    hide Digits, SkipSpace, RunValue;
    var t := run + trail;
    Heads(run);
    if trail != [] {
      Heads(trail);
    }
    Heads(sign + t);
    SkipsFront(lead, sign + t);
    UnsignedIs(sign, t);
    NoValue();
    DigitsAre([], run, trail);
    assert [] + run == run;
    SkipsAll(trail);
  }

  // ---------- Floating point numbers ----------

  /** Digits, a fraction, an exponent, white space. */
  datatype Decimals = Decimals(whole: seq<Byte>, point: seq<Byte>, frac: seq<Byte>, mark: seq<Byte>, sign: seq<Byte>,
                               exp: seq<Byte>, trail: seq<Byte>)

  /** The fraction needs its point and the exponent its letter. Behind the letter and a sign something must follow. */
  predicate DecimalsOk(d: Decimals) {
    && IsRun(d.whole) && IsRun(d.frac) && IsRun(d.exp) && IsSign(d.sign) && AllSpaces(d.trail)
    && (d.point == [0x2E] || (d.point == [] && d.frac == []))
    && (d.mark == [0x65] || d.mark == [0x45] || (d.mark == [] && d.sign == [] && d.exp == []))
    && (d.mark != [] ==> d.exp + d.trail != [])
  }

  function ExponentText(d: Decimals): seq<Byte> { d.mark + (d.sign + (d.exp + d.trail)) }

  function DecimalsText(d: Decimals): seq<Byte> { d.whole + (d.point + (d.frac + ExponentText(d))) }

  lemma {:induction false} RunPasses(run: seq<Byte>, rest: seq<Byte>, part: Part)
    requires IsRun(run)
    ensures Decimal(run + rest, part) == Decimal(rest, part)
    decreases |run|
  {
    hide Decimal;
    if run == [] {
      assert run + rest == rest;
    } else {
      assert (run + rest)[1..] == run[1..] + rest;
      DecimalStep(run + rest, part);
      RunPasses(run[1..], rest, part);
    }
  }

  lemma SpacesStay(trail: seq<Byte>, part: Part)
    requires AllSpaces(trail)
    ensures Decimal(trail, part) == Number(trail)
  {
    hide Decimal;
    if trail == [] {
      DecimalEnd(trail, part);
    } else {
      DecimalStep(trail, part);
    }
  }

  lemma ExponentReads(d: Decimals, part: Part)
    requires DecimalsOk(d) && part != Exponent
    ensures Decimal(ExponentText(d), part) == Number(d.trail)
  {
    hide Decimal;
    SpacesStay(d.trail, Exponent);
    SpacesStay(d.trail, part);
    RunPasses(d.exp, d.trail, Exponent);
    var e := d.exp + d.trail;
    if d.mark == [] {
      assert ExponentText(d) == d.trail;
    } else {
      var s := ExponentText(d);
      assert s[1..] == d.sign + e;
      UnsignedIs(d.sign, e);
      DecimalStep(s, part);
    }
  }

  lemma DecimalsRead(d: Decimals)
    requires DecimalsOk(d)
    ensures Decimal(DecimalsText(d), Whole) == Number(d.trail)
  {
    hide Decimal, ExponentText;
    var after := d.frac + ExponentText(d);
    RunPasses(d.whole, d.point + after, Whole);
    if d.point == [] {
      assert d.point + after == ExponentText(d);
      ExponentReads(d, Whole);
    } else {
      assert (d.point + after)[1..] == after;
      DecimalStep(d.point + after, Whole);
      RunPasses(d.frac, ExponentText(d), Fraction);
      ExponentReads(d, Fraction);
    }
  }

  lemma NothingBefore(s: seq<Byte>)
    ensures [] + s == s && [] + ([] + s) == s && [] + ([] + ([] + s)) == s
  {
  }

  /** The exponent and what is left unread. */
  lemma ExponentSplits(s: seq<Byte>, part: Part) returns (mark: seq<Byte>, sign: seq<Byte>, exp: seq<Byte>, trail: seq<Byte>)
    requires part != Exponent && Decimal(s, part).Number? && AllSpaces(Decimal(s, part).value)
    requires s == [] || !IsRun(s[..1])
    requires s == [] || part == Fraction || s[0] != DOT
    ensures DecimalsOk(Decimals([], [], [], mark, sign, exp, trail)) && s == mark + (sign + (exp + trail))
  {
    hide Decimal;
    if s == [] {
      DecimalEnd(s, part);
    } else {
      DecimalStep(s, part);
      Heads(s);
    }
    if s != [] && (s[0] == LOWER_E || s[0] == UPPER_E) {
      sign, exp, trail := MarkSplits(s, part);
      mark := [s[0]];
    } else {
      mark, sign, exp, trail := [], [], [], s;
      NothingBefore(s);
    }
  }

  lemma MarkSplits(s: seq<Byte>, part: Part) returns (sign: seq<Byte>, exp: seq<Byte>, trail: seq<Byte>)
    requires part != Exponent && Decimal(s, part).Number? && AllSpaces(Decimal(s, part).value)
    requires s != [] && (s[0] == LOWER_E || s[0] == UPPER_E)
    ensures IsSign(sign) && IsRun(exp) && AllSpaces(trail) && exp + trail != [] && s == [s[0]] + (sign + (exp + trail))
  {
    hide Decimal, IsRun, AllSpaces, IsSign, Unsigned;
    DecimalStep(s, part);
    sign := SplitSign(s[1..]);
    exp, trail := SplitRun(Unsigned(s[1..]));
    RunPasses(exp, trail, Exponent);
    ExponentEnds(trail);
    HeadAndTail(s, sign + (exp + trail));
  }

  lemma ExponentEnds(trail: seq<Byte>)
    requires trail == [] || !IsRun(trail[..1])
    ensures Decimal(trail, Exponent) == Number(trail)
  {
    hide Decimal, IsRun;
    if trail == [] {
      DecimalEnd(trail, Exponent);
    } else {
      DecimalStep(trail, Exponent);
      Heads(trail);
    }
  }

  lemma HeadAndTail(s: seq<Byte>, t: seq<Byte>)
    requires s != [] && s[1..] == t
    ensures s == [s[0]] + t
  {
  }

  /** What the decimal loop reads up to white space is written as a decimal number. */
  lemma DecimalSplits(t: seq<Byte>) returns (d: Decimals)
    requires Decimal(t, Whole).Number? && AllSpaces(Decimal(t, Whole).value)
    ensures DecimalsOk(d) && t == DecimalsText(d)
  {
    hide Decimal;
    var whole, s := SplitRun(t);
    RunPasses(whole, s, Whole);
    assert s != [] ==> s[..1] == [s[0]];
    if s != [] && s[0] == DOT {
      DecimalStep(s, Whole);
      var frac, r := SplitRun(s[1..]);
      RunPasses(frac, r, Fraction);
      var mark, sign, exp, trail := ExponentSplits(r, Fraction);
      d := Decimals(whole, [DOT], frac, mark, sign, exp, trail);
      assert s == [DOT] + s[1..];
    } else {
      var mark, sign, exp, trail := ExponentSplits(s, Whole);
      d := Decimals(whole, [], [], mark, sign, exp, trail);
      NothingBefore(s);
    }
  }

  ghost predicate IsDecimal(t: seq<Byte>) {
    exists d: Decimals :: DecimalsOk(d) && t == DecimalsText(d) && |d.trail| < |t|
  }

  /** A token that does not start with a letter is read as a floating point number exactly if, behind white space and a
      sign, it is written as a decimal number that is not empty. */
  lemma FloatExactly(token: seq<Byte>)
    requires var t := Unsigned(SkipSpace(token)); t == [] || (t[0] < 65 || 122 < t[0])
    ensures IsFloat(token) <==> IsDecimal(Unsigned(SkipSpace(token)))
  {
    hide Decimal, SkipSpace, DecimalsText;
    var t := Unsigned(SkipSpace(token));
    if IsFloat(token) {
      SkipsAll(Decimal(t, Whole).value);
      var d := DecimalSplits(t);
      DecimalsRead(d);
    }
    if d: Decimals :| DecimalsOk(d) && t == DecimalsText(d) && |d.trail| < |t| {
      DecimalsRead(d);
      SkipsAll(d.trail);
    }
  }
}
