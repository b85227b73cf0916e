/** Numbers in decimal as `py/parsenum.c` reads them. Integers are unbounded, as the source goes over to long integers
    when a small one overflows. Of floating point numbers only the syntax is modelled. */
module ParseNumber {
  import opened Bytes

  datatype Parsed<T> = Number(value: T) | Invalid

  // ---------- Integers ----------

  datatype Scanned = Scanned(v: nat, rest: seq<Byte>)

  /** The digit loop: underscores are skipped, anything else ends it. */
  function Digits(s: seq<Byte>, v: nat): (r: Scanned)
    ensures |r.rest| <= |s|
    decreases |s|
  {
    if s == [] then Scanned(v, s)
    else if IsDigit(s[0]) then Digits(s[1..], 10 * v + (s[0] - 48))
    else if s[0] == UNDERSCORE then Digits(s[1..], v)
    else Scanned(v, s)
  }

  function Unsigned(s: seq<Byte>): seq<Byte> {
    if s != [] && (s[0] == PLUS || s[0] == MINUS) then s[1..] else s
  }

  function Signed(neg: bool, v: int): int { if neg then -v else v }

  /** The value of an integer as written, or ValueError. */
  function Integer(token: seq<Byte>): Parsed<int> {
    var s := SkipSpace(token);
    var t := Unsigned(s);
    var r := Digits(t, 0);
    if |r.rest| == |t| || SkipSpace(r.rest) != [] then Invalid
    else Number(Signed(s != [] && s[0] == MINUS, r.v))
  }

  /** `mp_parse_num_integer` for base 10. */
  method ParseInteger(token: seq<Byte>) returns (r: Parsed<int>)
    ensures r == Integer(token)
  {
    hide SkipSpace, Digits;
    var str := SkipSpaces(token);
    var neg := false;
    if str != [] {
      if str[0] == PLUS {
        str := str[1..];
      } else if str[0] == MINUS {
        str := str[1..];
        neg := true;
      }
    }
    var start := str;
    var value: nat := 0;
    while str != [] && (IsDigit(str[0]) || str[0] == UNDERSCORE)
      invariant Digits(start, 0) == Digits(str, value) && |str| <= |start|
      decreases |str|
    {
      DigitsStep(str, value);
      if IsDigit(str[0]) {
        value := 10 * value + (str[0] - 48);
      }
      str := str[1..];
    }
    DigitsEnd(str, value);
    var result: int := value;
    if neg {
      result := -result;
    }
    r := Number(result);
    if |str| == |start| {
      return Invalid;
    }
    str := SkipSpaces(str);
    if str != [] {
      return Invalid;
    }
  }

  lemma DigitsStep(s: seq<Byte>, v: nat)
    requires s != [] && (IsDigit(s[0]) || s[0] == UNDERSCORE)
    ensures Digits(s, v) == Digits(s[1..], if IsDigit(s[0]) then 10 * v + (s[0] - 48) else v)
  {
  }

  lemma DigitsEnd(s: seq<Byte>, v: nat)
    requires s == [] || !(IsDigit(s[0]) || s[0] == UNDERSCORE)
    ensures Digits(s, v) == Scanned(v, s)
  {
  }

  method SkipSpaces(s: seq<Byte>) returns (r: seq<Byte>)
    ensures r == SkipSpace(s)
  {
    r := s;
    while r != [] && IsSpace(r[0])
      invariant SkipSpace(r) == SkipSpace(s)
      decreases |r|
    {
      r := r[1..];
    }
  }

  // ---------- Floating point numbers ----------

  /** Where the loop of the source stands: in the integer part, the fraction or the exponent. */
  datatype Part = Whole | Fraction | Exponent

  /** What the decimal loop leaves unread, or ValueError for an exponent without digits or sign only. */
  function Decimal(s: seq<Byte>, part: Part): (r: Parsed<seq<Byte>>)
    ensures r.Number? ==> |r.value| <= |s|
    decreases |s|
  {
    if s == [] then Number(s)
    else if IsDigit(s[0]) then Decimal(s[1..], part)
    else if part == Whole && s[0] == DOT then Decimal(s[1..], Fraction)
    else if part != Exponent && (s[0] == LOWER_E || s[0] == UPPER_E) then
      var r := Unsigned(s[1..]);
      if r == [] then Invalid else Decimal(r, Exponent)
    else if s[0] == UNDERSCORE then Decimal(s[1..], part)
    else Number(s)
  }

  /** `(c | 0x20) == l` for a lower-case letter `l`. */
  predicate IsLetter(c: Byte, l: Byte) { c == l || c + 32 == l }

  predicate StartsWith(s: seq<Byte>, word: seq<Byte>) {
    |s| >= |word| && forall i :: 0 <= i < |word| ==> IsLetter(s[i], word[i])
  }

  const INF: seq<Byte> := [105, 110, 102]
  const INITY: seq<Byte> := [105, 110, 105, 116, 121]
  const NAN: seq<Byte> := [110, 97, 110]

  /** What is left unread after the sign: `inf`, `infinity`, `nan` in any case, or a decimal number. */
  function Unread(t: seq<Byte>): (r: Parsed<seq<Byte>>)
    ensures r.Number? ==> |r.value| <= |t|
  {
    if t != [] && IsLetter(t[0], INF[0]) then
      if StartsWith(t, INF) then Number(if StartsWith(t[3..], INITY) then t[8..] else t[3..]) else Number(t)
    else if t != [] && IsLetter(t[0], NAN[0]) then Number(if StartsWith(t, NAN) then t[3..] else t)
    else Decimal(t, Whole)
  }

  /** Is a token a floating point number? */
  predicate IsFloat(token: seq<Byte>) {
    var t := Unsigned(SkipSpace(token));
    var r := Unread(t);
    r.Number? && |r.value| != |t| && SkipSpace(r.value) == []
  }

  /** The syntax of `mp_parse_num_float`. */
  method ScanFloat(token: seq<Byte>) returns (ok: bool)
    ensures ok <==> IsFloat(token)
  {
    hide SkipSpace, Decimal;
    var str := SkipSpaces(token);
    if str != [] {
      if str[0] == PLUS {
        str := str[1..];
      } else if str[0] == MINUS {
        str := str[1..];
      }
    }
    var start := str;
    if str != [] && IsLetter(str[0], INF[0]) {
      if StartsWith(str, INF) {
        str := str[3..];
        if StartsWith(str, INITY) {
          str := str[5..];
        }
      }
    } else if str != [] && IsLetter(str[0], NAN[0]) {
      if StartsWith(str, NAN) {
        str := str[3..];
      }
    } else {
      var r := ScanDecimal(str);
      if r.Invalid? {
        return false;
      }
      str := r.value;
    }
    if |str| == |start| {
      return false;
    }
    str := SkipSpaces(str);
    ok := str == [];
  }

  /** The loop over a decimal number. */
  method ScanDecimal(start: seq<Byte>) returns (r: Parsed<seq<Byte>>)
    ensures r == Decimal(start, Whole)
  {
    hide Decimal;
    var str := start;
    var part := Whole;
    while str != []
      invariant Decimal(start, Whole) == Decimal(str, part) && |str| <= |start|
      decreases |str|
    {
      DecimalStep(str, part);
      var c := str[0];
      if IsDigit(c) {
        str := str[1..];
      } else if part == Whole && c == DOT {
        part, str := Fraction, str[1..];
      } else if part != Exponent && (c == LOWER_E || c == UPPER_E) {
        part, str := Exponent, str[1..];
        if str != [] {
          if str[0] == PLUS {
            str := str[1..];
          } else if str[0] == MINUS {
            str := str[1..];
          }
        }
        if str == [] {
          return Invalid;
        }
      } else if c == UNDERSCORE {
        str := str[1..];
      } else {
        break;
      }
    }
    DecimalEnd(str, part);
    r := Number(str);
  }

  lemma DecimalStep(s: seq<Byte>, part: Part)
    requires s != []
    ensures Decimal(s, part) ==
            if IsDigit(s[0]) then Decimal(s[1..], part)
            else if part == Whole && s[0] == DOT then Decimal(s[1..], Fraction)
            else if part != Exponent && (s[0] == LOWER_E || s[0] == UPPER_E) then
              if Unsigned(s[1..]) == [] then Invalid else Decimal(Unsigned(s[1..]), Exponent)
            else if s[0] == UNDERSCORE then Decimal(s[1..], part)
            else Number(s)
  {
  }

  lemma DecimalEnd(s: seq<Byte>, part: Part)
    ensures s == [] ==> Decimal(s, part) == Number(s)
  {
  }
}
