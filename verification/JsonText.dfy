/** JSON texts (sections 2 to 2.5 of RFC 4627): every way to write a value, and what the value is. */
module JsonText {
  import opened Arith
  import opened Bytes
  import opened JsonLexer
  import ParseNumber
  import Utf8

  // ---------- The characters of the grammar ----------

  const BEGIN_ARRAY: Byte := 0x5B
  const BEGIN_OBJECT: Byte := 0x7B
  const END_ARRAY: Byte := 0x5D
  const END_OBJECT: Byte := 0x7D
  const NAME_SEPARATOR: Byte := 0x3A
  const VALUE_SEPARATOR: Byte := 0x2C
  const QUOTATION_MARK: Byte := 0x22
  const ESCAPE: Byte := 0x5C
  const SOLIDUS: Byte := 0x2F
  const DECIMAL_POINT: Byte := 0x2E
  const NULL: seq<Byte> := [0x6E, 0x75, 0x6C, 0x6C]
  const TRUE: seq<Byte> := [0x74, 0x72, 0x75, 0x65]
  const FALSE: seq<Byte> := [0x66, 0x61, 0x6C, 0x73, 0x65]

  // ---------- Characters of strings ----------

  /** One character of a string: a code point as it is (in UTF-8), a one-letter escape, a \u escape outside the
      surrogate range, or a surrogate pair of two \u escapes. */
  datatype Ch = Plain(code: nat) | Short(letter: Byte) | Hex(h: seq<Byte>) | Pair(hi: seq<Byte>, lo: seq<Byte>)

  predicate IsHexDigit(c: Byte) { 48 <= c <= 57 || 65 <= c <= 70 || 97 <= c <= 102 }

  function HexValue(c: Byte): nat
    requires IsHexDigit(c)
  {
    if c <= 57 then c - 48 else if c <= 70 then c - 55 else c - 87
  }

  predicate IsHex4(h: seq<Byte>) {
    |h| == 4 && IsHexDigit(h[0]) && IsHexDigit(h[1]) && IsHexDigit(h[2]) && IsHexDigit(h[3])
  }

  function HexCode(h: seq<Byte>): nat
    requires IsHex4(h)
  {
    16 * (16 * (16 * HexValue(h[0]) + HexValue(h[1])) + HexValue(h[2])) + HexValue(h[3])
  }

  predicate IsShort(c: Byte) {
    c == QUOTATION_MARK || c == ESCAPE || c == SOLIDUS || c == 0x62 || c == 0x66 || c == 0x6E || c == 0x72 || c == 0x74
  }

  /** The character that a one-letter escape stands for (section 2.5 of RFC 4627). */
  function ShortMeaning(c: Byte): Byte
    requires IsShort(c)
  {
    match c
    case 0x62 => 0x08
    case 0x66 => 0x0C
    case 0x6E => 0x0A
    case 0x72 => 0x0D
    case 0x74 => 0x09
    case _ => c
  }

  /** Code points that may stand for themselves. */
  predicate IsUnescaped(code: nat) {
    32 <= code < 0x110000 && code != QUOTATION_MARK && code != ESCAPE && !(0xD800 <= code < 0xE000)
  }

  predicate ChOk(c: Ch) {
    match c
    case Plain(code) => IsUnescaped(code)
    case Short(l) => IsShort(l)
    case Hex(h) => IsHex4(h) && !(0xD800 <= HexCode(h) < 0xE000)
    case Pair(hi, lo) => IsHex4(hi) && IsHex4(lo) && 0xD800 <= HexCode(hi) < 0xDC00 && 0xDC00 <= HexCode(lo) < 0xE000
  }

  /** How a character is written, followed by `k`. */
  function ChText(c: Ch, k: seq<Byte>): seq<Byte> {
    match c
    case Plain(code) => Utf8.Encoded(code) + k
    case Short(l) => [ESCAPE, l] + k
    case Hex(h) => [ESCAPE, 0x75] + (h + k)
    case Pair(hi, lo) => [ESCAPE, 0x75] + (hi + ([ESCAPE, 0x75] + (lo + k)))
  }

  /** The UTF-8 bytes of a character: as RFC 4627 defines it, or (`joined` false) with each half of a surrogate
      pair encoded by itself. */
  function ChBytes(c: Ch, joined: bool): seq<Byte>
    requires ChOk(c)
  {
    match c
    case Plain(code) => Utf8.Encoded(code)
    case Short(l) => [ShortMeaning(l)]
    case Hex(h) => Utf8.Encoded(HexCode(h))
    case Pair(hi, lo) =>
      if joined then Utf8.Encoded(0x10000 + 0x400 * (HexCode(hi) - 0xD800) + (HexCode(lo) - 0xDC00))
      else Utf8.Encoded(HexCode(hi)) + Utf8.Encoded(HexCode(lo))
  }

  predicate StrOk(s: seq<Ch>) {
    s == [] || (ChOk(s[0]) && StrOk(s[1..]))
  }

  function StrText(s: seq<Ch>, k: seq<Byte>): seq<Byte> {
    if s == [] then [QUOTATION_MARK] + k else ChText(s[0], StrText(s[1..], k))
  }

  function StrBytes(s: seq<Ch>, joined: bool): seq<Byte>
    requires StrOk(s)
  {
    if s == [] then [] else ChBytes(s[0], joined) + StrBytes(s[1..], joined)
  }

  // ---------- Values ----------

  predicate IsWs(w: seq<Byte>) {
    w == [] || ((w[0] == 0x20 || w[0] == 0x09 || w[0] == 0x0A || w[0] == 0x0D) && IsWs(w[1..]))
  }

  predicate AllDigits(s: seq<Byte>) {
    s == [] || (0x30 <= s[0] <= 0x39 && AllDigits(s[1..]))
  }

  /** A number: an optional minus, the integer part without leading zeros, a fraction and an exponent, either of which
      may be missing. `mark` is the exponent's letter and sign. */
  datatype Num = Num(minus: bool, whole: seq<Byte>, frac: seq<Byte>, mark: seq<Byte>, exp: seq<Byte>)

  predicate NumOk(n: Num) {
    && n.whole != [] && AllDigits(n.whole) && (n.whole[0] == 0x30 ==> |n.whole| == 1)
    && AllDigits(n.frac) && AllDigits(n.exp)
    && (n.exp == [] ==> n.mark == [])
    && (n.exp != [] ==> IsMark(n.mark))
  }

  predicate IsMark(m: seq<Byte>) {
    && 1 <= |m| <= 2 && (m[0] == 0x65 || m[0] == 0x45)
    && (|m| == 2 ==> m[1] == 0x2B || m[1] == 0x2D)
  }

  function NumText(n: Num): seq<Byte> {
    (if n.minus then [0x2D] else []) + (n.whole + FracText(n))
  }

  function FracText(n: Num): seq<Byte> { (if n.frac == [] then [] else [DECIMAL_POINT] + n.frac) + (n.mark + n.exp) }

  /** The value of a string of decimal digits. */
  function DigitsValue(s: seq<Byte>): nat
    requires AllDigits(s)
  {
    if s == [] then 0
    else
      AllDigitsInit(s);
      10 * DigitsValue(s[..|s| - 1]) + (s[|s| - 1] - 48)
  }

  /** An integer is its value; with a fraction or an exponent the number stays as written. */
  function NumMeaning(n: Num): Prim
    requires NumOk(n)
  {
    if n.frac == [] && n.exp == [] then
      PInt(if n.minus then 0 - DigitsValue(n.whole) else DigitsValue(n.whole))
    else PFloat(NumText(n))
  }

  lemma {:induction false} AllDigitsInit(s: seq<Byte>)
    requires AllDigits(s) && s != []
    ensures AllDigits(s[..|s| - 1]) && IsDigit(s[|s| - 1])
  {
    if |s| == 1 {
    } else {
      AllDigitsInit(s[1..]);
      assert s[1..][..|s| - 2] == s[..|s| - 1][1..];
    }
  }

  /** A value as written; white space is part of the writing. */
  datatype Cst =
    | CNull | CTrue | CFalse
    | CNum(n: Num)
    | CStr(chars: seq<Ch>)
    | CArr(open: seq<Byte>, items: Items)
    | CObj(open: seq<Byte>, members: Members)

  /** `after` is the white space behind the value, `before` the one behind the comma, if there is one. */
  datatype Items = NoItems | Item(v: Cst, after: seq<Byte>, before: seq<Byte>, tail: Items)

  datatype Members = NoMembers | Member(name: seq<Ch>, left: seq<Byte>, right: seq<Byte>,
                                        v: Cst, after: seq<Byte>, before: seq<Byte>, tail: Members)

  predicate CstOk(c: Cst) {
    match c
    case CNum(n) => NumOk(n)
    case CStr(chars) => StrOk(chars)
    case CArr(open, items) => IsWs(open) && ItemsOk(items)
    case CObj(open, members) => IsWs(open) && MembersOk(members)
    case _ => true
  }

  predicate ItemsOk(items: Items) {
    match items
    case NoItems => true
    case Item(v, after, before, tail) => CstOk(v) && IsWs(after) && IsWs(before) && ItemsOk(tail)
  }

  predicate MembersOk(members: Members) {
    match members
    case NoMembers => true
    case Member(name, left, right, v, after, before, tail) =>
      StrOk(name) && IsWs(left) && IsWs(right) && CstOk(v) && IsWs(after) && IsWs(before) && MembersOk(tail)
  }

  /** The text of a value, followed by `k`. */
  function Text(c: Cst, k: seq<Byte>): seq<Byte>
    decreases c
  {
    match c
    case CNull => NULL + k
    case CTrue => TRUE + k
    case CFalse => FALSE + k
    case CNum(n) => NumText(n) + k
    case CStr(chars) => [QUOTATION_MARK] + StrText(chars, k)
    case CArr(open, items) => [BEGIN_ARRAY] + (open + ItemsText(items, [END_ARRAY] + k))
    case CObj(open, members) => [BEGIN_OBJECT] + (open + MembersText(members, [END_OBJECT] + k))
  }

  function ItemsText(items: Items, k: seq<Byte>): seq<Byte>
    decreases items, 0
  {
    match items
    case NoItems => k
    case Item(v, after, before, tail) => Text(v, after + ItemsMore(before, tail, k))
  }

  function ItemsMore(before: seq<Byte>, tail: Items, k: seq<Byte>): seq<Byte>
    decreases tail, 1
  {
    if tail == NoItems then k else [VALUE_SEPARATOR] + (before + ItemsText(tail, k))
  }

  function MembersText(members: Members, k: seq<Byte>): seq<Byte>
    decreases members, 0
  {
    match members
    case NoMembers => k
    case Member(name, left, right, v, after, before, tail) =>
      [QUOTATION_MARK] + StrText(name, left + ([NAME_SEPARATOR] + (right + Text(v, after + MembersMore(before, tail, k)))))
  }

  function MembersMore(before: seq<Byte>, tail: Members, k: seq<Byte>): seq<Byte>
    decreases tail, 1
  {
    if tail == NoMembers then k else [VALUE_SEPARATOR] + (before + MembersText(tail, k))
  }

  /** A whole JSON text, with white space around the value. */
  function Document(lead: seq<Byte>, c: Cst, trail: seq<Byte>): seq<Byte> { lead + Text(c, trail) }

  /** The value itself. */
  datatype Value = VPrim(p: Prim) | VArray(items: seq<Value>) | VObject(entries: map<Prim, Value>)

  function Meaning(c: Cst, joined: bool): Value
    requires CstOk(c)
    decreases c
  {
    match c
    case CNull => VPrim(PNone)
    case CTrue => VPrim(PBool(true))
    case CFalse => VPrim(PBool(false))
    case CNum(n) => VPrim(NumMeaning(n))
    case CStr(chars) => VPrim(PStr(StrBytes(chars, joined)))
    case CArr(_, items) => VArray(ItemsMeaning(items, joined))
    case CObj(_, members) => VObject(MembersMeaning(members, joined, map[]))
  }

  function ItemsMeaning(items: Items, joined: bool): seq<Value>
    requires ItemsOk(items)
    decreases items
  {
    match items
    case NoItems => []
    case Item(v, _, _, tail) => [Meaning(v, joined)] + ItemsMeaning(tail, joined)
  }

  /** A name that occurs again replaces the earlier member. */
  function MembersMeaning(members: Members, joined: bool, acc: map<Prim, Value>): map<Prim, Value>
    requires MembersOk(members)
    decreases members
  {
    match members
    case NoMembers => acc
    case Member(name, _, _, v, _, _, tail) =>
      MembersMeaning(tail, joined, acc[PStr(StrBytes(name, joined)) := Meaning(v, joined)])
  }

  /** The items as they are written, from left to right. */
  function ItemList(items: Items): seq<Cst> {
    match items
    case NoItems => []
    case Item(v, _, _, tail) => [v] + ItemList(tail)
  }

  lemma {:induction false} ItemsInOrder(items: Items, joined: bool)
    requires ItemsOk(items)
    ensures |ItemsMeaning(items, joined)| == |ItemList(items)|
    ensures forall i :: 0 <= i < |ItemList(items)| ==>
              CstOk(ItemList(items)[i]) && ItemsMeaning(items, joined)[i] == Meaning(ItemList(items)[i], joined)
    decreases items
  {
    match items
    case NoItems =>
    case Item(v, _, _, tail) => ItemsInOrder(tail, joined);
  }

  /** The members as they are written, from left to right: names as bytes, with their values. */
  function MemberList(members: Members, joined: bool): seq<(seq<Byte>, Cst)>
    requires MembersOk(members)
  {
    match members
    case NoMembers => []
    case Member(name, _, _, v, _, _, tail) => [(StrBytes(name, joined), v)] + MemberList(tail, joined)
  }

  predicate IsLast(l: seq<(seq<Byte>, Cst)>, name: seq<Byte>, i: int) {
    0 <= i < |l| && l[i].0 == name && forall j :: i < j < |l| ==> l[j].0 != name
  }

  lemma {:induction false} MemberAbsent(members: Members, joined: bool, acc: map<Prim, Value>, name: seq<Byte>)
    requires MembersOk(members) && forall j :: 0 <= j < |MemberList(members, joined)| ==> MemberList(members, joined)[j].0 != name
    ensures var m := MembersMeaning(members, joined, acc);
            (PStr(name) in m <==> PStr(name) in acc) && (PStr(name) in m ==> m[PStr(name)] == acc[PStr(name)])
    decreases members
  {
    hide StrBytes, Meaning, CstOk, StrOk;
    match members
    case NoMembers =>
    case Member(n, _, _, v, _, _, tail) =>
      var l, rest := MemberList(members, joined), MemberList(tail, joined);
      assert l[0].0 == StrBytes(n, joined);
      assert forall j :: 0 <= j < |rest| ==> rest[j] == l[j + 1];
      MemberAbsent(tail, joined, acc[PStr(StrBytes(n, joined)) := Meaning(v, joined)], name);
  }

  lemma {:induction false} MemberCounts(members: Members, joined: bool, acc: map<Prim, Value>, name: seq<Byte>, i: nat)
    requires MembersOk(members) && IsLast(MemberList(members, joined), name, i)
    ensures var v := MemberList(members, joined)[i].1;
            CstOk(v) && PStr(name) in MembersMeaning(members, joined, acc)
            && MembersMeaning(members, joined, acc)[PStr(name)] == Meaning(v, joined)
    decreases members
  {
    hide StrBytes, Meaning, CstOk, StrOk;
    match members
    case NoMembers =>
    case Member(n, _, _, v, _, _, tail) =>
      var l, rest := MemberList(members, joined), MemberList(tail, joined);
      var next := acc[PStr(StrBytes(n, joined)) := Meaning(v, joined)];
      assert forall j :: 0 <= j < |rest| ==> rest[j] == l[j + 1];
      if i == 0 {
        MemberAbsent(tail, joined, next, name);
      } else {
        MemberCounts(tail, joined, next, name, i - 1);
      }
  }

  /** An object has exactly the names that are written, each with the value that is written last. */
  lemma LastMemberCounts(members: Members, joined: bool, name: seq<Byte>)
    requires MembersOk(members)
    ensures var l, m := MemberList(members, joined), MembersMeaning(members, joined, map[]);
            && (PStr(name) in m <==> exists i :: IsLast(l, name, i))
            && forall i :: IsLast(l, name, i) ==> CstOk(l[i].1) && m[PStr(name)] == Meaning(l[i].1, joined)
  {
    hide MembersMeaning, MemberList, Meaning, CstOk;
    var l := MemberList(members, joined);
    forall i | IsLast(l, name, i)
      ensures CstOk(l[i].1) && PStr(name) in MembersMeaning(members, joined, map[])
              && MembersMeaning(members, joined, map[])[PStr(name)] == Meaning(l[i].1, joined)
    {
      MemberCounts(members, joined, map[], name, i);
    }
    if j :| 0 <= j < |l| && l[j].0 == name {
      var k := LastIndex(l, name, j);
      MemberCounts(members, joined, map[], name, k);
    } else {
      MemberAbsent(members, joined, map[], name);
    }
  }

  lemma {:induction false} LastIndex(l: seq<(seq<Byte>, Cst)>, name: seq<Byte>, i: nat) returns (k: nat)
    requires i < |l| && l[i].0 == name
    ensures IsLast(l, name, k)
    decreases |l| - i
  {
    if j :| i < j < |l| && l[j].0 == name {
      k := LastIndex(l, name, j);
    } else {
      k := i;
    }
  }

  // ---------- Lexing a text ----------

  lemma OrDouble(a: nat, d: nat)
    ensures Or(2 * a, d) == 2 * Or(a, d / 2) + d % 2
  {
  }

  lemma OrZero(a: nat)
    ensures Or(a, 0) == a
  {
  }

  lemma OrNibble(a: nat, d: nat)
    requires d < 16
    ensures Or(16 * a, d) == 16 * a + d
  {
    hide Or;
    OrDouble(8 * a, d);
    OrDouble(4 * a, d / 2);
    OrDouble(2 * a, d / 2 / 2);
    OrDouble(a, d / 2 / 2 / 2);
    assert d / 2 / 2 / 2 / 2 == 0;
    OrZero(a);
  }

  lemma HexDigitIs(c: Byte)
    requires IsHexDigit(c)
    ensures HexDigit(c) == HexValue(c) < 16
  {
    if c <= 57 {
      DivModUnique(c, 32, 1, c - 32);
    } else if c <= 70 {
      DivModUnique(c, 32, 2, c - 64);
    } else {
      DivModUnique(c, 32, 3, c - 96);
    }
  }

  lemma NextFour(a: Byte, b: Byte, c: Byte, d: Byte, e: Byte, k: seq<Byte>)
    ensures var r := [a, b, c, d, e] + k;
            Cur(Next(r)) == b && Cur(Next(Next(r))) == c && Cur(Next(Next(Next(r)))) == d
            && Cur(Next(Next(Next(Next(r))))) == e && Next(Next(Next(Next(Next(r))))) == k
  {
    var r := [a, b, c, d, e] + k;
    assert Next(r) == [b, c, d, e] + k;
    assert Next([b, c, d, e] + k) == [c, d, e] + k;
    assert Next([c, d, e] + k) == [d, e] + k;
    assert Next([d, e] + k) == [e] + k;
    assert Next([e] + k) == k;
  }

  /** A \u escape of hexadecimal digits in either case is read as its code. */
  lemma Hex4Reads(h: seq<Byte>, k: seq<Byte>)
    requires IsHex4(h)
    ensures var r := [LOWER_U] + (h + k); Hex4(r) == HexCode(h) && Next(Next(Next(Next(Next(r))))) == k
  {
    hide HexDigit, HexValue, Or;
    NextFour(LOWER_U, h[0], h[1], h[2], h[3], k);
    assert [LOWER_U] + (h + k) == [LOWER_U, h[0], h[1], h[2], h[3]] + k;
    HexDigitIs(h[0]);
    HexDigitIs(h[1]);
    HexDigitIs(h[2]);
    HexDigitIs(h[3]);
    OrNibble(0, HexValue(h[0]));
    OrNibble(HexValue(h[0]), HexValue(h[1]));
    OrNibble(16 * HexValue(h[0]) + HexValue(h[1]), HexValue(h[2]));
    OrNibble(16 * (16 * HexValue(h[0]) + HexValue(h[1])) + HexValue(h[2]), HexValue(h[3]));
  }

  lemma StringBodyEscape(k: seq<Byte>, acc: seq<Byte>)
    requires Cur(k) != LOWER_U
    ensures StringBody([BACKSLASH] + k, acc) == StringBody(Next(k), acc + [Unescaped(Cur(k))])
  {
    assert Next([BACKSLASH] + k) == k;
  }

  lemma StringBodyHex(h: seq<Byte>, k: seq<Byte>, acc: seq<Byte>)
    requires IsHex4(h)
    ensures StringBody([BACKSLASH, LOWER_U] + (h + k), acc) == StringBody(k, acc + Utf8.Encoded(HexCode(h)))
  {
    hide Hex4, Utf8.Encoded, HexCode;
    var r := [LOWER_U] + (h + k);
    Hex4Reads(h, k);
    assert [BACKSLASH, LOWER_U] + (h + k) == [BACKSLASH] + r;
    assert Next([BACKSLASH] + r) == r;
  }

  /** The parser gives every one-letter escape the meaning of the grammar. */
  lemma EscapesAgree(l: Byte)
    requires IsShort(l)
    ensures Unescaped(l) == ShortMeaning(l) && l != LOWER_U
  {
  }

  /** Other letters, which the grammar does not allow, stand for themselves. */
  lemma OtherEscapes(l: Byte)
    requires !IsShort(l)
    ensures Unescaped(l) == l
  {
  }

  lemma ChReads(c: Ch, k: seq<Byte>, acc: seq<Byte>)
    requires ChOk(c)
    ensures StringBody(ChText(c, k), acc) == StringBody(k, acc + ChBytes(c, false))
  {
    hide StringBody, Hex4, Utf8.Encoded, HexCode;
    match c
    case Plain(code) => PlainReads(code, k, acc);
    case Short(l) =>
      assert [BACKSLASH, l] + k == [BACKSLASH] + ([l] + k);
      assert Next([l] + k) == k;
      StringBodyEscape([l] + k, acc);
      EscapesAgree(l);
    case Hex(h) => StringBodyHex(h, k, acc);
    case Pair(hi, lo) =>
      StringBodyHex(hi, [BACKSLASH, LOWER_U] + (lo + k), acc);
      StringBodyHex(lo, k, acc + Utf8.Encoded(HexCode(hi)));
      assert acc + Utf8.Encoded(HexCode(hi)) + Utf8.Encoded(HexCode(lo)) == acc + (Utf8.Encoded(HexCode(hi)) + Utf8.Encoded(HexCode(lo)));
  }

  predicate PlainByte(b: Byte) { b >= 32 && b != QUOTE && b != BACKSLASH }

  lemma {:induction false} BytesRead(bs: seq<Byte>, k: seq<Byte>, acc: seq<Byte>)
    requires forall i :: 0 <= i < |bs| ==> PlainByte(bs[i])
    ensures StringBody(bs + k, acc) == StringBody(k, acc + bs)
    decreases |bs|
  {
    hide StringBody;
    if bs == [] {
      assert bs + k == k && acc + bs == acc;
    } else {
      assert bs + k == [bs[0]] + (bs[1..] + k);
      assert acc + [bs[0]] + bs[1..] == acc + bs;
      OneByteReads(bs[0], bs[1..] + k, acc);
      BytesRead(bs[1..], k, acc + [bs[0]]);
    }
  }

  lemma OneByteReads(b: Byte, k: seq<Byte>, acc: seq<Byte>)
    requires PlainByte(b)
    ensures StringBody([b] + k, acc) == StringBody(k, acc + [b])
  {
    assert Next([b] + k) == k;
  }

  lemma PlainReads(code: nat, k: seq<Byte>, acc: seq<Byte>)
    requires IsUnescaped(code)
    ensures StringBody(Utf8.Encoded(code) + k, acc) == StringBody(k, acc + Utf8.Encoded(code))
  {
    hide StringBody;
    EncodedIsPlain(code);
    BytesRead(Utf8.Encoded(code), k, acc);
  }

  lemma EncodedIsPlain(code: nat)
    requires IsUnescaped(code)
    ensures forall i :: 0 <= i < |Utf8.Encoded(code)| ==> PlainByte(Utf8.Encoded(code)[i])
  {
    if code < 0x80 {
      assert Utf8.Encoded(code) == [code];
    } else {
      hide Utf8.Encoded;
      Utf8.EncodedIsHigh(code);
    }
  }

  lemma QuoteReads(k: seq<Byte>, acc: seq<Byte>)
    ensures StringBody([QUOTE] + k, acc) == Lexed(StringToken(acc), k)
  {
    assert Next([QUOTE] + k) == k;
  }

  /** The bytes collected from any writing of a string. */
  lemma {:induction false} StringCollects(s: seq<Ch>, k: seq<Byte>, acc: seq<Byte>)
    requires StrOk(s)
    ensures StringBody(StrText(s, k), acc) == Lexed(StringToken(acc + StrBytes(s, false)), k)
    decreases |s|
  {
    hide StringBody, ChText, ChBytes, ChOk, StringToken;
    if s == [] {
      QuoteReads(k, acc);
      assert acc + [] == acc;
    } else {
      ChReads(s[0], StrText(s[1..], k), acc);
      StringCollects(s[1..], k, acc + ChBytes(s[0], false));
      assert acc + ChBytes(s[0], false) + StrBytes(s[1..], false) == acc + StrBytes(s, false);
    }
  }

  lemma ChPasses(c: Ch, joined: bool)
    requires ChOk(c)
    ensures Utf8.Passes(ChBytes(c, joined), 0)
  {
    hide Utf8.Passes, Utf8.Encoded, HexCode;
    match c
    case Plain(code) => Utf8.EncodedPasses(code);
    case Short(l) => Utf8.OneByte(ShortMeaning(l));
    case Hex(h) =>
      HexCodeBound(h);
      Utf8.EncodedPasses(HexCode(h));
    case Pair(hi, lo) =>
      Utf8.EncodedPasses(HexCode(hi));
      Utf8.EncodedPasses(HexCode(lo));
      Utf8.PassesConcat(Utf8.Encoded(HexCode(hi)), Utf8.Encoded(HexCode(lo)), 0);
      Utf8.EncodedPasses(0x10000 + 0x400 * (HexCode(hi) - 0xD800) + (HexCode(lo) - 0xDC00));
  }

  lemma HexCodeBound(h: seq<Byte>)
    requires IsHex4(h)
    ensures HexCode(h) < 0x10000
  {
    hide HexValue, HexDigit;
    HexDigitIs(h[0]);
    HexDigitIs(h[1]);
    HexDigitIs(h[2]);
    HexDigitIs(h[3]);
  }

  /** Every string of the grammar passes the check for UTF-8, also when its surrogate pairs are split. */
  lemma {:induction false} StrPasses(s: seq<Ch>, joined: bool)
    requires StrOk(s)
    ensures Utf8.Passes(StrBytes(s, joined), 0)
    decreases |s|
  {
    hide ChBytes, ChOk, Utf8.Passes;
    if s == [] {
      Utf8.PassesNone(0);
    } else {
      ChPasses(s[0], joined);
      StrPasses(s[1..], joined);
      Utf8.PassesConcat(ChBytes(s[0], joined), StrBytes(s[1..], joined), 0);
    }
  }

  /** Any writing of a string is read back. */
  lemma StringReads(s: seq<Ch>, k: seq<Byte>)
    requires StrOk(s)
    ensures StringBody(StrText(s, k), []) == Lexed(Scalar(PStr(StrBytes(s, false))), k)
  {
    hide StringBody, StrText, StrBytes, StrOk, Utf8.Passes;
    StringCollects(s, k, []);
    StrPasses(s, false);
    assert [] + StrBytes(s, false) == StrBytes(s, false);
  }

  // ---------- Numbers ----------

  predicate AllNumberBytes(token: seq<Byte>) { forall i :: 0 <= i < |token| ==> IsNumberByte(token[i]) }

  /** A number ends where its text ends if no number byte follows. */
  lemma {:induction false} RunReads(token: seq<Byte>, k: seq<Byte>)
    requires AllNumberBytes(token) && !IsNumberByte(Cur(k))
    ensures NumberRun(token + k) == token && AfterNumber(token + k) == k
    decreases |token|
  {
    if token == [] {
      assert token + k == k;
    } else {
      assert (token + k)[1..] == token[1..] + k;
      RunReads(token[1..], k);
    }
  }

  lemma {:induction false} DigitsAreNumberBytes(s: seq<Byte>)
    requires AllDigits(s)
    ensures AllNumberBytes(s) && !HasFloatByte(s) && forall i :: 0 <= i < |s| ==> IsDigit(s[i])
  {
    if s == [] {
    } else {
      DigitsAreNumberBytes(s[1..]);
      assert s == [s[0]] + s[1..];
    }
  }

  lemma {:induction false} FloatByteIn(a: seq<Byte>, b: seq<Byte>)
    ensures HasFloatByte(a + b) <==> HasFloatByte(a) || HasFloatByte(b)
    decreases |a|
  {
    if a == [] {
      assert a + b == b;
    } else {
      assert (a + b)[1..] == a[1..] + b;
      FloatByteIn(a[1..], b);
    }
  }

  lemma NumTextBytes(n: Num)
    requires NumOk(n)
    ensures NumText(n) != [] && AllNumberBytes(NumText(n))
    ensures NumText(n)[0] == MINUS || IsDigit(NumText(n)[0])
  {
    hide HasFloatByte, AllDigits;
    DigitsAreNumberBytes(n.whole);
    DigitsAreNumberBytes(n.frac);
    DigitsAreNumberBytes(n.exp);
    assert AllNumberBytes(FracText(n));
  }

  /** The float parser is chosen exactly for numbers with a fraction or an exponent. */
  lemma NumIsFloat(n: Num)
    requires NumOk(n)
    ensures HasFloatByte(NumText(n)) <==> n.frac != [] || n.exp != []
  {
    hide HasFloatByte, AllDigits;
    DigitsAreNumberBytes(n.whole);
    var sign, frac := if n.minus then [MINUS] else [], if n.frac == [] then [] else [DOT] + n.frac;
    FloatByteIn(sign, n.whole + FracText(n));
    FloatByteIn(n.whole, FracText(n));
    FloatByteIn(frac, n.mark + n.exp);
    FloatByteIn(n.mark, n.exp);
    DigitsAreNumberBytes(n.exp);
    FloatByteHead(sign);
    FloatByteHead(frac);
    FloatByteHead(n.mark);
  }

  lemma FloatByteHead(s: seq<Byte>)
    ensures s == [] || s == [MINUS] ==> !HasFloatByte(s)
    ensures s != [] && MakesFloat(s[0]) ==> HasFloatByte(s)
  {
    if s == [MINUS] {
      assert s[1..] == [];
    }
  }

  // ---------- Integers ----------

  /** Digits are read from the left, their value is defined from the right. */
  lemma {:induction false} DigitsRead(done: seq<Byte>, s: seq<Byte>)
    requires AllDigits(done) && AllDigits(s) && AllDigits(done + s)
    ensures ParseNumber.Digits(s, DigitsValue(done)) == ParseNumber.Scanned(DigitsValue(done + s), [])
    decreases |s|
  {
    hide AllDigits;
    if s == [] {
      assert done + s == done;
    } else {
      DigitFirst(s);
      var more := done + [s[0]];
      assert more + s[1..] == done + s;
      AllDigitsPrefix(done + s, |more|);
      assert (done + s)[..|more|] == more;
      ValueSnoc(done, s[0]);
      DigitsRead(more, s[1..]);
      ParseNumber.DigitsStep(s, DigitsValue(done));
    }
  }

  lemma DigitFirst(s: seq<Byte>)
    requires AllDigits(s) && s != []
    ensures IsDigit(s[0]) && AllDigits(s[1..])
  {
  }

  lemma {:induction false} AllDigitsPrefix(s: seq<Byte>, n: nat)
    requires AllDigits(s) && n <= |s|
    ensures AllDigits(s[..n])
    decreases |s| - n
  {
    if n == |s| {
      assert s[..n] == s;
    } else {
      AllDigitsPrefix(s, n + 1);
      AllDigitsInit(s[..n + 1]);
      assert s[..n + 1][..n] == s[..n];
    }
  }

  lemma ValueSnoc(done: seq<Byte>, d: Byte)
    requires AllDigits(done) && AllDigits(done + [d])
    ensures DigitsValue(done + [d]) == 10 * DigitsValue(done) + (d - 48)
  {
    assert (done + [d])[..|done|] == done;
  }

  lemma NoSpace(s: seq<Byte>)
    requires s == [] || !IsSpace(s[0])
    ensures SkipSpace(s) == s
  {
  }

  lemma IntegerReads(n: Num)
    requires NumOk(n) && n.frac == [] && n.exp == []
    ensures ParseNumber.Integer(NumText(n)) == ParseNumber.Number(NumMeaning(n).v)
  {
    hide DigitsValue, AllDigits, ParseNumber.Digits, SkipSpace;
    var token := NumText(n);
    NumTextBytes(n);
    NoSpace(token);
    assert FracText(n) == [] && n.whole + [] == n.whole;
    assert n.minus ==> token[1..] == n.whole;
    DigitFirst(n.whole);
    NoDigits();
    assert [] + n.whole == n.whole;
    DigitsRead([], n.whole);
    NoSpace([]);
  }

  lemma NoDigits()
    ensures AllDigits([]) && DigitsValue([]) == 0
  {
  }

  // ---------- Floating point numbers ----------

  lemma {:induction false} DecimalDigits(s: seq<Byte>, k: seq<Byte>, part: ParseNumber.Part)
    requires AllDigits(s)
    ensures ParseNumber.Decimal(s + k, part) == ParseNumber.Decimal(k, part)
    decreases |s|
  {
    hide ParseNumber.Decimal;
    if s == [] {
      assert s + k == k;
    } else {
      assert (s + k)[1..] == s[1..] + k;
      ParseNumber.DecimalStep(s + k, part);
      DecimalDigits(s[1..], k, part);
    }
  }

  lemma DecimalExponent(n: Num, part: ParseNumber.Part)
    requires NumOk(n) && part != ParseNumber.Exponent
    ensures ParseNumber.Decimal(n.mark + n.exp, part) == ParseNumber.Number([])
  {
    hide ParseNumber.Decimal, AllDigits;
    ParseNumber.DecimalEnd([], part);
    ParseNumber.DecimalEnd([], ParseNumber.Exponent);
    if n.exp == [] {
      assert n.mark + n.exp == [];
    } else {
      var s := n.mark + n.exp;
      ParseNumber.DecimalStep(s, part);
      DigitFirst(n.exp);
      assert ParseNumber.Unsigned(s[1..]) == n.exp by {
        if |n.mark| == 1 {
          assert s[1..] == n.exp;
        } else {
          assert s[1..] == [n.mark[1]] + n.exp;
        }
      }
      DecimalDigits(n.exp, [], ParseNumber.Exponent);
      assert n.exp + [] == n.exp;
    }
  }

  lemma DecimalFraction(n: Num)
    requires NumOk(n)
    ensures ParseNumber.Decimal(FracText(n), ParseNumber.Whole) == ParseNumber.Number([])
  {
    hide ParseNumber.Decimal, AllDigits;
    if n.frac == [] {
      assert FracText(n) == n.mark + n.exp;
      DecimalExponent(n, ParseNumber.Whole);
    } else {
      assert FracText(n) == [DOT] + (n.frac + (n.mark + n.exp));
      assert FracText(n)[1..] == n.frac + (n.mark + n.exp);
      ParseNumber.DecimalStep(FracText(n), ParseNumber.Whole);
      DecimalDigits(n.frac, n.mark + n.exp, ParseNumber.Fraction);
      DecimalExponent(n, ParseNumber.Fraction);
    }
  }

  lemma FloatReads(n: Num)
    requires NumOk(n)
    ensures ParseNumber.IsFloat(NumText(n))
  {
    hide ParseNumber.Decimal, AllDigits, SkipSpace, FracText;
    var token := NumText(n);
    NumTextBytes(n);
    NoSpace(token);
    NoSpace([]);
    DigitFirst(n.whole);
    var t := n.whole + FracText(n);
    assert n.minus ==> token[1..] == t;
    assert !n.minus ==> token == t;
    assert t[0] == n.whole[0];
    DecimalDigits(n.whole, FracText(n), ParseNumber.Whole);
    DecimalFraction(n);
  }

  /** Every number of the grammar is read as one token of its value. */
  lemma NumberReads(n: Num, k: seq<Byte>)
    requires NumOk(n) && !IsNumberByte(Cur(k))
    ensures var text := NumText(n) + k;
            !End(text) && Lex(text) == Lexed(Scalar(NumMeaning(n)), k)
  {
    hide NumText, NumOk, HasFloatByte, NumberRun, AfterNumber, ParseNumber.Integer, ParseNumber.IsFloat, AllDigits, DigitsValue;
    var token := NumText(n);
    NumTextBytes(n);
    RunReads(token[1..], k);
    NumIsFloat(n);
    assert (token + k)[1..] == token[1..] + k;
    assert [token[0]] + token[1..] == token;
    if n.frac == [] && n.exp == [] {
      IntegerReads(n);
    } else {
      FloatReads(n);
    }
  }

  lemma {:induction false} KeywordReads(word: seq<Byte>, p: Prim, k: seq<Byte>)
    ensures Keyword(word + k, word, p) == Lexed(Scalar(p), k)
  {
    if word == [] {
      assert word + k == k;
    } else {
      assert Next(word + k) == word[1..] + k;
      KeywordReads(word[1..], p, k);
    }
  }

  predicate IsScalar(c: Cst) { !c.CArr? && !c.CObj? }

  function ScalarOf(c: Cst): Prim
    requires CstOk(c) && IsScalar(c)
  {
    Meaning(c, false).p
  }

  /** Every primitive value is read as one token. */
  lemma ScalarReads(c: Cst, k: seq<Byte>)
    requires CstOk(c) && IsScalar(c) && (c.CNum? ==> !IsNumberByte(Cur(k)))
    ensures !End(Text(c, k)) && Lex(Text(c, k)) == Lexed(Scalar(ScalarOf(c)), k)
  {
    hide Keyword, StringBody, NumberRun, AfterNumber, StrBytes, StrText, NumberToken, NumText, NumOk, NumMeaning;
    match c
    case CNull =>
      assert Text(c, k) == [LOWER_N] + (ULL + k);
      KeywordReads(ULL, PNone, k);
    case CTrue =>
      assert Text(c, k) == [LOWER_T] + (RUE + k);
      KeywordReads(RUE, PBool(true), k);
    case CFalse =>
      assert Text(c, k) == [LOWER_F] + (ALSE + k);
      KeywordReads(ALSE, PBool(false), k);
    case CStr(chars) => StringReads(chars, k);
    case CNum(n) => NumberReads(n, k);
  }
}
