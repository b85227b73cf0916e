/** The base64 codec of `modbinascii.c` (section 4 of RFC 4648). Bytes are numbers below 256; the masks
    and shifts of the source are written as remainders and quotients. */
module Base64 {
  import opened Arith
  import opened Bytes

  datatype Decoded = Ok(data: seq<Byte>) | IncorrectPadding

  const PAD: Byte := 61
  const NEWLINE: Byte := 10

  /** `mod_binascii_sextet`: the value of an alphabet character, or -1. */
  function Sextet(ch: Byte): int {
    if 65 <= ch <= 90 then ch - 65
    else if 97 <= ch <= 122 then ch - 97 + 26
    else if 48 <= ch <= 57 then ch - 48 + 52
    else if ch == 43 then 62
    else if ch == 47 then 63
    else -1
  }

  /** The character for a six-bit value; 64 stands for padding. */
  function Symbol(v: Byte): Byte
    requires v <= 64
  {
    if v < 26 then v + 65
    else if v < 52 then v + 97 - 26
    else if v < 62 then v + 48 - 52
    else if v == 62 then 43
    else if v == 63 then 47
    else PAD
  }

  /** The alphabet of RFC 4648, table 1, in rows of eight. */
  const ALPHABET: seq<string> :=
    ["ABCDEFGH", "IJKLMNOP", "QRSTUVWX", "YZabcdef", "ghijklmn", "opqrstuv", "wxyz0123", "456789+/"]

  function Letter(v: nat): int
    requires v < 64
  {
    var row := ALPHABET[v / 8];
    assert |row| == 8;
    row[v % 8] as int
  }

  /** Values and characters correspond as the table says, and nothing else is in it. */
  lemma SymbolIsLetter(v: Byte)
    requires v < 64
    ensures Symbol(v) == Letter(v) && Sextet(Symbol(v)) == v && Symbol(64) == '=' as int
  {
    var j := v % 8;
    assert v == 8 * (v / 8) + j;
    assert j == 0 || j == 1 || j == 2 || j == 3 || j == 4 || j == 5 || j == 6 || j == 7;
  }

  lemma SextetIsLetter(ch: Byte)
    ensures Sextet(ch) == -1 || (0 <= Sextet(ch) < 64 && Letter(Sextet(ch)) == ch)
    ensures Sextet(ch) == -1 ==> forall v :: 0 <= v < 64 ==> Letter(v) != ch
  {
    hide Letter, Sextet, Symbol;
    SextetRange(ch);
    if Sextet(ch) != -1 {
      SymbolIsLetter(Sextet(ch));
    }
    forall v | 0 <= v < 64 && Letter(v) == ch ensures Sextet(ch) == v {
      SymbolIsLetter(v);
    }
  }

  lemma SextetRange(ch: Byte)
    ensures Sextet(ch) == -1 || (0 <= Sextet(ch) < 64 && Symbol(Sextet(ch)) == ch)
  {
  }

  lemma SextetOfSymbol(v: Byte)
    requires v < 64
    ensures Sextet(Symbol(v)) == v && Symbol(v) != PAD
  {
  }

  // ---------- Encoding ----------

  /** The six-bit values of RFC 4648: groups of three bytes as four values, the last group padded. */
  function Values(data: seq<Byte>): (vs: seq<Byte>)
    ensures |vs| == (|data| + 2) / 3 * 4
    ensures forall i :: 0 <= i < |vs| ==> vs[i] <= 64
    decreases |data|
  {
    if |data| == 0 then []
    else if |data| == 1 then [data[0] / 4, data[0] % 4 * 16, 64, 64]
    else if |data| == 2 then [data[0] / 4, data[0] % 4 * 16 + data[1] / 16, data[1] % 16 * 4, 64]
    else Quad(data[0], data[1], data[2]) + Values(data[3..])
  }

  function Quad(a: Byte, b: Byte, c: Byte): (vs: seq<Byte>)
    ensures |vs| == 4 && forall i :: 0 <= i < 4 ==> vs[i] < 64
  {
    [a / 4, a % 4 * 16 + b / 16, b % 16 * 4 + c / 64, c % 64]
  }

  function Symbols(vs: seq<Byte>): (s: seq<Byte>)
    requires forall i :: 0 <= i < |vs| ==> vs[i] <= 64
    ensures |s| == |vs| && forall i :: 0 <= i < |vs| ==> s[i] == Symbol(vs[i])
  {
    seq(|vs|, i requires 0 <= i < |vs| => Symbol(vs[i]))
  }

  function Encoded(data: seq<Byte>, newline: bool): seq<Byte> {
    Symbols(Values(data)) + (if newline then [NEWLINE] else [])
  }

  lemma {:induction false} ValuesSplit(a: seq<Byte>, b: seq<Byte>)
    requires |a| % 3 == 0
    ensures Values(a + b) == Values(a) + Values(b)
    decreases |a|
  {
    if |a| == 0 {
      assert a + b == b;
    } else {
      assert (a + b)[3..] == a[3..] + b;
      ValuesSplit(a[3..], b);
    }
  }

  lemma ValuesOfThree(a: Byte, b: Byte, c: Byte)
    ensures Values([a, b, c]) == Quad(a, b, c)
  {
    assert [a, b, c][3..] == [];
    assert Quad(a, b, c) + [] == Quad(a, b, c);
  }

  // ---------- The encoding as section 4 of RFC 4648 describes it ----------

  /** Three bytes as one number of 24 bits. */
  function Number(a: nat, b: nat, c: nat): nat { 65536 * a + 256 * b + c }

  /** The first `k` of four six-bit digits, left to right, are written as characters of the alphabet. */
  predicate Written(text: seq<Byte>, k: nat, v0: nat, v1: nat, v2: nat, v3: nat) {
    && |text| >= 4 && k <= 4 && v0 < 64 && v1 < 64 && v2 < 64 && v3 < 64
    && (k > 0 ==> text[0] == Letter(v0)) && (k > 1 ==> text[1] == Letter(v1))
    && (k > 2 ==> text[2] == Letter(v2)) && (k > 3 ==> text[3] == Letter(v3))
    && forall i :: k <= i < 4 ==> text[i] == '=' as int
  }

  /** The text starts with four characters that stand for `n`, six bits each; after `k` of them the rest is padding. */
  ghost predicate Spells(text: seq<Byte>, k: nat, n: nat) {
    exists v0: nat, v1: nat, v2: nat, v3: nat ::
      Written(text, k, v0, v1, v2, v3) && n == 262144 * v0 + 4096 * v1 + 64 * v2 + v3
  }

  lemma QuadSpells(text: seq<Byte>, a: Byte, b: Byte, c: Byte, k: nat)
    requires |text| >= 4 && 2 <= k <= 4 && text[0] == Symbol(a / 4) && text[1] == Symbol(a % 4 * 16 + b / 16)
    requires if k > 2 then text[2] == Symbol(b % 16 * 4 + c / 64) else text[2] == 61 && b % 16 * 4 + c / 64 == 0
    requires if k > 3 then text[3] == Symbol(c % 64) else text[3] == 61 && c % 64 == 0
    ensures Spells(text, k, Number(a, b, c))
  {
    hide Letter, Symbol;
    var v0: nat, v1: nat, v2: nat, v3: nat := a / 4, a % 4 * 16 + b / 16, b % 16 * 4 + c / 64, c % 64;
    SymbolIsLetter(v0);
    SymbolIsLetter(v1);
    SymbolIsLetter(v2);
    SymbolIsLetter(v3);
    NumberOfDigits(a, b, c, v0, v1, v2, v3);
    assert Written(text, k, v0, v1, v2, v3);
  }

  lemma NumberOfDigits(a: nat, b: nat, c: nat, v0: nat, v1: nat, v2: nat, v3: nat)
    requires b < 256 && c < 256
    requires v0 == a / 4 && v1 == a % 4 * 16 + b / 16 && v2 == b % 16 * 4 + c / 64 && v3 == c % 64
    ensures Number(a, b, c) == 262144 * v0 + 4096 * v1 + 64 * v2 + v3
  {
  }

  lemma LaterGroup(data: seq<Byte>, newline: bool)
    requires |data| >= 3
    ensures Encoded(data, newline) == Symbols(Quad(data[0], data[1], data[2])) + Encoded(data[3..], newline)
  {
    var q, vs := Quad(data[0], data[1], data[2]), Values(data[3..]);
    hide Quad, Values;
    assert Values(data) == q + vs by {
      ValuesStep(data);
    }
    assert Symbols(q + vs) == Symbols(q) + Symbols(vs);
  }

  lemma ValuesStep(data: seq<Byte>)
    requires |data| >= 3
    ensures Values(data) == Quad(data[0], data[1], data[2]) + Values(data[3..])
  {
  }

  /** From group `i` on, the encoding is that of the bytes from there on. */
  lemma {:induction false} EncodedFrom(data: seq<Byte>, newline: bool, i: nat)
    requires 3 * i <= |data|
    ensures |Encoded(data, newline)| == 4 * i + |Encoded(data[3 * i..], newline)|
    ensures Encoded(data, newline)[4 * i..] == Encoded(data[3 * i..], newline)
    decreases i
  {
    hide Encoded;
    if i == 0 {
      assert data[0..] == data;
    } else {
      LaterGroup(data, newline);
      EncodedFrom(data[3..], newline, i - 1);
      assert data[3..][3 * (i - 1)..] == data[3 * i..];
      var rest := Encoded(data[3..], newline);
      assert Encoded(data, newline)[4 * i..] == rest[4 * (i - 1)..];
    }
  }

  /** Every group of three bytes is one number of 24 bits, written with four characters of the alphabet. */
  lemma GroupsAreNumbers(data: seq<Byte>, newline: bool, i: nat)
    requires 3 * i + 3 <= |data|
    ensures 4 * i <= |Encoded(data, newline)|
    ensures Spells(Encoded(data, newline)[4 * i..], 4, Number(data[3 * i], data[3 * i + 1], data[3 * i + 2]))
  {
    hide Encoded, Letter, Symbol, Spells;
    EncodedFrom(data, newline, i);
    var rest := data[3 * i..];
    LaterGroup(rest, newline);
    QuadSpells(Encoded(rest, newline), rest[0], rest[1], rest[2], 4);
  }

  /** Zero bits fill up what is left over, and `=` stands for the characters that are not needed; a newline ends the
      text if it is wanted. */
  lemma EndIsPadded(data: seq<Byte>, newline: bool)
    ensures |Encoded(data, newline)| == (|data| + 2) / 3 * 4 + (if newline then 1 else 0)
    ensures newline ==> Encoded(data, newline)[|Encoded(data, newline)| - 1] == 10
    ensures |data| % 3 == 1 ==>
              Spells(Encoded(data, newline)[|data| / 3 * 4..], 2, Number(data[|data| - 1], 0, 0))
    ensures |data| % 3 == 2 ==>
              Spells(Encoded(data, newline)[|data| / 3 * 4..], 3, Number(data[|data| - 2], data[|data| - 1], 0))
  {
    hide Encoded, Spells, Number;
    EncodedShape(data, newline);
    var i, r := |data| / 3, |data| % 3;
    assert |data| == 3 * i + r && i * 4 == 4 * i;
    EncodedFrom(data, newline, i);
    EndSpells(data[3 * i..], newline);
    if r == 1 {
      assert data[3 * i..][0] == data[|data| - 1];
    } else if r == 2 {
      assert data[3 * i..][0] == data[|data| - 2] && data[3 * i..][1] == data[|data| - 1];
    }
  }

  lemma EncodedShape(data: seq<Byte>, newline: bool)
    ensures |Encoded(data, newline)| == (|data| + 2) / 3 * 4 + (if newline then 1 else 0)
    ensures newline ==> Encoded(data, newline)[|Encoded(data, newline)| - 1] == 10
  {
    hide Values;
  }

  lemma EndSpells(rest: seq<Byte>, newline: bool)
    requires |rest| < 3
    ensures |rest| == 1 ==> Spells(Encoded(rest, newline), 2, Number(rest[0], 0, 0))
    ensures |rest| == 2 ==> Spells(Encoded(rest, newline), 3, Number(rest[0], rest[1], 0))
  {
    hide Encoded, Spells, Number;
    if |rest| == 1 {
      assert rest == [rest[0]];
      OneSpells(rest[0], newline);
    } else if |rest| == 2 {
      assert rest == [rest[0], rest[1]];
      TwoSpell(rest[0], rest[1], newline);
    }
  }

  lemma OneSpells(a: Byte, newline: bool)
    ensures Spells(Encoded([a], newline), 2, Number(a, 0, 0))
  {
    hide Values, Letter, Symbol, Spells;
    OneLeft(a);
    PadIsEquals();
    QuadSpells(Encoded([a], newline), a, 0, 0, 2);
  }

  lemma TwoSpell(a: Byte, b: Byte, newline: bool)
    ensures Spells(Encoded([a, b], newline), 3, Number(a, b, 0))
  {
    hide Values, Letter, Symbol, Spells;
    TwoLeft(a, b);
    PadIsEquals();
    QuadSpells(Encoded([a, b], newline), a, b, 0, 3);
  }

  lemma PadIsEquals()
    ensures Symbol(64) == 61 == '=' as int
  {
  }

  /** `mod_binascii_b2a_base64`: a first pass writes six-bit values, a second turns them into characters in place. */
  method B2aBase64(data: seq<Byte>, newline: bool) returns (buf: array<Byte>)
    ensures fresh(buf)
    ensures buf[..] == Encoded(data, newline)
  {
    hide Values, Quad;
    var extra := if newline then 1 else 0;
    buf := new Byte[(if |data| != 0 then ((|data| - 1) / 3 + 1) * 4 else 0) + extra];
    FirstPass(data, buf, extra);
    var j := 0;
    var count := buf.Length - extra;
    while j < count
      invariant 0 <= j <= count
      invariant forall i :: 0 <= i < j ==> buf[i] == Symbol(Values(data)[i])
      invariant forall i :: j <= i < count ==> buf[i] == Values(data)[i]
    {
      if buf[j] < 26 {
        buf[j] := buf[j] + 65;
      } else if buf[j] < 52 {
        buf[j] := buf[j] + (97 - 26);
      } else if buf[j] < 62 {
        buf[j] := buf[j] - (52 - 48);
      } else if buf[j] == 62 {
        buf[j] := 43;
      } else if buf[j] == 63 {
        buf[j] := 47;
      } else {
        buf[j] := PAD;
      }
      j := j + 1;
    }
    assert buf[..count] == Symbols(Values(data));
    if newline {
      buf[j] := NEWLINE;
    }
    assert buf[..] == buf[..count] + (if newline then [NEWLINE] else []);
  }

  method StoreFour(buf: array<Byte>, o: nat, v0: Byte, v1: Byte, v2: Byte, v3: Byte)
    requires o + 4 <= buf.Length
    modifies buf
    ensures buf[..o + 4] == old(buf[..o]) + [v0, v1, v2, v3]
  {
    buf[o], buf[o + 1], buf[o + 2], buf[o + 3] := v0, v1, v2, v3;
  }

  /** The first pass of the encoder. */
  method FirstPass(data: seq<Byte>, buf: array<Byte>, extra: nat)
    requires buf.Length == |Values(data)| + extra
    modifies buf
    ensures buf[..|Values(data)|] == Values(data)
  {
    hide Values;
    var at, o := WholeGroups(data, buf);
    ValuesSplit(data[..at], data[at..]);
    assert data == data[..at] + data[at..];
    LastGroup(data[at..], buf, o);
  }

  /** Its loop, which leaves one or two bytes, if any. */
  method WholeGroups(data: seq<Byte>, buf: array<Byte>) returns (at: nat, o: nat)
    requires buf.Length >= |Values(data)|
    modifies buf
    ensures at <= |data| && at % 3 == 0 && |data| - at < 3 && o <= buf.Length && buf[..o] == Values(data[..at])
    ensures |Values(data)| == o + |Values(data[at..])|
  {
    hide Values;
    var i := |data|;
    at, o := 0, 0;
    assert data[..0] == [] && data[0..] == data;
    NoValues();
    while i >= 3
      invariant 0 <= i <= |data| && at == |data| - i && at % 3 == 0
      invariant |Values(data[..at])| == o && |Values(data)| == o + |Values(data[at..])|
      invariant buf[..o] == Values(data[..at])
    {
      StoreGroup(data, at, buf, o);
      at, i, o := at + 3, i - 3, o + 4;
    }
  }

  /** One group of three bytes. */
  method StoreGroup(data: seq<Byte>, at: nat, buf: array<Byte>, o: nat)
    requires at + 3 <= |data| && at % 3 == 0 && o + 4 <= buf.Length && buf[..o] == Values(data[..at])
    modifies buf
    ensures buf[..o + 4] == Values(data[..at + 3])
    ensures |Values(data[at..])| == 4 + |Values(data[at + 3..])|
  {
    hide Values;
    var a, b, c := data[at], data[at + 1], data[at + 2];
    NextGroup(data, at);
    StoreFour(buf, o, a / 4, a % 4 * 16 + b / 16, b % 16 * 4 + c / 64, c % 64);
  }

  /** The one or two bytes left over, if any. */
  method LastGroup(rest: seq<Byte>, buf: array<Byte>, o: nat)
    requires |rest| < 3 && o + |Values(rest)| <= buf.Length
    modifies buf
    ensures buf[..o + |Values(rest)|] == old(buf[..o]) + Values(rest)
  {
    hide Values;
    if |rest| == 0 {
      NoValues();
    } else if |rest| == 2 {
      var a, b := rest[0], rest[1];
      assert rest == [a, b];
      TwoLeft(a, b);
      StoreFour(buf, o, a / 4, a % 4 * 16 + b / 16, b % 16 * 4, 64);
    } else {
      var a := rest[0];
      assert rest == [a];
      OneLeft(a);
      StoreFour(buf, o, a / 4, a % 4 * 16, 64, 64);
    }
  }

  lemma NoValues()
    ensures Values([]) == []
  {
  }

  lemma OneLeft(a: Byte)
    ensures Values([a]) == [a / 4, a % 4 * 16, 64, 64]
  {
  }

  lemma TwoLeft(a: Byte, b: Byte)
    ensures Values([a, b]) == [a / 4, a % 4 * 16 + b / 16, b % 16 * 4, 64]
  {
  }

  lemma NextGroup(data: seq<Byte>, at: nat)
    requires at + 3 <= |data| && at % 3 == 0
    ensures var a, b, c := data[at], data[at + 1], data[at + 2];
            Values(data[..at + 3]) == Values(data[..at]) + [a / 4, a % 4 * 16 + b / 16, b % 16 * 4 + c / 64, c % 64]
    ensures |Values(data[at..])| == 4 + |Values(data[at + 3..])|
  {
    assert data[..at + 3] == data[..at] + [data[at], data[at + 1], data[at + 2]];
    ValuesSplit(data[..at], [data[at], data[at + 1], data[at + 2]]);
    ValuesOfThree(data[at], data[at + 1], data[at + 2]);
    assert data[at..][3..] == data[at + 3..];
  }

  // ---------- Decoding ----------

  const UINT_RANGE := 0x1_0000_0000

  /** The decoder's variables: the shift register, how many of its low bits are still unwritten,
      whether a pad character came since the last valid character, and the bytes written. */
  datatype Acc = Acc(shift: nat, nbits: nat, hadpad: bool, out: seq<Byte>)

  predicate Sane(acc: Acc) {
    acc.nbits == 0 || acc.nbits == 2 || acc.nbits == 4 || acc.nbits == 6
  }

  /** `x >> n` for the shift counts that occur. */
  function ShiftRight(x: nat, n: nat): nat {
    if n == 0 then x else if n == 2 then x / 4 else x / 16
  }

  /** Absorb one alphabet character. */
  function Absorb(acc: Acc, sextet: nat): (r: Acc)
    requires Sane(acc) && sextet < 64
    ensures Sane(r)
  {
    var shift := (acc.shift * 64 + sextet) % UINT_RANGE;
    if acc.nbits + 6 >= 8 then
      var left := acc.nbits - 2;
      Acc(shift, left, false, acc.out + [ShiftRight(shift, left) % 256])
    else
      Acc(shift, acc.nbits + 6, false, acc.out)
  }

  /** Does this character complete the padding, ending the text? */
  predicate Ends(acc: Acc, ch: Byte) {
    ch == PAD && (acc.nbits == 2 || (acc.nbits == 4 && acc.hadpad))
  }

  function Feed(acc: Acc, ch: Byte): (r: Acc)
    requires Sane(acc)
    ensures Sane(r)
  {
    var seen := if ch == PAD then acc.(hadpad := true) else acc;
    if Sextet(ch) == -1 then seen else Absorb(seen, Sextet(ch))
  }

  function DecodeFrom(acc: Acc, text: seq<Byte>): Decoded
    requires Sane(acc)
    decreases |text|
  {
    if text == [] then if acc.nbits == 0 then Ok(acc.out) else IncorrectPadding
    else if Ends(acc, text[0]) then Ok(acc.out)
    else DecodeFrom(Feed(acc, text[0]), text[1..])
  }

  function Decode(text: seq<Byte>): Decoded {
    DecodeFrom(Acc(0, 0, false, []), text)
  }

  lemma DecodeAt(acc: Acc, text: seq<Byte>, i: nat)
    requires Sane(acc) && i < |text|
    ensures DecodeFrom(acc, text[i..]) ==
            if Ends(acc, text[i]) then Ok(acc.out) else DecodeFrom(Feed(acc, text[i]), text[i + 1..])
  {
    assert text[i..][1..] == text[i + 1..];
  }

  lemma DecodeEnd(acc: Acc)
    requires Sane(acc)
    ensures DecodeFrom(acc, []) == if acc.nbits == 0 then Ok(acc.out) else IncorrectPadding
  {
  }

  /** `mod_binascii_a2b_base64`: one pass over the text into a buffer of len * 3 / 4 + 1 bytes. */
  method A2bBase64(text: seq<Byte>) returns (r: Decoded)
    ensures r == Decode(text)
    ensures r.Ok? ==> 4 * |r.data| <= 3 * |text|
  {
    hide DecodeFrom;
    var out := new Byte[|text| * 3 / 4 + 1];
    var len: nat := 0;
    var shift: nat, nbits: nat, hadpad := 0, 0, false;
    var i := 0;
    assert text[0..] == text;
    while i < |text|
      invariant 0 <= i <= |text|
      invariant 0 <= len && 8 * len + nbits <= 6 * i
      invariant Sane(Acc(shift, nbits, hadpad, out[..len]))
      invariant Decode(text) == DecodeFrom(Acc(shift, nbits, hadpad, out[..len]), text[i..])
    {
      ghost var acc := Acc(shift, nbits, hadpad, out[..len]);
      DecodeAt(acc, text, i);
      if text[i] == PAD {
        if nbits == 2 || (nbits == 4 && hadpad) {
          nbits := 0;
          assert Decode(text) == Ok(out[..len]);
          break;
        }
        hadpad := true;
      }
      var sextet := Sextet(text[i]);
      if sextet == -1 {
        i := i + 1;
        continue;
      }
      hadpad := false;
      shift := (shift * 64 + sextet) % UINT_RANGE;
      nbits := nbits + 6;
      if nbits >= 8 {
        nbits := nbits - 8;
        out[len] := ShiftRight(shift, nbits) % 256;
        assert out[..len + 1] == acc.out + [ShiftRight(shift, nbits) % 256];
        len := len + 1;
      }
      i := i + 1;
    }
    if i == |text| {
      assert text[i..] == [];
      DecodeEnd(Acc(shift, nbits, hadpad, out[..len]));
    }
    if nbits != 0 {
      r := IncorrectPadding;
    } else {
      r := Ok(out[..len]);
    }
  }

  // ---------- Round trip ----------

  /** The low twelve bits of the register are the last two characters, whatever came before. */
  lemma RegisterLow(shift: nat, y: nat, x: nat)
    requires shift % 64 == y && x < 64
    ensures var v := (shift * 64 + x) % UINT_RANGE;
            v % 64 == x && v % 4096 == y * 64 + x
  {
    var w, k := shift * 64 + x, shift / 64;
    assert w == 4096 * k + (y * 64 + x);
    var v, m := w % UINT_RANGE, w / UINT_RANGE;
    assert v == 4096 * (k - 1048576 * m) + (y * 64 + x);
  }

  /** Feed the symbol of a value that is not padding. */
  lemma FeedSymbol(acc: Acc, x: Byte)
    requires Sane(acc) && x < 64
    ensures !Ends(acc, Symbol(x)) && Feed(acc, Symbol(x)) == Absorb(acc, x)
  {
    SextetOfSymbol(x);
  }

  /** The byte written, in terms of the last two characters. */
  lemma AbsorbMeaning(acc: Acc, y: nat, x: nat)
    requires Sane(acc) && x < 64 && acc.shift % 64 == y
    ensures Absorb(acc, x).shift % 64 == x && !Absorb(acc, x).hadpad
    ensures acc.nbits == 0 ==> Absorb(acc, x).nbits == 6 && Absorb(acc, x).out == acc.out
    ensures acc.nbits == 6 ==> Absorb(acc, x).nbits == 4 && Absorb(acc, x).out == acc.out + [y * 4 + x / 16]
    ensures acc.nbits == 4 ==> Absorb(acc, x).nbits == 2 && Absorb(acc, x).out == acc.out + [y % 16 * 16 + x / 4]
    ensures acc.nbits == 2 ==> Absorb(acc, x).nbits == 0 && Absorb(acc, x).out == acc.out + [y % 4 * 64 + x]
  {
    RegisterLow(acc.shift, y, x);
    var v := (acc.shift * 64 + x) % UINT_RANGE;
    ByteOfRegister(v, y, x);
  }

  /** Bits 4 to 11, 2 to 9 and 0 to 7 of a register whose low twelve bits are two characters. */
  lemma ByteOfRegister(v: nat, y: nat, x: nat)
    requires v % 4096 == y * 64 + x && x < 64 && y < 64
    ensures v / 16 % 256 == y * 4 + x / 16
    ensures v / 4 % 256 == y % 16 * 16 + x / 4
    ensures v % 256 == y % 4 * 64 + x
  {
    var k := v / 4096;
    FieldOf(v, 16, k, y * 4 + x / 16, x % 16);
    FieldOf(v, 4, 4 * k + y / 16, y % 16 * 16 + x / 4, x % 4);
    FieldOf(v, 1, 16 * k + y / 4, y % 4 * 64 + x, 0);
  }

  lemma FieldOf(v: nat, unit: nat, high: nat, field: nat, low: nat)
    requires 0 <= low < unit && field < 256 && v == unit * (256 * high + field) + low
    ensures v / unit % 256 == field
  {
    DivModUnique(v, unit, 256 * high + field, low);
    DivModUnique(256 * high + field, 256, high, field);
  }

  lemma {:induction false} DecodeStep(acc: Acc, ch: Byte, rest: seq<Byte>)
    requires Sane(acc) && !Ends(acc, ch)
    ensures DecodeFrom(acc, [ch] + rest) == DecodeFrom(Feed(acc, ch), rest)
  {
    assert ([ch] + rest)[1..] == rest;
  }

  /** Two characters of a group, starting on a byte boundary. */
  lemma TwoSymbols(acc: Acc, v0: Byte, v1: Byte, rest: seq<Byte>) returns (next: Acc)
    requires Sane(acc) && acc.nbits == 0 && v0 < 64 && v1 < 64
    ensures next.nbits == 4 && next.shift % 64 == v1 && !next.hadpad && next.out == acc.out + [v0 * 4 + v1 / 16]
    ensures DecodeFrom(acc, [Symbol(v0)] + ([Symbol(v1)] + rest)) == DecodeFrom(next, rest)
  {
    var mid := Absorb(acc, v0);
    next := Absorb(mid, v1);
    hide DecodeFrom, Feed, Absorb, Symbol;
    FeedSymbol(acc, v0);
    AbsorbMeaning(acc, acc.shift % 64, v0);
    FeedSymbol(mid, v1);
    AbsorbMeaning(mid, v0, v1);
    DecodeStep(acc, Symbol(v0), [Symbol(v1)] + rest);
    DecodeStep(mid, Symbol(v1), rest);
  }

  lemma ThirdSymbol(acc: Acc, v1: Byte, v2: Byte, rest: seq<Byte>) returns (next: Acc)
    requires Sane(acc) && acc.nbits == 4 && v2 < 64 && acc.shift % 64 == v1
    ensures next.nbits == 2 && next.shift % 64 == v2 && next.out == acc.out + [v1 % 16 * 16 + v2 / 4]
    ensures DecodeFrom(acc, [Symbol(v2)] + rest) == DecodeFrom(next, rest)
  {
    next := Absorb(acc, v2);
    hide DecodeFrom, Feed, Absorb, Symbol;
    FeedSymbol(acc, v2);
    AbsorbMeaning(acc, v1, v2);
    DecodeStep(acc, Symbol(v2), rest);
  }

  lemma FourthSymbol(acc: Acc, v2: Byte, v3: Byte, rest: seq<Byte>) returns (next: Acc)
    requires Sane(acc) && acc.nbits == 2 && v3 < 64 && acc.shift % 64 == v2
    ensures next.nbits == 0 && next.out == acc.out + [v2 % 4 * 64 + v3]
    ensures DecodeFrom(acc, [Symbol(v3)] + rest) == DecodeFrom(next, rest)
  {
    next := Absorb(acc, v3);
    hide DecodeFrom, Feed, Absorb, Symbol;
    FeedSymbol(acc, v3);
    AbsorbMeaning(acc, v2, v3);
    DecodeStep(acc, Symbol(v3), rest);
  }

  lemma FullGroup(acc: Acc, a: Byte, b: Byte, c: Byte, rest: seq<Byte>) returns (next: Acc)
    requires Sane(acc) && acc.nbits == 0
    ensures next.nbits == 0 && next.out == acc.out + [a, b, c]
    ensures DecodeFrom(acc, Symbols(Quad(a, b, c)) + rest) == DecodeFrom(next, rest)
  {
    hide DecodeFrom, Symbol, Symbols, Quad;
    var v := Quad(a, b, c);
    var s := [Symbol(v[2])] + ([Symbol(v[3])] + rest);
    var x := TwoSymbols(acc, v[0], v[1], s);
    var y := ThirdSymbol(x, v[1], v[2], [Symbol(v[3])] + rest);
    next := FourthSymbol(y, v[2], v[3], rest);
    FourSymbols(v, rest);
    GroupBytes(a, b, c);
    assert acc.out + [a] + [b] + [c] == acc.out + [a, b, c];
  }

  lemma FourSymbols(v: seq<Byte>, rest: seq<Byte>)
    requires |v| == 4 && forall i :: 0 <= i < 4 ==> v[i] <= 64
    ensures Symbols(v) + rest == [Symbol(v[0])] + ([Symbol(v[1])] + ([Symbol(v[2])] + ([Symbol(v[3])] + rest)))
  {
    hide Symbol;
  }

  lemma GroupBytes(a: Byte, b: Byte, c: Byte)
    ensures var v := Quad(a, b, c);
            v[0] * 4 + v[1] / 16 == a && v[1] % 16 * 16 + v[2] / 4 == b && v[2] % 4 * 64 + v[3] == c
  {
  }

  lemma OnePadded(acc: Acc, a: Byte, rest: seq<Byte>)
    requires Sane(acc) && acc.nbits == 0
    ensures DecodeFrom(acc, [Symbol(a / 4)] + ([Symbol(a % 4 * 16)] + ([PAD] + ([PAD] + rest)))) == Ok(acc.out + [a])
  {
    var x := TwoSymbols(acc, a / 4, a % 4 * 16, [PAD] + ([PAD] + rest));
    DecodeStep(x, PAD, [PAD] + rest);
    assert Feed(x, PAD) == x.(hadpad := true);
    LastPad(x.(hadpad := true), rest);
  }

  lemma LastPad(acc: Acc, rest: seq<Byte>)
    requires Sane(acc) && Ends(acc, PAD)
    ensures DecodeFrom(acc, [PAD] + rest) == Ok(acc.out)
  {
  }

  lemma TwoPadded(acc: Acc, a: Byte, b: Byte, rest: seq<Byte>)
    requires Sane(acc) && acc.nbits == 0
    ensures DecodeFrom(acc, [Symbol(a / 4)] + ([Symbol(a % 4 * 16 + b / 16)] + ([Symbol(b % 16 * 4)] + ([PAD] + rest)))) ==
            Ok(acc.out + [a, b])
  {
    hide DecodeFrom, Symbol;
    var v1 := a % 4 * 16 + b / 16;
    var x := TwoSymbols(acc, a / 4, v1, [Symbol(b % 16 * 4)] + ([PAD] + rest));
    var y := ThirdSymbol(x, v1, b % 16 * 4, [PAD] + rest);
    LastPad(y, rest);
  }

  lemma PaddedGroup(acc: Acc, data: seq<Byte>, rest: seq<Byte>)
    requires Sane(acc) && acc.nbits == 0 && 1 <= |data| <= 2
    ensures DecodeFrom(acc, Symbols(Values(data)) + rest) == Ok(acc.out + data)
  {
    hide DecodeFrom, Values;
    var a := data[0];
    if |data| == 1 {
      assert data == [a];
      OneLeft(a);
      OnePadded(acc, a, rest);
      assert Symbols(Values(data)) + rest == [Symbol(a / 4)] + ([Symbol(a % 4 * 16)] + ([PAD] + ([PAD] + rest)));
    } else {
      var b := data[1];
      assert data == [a, b];
      TwoLeft(a, b);
      TwoPadded(acc, a, b, rest);
      assert Symbols(Values(data)) + rest ==
             [Symbol(a / 4)] + ([Symbol(a % 4 * 16 + b / 16)] + ([Symbol(b % 16 * 4)] + ([PAD] + rest)));
    }
  }

  lemma EncodedSplit(data: seq<Byte>, newline: bool)
    requires |data| >= 3
    ensures Encoded(data, newline) == Symbols(Quad(data[0], data[1], data[2])) + Encoded(data[3..], newline)
  {
    hide Quad, Symbol;
    var q := Quad(data[0], data[1], data[2]);
    assert Symbols(Values(data)) == Symbols(q) + Symbols(Values(data[3..]));
  }

  lemma {:induction false} RoundTripFrom(acc: Acc, data: seq<Byte>, newline: bool)
    requires Sane(acc) && acc.nbits == 0
    ensures DecodeFrom(acc, Encoded(data, newline)) == Ok(acc.out + data)
    decreases |data|
  {
    if |data| == 0 {
      if newline {
        assert Encoded(data, newline) == [NEWLINE] + [];
        DecodeStep(acc, NEWLINE, []);
      }
      assert acc.out + data == acc.out;
    } else {
      RoundTripGroup(acc, data, newline);
    }
  }

  lemma {:induction false} RoundTripGroup(acc: Acc, data: seq<Byte>, newline: bool)
    requires Sane(acc) && acc.nbits == 0 && |data| > 0
    ensures DecodeFrom(acc, Encoded(data, newline)) == Ok(acc.out + data)
    decreases |data|, 0
  {
    hide DecodeFrom, Values, Quad, Symbols;
    if |data| <= 2 {
      PaddedGroup(acc, data, if newline then [NEWLINE] else []);
    } else {
      var next := FullGroup(acc, data[0], data[1], data[2], Encoded(data[3..], newline));
      EncodedSplit(data, newline);
      RoundTripFrom(next, data[3..], newline);
      assert acc.out + data == acc.out + [data[0], data[1], data[2]] + data[3..];
    }
  }

  /** Decoding an encoding gives the original bytes back, for every byte string,
      with or without the trailing newline. */
  lemma RoundTrip(data: seq<Byte>, newline: bool)
    ensures Decode(Encoded(data, newline)) == Ok(data)
  {
    RoundTripFrom(Acc(0, 0, false, []), data, newline);
    assert [] + data == data;
  }

  // ---------- Foreign characters ----------

  predicate Foreign(ch: Byte) { Sextet(ch) == -1 && ch != PAD }

  /** The text without characters that are neither in the alphabet nor padding. */
  function Stripped(text: seq<Byte>): seq<Byte> {
    if text == [] then []
    else if Foreign(text[0]) then Stripped(text[1..])
    else [text[0]] + Stripped(text[1..])
  }

  lemma {:induction false} ForeignIgnoredFrom(acc: Acc, text: seq<Byte>)
    requires Sane(acc)
    ensures DecodeFrom(acc, text) == DecodeFrom(acc, Stripped(text))
    decreases |text|
  {
    if text == [] {
    } else if Foreign(text[0]) {
      ForeignIgnoredFrom(acc, text[1..]);
    } else {
      assert ([text[0]] + Stripped(text[1..]))[1..] == Stripped(text[1..]);
      if !Ends(acc, text[0]) {
        ForeignIgnoredFrom(Feed(acc, text[0]), text[1..]);
      }
    }
  }

  /** Characters outside the alphabet, inserted anywhere and in any number, never change the result. */
  lemma ForeignIgnored(a: seq<Byte>, b: seq<Byte>)
    requires Stripped(a) == Stripped(b)
    ensures Decode(a) == Decode(b)
  {
    ForeignIgnoredFrom(Acc(0, 0, false, []), a);
    ForeignIgnoredFrom(Acc(0, 0, false, []), b);
  }

  lemma {:induction false} InsertForeign(a: seq<Byte>, noise: seq<Byte>, b: seq<Byte>)
    requires forall i :: 0 <= i < |noise| ==> Foreign(noise[i])
    ensures Stripped(a + noise + b) == Stripped(a + b)
    decreases |a|, |noise|
  {
    if a != [] {
      assert (a + noise + b)[1..] == a[1..] + noise + b && (a + b)[1..] == a[1..] + b;
      InsertForeign(a[1..], noise, b);
    } else if noise != [] {
      assert (a + noise + b)[1..] == a + noise[1..] + b;
      InsertForeign(a, noise[1..], b);
    } else {
      assert a + noise + b == a + b;
    }
  }

  /** An encoding still decodes to its data after any foreign characters are inserted at one place. */
  lemma NoisyRoundTrip(data: seq<Byte>, newline: bool, at: nat, noise: seq<Byte>)
    requires at <= |Encoded(data, newline)|
    requires forall i :: 0 <= i < |noise| ==> Foreign(noise[i])
    ensures var text := Encoded(data, newline);
            Decode(text[..at] + noise + text[at..]) == Ok(data)
  {
    var text := Encoded(data, newline);
    InsertForeign(text[..at], noise, text[at..]);
    assert text[..at] + text[at..] == text;
    ForeignIgnored(text[..at] + noise + text[at..], text);
    RoundTrip(data, newline);
  }
}
