/** UTF-8 as MicroPython writes it (`py/vstr.c`) and checks it (`py/unicode.c`). */
module Utf8 {
  import opened Bytes

  /** `vstr_add_char`: the bytes of a code point. */
  function Encoded(c: nat): seq<Byte> {
    if c < 0x80 then [c]
    else if c < 0x800 then [(c / 64 + 0xC0) % 256, c % 64 + 0x80]
    else if c < 0x10000 then [(c / 4096 + 0xE0) % 256, c / 64 % 64 + 0x80, c % 64 + 0x80]
    else [(c / 262144 + 0xF0) % 256, c / 4096 % 64 + 0x80, c / 64 % 64 + 0x80, c % 64 + 0x80]
  }

  /** How many more bytes a lead byte asks for. The source reads this off the bit table 0xe5. */
  function Follow(c: Byte): nat {
    if c < 0xE0 then 1 else if c < 0xF0 then 2 else 3
  }

  /** The check with `need` continuation bytes outstanding. */
  predicate Passes(s: seq<Byte>, need: nat)
    decreases |s|
  {
    if s == [] then need == 0
    else if need > 0 then 0x80 <= s[0] < 0xC0 && Passes(s[1..], need - 1)
    else if s[0] >= 0xC0 then s[0] < 0xF8 && Passes(s[1..], Follow(s[0]))
    else s[0] < 0x80 && Passes(s[1..], 0)
  }

  /** `utf8_check`. */
  method Check(s: seq<Byte>) returns (ok: bool)
    ensures ok <==> Passes(s, 0)
  {
    var need := 0;
    var p := 0;
    assert s[0..] == s;
    while p < |s|
      invariant 0 <= p <= |s| && need >= 0
      invariant Passes(s, 0) <==> Passes(s[p..], need)
    {
      var c := s[p];
      assert s[p..][1..] == s[p + 1..];
      if need > 0 {
        if 0x80 <= c < 0xC0 {
          need := need - 1;
        } else {
          return false;
        }
      } else if c >= 0xC0 {
        if c >= 0xF8 {
          return false;
        }
        need := Follow(c);
      } else if c >= 0x80 {
        return false;
      }
      p := p + 1;
    }
    ok := need == 0;
  }

  lemma {:induction false} PassesConcat(a: seq<Byte>, b: seq<Byte>, need: nat)
    requires Passes(a, need)
    ensures Passes(a + b, need) <==> Passes(b, 0)
    decreases |a|
  {
    if a == [] {
      assert a + b == b;
    } else {
      assert (a + b)[1..] == a[1..] + b;
      PassesConcat(a[1..], b, if need > 0 then need - 1 else if a[0] >= 0xC0 then Follow(a[0]) else 0);
    }
  }

  lemma PassesStep(c: Byte, s: seq<Byte>, need: nat)
    ensures Passes([c] + s, need) <==>
              if need > 0 then 0x80 <= c < 0xC0 && Passes(s, need - 1)
              else if c >= 0xC0 then c < 0xF8 && Passes(s, Follow(c))
              else c < 0x80 && Passes(s, 0)
  {
    assert ([c] + s)[1..] == s;
  }

  lemma PassesNone(need: nat)
    ensures Passes([], need) <==> need == 0
  {
  }

  /** Every code point passes once it is encoded, a surrogate too. */
  lemma EncodedPasses(c: nat)
    requires c < 0x110000
    ensures Passes(Encoded(c), 0)
  {
    hide Passes, Follow;
    if c < 0x80 {
      OneByte(c);
    } else if c < 0x800 {
      Lead(c / 64 + 0xC0, [c % 64 + 0x80]);
      assert Encoded(c) == [c / 64 + 0xC0] + [c % 64 + 0x80];
      Tail1(c % 64);
    } else if c < 0x10000 {
      Lead(c / 4096 + 0xE0, [c / 64 % 64 + 0x80, c % 64 + 0x80]);
      assert Encoded(c) == [c / 4096 + 0xE0] + [c / 64 % 64 + 0x80, c % 64 + 0x80];
      Tail2(c / 64 % 64, c % 64);
    } else {
      Lead(c / 262144 + 0xF0, [c / 4096 % 64 + 0x80, c / 64 % 64 + 0x80, c % 64 + 0x80]);
      assert Encoded(c) == [c / 262144 + 0xF0] + [c / 4096 % 64 + 0x80, c / 64 % 64 + 0x80, c % 64 + 0x80];
      Tail3(c / 4096 % 64, c / 64 % 64, c % 64);
    }
  }

  /** Outside ASCII, only bytes from 0x80 on are used. */
  lemma EncodedIsHigh(c: nat)
    requires 0x80 <= c < 0x110000
    ensures forall i :: 0 <= i < |Encoded(c)| ==> Encoded(c)[i] >= 0x80
  {
    if c < 0x800 {
      var lead := c / 64;
      assert lead < 0x20;
    } else if c < 0x10000 {
      var lead := c / 4096;
      assert lead < 0x10;
    } else {
      var lead := c / 262144;
      assert lead < 0x10;
    }
  }

  lemma OneByte(c: Byte)
    requires c < 0x80
    ensures Passes([c], 0)
  {
    hide Passes;
    PassesNone(0);
    PassesStep(c, [], 0);
    assert [c] + [] == [c];
  }

  lemma Lead(c: Byte, tail: seq<Byte>)
    requires 0xC0 <= c < 0xF8
    ensures Passes([c] + tail, 0) <==> Passes(tail, if c < 0xE0 then 1 else if c < 0xF0 then 2 else 3)
  {
    hide Passes;
    PassesStep(c, tail, 0);
  }

  lemma Tail1(a: nat)
    requires a < 64
    ensures Passes([a + 0x80], 1)
  {
    hide Passes;
    PassesNone(0);
    PassesStep(a + 0x80, [], 1);
    assert [a + 0x80] + [] == [a + 0x80];
  }

  lemma Tail2(a: nat, b: nat)
    requires a < 64 && b < 64
    ensures Passes([a + 0x80, b + 0x80], 2)
  {
    hide Passes;
    Tail1(b);
    PassesStep(a + 0x80, [b + 0x80], 2);
    assert [a + 0x80] + [b + 0x80] == [a + 0x80, b + 0x80];
  }

  lemma Tail3(a: nat, b: nat, c: nat)
    requires a < 64 && b < 64 && c < 64
    ensures Passes([a + 0x80, b + 0x80, c + 0x80], 3)
  {
    hide Passes;
    Tail2(b, c);
    PassesStep(a + 0x80, [b + 0x80, c + 0x80], 3);
    assert [a + 0x80] + [b + 0x80, c + 0x80] == [a + 0x80, b + 0x80, c + 0x80];
  }

  // ---------- What the bytes mean ----------

  /** How many bytes a code point takes (section 3 of RFC 3629). */
  function Width(c: nat): nat {
    if c <= 0x7F then 1 else if c <= 0x7FF then 2 else if c <= 0xFFFF then 3 else 4
  }

  /** Six more bits for every continuation byte. */
  function Continued(acc: nat, s: seq<Byte>): nat
    decreases |s|
  {
    if s == [] then acc else Continued(64 * acc + s[0] % 64, s[1..])
  }

  /** The code point of a sequence of bytes: the low bits of the lead byte, then those of the others. */
  function Decoded(s: seq<Byte>): nat
    requires s != []
  {
    var bits := if |s| == 1 then 128 else if |s| == 2 then 32 else if |s| == 3 then 16 else 8;
    Continued(s[0] % bits, s[1..])
  }

  /** An encoded code point is as long as it should be, and decodes to itself. */
  lemma DecodesBack(c: nat)
    requires c < 0x110000
    ensures |Encoded(c)| == Width(c) && Decoded(Encoded(c)) == c
  {
    hide Continued;
    var e := Encoded(c);
    if c < 0x80 {
      ContinuedNone(c, e[1..]);
    } else if c < 0x800 {
      LowBits(c / 64, 32, 0xC0);
      ContinuedOne(c / 64, c, e[1..]);
    } else if c < 0x10000 {
      LowBits(c / 4096, 16, 0xE0);
      ContinuedTwo(c / 4096, c, e[1..]);
    } else {
      LowBits(c / 262144, 8, 0xF0);
      ContinuedThree(c / 262144, c, e[1..]);
    }
  }

  lemma LowBits(lead: nat, bits: nat, mark: nat)
    requires lead < bits && ((bits == 32 && mark == 0xC0) || (bits == 16 && mark == 0xE0) || (bits == 8 && mark == 0xF0))
    ensures (lead + mark) % 256 == lead + mark && (lead + mark) % bits == lead
  {
  }

  lemma ContinuedNone(acc: nat, s: seq<Byte>)
    requires s == []
    ensures Continued(acc, s) == acc
  {
  }

  /** One more byte with the low bits `low`. */
  lemma ContinuedStep(acc: nat, low: nat, s: seq<Byte>)
    requires low < 64
    ensures Continued(acc, [low + 0x80] + s) == Continued(64 * acc + low, s)
  {
    assert ([low + 0x80] + s)[1..] == s;
  }

  lemma ContinuedOne(acc: nat, c: nat, s: seq<Byte>)
    requires s == [c % 64 + 0x80] && acc == c / 64
    ensures Continued(acc, s) == c
  {
    hide Continued;
    assert s == [c % 64 + 0x80] + [];
    ContinuedStep(acc, c % 64, []);
    ContinuedNone(c, []);
  }

  lemma ContinuedTwo(acc: nat, c: nat, s: seq<Byte>)
    requires s == [c / 64 % 64 + 0x80, c % 64 + 0x80] && acc == c / 4096
    ensures Continued(acc, s) == c
  {
    hide Continued;
    assert s == [c / 64 % 64 + 0x80] + [c % 64 + 0x80];
    ContinuedStep(acc, c / 64 % 64, [c % 64 + 0x80]);
    assert 64 * acc + c / 64 % 64 == c / 64;
    ContinuedOne(c / 64, c, [c % 64 + 0x80]);
  }

  lemma ContinuedThree(acc: nat, c: nat, s: seq<Byte>)
    requires s == [c / 4096 % 64 + 0x80, c / 64 % 64 + 0x80, c % 64 + 0x80] && acc == c / 262144
    ensures Continued(acc, s) == c
  {
    hide Continued;
    var rest := [c / 64 % 64 + 0x80, c % 64 + 0x80];
    assert s == [c / 4096 % 64 + 0x80] + rest;
    ContinuedStep(acc, c / 4096 % 64, rest);
    HighBits(c);
    ContinuedTwo(c / 4096, c, rest);
  }

  lemma HighBits(c: nat)
    ensures 64 * (c / 262144) + c / 4096 % 64 == c / 4096
  {
  }

  // ---------- What passes ----------

  predicate IsContinuation(b: Byte) { 0x80 <= b <= 0xBF }

  /** One character as far as the check looks at it: the lead byte tells how many continuation bytes follow. */
  predicate IsCharacter(s: seq<Byte>) {
    && 1 <= |s| <= 4
    && (|s| == 1 ==> s[0] <= 0x7F)
    && (|s| == 2 ==> 0xC0 <= s[0] <= 0xDF)
    && (|s| == 3 ==> 0xE0 <= s[0] <= 0xEF)
    && (|s| == 4 ==> 0xF0 <= s[0] <= 0xF7)
    && forall i :: 1 <= i < |s| ==> IsContinuation(s[i])
  }

  ghost predicate IsCharacters(s: seq<Byte>)
    decreases |s|
  {
    s == [] || exists n :: 1 <= n <= |s| && IsCharacter(s[..n]) && IsCharacters(s[n..])
  }

  /** The check accepts exactly the strings that are cut into such characters. */
  lemma {:induction false} PassesIsCharacters(s: seq<Byte>)
    ensures Passes(s, 0) <==> IsCharacters(s)
    decreases |s|
  {
    hide Passes;
    if s == [] {
      PassesNone(0);
    } else {
      var n := if s[0] < 0xC0 then 1 else Follow(s[0]) + 1;
      assert s == [s[0]] + s[1..];
      PassesStep(s[0], s[1..], 0);
      if s[0] < 0x80 {
        assert IsCharacter(s[..1]);
      }
      ContinuationsPass(s[1..], n - 1);
      if n <= |s| {
        assert s[1..][n - 1..] == s[n..];
        PassesIsCharacters(s[n..]);
        CharacterLength(s, n);
      }
      forall m | 1 <= m <= |s| && IsCharacter(s[..m])
        ensures m == n
      {
        assert s[..m][0] == s[0];
      }
    }
  }

  lemma CharacterLength(s: seq<Byte>, n: nat)
    requires 1 <= n <= |s| && n == if s[0] < 0xC0 then 1 else Follow(s[0]) + 1
    ensures IsCharacter(s[..n]) <==>
              (s[0] < 0x80 || 0xC0 <= s[0] < 0xF8) && forall i :: 0 <= i < n - 1 ==> IsContinuation(s[1..][i])
  {
    var t := s[..n];
    assert t[0] == s[0];
    assert forall i :: 1 <= i < n ==> t[i] == s[1..][i - 1];
    if IsCharacter(t) {
      forall i | 0 <= i < n - 1 ensures IsContinuation(s[1..][i]) {
        assert IsContinuation(t[i + 1]);
      }
    }
  }

  lemma {:induction false} ContinuationsPass(s: seq<Byte>, need: nat)
    ensures Passes(s, need) <==> need <= |s| && (forall i :: 0 <= i < need ==> IsContinuation(s[i])) && Passes(s[need..], 0)
    decreases need
  {
    hide Passes;
    if need == 0 {
      assert s[0..] == s;
    } else if s == [] {
      PassesNone(need);
    } else {
      assert s == [s[0]] + s[1..];
      PassesStep(s[0], s[1..], need);
      ContinuationsPass(s[1..], need - 1);
      if need <= |s| {
        assert s[1..][need - 1..] == s[need..];
        assert forall i :: 0 <= i < need - 1 ==> s[1..][i] == s[i + 1];
        assert forall i :: 1 <= i < need ==> s[i] == s[1..][i - 1];
      }
    }
  }
}
