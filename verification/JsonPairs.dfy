/** Where `modjson.c` departs from section 2.5 of RFC 4627: a pair of \u escapes for a character outside the basic
    plane is not combined. A text is read as the standard says exactly when it has no such pair. */
module JsonPairs {
  import opened Bytes
  import opened JsonCorrect
  import opened JsonLexer
  import opened JsonLoad
  import opened JsonText
  import Utf8

  predicate NoPairs(s: seq<Ch>) {
    s == [] || (!s[0].Pair? && NoPairs(s[1..]))
  }

  function PairCount(s: seq<Ch>): nat {
    if s == [] then 0 else (if s[0].Pair? then 1 else 0) + PairCount(s[1..])
  }

  lemma ChLength(c: Ch)
    requires ChOk(c)
    ensures !c.Pair? ==> ChBytes(c, false) == ChBytes(c, true)
    ensures c.Pair? ==> |ChBytes(c, false)| == 6 && |ChBytes(c, true)| == 4
  {
    hide HexCode;
  }

  /** Every pair takes six bytes instead of four. */
  lemma {:induction false} PairsLengthen(s: seq<Ch>)
    requires StrOk(s)
    ensures |StrBytes(s, false)| == |StrBytes(s, true)| + 2 * PairCount(s)
    ensures NoPairs(s) ==> StrBytes(s, false) == StrBytes(s, true)
    ensures NoPairs(s) <==> PairCount(s) == 0
  {
    hide ChBytes, ChOk;
    if s == [] {
    } else {
      ChLength(s[0]);
      PairsLengthen(s[1..]);
    }
  }

  /** A string is read as section 2.5 of RFC 4627 says if and only if it has no surrogate pair. */
  lemma StringAsWritten(s: seq<Ch>, k: seq<Byte>)
    requires StrOk(s)
    ensures StringBody(StrText(s, k), []) == Lexed(Scalar(PStr(StrBytes(s, true))), k) <==> NoPairs(s)
  {
    hide StringBody, StrText, StrBytes, StrOk, NoPairs, PairCount;
    StringReads(s, k);
    PairsLengthen(s);
  }

  // ---------- Whole values ----------

  predicate PairFree(c: Cst) {
    match c
    case CStr(chars) => NoPairs(chars)
    case CArr(_, items) => PairFreeItems(items)
    case CObj(_, members) => PairFreeMembers(members)
    case _ => true
  }

  predicate PairFreeItems(items: Items) {
    items.Item? ==> PairFree(items.v) && PairFreeItems(items.tail)
  }

  predicate PairFreeMembers(members: Members) {
    members.Member? ==> NoPairs(members.name) && PairFree(members.v) && PairFreeMembers(members.tail)
  }

  /** `name` is the name of a member. */
  predicate HasName(members: Members, name: seq<Ch>) {
    members.Member? && (members.name == name || HasName(members.tail, name))
  }

  predicate HasKey(members: Members, joined: bool, key: seq<Byte>)
    requires MembersOk(members)
  {
    members.Member? && (StrBytes(members.name, joined) == key || HasKey(members.tail, joined, key))
  }

  /** No object has two members of the same name. */
  predicate Distinct(c: Cst)
    requires CstOk(c)
  {
    match c
    case CArr(_, items) => DistinctItems(items)
    case CObj(_, members) => DistinctNames(members) && DistinctMembers(members)
    case _ => true
  }

  predicate DistinctItems(items: Items)
    requires ItemsOk(items)
  {
    items.Item? ==> Distinct(items.v) && DistinctItems(items.tail)
  }

  predicate DistinctMembers(members: Members)
    requires MembersOk(members)
  {
    members.Member? ==> Distinct(members.v) && DistinctMembers(members.tail)
  }

  predicate DistinctNames(members: Members)
    requires MembersOk(members)
  {
    members.Member? ==> !HasKey(members.tail, true, StrBytes(members.name, true)) && DistinctNames(members.tail)
  }

  // ---------- Without pairs both readings agree ----------

  lemma {:induction false} PairFreeAgrees(c: Cst)
    requires CstOk(c) && PairFree(c)
    ensures Meaning(c, false) == Meaning(c, true)
    decreases c
  {
    hide StrBytes;
    match c
    case CStr(chars) => PairsLengthen(chars);
    case CArr(_, items) => PairFreeItemsAgree(items);
    case CObj(_, members) => PairFreeMembersAgree(members, map[]);
    case _ =>
  }

  lemma {:induction false} PairFreeItemsAgree(items: Items)
    requires ItemsOk(items) && PairFreeItems(items)
    ensures ItemsMeaning(items, false) == ItemsMeaning(items, true)
    decreases items
  {
    if items == NoItems {
    } else {
      PairFreeAgrees(items.v);
      PairFreeItemsAgree(items.tail);
    }
  }

  lemma {:induction false} PairFreeMembersAgree(members: Members, acc: map<Prim, Value>)
    requires MembersOk(members) && PairFreeMembers(members)
    ensures MembersMeaning(members, false, acc) == MembersMeaning(members, true, acc)
    decreases members
  {
    hide StrBytes, StrOk, NoPairs;
    if members == NoMembers {
    } else {
      PairFreeAgrees(members.v);
      PairsLengthen(members.name);
      PairFreeMembersAgree(members.tail, acc[PStr(StrBytes(members.name, false)) := Meaning(members.v, false)]);
    }
  }

  // ---------- Names ----------

  lemma {:induction false} KeysAre(members: Members, joined: bool, acc: map<Prim, Value>, key: seq<Byte>)
    requires MembersOk(members)
    ensures PStr(key) in MembersMeaning(members, joined, acc) <==> PStr(key) in acc || HasKey(members, joined, key)
    decreases members
  {
    hide StrBytes, StrOk, Meaning;
    if members == NoMembers {
    } else {
      var name := StrBytes(members.name, joined);
      KeysAre(members.tail, joined, acc[PStr(name) := Meaning(members.v, joined)], key);
    }
  }

  lemma {:induction false} NameIsKey(members: Members, joined: bool, name: seq<Ch>)
    requires MembersOk(members) && HasName(members, name)
    ensures StrOk(name) && HasKey(members, joined, StrBytes(name, joined))
  {
    hide StrBytes, StrOk;
    if members.name != name {
      NameIsKey(members.tail, joined, name);
    }
  }

  lemma {:induction false} KeyIsName(members: Members, joined: bool, key: seq<Byte>) returns (name: seq<Ch>)
    requires MembersOk(members) && HasKey(members, joined, key)
    ensures StrOk(name) && HasName(members, name) && StrBytes(name, joined) == key
  {
    hide StrBytes, StrOk;
    if StrBytes(members.name, joined) == key {
      name := members.name;
    } else {
      name := KeyIsName(members.tail, joined, key);
    }
  }

  lemma {:induction false} SameKeySameName(members: Members, a: seq<Ch>, b: seq<Ch>)
    requires MembersOk(members) && DistinctNames(members) && HasName(members, a) && HasName(members, b)
    requires StrOk(a) && StrOk(b) && StrBytes(a, true) == StrBytes(b, true)
    ensures a == b
  {
    hide StrBytes, StrOk;
    if members.name == a {
      if members.name != b {
        NameIsKey(members.tail, true, b);
      }
    } else if members.name == b {
      NameIsKey(members.tail, true, a);
    } else {
      SameKeySameName(members.tail, a, b);
    }
  }

  ghost predicate SameKeys(members: Members)
    requires MembersOk(members)
  {
    forall key :: HasKey(members, true, key) ==> HasKey(members, false, key)
  }

  /** A name with a pair would be the uncombined reading of a shorter name with a pair, without end. */
  lemma {:induction false} NameHasNoPairs(members: Members, name: seq<Ch>)
    requires MembersOk(members) && DistinctNames(members) && SameKeys(members) && HasName(members, name)
    ensures NoPairs(name)
    decreases if StrOk(name) then |StrBytes(name, true)| else 0
  {
    hide StrBytes, StrOk, NoPairs, PairCount, HasName, HasKey, MembersOk, DistinctNames;
    NameIsKey(members, true, name);
    var key := StrBytes(name, true);
    var other := KeyIsName(members, false, key);
    PairsLengthen(other);
    if !NoPairs(other) {
      NameHasNoPairs(members, other);
    } else {
      SameKeySameName(members, name, other);
    }
  }

  lemma {:induction false} NamesHaveNoPairs(members: Members, part: Members)
    requires MembersOk(members) && DistinctNames(members) && SameKeys(members)
    requires forall name :: HasName(part, name) ==> HasName(members, name)
    ensures forall name :: HasName(part, name) ==> NoPairs(name)
  {
    hide StrBytes, StrOk, NoPairs, HasName, HasKey, MembersOk, DistinctNames, SameKeys;
    forall name | HasName(part, name) ensures NoPairs(name) {
      NameHasNoPairs(members, name);
    }
  }

  // ---------- Values ----------

  ghost predicate PlainNames(members: Members) {
    members.Member? ==> NoPairs(members.name) && PlainNames(members.tail)
  }

  lemma {:induction false} PlainNamesAre(members: Members)
    requires forall name :: HasName(members, name) ==> NoPairs(name)
    ensures PlainNames(members)
  {
    hide NoPairs;
    if members == NoMembers {
    } else {
      assert HasName(members, members.name);
      forall name | HasName(members.tail, name) ensures NoPairs(name) {
        assert HasName(members, name);
      }
      PlainNamesAre(members.tail);
    }
  }

  /** A later member of another name does not replace an entry. */
  lemma {:induction false} EntryStays(members: Members, joined: bool, acc: map<Prim, Value>, key: seq<Byte>)
    requires MembersOk(members) && !HasKey(members, joined, key) && PStr(key) in acc
    ensures PStr(key) in MembersMeaning(members, joined, acc)
    ensures MembersMeaning(members, joined, acc)[PStr(key)] == acc[PStr(key)]
    decreases members
  {
    hide StrBytes, StrOk, Meaning;
    if members == NoMembers {
    } else {
      var name := StrBytes(members.name, joined);
      EntryStays(members.tail, joined, acc[PStr(name) := Meaning(members.v, joined)], key);
    }
  }

  lemma {:induction false} PlainKeys(members: Members, key: seq<Byte>)
    requires MembersOk(members) && PlainNames(members)
    ensures HasKey(members, false, key) <==> HasKey(members, true, key)
  {
    hide StrBytes, StrOk, NoPairs;
    if members == NoMembers {
    } else {
      PairsLengthen(members.name);
      PlainKeys(members.tail, key);
    }
  }

  ghost predicate ValuesAgree(members: Members)
    requires MembersOk(members)
  {
    members.Member? ==> Meaning(members.v, false) == Meaning(members.v, true) && ValuesAgree(members.tail)
  }

  lemma {:induction false} EqualMapsAgree(members: Members, acc: map<Prim, Value>, acc2: map<Prim, Value>)
    requires MembersOk(members) && PlainNames(members) && DistinctNames(members)
    requires MembersMeaning(members, false, acc) == MembersMeaning(members, true, acc2)
    ensures ValuesAgree(members)
    decreases members
  {
    hide StrBytes, StrOk, NoPairs, Meaning;
    if members == NoMembers {
    } else {
      PairsLengthen(members.name);
      var key := StrBytes(members.name, true);
      var next := acc[PStr(key) := Meaning(members.v, false)];
      var next2 := acc2[PStr(key) := Meaning(members.v, true)];
      PlainKeys(members.tail, key);
      EntryStays(members.tail, false, next, key);
      EntryStays(members.tail, true, next2, key);
      EqualMapsAgree(members.tail, next, next2);
    }
  }

  lemma SameMapsSameKeys(members: Members)
    requires MembersOk(members) && MembersMeaning(members, false, map[]) == MembersMeaning(members, true, map[])
    ensures SameKeys(members)
  {
    hide HasKey, MembersMeaning, MembersOk;
    forall key | HasKey(members, true, key) ensures HasKey(members, false, key) {
      KeysAre(members, true, map[], key);
      KeysAre(members, false, map[], key);
    }
  }

  // ---------- Equal readings show that there are no pairs ----------

  lemma {:induction false} AgreeingIsPairFree(c: Cst)
    requires CstOk(c) && Distinct(c) && Meaning(c, false) == Meaning(c, true)
    ensures PairFree(c)
    decreases c
  {
    hide StrBytes, NoPairs, StrOk;
    match c
    case CStr(chars) => PairsLengthen(chars);
    case CArr(_, items) => AgreeingItems(items);
    case CObj(_, members) =>
      SameMapsSameKeys(members);
      NamesHaveNoPairs(members, members);
      PlainNamesAre(members);
      EqualMapsAgree(members, map[], map[]);
      AgreeingMembers(members);
    case _ =>
  }

  lemma {:induction false} AgreeingItems(items: Items)
    requires ItemsOk(items) && DistinctItems(items) && ItemsMeaning(items, false) == ItemsMeaning(items, true)
    ensures PairFreeItems(items)
    decreases items
  {
    hide Meaning;
    if items == NoItems {
    } else {
      assert ItemsMeaning(items, false)[0] == Meaning(items.v, false);
      assert ItemsMeaning(items, true)[0] == Meaning(items.v, true);
      assert ItemsMeaning(items, false)[1..] == ItemsMeaning(items.tail, false);
      assert ItemsMeaning(items, true)[1..] == ItemsMeaning(items.tail, true);
      AgreeingIsPairFree(items.v);
      AgreeingItems(items.tail);
    }
  }

  lemma {:induction false} AgreeingMembers(members: Members)
    requires MembersOk(members) && DistinctMembers(members) && PlainNames(members) && ValuesAgree(members)
    ensures PairFreeMembers(members)
    decreases members
  {
    hide Meaning, NoPairs, StrOk;
    if members == NoMembers {
    } else {
      AgreeingIsPairFree(members.v);
      AgreeingMembers(members.tail);
    }
  }

  // ---------- The parser against RFC 4627 ----------

  lemma ReadsOne(text: seq<Byte>, v: Value, w: Value)
    requires Reads(text, v) && Reads(text, w)
    ensures v == w
  {
    hide Load, Denotes;
    var r := Load(text, START);
    DenotesOne(r.store, 0, r.obj, v, w);
  }

  /** A text whose names are distinct is read as RFC 4627 says if and only if it has no surrogate pair. */
  lemma DocumentAsWritten(lead: seq<Byte>, c: Cst, trail: seq<Byte>)
    requires IsWs(lead) && CstOk(c) && IsWs(trail) && Distinct(c)
    ensures Reads(Document(lead, c, trail), Meaning(c, true)) <==> PairFree(c)
  {
    hide Reads, Document, Meaning, PairFree, Distinct, IsWs, CstOk;
    DocumentLoads(lead, c, trail);
    if PairFree(c) {
      PairFreeAgrees(c);
    }
    if Reads(Document(lead, c, trail), Meaning(c, true)) {
      ReadsOne(Document(lead, c, trail), Meaning(c, false), Meaning(c, true));
      AgreeingIsPairFree(c);
    }
  }

  /** U+1F600 written as the pair D83D DE00. */
  const GRIN: seq<Ch> := [Pair([100, 56, 51, 100], [100, 101, 48, 48])]

  /** A string of one such pair becomes two encoded surrogates. */
  lemma GrinIsSplit()
    ensures StrOk(GRIN) && StrBytes(GRIN, true) == [0xF0, 0x9F, 0x98, 0x80]
    ensures !Reads(Document([], CStr(GRIN), []), VPrim(PStr([0xF0, 0x9F, 0x98, 0x80])))
  {
    hide Reads, Document;
    GrinCodes();
    DocumentAsWritten([], CStr(GRIN), []);
  }

  lemma GrinCodes()
    ensures StrOk(GRIN) && StrBytes(GRIN, true) == [0xF0, 0x9F, 0x98, 0x80] && !NoPairs(GRIN)
  {
    assert HexCode(GRIN[0].hi) == 0xD83D;
    assert HexCode(GRIN[0].lo) == 0xDE00;
    assert GRIN[1..] == [];
    var v := 0x10000 + 0x400 * (0xD83D - 0xD800) + (0xDE00 - 0xDC00);
    assert v == 0x1F600;
    assert Utf8.Encoded(0x1F600) == [0xF0, 0x9F, 0x98, 0x80];
    assert ChBytes(GRIN[0], true) == Utf8.Encoded(v);
  }
}
