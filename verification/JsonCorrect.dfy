/** The explicit-stack parser of `modjson.c` builds exactly the value that a JSON text denotes. */
module JsonCorrect {
  import opened Bytes
  import opened JsonLexer
  import opened JsonLoad
  import opened JsonText
  import Utf8

  // ---------- What an object in the store stands for ----------

  /** `o`, followed through containers of index at least `lo`, is the tree `v`. */
  ghost predicate Denotes(store: seq<Container>, lo: nat, o: Obj, v: Value)
    decreases v
  {
    match v
    case VPrim(p) => o == Atom(p)
    case VArray(vs) =>
      && o.Ref? && lo <= o.id < |store| && store[o.id].ListC? && |store[o.id].items| == |vs|
      && forall i :: 0 <= i < |vs| ==> Denotes(store, lo, store[o.id].items[i], vs[i])
    case VObject(es) =>
      && o.Ref? && lo <= o.id < |store| && store[o.id].DictC? && store[o.id].entries.Keys == es.Keys
      && forall k :: k in es ==> Denotes(store, lo, store[o.id].entries[k], es[k])
  }

  ghost predicate DenotesSeq(store: seq<Container>, lo: nat, objs: seq<Obj>, vs: seq<Value>) {
    |objs| == |vs| && forall i :: 0 <= i < |vs| ==> Denotes(store, lo, objs[i], vs[i])
  }

  ghost predicate DenotesMap(store: seq<Container>, lo: nat, d: map<Prim, Obj>, es: map<Prim, Value>) {
    d.Keys == es.Keys && forall k :: k in es ==> Denotes(store, lo, d[k], es[k])
  }

  lemma DenotesList(store: seq<Container>, lo: nat, id: nat, vs: seq<Value>)
    requires lo <= id < |store| && store[id].ListC? && DenotesSeq(store, lo, store[id].items, vs)
    ensures Denotes(store, lo, Ref(id), VArray(vs))
  {
  }

  lemma DenotesDict(store: seq<Container>, lo: nat, id: nat, es: map<Prim, Value>)
    requires lo <= id < |store| && store[id].DictC? && DenotesMap(store, lo, store[id].entries, es)
    ensures Denotes(store, lo, Ref(id), VObject(es))
  {
  }

  /** `s2` keeps the containers of `s1` from `lo` on. */
  ghost predicate Extends(s1: seq<Container>, s2: seq<Container>, lo: nat) {
    |s1| <= |s2| && forall i :: lo <= i < |s1| ==> s2[i] == s1[i]
  }

  /** An object does not change its meaning when only older containers change and new ones are made. */
  lemma {:induction false} DenotesFrame(s1: seq<Container>, s2: seq<Container>, lo: nat, lo2: nat, o: Obj, v: Value)
    requires Denotes(s1, lo, o, v) && Extends(s1, s2, lo) && lo2 <= lo
    ensures Denotes(s2, lo2, o, v)
    decreases v
  {
    match v
    case VPrim(p) =>
    case VArray(vs) =>
      forall i | 0 <= i < |vs| ensures Denotes(s2, lo2, s2[o.id].items[i], vs[i]) {
        DenotesFrame(s1, s2, lo, lo2, s1[o.id].items[i], vs[i]);
      }
    case VObject(es) =>
      forall k | k in es ensures Denotes(s2, lo2, s2[o.id].entries[k], es[k]) {
        DenotesFrame(s1, s2, lo, lo2, s1[o.id].entries[k], es[k]);
      }
  }

  lemma DenotesSeqFrame(s1: seq<Container>, s2: seq<Container>, lo: nat, lo2: nat, objs: seq<Obj>, vs: seq<Value>)
    requires DenotesSeq(s1, lo, objs, vs) && Extends(s1, s2, lo) && lo2 <= lo
    ensures DenotesSeq(s2, lo2, objs, vs)
  {
    hide Denotes;
    forall i | 0 <= i < |vs| ensures Denotes(s2, lo2, objs[i], vs[i]) {
      DenotesFrame(s1, s2, lo, lo2, objs[i], vs[i]);
    }
  }

  lemma DenotesMapFrame(s1: seq<Container>, s2: seq<Container>, lo: nat, lo2: nat, d: map<Prim, Obj>, es: map<Prim, Value>)
    requires DenotesMap(s1, lo, d, es) && Extends(s1, s2, lo) && lo2 <= lo
    ensures DenotesMap(s2, lo2, d, es)
  {
    hide Denotes;
    forall k | k in es ensures Denotes(s2, lo2, d[k], es[k]) {
      DenotesFrame(s1, s2, lo, lo2, d[k], es[k]);
    }
  }

  /** An object stands for one tree only. */
  lemma {:induction false} DenotesOne(store: seq<Container>, lo: nat, o: Obj, v: Value, w: Value)
    requires Denotes(store, lo, o, v) && Denotes(store, lo, o, w)
    ensures v == w
    decreases v
  {
    match v
    case VPrim(p) =>
    case VArray(vs) =>
      forall i | 0 <= i < |vs| ensures vs[i] == w.items[i] {
        DenotesOne(store, lo, store[o.id].items[i], vs[i], w.items[i]);
      }
      assert vs == w.items;
    case VObject(es) =>
      forall k | k in es ensures es[k] == w.entries[k] {
        DenotesOne(store, lo, store[o.id].entries[k], es[k], w.entries[k]);
      }
      assert es == w.entries;
  }

  // ---------- Single rounds of the loop ----------

  lemma LoadStep(rest: seq<Byte>, m: Machine, m1: Machine)
    requires !End(rest) && Advance(m, Lex(rest).token) == Go(m1)
    ensures Load(rest, m) == Load(Lex(rest).rest, m1)
  {
    hide Lex, Advance;
  }

  lemma ByteLex(b: Byte, k: seq<Byte>)
    requires b != 0
    ensures !End([b] + k)
    ensures KindOf(b) == IsBlank ==> Lex([b] + k) == Lexed(Blank, k)
    ensures KindOf(b) == IsClose ==> Lex([b] + k) == Lexed(Close, k)
    ensures KindOf(b) == IsOpen(true) ==> Lex([b] + k) == Lexed(OpenList, k)
    ensures KindOf(b) == IsOpen(false) ==> Lex([b] + k) == Lexed(OpenDict, k)
  {
    hide KindOf;
    assert ([b] + k)[1..] == k;
  }

  lemma BlankLoads(b: Byte, k: seq<Byte>, m: Machine)
    requires b != 0 && KindOf(b) == IsBlank
    ensures Load([b] + k, m) == Load(k, m)
  {
    hide Lex, KindOf, Load;
    ByteLex(b, k);
    LoadStep([b] + k, m, m);
  }

  lemma {:induction false} SpaceLoads(w: seq<Byte>, k: seq<Byte>, m: Machine)
    requires IsWs(w)
    ensures Load(w + k, m) == Load(k, m)
  {
    hide Load;
    if w == [] {
      assert w + k == k;
    } else {
      assert w + k == [w[0]] + (w[1..] + k);
      BlankLoads(w[0], w[1..] + k, m);
      SpaceLoads(w[1..], k, m);
    }
  }

  /** The innermost open container can take a value now. */
  ghost predicate Receives(m: Machine) {
    && m.top.Some? && m.top.value.Ref? && m.top.value.id < |m.store|
    && (match m.store[m.top.value.id] case ListC(_) => m.key == None case DictC(_) => m.key != None)
  }

  function Put(c: Container, key: Option<Prim>, o: Obj): Container
    requires c.DictC? ==> key != None
  {
    match c
    case ListC(items) => ListC(items + [o])
    case DictC(entries) => DictC(entries[key.value := o])
  }

  /** What reading one value does to the parser: the value goes into the innermost open container, and nothing
      else that existed before changes. */
  ghost predicate Stored(m: Machine, m1: Machine, o: Obj)
    requires Receives(m)
  {
    var t := m.top.value.id;
    && m1.top == m.top && m1.stack == m.stack && m1.key == None
    && |m.store| <= |m1.store| && m1.store[t] == Put(m.store[t], m.key, o)
    && forall i :: 0 <= i < |m.store| && i != t ==> m1.store[i] == m.store[i]
  }

  /** After `[` or `{`: an empty container is in its parent and open. */
  function Opened(m: Machine, c: Container): Machine
    requires Receives(m)
  {
    var t := m.top.value.id;
    Machine((m.store + [c])[t := Put(m.store[t], m.key, Ref(|m.store|))], Some(Ref(|m.store|)), m.stack + [t], None)
  }

  lemma PlaceReceived(m: Machine, o: Obj, enter: bool)
    requires Receives(m)
    ensures var t := m.top.value.id;
            Place(m, o, enter) == Go(Enter(m.(store := m.store[t := Put(m.store[t], m.key, o)], key := None), t, o, enter))
  {
  }

  lemma ScalarLoads(rest: seq<Byte>, k: seq<Byte>, p: Prim, m: Machine) returns (m1: Machine)
    requires Receives(m) && !End(rest) && Lex(rest) == Lexed(Scalar(p), k)
    ensures Load(rest, m) == Load(k, m1) && Stored(m, m1, Atom(p))
  {
    hide Lex, Load, Place, Put;
    PlaceReceived(m, Atom(p), false);
    var t := m.top.value.id;
    m1 := m.(store := m.store[t := Put(m.store[t], m.key, Atom(p))], key := None);
    LoadStep(rest, m, m1);
  }

  lemma OpenLoads(b: Byte, k: seq<Byte>, c: Container, m: Machine)
    requires Receives(m)
    requires (b == LBRACKET && c == ListC([])) || (b == LBRACE && c == DictC(map[]))
    ensures Load([b] + k, m) == Load(k, Opened(m, c))
  {
    hide Lex, Load, Place, Put;
    ByteLex(b, k);
    var m0 := m.(store := m.store + [c]);
    PlaceReceived(m0, Ref(|m.store|), true);
    LoadStep([b] + k, m, Opened(m, c));
  }

  /** The innermost container is closed: its parent is on top again. */
  function Closed(m: Machine): Machine
    requires m.stack != []
  {
    m.(stack := m.stack[..|m.stack| - 1], top := Some(Ref(m.stack[|m.stack| - 1])))
  }

  lemma CloseLoads(b: Byte, k: seq<Byte>, m: Machine)
    requires b == RBRACKET || b == RBRACE
    requires m.top != None && m.stack != []
    ensures Load([b] + k, m) == Load(k, Closed(m))
  {
    hide Lex, Load;
    ByteLex(b, k);
    LoadStep([b] + k, m, Closed(m));
  }

  /** Opening a container, filling it and closing it stores it. */
  lemma OpenedClosed(m: Machine, c: Container, m1: Machine)
    requires Receives(m) && m1.top == Opened(m, c).top && m1.stack == Opened(m, c).stack && m1.key == None
    requires |Opened(m, c).store| <= |m1.store|
    requires forall i :: 0 <= i < |m.store| ==> m1.store[i] == Opened(m, c).store[i]
    ensures Stored(m, Closed(m1), Ref(|m.store|))
  {
    hide Put;
    assert (m.stack + [m.top.value.id])[..|m.stack|] == m.stack;
  }

  // ---------- Numbers end at the following byte ----------

  lemma SpaceEndsNumber(w: seq<Byte>, k: seq<Byte>)
    requires IsWs(w) && !IsNumberByte(Cur(k))
    ensures !IsNumberByte(Cur(w + k))
  {
    if w == [] {
      assert w + k == k;
    }
  }

  lemma ItemsMoreEndsNumber(before: seq<Byte>, tail: Items, k: seq<Byte>)
    requires !IsNumberByte(Cur(k))
    ensures !IsNumberByte(Cur(ItemsMore(before, tail, k)))
  {
    hide ItemsText;
  }

  lemma MembersMoreEndsNumber(before: seq<Byte>, tail: Members, k: seq<Byte>)
    requires !IsNumberByte(Cur(k))
    ensures !IsNumberByte(Cur(MembersMore(before, tail, k)))
  {
    hide MembersText;
  }

  // ---------- Values, items, members ----------

  /** Reading a value that is written anywhere inside a container stores that value. */
  lemma {:induction false} ValueLoads(c: Cst, k: seq<Byte>, m: Machine) returns (m1: Machine, o: Obj)
    requires CstOk(c) && Receives(m) && !IsNumberByte(Cur(k))
    ensures Load(Text(c, k), m) == Load(k, m1)
    ensures Stored(m, m1, o) && Denotes(m1.store, |m.store|, o, Meaning(c, false))
    decreases c, 1
  {
    hide Load, Put, Receives, Stored, Opened, Closed, Denotes, ItemsText, MembersText, StrText, IsWs;
    match c {
      case CArr(open, items) => m1, o := ListLoads(open, items, k, m);
      case CObj(open, members) => m1, o := DictLoads(open, members, k, m);
      case _ =>
        o := Atom(ScalarOf(c));
        ScalarReads(c, k);
        m1 := ScalarLoads(Text(c, k), k, ScalarOf(c), m);
        AtomDenotes(m1.store, |m.store|, c);
    }
  }

  lemma AtomDenotes(store: seq<Container>, lo: nat, c: Cst)
    requires CstOk(c) && IsScalar(c)
    ensures Denotes(store, lo, Atom(ScalarOf(c)), Meaning(c, false))
  {
    hide StrBytes, HasFloatByte;
  }

  lemma {:induction false} ListLoads(open: seq<Byte>, items: Items, k: seq<Byte>, m: Machine) returns (m2: Machine, o: Obj)
    requires IsWs(open) && ItemsOk(items) && Receives(m)
    ensures Load([LBRACKET] + (open + ItemsText(items, [RBRACKET] + k)), m) == Load(k, m2)
    ensures Stored(m, m2, o) && Denotes(m2.store, |m.store|, o, VArray(ItemsMeaning(items, false)))
    decreases items, 2
  {
    hide Load, Denotes, ItemsText, IsWs, Put, Stored, ItemsMeaning;
    o := Ref(|m.store|);
    var t := |m.store|;
    var m0 := Opened(m, ListC([]));
    OpenLoads(LBRACKET, open + ItemsText(items, [RBRACKET] + k), ListC([]), m);
    SpaceLoads(open, ItemsText(items, [RBRACKET] + k), m0);
    var m1, objs := ItemsLoad(items, [RBRACKET] + k, m0, t, [], []);
    assert [] + ItemsMeaning(items, false) == ItemsMeaning(items, false);
    CloseLoads(RBRACKET, k, m1);
    m2 := Closed(m1);
    OpenedClosed(m, ListC([]), m1);
    DenotesSeqFrame(m1.store, m2.store, t + 1, t, objs, ItemsMeaning(items, false));
    DenotesList(m2.store, t, t, ItemsMeaning(items, false));
  }

  /** The open list `t` while its items are read: `objs` so far, standing for `vs`. */
  ghost predicate Filling(m: Machine, t: nat, objs: seq<Obj>, vs: seq<Value>) {
    && m.top == Some(Ref(t)) && m.key == None && t < |m.store| && m.store[t] == ListC(objs)
    && DenotesSeq(m.store, t + 1, objs, vs)
  }

  /** The parser state outside the container `t` and what it holds. */
  ghost predicate Around(m: Machine, m1: Machine, t: nat) {
    && m1.stack == m.stack && m1.top == m.top && |m.store| <= |m1.store|
    && forall i :: 0 <= i < |m.store| && i != t ==> m1.store[i] == m.store[i]
  }

  lemma {:induction false} ItemsLoad(items: Items, k: seq<Byte>, m: Machine, t: nat, objs: seq<Obj>, vs: seq<Value>)
    returns (m1: Machine, objs1: seq<Obj>)
    requires ItemsOk(items) && !IsNumberByte(Cur(k)) && Filling(m, t, objs, vs)
    ensures Load(ItemsText(items, k), m) == Load(k, m1)
    ensures Filling(m1, t, objs1, vs + ItemsMeaning(items, false)) && Around(m, m1, t)
    decreases items, 1
  {
    hide Load, Filling, IsWs, IsNumberByte, Around, Meaning, Text;
    match items {
      case NoItems =>
        m1, objs1 := m, objs;
        assert vs + [] == vs;
        AroundRefl(m, t);
      case Item(v, after, before, tail) =>
        var k1 := ItemsMore(before, tail, k);
        ItemsMoreEndsNumber(before, tail, k);
        SpaceEndsNumber(after, k1);
        FillingReceives(m, t, objs, vs);
        var ma, o := ValueLoads(v, after + k1, m);
        FillingStep(m, ma, t, objs, vs, o, Meaning(v, false));
        SpaceLoads(after, k1, ma);
        m1, objs1 := MoreItems(before, tail, k, ma, t, objs + [o], vs + [Meaning(v, false)]);
        AroundTrans(m, ma, m1, t);
        assert vs + [Meaning(v, false)] + ItemsMeaning(tail, false) == vs + ItemsMeaning(items, false);
    }
  }

  lemma {:induction false} MoreItems(before: seq<Byte>, tail: Items, k: seq<Byte>, m: Machine, t: nat, objs: seq<Obj>, vs: seq<Value>)
    returns (m1: Machine, objs1: seq<Obj>)
    requires IsWs(before) && ItemsOk(tail) && !IsNumberByte(Cur(k)) && Filling(m, t, objs, vs)
    ensures Load(ItemsMore(before, tail, k), m) == Load(k, m1)
    ensures Filling(m1, t, objs1, vs + ItemsMeaning(tail, false)) && Around(m, m1, t)
    decreases tail, 2
  {
    hide Load, Filling, IsWs, IsNumberByte, Around, ItemsText, ItemsOk;
    if tail == NoItems {
      m1, objs1 := m, objs;
      assert vs + [] == vs;
      AroundRefl(m, t);
    } else {
      BlankLoads(COMMA, before + ItemsText(tail, k), m);
      SpaceLoads(before, ItemsText(tail, k), m);
      m1, objs1 := ItemsLoad(tail, k, m, t, objs, vs);
    }
  }

  lemma AroundRefl(m: Machine, t: nat)
    ensures Around(m, m, t)
  {
  }

  lemma AroundTrans(m: Machine, m1: Machine, m2: Machine, t: nat)
    requires Around(m, m1, t) && Around(m1, m2, t)
    ensures Around(m, m2, t)
  {
  }

  lemma FillingReceives(m: Machine, t: nat, objs: seq<Obj>, vs: seq<Value>)
    requires Filling(m, t, objs, vs)
    ensures Receives(m)
  {
  }

  lemma FillingStep(m: Machine, m1: Machine, t: nat, objs: seq<Obj>, vs: seq<Value>, o: Obj, v: Value)
    requires Filling(m, t, objs, vs) && Receives(m) && Stored(m, m1, o) && Denotes(m1.store, |m.store|, o, v)
    ensures Filling(m1, t, objs + [o], vs + [v]) && Around(m, m1, t)
  {
    hide Denotes;
    DenotesSeqFrame(m.store, m1.store, t + 1, t + 1, objs, vs);
    DenotesFrame(m1.store, m1.store, |m.store|, t + 1, o, v);
  }

  // ---------- Objects ----------

  lemma {:induction false} DictLoads(open: seq<Byte>, members: Members, k: seq<Byte>, m: Machine) returns (m2: Machine, o: Obj)
    requires IsWs(open) && MembersOk(members) && Receives(m)
    ensures Load([LBRACE] + (open + MembersText(members, [RBRACE] + k)), m) == Load(k, m2)
    ensures Stored(m, m2, o) && Denotes(m2.store, |m.store|, o, VObject(MembersMeaning(members, false, map[])))
    decreases members, 2
  {
    hide Load, Denotes, MembersText, IsWs, Put, Stored, MembersMeaning;
    o := Ref(|m.store|);
    var t := |m.store|;
    var m0 := Opened(m, DictC(map[]));
    OpenLoads(LBRACE, open + MembersText(members, [RBRACE] + k), DictC(map[]), m);
    SpaceLoads(open, MembersText(members, [RBRACE] + k), m0);
    var m1, d := MembersLoad(members, [RBRACE] + k, m0, t, map[], map[]);
    CloseLoads(RBRACE, k, m1);
    m2 := Closed(m1);
    OpenedClosed(m, DictC(map[]), m1);
    DenotesMapFrame(m1.store, m2.store, t + 1, t, d, MembersMeaning(members, false, map[]));
    DenotesDict(m2.store, t, t, MembersMeaning(members, false, map[]));
  }

  /** The open dictionary `t` while its members are read. */
  ghost predicate FillingDict(m: Machine, t: nat, d: map<Prim, Obj>, es: map<Prim, Value>) {
    && m.top == Some(Ref(t)) && m.key == None && t < |m.store| && m.store[t] == DictC(d)
    && DenotesMap(m.store, t + 1, d, es)
  }

  lemma {:induction false} MembersLoad(members: Members, k: seq<Byte>, m: Machine, t: nat, d: map<Prim, Obj>, es: map<Prim, Value>)
    returns (m1: Machine, d1: map<Prim, Obj>)
    requires MembersOk(members) && !IsNumberByte(Cur(k)) && FillingDict(m, t, d, es)
    ensures Load(MembersText(members, k), m) == Load(k, m1)
    ensures FillingDict(m1, t, d1, MembersMeaning(members, false, es)) && Around(m, m1, t)
    decreases members, 1
  {
    hide Load, FillingDict, IsWs, IsNumberByte, Around, Meaning, Text, StrText, StrBytes, StrOk;
    match members {
      case NoMembers =>
        m1, d1 := m, d;
        AroundRefl(m, t);
      case Member(name, left, right, v, after, before, tail) =>
        var k1 := MembersMore(before, tail, k);
        var key := PStr(StrBytes(name, false));
        MembersMoreEndsNumber(before, tail, k);
        SpaceEndsNumber(after, k1);
        var mk := m.(key := Some(key));
        NameLoads(name, left, right, Text(v, after + k1), m, t, d, es);
        FillingDictReceives(m, t, d, es, key);
        var ma, o := ValueLoads(v, after + k1, mk);
        FillingDictStep(m, ma, t, d, es, key, o, Meaning(v, false));
        SpaceLoads(after, k1, ma);
        m1, d1 := MoreMembers(before, tail, k, ma, t, d[key := o], es[key := Meaning(v, false)]);
        AroundTrans(m, ma, m1, t);
    }
  }

  lemma {:induction false} MoreMembers(before: seq<Byte>, tail: Members, k: seq<Byte>, m: Machine, t: nat,
                                       d: map<Prim, Obj>, es: map<Prim, Value>)
    returns (m1: Machine, d1: map<Prim, Obj>)
    requires IsWs(before) && MembersOk(tail) && !IsNumberByte(Cur(k)) && FillingDict(m, t, d, es)
    ensures Load(MembersMore(before, tail, k), m) == Load(k, m1)
    ensures FillingDict(m1, t, d1, MembersMeaning(tail, false, es)) && Around(m, m1, t)
    decreases tail, 2
  {
    hide Load, FillingDict, IsWs, IsNumberByte, Around, MembersText, MembersOk;
    if tail == NoMembers {
      m1, d1 := m, d;
      AroundRefl(m, t);
    } else {
      BlankLoads(COMMA, before + MembersText(tail, k), m);
      SpaceLoads(before, MembersText(tail, k), m);
      m1, d1 := MembersLoad(tail, k, m, t, d, es);
    }
  }

  /** A member's name, up to where its value starts. */
  lemma NameLoads(name: seq<Ch>, left: seq<Byte>, right: seq<Byte>, k: seq<Byte>, m: Machine, t: nat,
                  d: map<Prim, Obj>, es: map<Prim, Value>)
    requires StrOk(name) && IsWs(left) && IsWs(right) && FillingDict(m, t, d, es)
    ensures Load([QUOTE] + StrText(name, left + ([COLON] + (right + k))), m)
            == Load(k, m.(key := Some(PStr(StrBytes(name, false)))))
  {
    hide Load, IsWs, StrText, StrBytes, StrOk, Lex, DenotesMap;
    var k1 := left + ([COLON] + (right + k));
    var rest := [QUOTE] + StrText(name, k1);
    ScalarReads(CStr(name), k1);
    var mk := m.(key := Some(PStr(StrBytes(name, false))));
    LoadStep(rest, m, mk);
    SpaceLoads(left, [COLON] + (right + k), mk);
    BlankLoads(COLON, right + k, mk);
    SpaceLoads(right, k, mk);
  }

  lemma FillingDictReceives(m: Machine, t: nat, d: map<Prim, Obj>, es: map<Prim, Value>, key: Prim)
    requires FillingDict(m, t, d, es)
    ensures Receives(m.(key := Some(key)))
  {
  }

  lemma FillingDictStep(m: Machine, m1: Machine, t: nat, d: map<Prim, Obj>, es: map<Prim, Value>, key: Prim, o: Obj, v: Value)
    requires FillingDict(m, t, d, es) && Receives(m.(key := Some(key))) && Stored(m.(key := Some(key)), m1, o)
    requires Denotes(m1.store, |m.store|, o, v)
    ensures FillingDict(m1, t, d[key := o], es[key := v]) && Around(m, m1, t)
  {
    hide Denotes;
    DenotesMapFrame(m.store, m1.store, t + 1, t + 1, d, es);
    DenotesFrame(m1.store, m1.store, |m.store|, t + 1, o, v);
  }

  // ---------- Whole texts ----------

  /** Parsing `text` gives an object that stands for `v`. */
  ghost predicate Reads(text: seq<Byte>, v: Value) {
    var r := Load(text, START);
    r.Loaded? && Denotes(r.store, 0, r.obj, v)
  }

  lemma {:induction false} SpaceFinishes(w: seq<Byte>)
    requires IsWs(w)
    ensures SkipSpace(w) == []
  {
    if w == [] {
    } else {
      SpaceFinishes(w[1..]);
    }
  }

  lemma SpaceIsNoNumber(w: seq<Byte>)
    requires IsWs(w)
    ensures !IsNumberByte(Cur(w))
  {
  }

  lemma LoadCompletes(rest: seq<Byte>, m: Machine, m1: Machine)
    requires !End(rest) && Advance(m, Lex(rest).token) == Complete(m1)
    ensures Load(rest, m) == Finish(Lex(rest).rest, m1)
  {
    hide Lex, Advance, Finish;
  }

  /** The last bracket ends the parsing. */
  lemma TopCloses(b: Byte, trail: seq<Byte>, m: Machine)
    requires (b == RBRACKET || b == RBRACE) && IsWs(trail) && m.top.Some? && m.stack == []
    ensures Load([b] + trail, m) == Loaded(m.store, m.top.value)
  {
    hide Load, Lex, IsWs;
    ByteLex(b, trail);
    LoadCompletes([b] + trail, m, m);
    SpaceFinishes(trail);
  }

  lemma TopListLoads(open: seq<Byte>, items: Items, trail: seq<Byte>)
    requires IsWs(open) && ItemsOk(items) && IsWs(trail)
    ensures Reads([LBRACKET] + (open + ItemsText(items, [RBRACKET] + trail)), VArray(ItemsMeaning(items, false)))
  {
    hide Load, Denotes, ItemsText, IsWs, ItemsMeaning, Lex;
    var k := [RBRACKET] + trail;
    var rest := [LBRACKET] + (open + ItemsText(items, k));
    var m0 := Machine([ListC([])], Some(Ref(0)), [], None);
    ByteLex(LBRACKET, open + ItemsText(items, k));
    assert [] + [ListC([])] == [ListC([])];
    LoadStep(rest, START, m0);
    SpaceLoads(open, ItemsText(items, k), m0);
    var m1, objs := ItemsLoad(items, k, m0, 0, [], []);
    assert [] + ItemsMeaning(items, false) == ItemsMeaning(items, false);
    TopCloses(RBRACKET, trail, m1);
    DenotesSeqFrame(m1.store, m1.store, 1, 0, objs, ItemsMeaning(items, false));
    DenotesList(m1.store, 0, 0, ItemsMeaning(items, false));
  }

  lemma TopDictLoads(open: seq<Byte>, members: Members, trail: seq<Byte>)
    requires IsWs(open) && MembersOk(members) && IsWs(trail)
    ensures Reads([LBRACE] + (open + MembersText(members, [RBRACE] + trail)), VObject(MembersMeaning(members, false, map[])))
  {
    hide Load, Denotes, MembersText, IsWs, MembersMeaning, Lex;
    var k := [RBRACE] + trail;
    var rest := [LBRACE] + (open + MembersText(members, k));
    var m0 := Machine([DictC(map[])], Some(Ref(0)), [], None);
    ByteLex(LBRACE, open + MembersText(members, k));
    assert [] + [DictC(map[])] == [DictC(map[])];
    LoadStep(rest, START, m0);
    SpaceLoads(open, MembersText(members, k), m0);
    var m1, d := MembersLoad(members, k, m0, 0, map[], map[]);
    TopCloses(RBRACE, trail, m1);
    DenotesMapFrame(m1.store, m1.store, 1, 0, d, MembersMeaning(members, false, map[]));
    DenotesDict(m1.store, 0, 0, MembersMeaning(members, false, map[]));
  }

  lemma TopScalarLoads(c: Cst, trail: seq<Byte>)
    requires CstOk(c) && IsScalar(c) && IsWs(trail)
    ensures Reads(Text(c, trail), Meaning(c, false))
  {
    hide Load, Denotes, Text, Meaning, IsWs, Lex;
    SpaceIsNoNumber(trail);
    ScalarReads(c, trail);
    var m1 := START.(top := Some(Atom(ScalarOf(c))));
    LoadCompletes(Text(c, trail), START, m1);
    SpaceFinishes(trail);
    AtomDenotes([], 0, c);
  }

  /** Every writing of every JSON value, with any white space and any escapes, is parsed to that value. */
  lemma DocumentLoads(lead: seq<Byte>, c: Cst, trail: seq<Byte>)
    requires IsWs(lead) && CstOk(c) && IsWs(trail)
    ensures Reads(Document(lead, c, trail), Meaning(c, false))
  {
    hide Load, Denotes, ItemsText, MembersText, ItemsMeaning, MembersMeaning, IsWs, StrText, StrBytes;
    SpaceLoads(lead, Text(c, trail), START);
    match c
    case CArr(open, items) => TopListLoads(open, items, trail);
    case CObj(open, members) => TopDictLoads(open, members, trail);
    case _ => TopScalarLoads(c, trail);
  }

  /** A string is refused with UnicodeError if the bytes between its quotes are not UTF-8, and only then: nothing else
      in a text of one string without escapes can fail. */
  lemma RawString(bytes: seq<Byte>, trail: seq<Byte>)
    requires IsWs(trail) && forall i :: 0 <= i < |bytes| ==> PlainByte(bytes[i])
    ensures var r := Load([QUOTE] + (bytes + ([QUOTE] + trail)), START);
            r == if Utf8.Passes(bytes, 0) then Loaded([], Atom(PStr(bytes))) else UnicodeError
  {
    hide Load, Lex, IsWs, Utf8.Passes, StringBody, SkipSpace;
    var rest := [QUOTE] + (bytes + ([QUOTE] + trail));
    RawStringLex(bytes, trail);
    if Utf8.Passes(bytes, 0) {
      var m1 := START.(top := Some(Atom(PStr(bytes))));
      LoadCompletes(rest, START, m1);
      SpaceFinishes(trail);
    } else {
      LoadRaises(rest, START, UnicodeError);
    }
  }

  lemma RawStringLex(bytes: seq<Byte>, trail: seq<Byte>)
    requires forall i :: 0 <= i < |bytes| ==> PlainByte(bytes[i])
    ensures var rest := [QUOTE] + (bytes + ([QUOTE] + trail)); !End(rest) && Lex(rest) == Lexed(StringToken(bytes), trail)
  {
    hide StringBody, Utf8.Passes;
    BytesRead(bytes, [QUOTE] + trail, []);
    assert [] + bytes == bytes;
    QuoteReads(trail, bytes);
    assert ([QUOTE] + (bytes + ([QUOTE] + trail)))[1..] == bytes + ([QUOTE] + trail);
  }

  lemma LoadRaises(rest: seq<Byte>, m: Machine, e: Loaded)
    requires !End(rest) && Advance(m, Lex(rest).token) == Raise(e)
    ensures Load(rest, m) == e
  {
    hide Lex, Advance, Finish;
  }
}
