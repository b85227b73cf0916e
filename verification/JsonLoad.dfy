/** The non-recursive parser of `modjson.c`: one loop with an explicit stack of open containers. */
module JsonLoad {
  import opened Bytes
  import opened JsonLexer
  import ParseNumber
  import Utf8

  /** A Python object: a primitive, or a reference to a list or dictionary. Containers are put into their parent
      while still empty and filled through the reference afterwards. */
  datatype Obj = Atom(p: Prim) | Ref(id: nat)

  datatype Container = ListC(items: seq<Obj>) | DictC(entries: map<Prim, Obj>)

  datatype Option<T> = None | Some(value: T)

  /** The loop's variables: all containers made so far, `stack_top`, `stack` and `stack_key`. */
  datatype Machine = Machine(store: seq<Container>, top: Option<Obj>, stack: seq<nat>, key: Option<Prim>)

  datatype Moved = Go(m: Machine) | Complete(m: Machine) | Raise(e: Loaded)

  datatype Loaded = Loaded(store: seq<Container>, obj: Obj) | ValueError | UnicodeError

  const START := Machine([], None, [], None)

  /** Put a new object where it belongs; `enter` makes it the innermost open container. */
  function Place(m: Machine, next: Obj, enter: bool): Moved {
    match m.top
    case None =>
      var m1 := m.(top := Some(next));
      if enter then Go(m1) else Complete(m1)
    case Some(Atom(_)) => Raise(ValueError)
    case Some(Ref(t)) =>
      if t >= |m.store| then Raise(ValueError)
      else
        match m.store[t]
        case ListC(items) => Go(Enter(m.(store := m.store[t := ListC(items + [next])]), t, next, enter))
        case DictC(entries) =>
          match m.key
          case None => if enter || !next.Atom? then Raise(ValueError) else Go(m.(key := Some(next.p)))
          case Some(k) => Go(Enter(m.(store := m.store[t := DictC(entries[k := next])], key := None), t, next, enter))
  }

  function Enter(m: Machine, t: nat, next: Obj, enter: bool): Machine {
    if enter then m.(stack := m.stack + [t], top := Some(next)) else m
  }

  /** The effect of one token. */
  function Advance(m: Machine, t: Token): Moved {
    match t
    case Blank => Go(m)
    case Scalar(p) => Place(m, Atom(p), false)
    case OpenList => Place(m.(store := m.store + [ListC([])]), Ref(|m.store|), true)
    case OpenDict => Place(m.(store := m.store + [DictC(map[])]), Ref(|m.store|), true)
    case Close =>
      if m.top == None then Raise(ValueError)
      else if m.stack == [] then Complete(m)
      else Go(m.(stack := m.stack[..|m.stack| - 1], top := Some(Ref(m.stack[|m.stack| - 1]))))
    case Garbage => Raise(ValueError)
    case NotUtf8 => Raise(UnicodeError)
  }

  /** What follows the label `success`. */
  function Finish(rest: seq<Byte>, m: Machine): Loaded {
    if !End(SkipSpace(rest)) || m.top == None || m.stack != [] then ValueError else Loaded(m.store, m.top.value)
  }

  /** The main loop. Every round consumes at least one byte. */
  function Load(rest: seq<Byte>, m: Machine): Loaded
    decreases |rest|
  {
    if End(rest) then Finish(rest, m)
    else
      var lexed := Lex(rest);
      match Advance(m, lexed.token)
      case Raise(e) => e
      case Complete(m1) => Finish(lexed.rest, m1)
      case Go(m1) => Load(lexed.rest, m1)
  }

  // ---------- The imperative parser ----------

  class JsonStream {
    const data: seq<Byte>
    var pos: nat
    var cur: Byte
    /** What is left from the cursor on. */
    ghost var rest: seq<Byte>

    ghost predicate Valid()
      reads this
    {
      && pos <= |data| && cur == Cur(rest)
      && (rest == [] ==> pos == |data|)
      && (rest != [] ==> pos > 0 && rest == data[pos - 1..])
    }

    /** A stream after its first read. */
    constructor (data: seq<Byte>)
      ensures Valid() && rest == data && this.data == data
    {
      this.data := data;
      pos := if data == [] then 0 else 1;
      cur := if data == [] then 0 else data[0];
      rest := data;
    }

    /** `json_stream_next`. */
    method Advance() returns (c: Byte)
      requires Valid()
      modifies this
      ensures Valid() && rest == Next(old(rest)) && c == Cur(rest)
    {
      ghost var was := rest;
      if pos < |data| {
        cur := data[pos];
        pos := pos + 1;
        rest := data[pos - 1..];
      } else {
        cur := 0;
        rest := [];
      }
      c := cur;
    }
  }

  /** A keyword, its first letter already read. */
  method ReadWord(s: JsonStream, word: seq<Byte>, p: Prim) returns (token: Token)
    requires s.Valid()
    modifies s
    ensures s.Valid() && token == Keyword(old(s.rest), word, p).token
    ensures token != Garbage ==> s.rest == Keyword(old(s.rest), word, p).rest
  {
    var i := 0;
    assert word[0..] == word;
    while i < |word|
      invariant 0 <= i <= |word| && s.Valid()
      invariant Keyword(old(s.rest), word, p) == Keyword(s.rest, word[i..], p)
    {
      assert word[i..][1..] == word[i + 1..];
      if s.cur != word[i] {
        return Garbage;
      }
      var _ := s.Advance();
      i := i + 1;
    }
    token := Scalar(p);
  }

  /** A number, its first byte already read. */
  method ReadNumber(s: JsonStream, first: Byte) returns (token: Token)
    requires s.Valid()
    modifies s
    ensures s.Valid()
    requires !MakesFloat(first)
    ensures token == NumberToken([first] + NumberRun(old(s.rest))) && s.rest == AfterNumber(old(s.rest))
  {
    hide NumberRun, HasFloatByte, AfterNumber, IsNumberByte, MakesFloat;
    ghost var all := s.rest;
    var flt := false;
    var vstr := [first];
    while IsNumberByte(s.cur)
      invariant s.Valid()
      invariant vstr + NumberRun(s.rest) == [first] + NumberRun(all)
      invariant HasFloatByte(NumberRun(all)) <==> flt || HasFloatByte(NumberRun(s.rest))
      invariant AfterNumber(s.rest) == AfterNumber(all)
      decreases |s.rest|
    {
      NumberRunStep(s.rest);
      if MakesFloat(s.cur) {
        flt := true;
      }
      assert vstr + [s.cur] + NumberRun(Next(s.rest)) == vstr + ([s.cur] + NumberRun(Next(s.rest)));
      vstr := vstr + [s.cur];
      var _ := s.Advance();
    }
    NumberRunEnd(s.rest);
    assert vstr + [] == vstr;
    FirstNoFloat(first, NumberRun(all));
    if flt {
      var ok := ParseNumber.ScanFloat(vstr);
      token := if ok then Scalar(PFloat(vstr)) else Garbage;
    } else {
      var parsed := ParseNumber.ParseInteger(vstr);
      token := match parsed case Number(v) => Scalar(PInt(v)) case Invalid => Garbage;
    }
  }

  lemma FirstNoFloat(first: Byte, run: seq<Byte>)
    requires !MakesFloat(first)
    ensures HasFloatByte([first] + run) <==> HasFloatByte(run)
  {
    assert ([first] + run)[1..] == run;
  }

  lemma NumberRunStep(rest: seq<Byte>)
    requires IsNumberByte(Cur(rest))
    ensures rest != [] && NumberRun(rest) == [Cur(rest)] + NumberRun(Next(rest))
    ensures HasFloatByte(NumberRun(rest)) <==> MakesFloat(Cur(rest)) || HasFloatByte(NumberRun(Next(rest)))
    ensures AfterNumber(rest) == AfterNumber(Next(rest))
  {
    assert NumberRun(rest)[1..] == NumberRun(rest[1..]);
    assert rest[1..][|NumberRun(rest[1..])|..] == rest[|NumberRun(rest)|..];
  }

  lemma NumberRunEnd(rest: seq<Byte>)
    requires !IsNumberByte(Cur(rest))
    ensures NumberRun(rest) == [] && !HasFloatByte([]) && AfterNumber(rest) == rest
  {
  }

  /** A string, its opening quote already read. */
  method ReadString(s: JsonStream) returns (token: Token)
    requires s.Valid()
    modifies s
    ensures s.Valid() && token == StringBody(old(s.rest), []).token
    ensures token != Garbage ==> s.rest == StringBody(old(s.rest), []).rest
  {
    hide Utf8.Encoded, Hex4, Unescaped;
    var vstr: seq<Byte> := [];
    while s.cur != 0 && s.cur != QUOTE
      invariant s.Valid()
      invariant StringBody(old(s.rest), []) == StringBody(s.rest, vstr)
      decreases |s.rest|
    {
      var c := s.cur;
      if c == BACKSLASH {
        c := s.Advance();
        if c == LOWER_U {
          var num := ReadHex(s);
          vstr := vstr + Utf8.Encoded(num);
          var _ := s.Advance();
          continue;
        }
        c := Unescaped(c);
      }
      vstr := vstr + [c];
      var _ := s.Advance();
    }
    if s.cur == 0 {
      return Garbage;
    }
    var _ := s.Advance();
    var ok := Utf8.Check(vstr);
    token := if ok then Scalar(PStr(vstr)) else NotUtf8;
  }

  /** The four digits of a \u escape; the cursor ends on the last one. */
  method ReadHex(s: JsonStream) returns (num: nat)
    requires s.Valid()
    modifies s
    ensures s.Valid() && num == Hex4(old(s.rest)) && s.rest == Next(Next(Next(Next(old(s.rest)))))
  {
    hide HexDigit, Or;
    num := 0;
    ghost var r := s.rest;
    ghost var r1, r2, r3 := Next(r), Next(Next(r)), Next(Next(Next(r)));
    OrZero(HexDigit(Cur(r1)));
    for i := 0 to 4
      invariant s.Valid()
      invariant i == 0 ==> s.rest == r && num == 0
      invariant i == 1 ==> s.rest == r1 && num == HexDigit(Cur(r1))
      invariant i == 2 ==> s.rest == r2 && num == Or(16 * HexDigit(Cur(r1)), HexDigit(Cur(r2)))
      invariant i == 3 ==> s.rest == r3 && num == Or(16 * Or(16 * HexDigit(Cur(r1)), HexDigit(Cur(r2))), HexDigit(Cur(r3)))
      invariant i == 4 ==> s.rest == Next(r3) && num == Hex4(r)
    {
      var c := s.Advance();
      num := Or(16 * num, HexDigit(c));
    }
  }

  lemma OrZero(a: nat)
    ensures Or(0, a) == a && Or(16 * 0, a) == a
  {
  }

  /** One round of the switch. */
  method ReadToken(s: JsonStream) returns (token: Token)
    requires s.Valid() && !End(s.rest)
    modifies s
    ensures s.Valid() && token == Lex(old(s.rest)).token
    ensures token != Garbage ==> s.rest == Lex(old(s.rest)).rest
  {
    hide Keyword, StringBody, NumberRun, HasFloatByte;
    ghost var all := s.rest;
    var cur := s.cur;
    var _ := s.Advance();
    ghost var r := s.rest;
    match KindOf(cur) {
      case IsBlank => token := Blank;
      case IsWord(tail, p) => token := ReadWord(s, tail, p);
      case IsQuote => token := ReadString(s);
      case IsNumber => token := ReadNumber(s, cur);
      case IsOpen(list) => token := if list then OpenList else OpenDict;
      case IsClose => token := Close;
      case IsOther => token := Garbage;
    }
  }

  /** `mod_json_load`. */
  method LoadStream(s: JsonStream) returns (r: Loaded)
    requires s.Valid()
    modifies s
    ensures s.Valid() && r == Load(old(s.rest), START)
  {
    hide Lex;
    var store: seq<Container>, stack: seq<nat> := [], [];
    var top: Option<Obj>, key: Option<Prim> := None, None;
    while s.cur != 0
      invariant s.Valid()
      invariant Load(old(s.rest), START) == Load(s.rest, Machine(store, top, stack, key))
      decreases |s.rest|
    {
      ghost var m := Machine(store, top, stack, key);
      var token := ReadToken(s);
      var next, enter := Atom(PNone), false;
      match token {
        case Blank => continue;
        case Garbage => return ValueError;
        case NotUtf8 => return UnicodeError;
        case Close =>
          if top == None {
            return ValueError;
          }
          if stack == [] {
            break;
          }
          top := Some(Ref(stack[|stack| - 1]));
          stack := stack[..|stack| - 1];
          continue;
        case Scalar(p) => next := Atom(p);
        case OpenList =>
          next, enter := Ref(|store|), true;
          store := store + [ListC([])];
        case OpenDict =>
          next, enter := Ref(|store|), true;
          store := store + [DictC(map[])];
      }
      if top == None {
        top := Some(next);
        if !enter {
          break;
        }
      } else {
        // Append to the list or dictionary on top.
        var t := if top.value.Ref? then top.value.id else |store|;
        if t >= |store| {
          return ValueError;
        }
        match store[t] {
          case ListC(items) => store := store[t := ListC(items + [next])];
          case DictC(entries) =>
            if key == None {
              if enter {
                return ValueError;
              }
              key := Some(next.p);
            } else {
              store := store[t := DictC(entries[key.value := next])];
              key := None;
            }
        }
        if enter {
          stack := stack + [t];
          top := Some(next);
        }
      }
    }
    r := FinishStream(s, store, top, stack, key);
  }

  /** The label `success`: nothing but white space may follow, and exactly one object must be complete. */
  method FinishStream(s: JsonStream, store: seq<Container>, top: Option<Obj>, stack: seq<nat>, ghost key: Option<Prim>) returns (r: Loaded)
    requires s.Valid()
    modifies s
    ensures s.Valid() && r == Finish(old(s.rest), Machine(store, top, stack, key))
  {
    while IsSpace(s.cur)
      invariant s.Valid() && SkipSpace(old(s.rest)) == SkipSpace(s.rest)
      decreases |s.rest|
    {
      var _ := s.Advance();
    }
    if s.cur != 0 {
      return ValueError;
    }
    if top == None || stack != [] {
      return ValueError;
    }
    r := Loaded(store, top.value);
  }
}
