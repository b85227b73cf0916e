/** Exactly which texts the parser of `modjson.c` accepts, beyond those of RFC 4627. On the sequence of tokens with
    commas, colons and blanks left out, they are the well-bracketed ones in which no list or object stands where the
    name of a member is due; a bracket of either kind closes, and the last one may be missing. */
module JsonLanguage {
  import opened Bytes
  import opened JsonLexer
  import opened JsonLoad

  // ---------- The language ----------

  /** What matters of a token: a primitive value, an opening bracket, or a closing one. */
  datatype Shape = Value | Opening(dict: bool) | Closing

  function ShapeOf(t: Token): Option<Shape> {
    match t
    case Scalar(_) => Some(Value)
    case OpenList => Some(Opening(false))
    case OpenDict => Some(Opening(true))
    case Close => Some(Closing)
    case _ => None
  }

  /** What stands between two brackets: values and further brackets, in any number. */
  datatype Kids = Nil | Leaf(rest: Kids) | Node(dict: bool, inner: Kids, rest: Kids)

  function Flat(kids: Kids): seq<Shape> {
    match kids
    case Nil => []
    case Leaf(rest) => [Value] + Flat(rest)
    case Node(dict, inner, rest) => [Opening(dict)] + (Flat(inner) + ([Closing] + Flat(rest)))
  }

  /** Names and values take turns in an object. `named` says that a name is waiting for its value; it outlives the
      container in which it was read. There is no result where a list or object stands for a name. */
  function Turns(kids: Kids, dict: bool, named: bool): Option<bool> {
    match kids
    case Nil => Some(named)
    case Leaf(rest) => Turns(rest, dict, if dict then !named else named)
    case Node(d, inner, rest) =>
      if dict && !named then None
      else
        match Turns(inner, d, if dict then false else named)
        case None => None
        case Some(after) => Turns(rest, dict, after)
  }

  /** The stream yields the shapes `ts`, blanks left out, and is then at `after`. */
  predicate Yields(rest: seq<Byte>, ts: seq<Shape>, after: seq<Byte>)
    decreases |rest|
  {
    if ts == [] then after == rest
    else
      && !End(rest)
      && var lexed := Lex(rest);
      if lexed.token.Blank? then Yields(lexed.rest, ts, after)
      else ShapeOf(lexed.token) == Some(ts[0]) && Yields(lexed.rest, ts[1..], after)
  }

  /** Only white space up to the end. */
  predicate Spaces(rest: seq<Byte>) { End(SkipSpace(rest)) }

  /** Only blanks up to the end, commas and colons among them. */
  predicate Blanks(rest: seq<Byte>)
    decreases |rest|
  {
    End(rest) || (Lex(rest).token.Blank? && Blanks(Lex(rest).rest))
  }

  ghost predicate IsText(ts: seq<Shape>, after: seq<Byte>) {
    || (ts == [Value] && Spaces(after))
    || exists dict: bool, kids: Kids :: IsContainer(dict, kids, ts, after)
  }

  predicate IsContainer(dict: bool, kids: Kids, ts: seq<Shape>, after: seq<Byte>) {
    && Turns(kids, dict, false).Some?
    && ((ts == [Opening(dict)] + Flat(kids) + [Closing] && Spaces(after))
        || (ts == [Opening(dict)] + Flat(kids) && Blanks(after)))
  }

  // ---------- The parser without its values ----------

  /** The kinds of the open containers, innermost last, and whether a name is waiting. */
  datatype Skeleton = Skeleton(opens: seq<bool>, named: bool)

  datatype Outcome = Closed | LeftOpen | Fails

  /** A run that is closed may be followed by white space, one that is left open by commas and colons too. */
  predicate Succeeds(outcome: Outcome, after: seq<Byte>) {
    (outcome == Closed && Spaces(after)) || (outcome == LeftOpen && Blanks(after))
  }

  function Step(s: Skeleton, t: Shape): Option<Skeleton>
    requires s.opens != []
  {
    var dict := s.opens[|s.opens| - 1];
    match t
    case Value => Some(s.(named := if dict then !s.named else s.named))
    case Opening(d) => if dict && !s.named then None else Some(Skeleton(s.opens + [d], if dict then false else s.named))
    case Closing => if |s.opens| == 1 then None else Some(s.(opens := s.opens[..|s.opens| - 1]))
  }

  function RunShapes(s: Skeleton, ts: seq<Shape>): Outcome
    requires s.opens != []
    decreases |ts|
  {
    if ts == [] then if |s.opens| == 1 then LeftOpen else Fails
    else if ts[0] == Closing && |s.opens| == 1 then if |ts| == 1 then Closed else Fails
    else
      match Step(s, ts[0])
      case None => Fails
      case Some(next) => if next.opens == [] then Fails else RunShapes(next, ts[1..])
  }

  lemma RunStep(s: Skeleton, t: Shape, ts: seq<Shape>)
    requires s.opens != [] && (t == Closing ==> |s.opens| > 1)
    ensures RunShapes(s, [t] + ts) ==
            match Step(s, t) { case None => Fails case Some(next) => if next.opens == [] then Fails else RunShapes(next, ts) }
  {
    assert ([t] + ts)[1..] == ts;
  }

  /** What stands between two brackets is run through as `Turns` says. */
  lemma {:induction false} RunsThrough(kids: Kids, outer: seq<bool>, dict: bool, named: bool, ts: seq<Shape>)
    requires Turns(kids, dict, named).Some?
    ensures RunShapes(Skeleton(outer + [dict], named), Flat(kids) + ts)
            == RunShapes(Skeleton(outer + [dict], Turns(kids, dict, named).value), ts)
    decreases kids
  {
    hide RunShapes, Flat;
    FlatThen(kids, ts);
    var s := Skeleton(outer + [dict], named);
    match kids {
      case Nil =>
      case Leaf(rest) =>
        RunStep(s, Value, Flat(rest) + ts);
        RunsThrough(rest, outer, dict, if dict then !named else named, ts);
      case Node(d, inner, rest) =>
        var tail := [Closing] + (Flat(rest) + ts);
        RunStep(s, Opening(d), Flat(inner) + tail);
        var first := if dict then false else named;
        RunsThrough(inner, outer + [dict], d, first, tail);
        var after := Turns(inner, d, first).value;
        var t := Skeleton(outer + [dict] + [d], after);
        RunStep(t, Closing, Flat(rest) + ts);
        assert t.opens[..|t.opens| - 1] == outer + [dict];
        RunsThrough(rest, outer, dict, after, ts);
    }
  }

  /** A run that does not fail has read what can stand between two brackets, up to the closing one. */
  lemma {:induction false} RunHasKids(ts: seq<Shape>, outer: seq<bool>, dict: bool, named: bool)
    returns (kids: Kids, rest: seq<Shape>)
    requires RunShapes(Skeleton(outer + [dict], named), ts) != Fails
    ensures ts == Flat(kids) + rest && (rest != [] ==> rest[0] == Closing)
    ensures Turns(kids, dict, named).Some?
    ensures RunShapes(Skeleton(outer + [dict], named), ts)
            == RunShapes(Skeleton(outer + [dict], Turns(kids, dict, named).value), rest)
    decreases |ts|
  {
    hide RunShapes, Flat;
    var s := Skeleton(outer + [dict], named);
    if ts == [] || ts[0] == Closing {
      kids, rest := Nil, ts;
      FlatThen(kids, rest);
    } else {
      assert ts == [ts[0]] + ts[1..];
      RunStep(s, ts[0], ts[1..]);
      if ts[0] == Value {
        var more;
        more, rest := RunHasKids(ts[1..], outer, dict, if dict then !named else named);
        kids := Leaf(more);
        FlatThen(kids, rest);
      } else {
        var d, first := ts[0].dict, if dict then false else named;
        var inner, tail := RunHasKids(ts[1..], outer + [dict], d, first);
        var after := Turns(inner, d, first).value;
        var t := Skeleton(outer + [dict] + [d], after);
        MustClose(t, tail);
        assert tail == [Closing] + tail[1..];
        RunStep(t, Closing, tail[1..]);
        assert t.opens[..|t.opens| - 1] == outer + [dict];
        var more;
        more, rest := RunHasKids(tail[1..], outer, dict, after);
        kids := Node(d, inner, more);
        FlatThen(kids, rest);
      }
    }
  }

  lemma FlatThen(kids: Kids, ts: seq<Shape>)
    ensures Flat(kids) + ts ==
            match kids
            case Nil => ts
            case Leaf(rest) => [Value] + (Flat(rest) + ts)
            case Node(d, inner, rest) => [Opening(d)] + (Flat(inner) + ([Closing] + (Flat(rest) + ts)))
  {
  }

  lemma MustClose(s: Skeleton, ts: seq<Shape>)
    requires |s.opens| > 1 && RunShapes(s, ts) != Fails
    ensures ts != []
  {
  }

  lemma RunEnds(dict: bool, named: bool, ts: seq<Shape>)
    requires ts == [] || ts[0] == Closing
    ensures RunShapes(Skeleton([dict], named), ts) == if ts == [] then LeftOpen else if ts == [Closing] then Closed else Fails
  {
  }

  /** From the first bracket on: the grammar and the run agree. */
  lemma RunIsGrammar(dict: bool, ts: seq<Shape>)
    ensures RunShapes(Skeleton([dict], false), ts) == Closed
            <==> exists kids :: Turns(kids, dict, false).Some? && ts == Flat(kids) + [Closing]
    ensures RunShapes(Skeleton([dict], false), ts) == LeftOpen
            <==> exists kids :: Turns(kids, dict, false).Some? && ts == Flat(kids)
  {
    hide RunShapes, Turns, Flat;
    assert [] + [dict] == [dict];
    if RunShapes(Skeleton([dict], false), ts) != Fails {
      var kids, rest := RunHasKids(ts, [], dict, false);
      RunEnds(dict, Turns(kids, dict, false).value, rest);
      assert rest == [] ==> ts == Flat(kids);
    }
    forall kids | Turns(kids, dict, false).Some?
      ensures ts == Flat(kids) + [Closing] ==> RunShapes(Skeleton([dict], false), ts) == Closed
      ensures ts == Flat(kids) ==> RunShapes(Skeleton([dict], false), ts) == LeftOpen
    {
      KidsRun(dict, kids);
    }
  }

  lemma KidsRun(dict: bool, kids: Kids)
    requires Turns(kids, dict, false).Some?
    ensures RunShapes(Skeleton([dict], false), Flat(kids) + [Closing]) == Closed
    ensures RunShapes(Skeleton([dict], false), Flat(kids)) == LeftOpen
  {
    hide RunShapes, Turns, Flat;
    assert [] + [dict] == [dict];
    RunsThrough(kids, [], dict, false, [Closing]);
    RunsThrough(kids, [], dict, false, []);
    RunEnds(dict, Turns(kids, dict, false).value, [Closing]);
    RunEnds(dict, Turns(kids, dict, false).value, []);
    assert Flat(kids) + [] == Flat(kids);
  }

  // ---------- The parser and its skeleton ----------

  /** The skeleton of a machine that is inside a container. */
  ghost predicate HasSkeleton(m: Machine, s: Skeleton) {
    && m.top.Some? && m.top.value.Ref? && s.named == m.key.Some? && |s.opens| == |m.stack| + 1
    && m.top.value.id < |m.store| && m.store[m.top.value.id].DictC? == s.opens[|m.stack|]
    && forall i :: 0 <= i < |m.stack| ==> m.stack[i] < |m.store| && m.store[m.stack[i]].DictC? == s.opens[i]
  }

  /** Every token does to the machine what its shape does to the skeleton. */
  lemma TokenSteps(m: Machine, s: Skeleton, t: Token)
    requires HasSkeleton(m, s) && ShapeOf(t).Some? && !(t.Close? && |s.opens| == 1)
    ensures match Step(s, ShapeOf(t).value)
            case None => Advance(m, t).Raise? && !Advance(m, t).e.Loaded?
            case Some(next) => next.opens != [] && Advance(m, t).Go? && HasSkeleton(Advance(m, t).m, next)
  {
    match t
    case Scalar(p) =>
    case Close =>
    case OpenList => OpenSteps(m, s, ListC([]));
    case OpenDict => OpenSteps(m, s, DictC(map[]));
  }

  lemma OpenSteps(m: Machine, s: Skeleton, c: Container)
    requires HasSkeleton(m, s)
    ensures var r := Place(m.(store := m.store + [c]), Ref(|m.store|), true);
            match Step(s, Opening(c.DictC?))
            case None => r == Raise(ValueError)
            case Some(next) => r.Go? && HasSkeleton(r.m, next)
  {
  }

  lemma BlankStays(m: Machine)
    ensures Advance(m, Blank) == Go(m)
  {
  }

  lemma FinishLoads(rest: seq<Byte>, m: Machine)
    requires m.top.Some?
    ensures Finish(rest, m).Loaded? <==> Spaces(rest) && m.stack == []
  {
  }

  lemma EndIsSpaces(rest: seq<Byte>)
    requires End(rest)
    ensures SkipSpace(rest) == rest && Spaces(rest) && Blanks(rest)
  {
  }

  /** The shapes that the stream yields lead the parser to success. */
  lemma {:induction false} YieldedLoads(rest: seq<Byte>, m: Machine, s: Skeleton, ts: seq<Shape>, after: seq<Byte>)
    requires HasSkeleton(m, s) && Yields(rest, ts, after)
    requires Succeeds(RunShapes(s, ts), after)
    ensures Load(rest, m).Loaded?
    decreases |rest|
  {
    hide Lex, Advance, HasSkeleton, Step, Finish, Load;
    LoadOnce(rest, m);
    SkeletonInside(m, s);
    if End(rest) {
      FinishLoads(rest, m);
      EndIsSpaces(rest);
    } else {
      var lexed := Lex(rest);
      if lexed.token.Blank? {
        BlankStays(m);
        YieldedLoads(lexed.rest, m, s, ts, if ts == [] then lexed.rest else after);
      } else {
        assert ts != [];
        if lexed.token.Close? && |s.opens| == 1 {
          CloseEnds(m);
          FinishLoads(lexed.rest, m);
          assert ts[1..] == [];
        } else {
          TokenSteps(m, s, lexed.token);
          YieldedLoads(lexed.rest, Advance(m, lexed.token).m, Step(s, ts[0]).value, ts[1..], after);
        }
      }
    }
  }

  lemma SkeletonInside(m: Machine, s: Skeleton)
    requires HasSkeleton(m, s)
    ensures m.top.Some? && s.opens != [] && (|s.opens| == 1 <==> m.stack == [])
  {
  }

  lemma CloseEnds(m: Machine)
    requires m.top.Some? && m.stack == []
    ensures Advance(m, Close) == Complete(m)
  {
  }

  lemma LoadOnce(rest: seq<Byte>, m: Machine)
    ensures Load(rest, m) ==
            if End(rest) then Finish(rest, m)
            else
              var lexed := Lex(rest);
              match Advance(m, lexed.token) {
                case Raise(e) => e case Complete(m1) => Finish(lexed.rest, m1) case Go(m1) => Load(lexed.rest, m1)
              }
  {
    hide Lex, Advance, Finish;
  }

  lemma OtherRaises(m: Machine, t: Token)
    requires !t.Blank? && ShapeOf(t) == None
    ensures Advance(m, t).Raise? && !Advance(m, t).e.Loaded?
  {
  }

  /** A success of the parser comes from such shapes. */
  lemma {:induction false} LoadedYields(rest: seq<Byte>, m: Machine, s: Skeleton) returns (ts: seq<Shape>, after: seq<Byte>)
    requires HasSkeleton(m, s) && Load(rest, m).Loaded?
    ensures s.opens != [] && Yields(rest, ts, after)
    ensures Succeeds(RunShapes(s, ts), after)
    decreases |rest|
  {
    hide Lex, Advance, HasSkeleton, Step, Finish, Load;
    LoadOnce(rest, m);
    SkeletonInside(m, s);
    if End(rest) {
      FinishLoads(rest, m);
      EndIsSpaces(rest);
      ts, after := [], rest;
    } else {
      var lexed := Lex(rest);
      if lexed.token.Blank? {
        BlankStays(m);
        ts, after := LoadedYields(lexed.rest, m, s);
        if ts == [] {
          after := rest;
        }
      } else if ShapeOf(lexed.token) == None {
        OtherRaises(m, lexed.token);
      } else if lexed.token.Close? && |s.opens| == 1 {
        CloseEnds(m);
        FinishLoads(lexed.rest, m);
        ts, after := [Closing], lexed.rest;
        assert ts[1..] == [];
      } else {
        var t := ShapeOf(lexed.token).value;
        TokenSteps(m, s, lexed.token);
        var more;
        more, after := LoadedYields(lexed.rest, Advance(m, lexed.token).m, Step(s, t).value);
        ts := [t] + more;
        assert ts[1..] == more;
      }
    }
  }

  // ---------- From the start ----------

  function Begun(dict: bool): Machine { Machine([if dict then DictC(map[]) else ListC([])], Some(Ref(0)), [], None) }

  /** The first token that is not blank decides what the text is. */
  lemma FirstToken(t: Token)
    requires !t.Blank?
    ensures match t
            case Scalar(p) => Advance(START, t) == Complete(Machine([], Some(Atom(p)), [], None))
            case OpenList => Advance(START, t) == Go(Begun(false))
            case OpenDict => Advance(START, t) == Go(Begun(true))
            case _ => Advance(START, t).Raise? && !Advance(START, t).e.Loaded?
    ensures HasSkeleton(Begun(false), Skeleton([false], false)) && HasSkeleton(Begun(true), Skeleton([true], false))
  {
  }

  lemma EmptyFails(rest: seq<Byte>)
    requires End(rest)
    ensures !Finish(rest, START).Loaded?
  {
  }

  lemma YieldsStep(rest: seq<Byte>, ts: seq<Shape>, after: seq<Byte>)
    requires ts != [] && Yields(rest, ts, after)
    ensures !End(rest)
    ensures if Lex(rest).token.Blank? then Yields(Lex(rest).rest, ts, after)
            else ShapeOf(Lex(rest).token) == Some(ts[0]) && Yields(Lex(rest).rest, ts[1..], after)
  {
  }

  /** A text of the language in terms of the run of its shapes. */
  lemma TextRuns(ts: seq<Shape>, after: seq<Byte>)
    ensures IsText(ts, after) <==>
            || (ts == [Value] && Spaces(after))
            || (&& ts != [] && ts[0].Opening?
                && Succeeds(RunShapes(Skeleton([ts[0].dict], false), ts[1..]), after))
  {
    hide RunShapes, Spaces, Blanks, IsContainer;
    forall dict, kids | IsContainer(dict, kids, ts, after)
      ensures ts != [] && ts[0] == Opening(dict)
      ensures Succeeds(RunShapes(Skeleton([dict], false), ts[1..]), after)
    {
      ContainerRuns(dict, kids, ts, after);
    }
    if ts != [] && ts[0].Opening? && Succeeds(RunShapes(Skeleton([ts[0].dict], false), ts[1..]), after) {
      RunContains(ts[0].dict, ts, after);
    }
  }

  lemma ContainerRuns(dict: bool, kids: Kids, ts: seq<Shape>, after: seq<Byte>)
    requires IsContainer(dict, kids, ts, after)
    ensures ts != [] && ts[0] == Opening(dict)
    ensures Succeeds(RunShapes(Skeleton([dict], false), ts[1..]), after)
  {
    hide RunShapes, Turns, Flat, Spaces, Blanks;
    assert ts[0] == Opening(dict);
    SplitHead(ts, Opening(dict), Flat(kids));
    KidsRun(dict, kids);
  }

  lemma RunContains(dict: bool, ts: seq<Shape>, after: seq<Byte>)
    requires ts != [] && ts[0] == Opening(dict)
    requires Succeeds(RunShapes(Skeleton([dict], false), ts[1..]), after)
    ensures exists kids :: IsContainer(dict, kids, ts, after)
  {
    hide RunShapes, Turns, Flat, Spaces, Blanks;
    RunIsGrammar(dict, ts[1..]);
    var kids :| && Turns(kids, dict, false).Some?
                && if RunShapes(Skeleton([dict], false), ts[1..]) == Closed then ts[1..] == Flat(kids) + [Closing]
                   else ts[1..] == Flat(kids);
    SplitHead(ts, Opening(dict), Flat(kids));
    assert IsContainer(dict, kids, ts, after);
  }

  lemma SplitHead(ts: seq<Shape>, t: Shape, flat: seq<Shape>)
    requires ts != [] && ts[0] == t
    ensures ts == [t] + flat + [Closing] <==> ts[1..] == flat + [Closing]
    ensures ts == [t] + flat <==> ts[1..] == flat
  {
    assert ts == [t] + ts[1..];
    assert ([t] + flat)[1..] == flat;
    assert [t] + flat + [Closing] == [t] + (flat + [Closing]);
    assert ([t] + (flat + [Closing]))[1..] == flat + [Closing];
  }

  lemma {:induction false} TextLoads(rest: seq<Byte>, ts: seq<Shape>, after: seq<Byte>)
    requires Yields(rest, ts, after) && IsText(ts, after)
    ensures Load(rest, START).Loaded?
    decreases |rest|
  {
    hide Lex, Advance, Finish, Load, Yields, IsText, RunShapes, HasSkeleton, Spaces, Blanks;
    TextRuns(ts, after);
    LoadOnce(rest, START);
    YieldsStep(rest, ts, after);
    var lexed := Lex(rest);
    if lexed.token.Blank? {
      BlankStays(START);
      TextLoads(lexed.rest, ts, after);
    } else {
      FirstToken(lexed.token);
      if ts[0].Opening? {
        YieldedLoads(lexed.rest, Begun(ts[0].dict), Skeleton([ts[0].dict], false), ts[1..], after);
      } else {
        YieldsNothing(lexed.rest, after);
        FinishLoads(lexed.rest, Advance(START, lexed.token).m);
      }
    }
  }

  lemma YieldsNothing(rest: seq<Byte>, after: seq<Byte>)
    ensures Yields(rest, [], after) <==> after == rest
  {
  }

  lemma YieldsOne(rest: seq<Byte>, t: Shape, ts: seq<Shape>, after: seq<Byte>)
    requires !End(rest) && ShapeOf(Lex(rest).token) == Some(t) && Yields(Lex(rest).rest, ts, after)
    ensures Yields(rest, [t] + ts, after)
  {
    hide Lex;
    assert ([t] + ts)[1..] == ts;
  }

  lemma {:induction false} LoadedIsText(rest: seq<Byte>) returns (ts: seq<Shape>, after: seq<Byte>)
    requires Load(rest, START).Loaded?
    ensures Yields(rest, ts, after) && IsText(ts, after)
    decreases |rest|
  {
    hide Lex, Advance, Finish, Load, Yields, IsText, RunShapes, HasSkeleton, Spaces, Blanks;
    LoadOnce(rest, START);
    if End(rest) {
      EmptyFails(rest);
    } else {
      var lexed := Lex(rest);
      if lexed.token.Blank? {
        BlankStays(START);
        ts, after := LoadedIsText(lexed.rest);
        BlankYields(rest, ts, after);
      } else {
        FirstToken(lexed.token);
        var more;
        if lexed.token.Scalar? {
          more, after := [], lexed.rest;
          FinishLoads(lexed.rest, Advance(START, lexed.token).m);
          YieldsNothing(lexed.rest, after);
        } else {
          var dict := lexed.token.OpenDict?;
          more, after := LoadedYields(lexed.rest, Begun(dict), Skeleton([dict], false));
        }
        var t := ShapeOf(lexed.token).value;
        YieldsOne(rest, t, more, after);
        ts := [t] + more;
        assert ts[1..] == more;
        TextRuns(ts, after);
      }
    }
  }

  lemma BlankYields(rest: seq<Byte>, ts: seq<Shape>, after: seq<Byte>)
    requires !End(rest) && Lex(rest).token.Blank? && Yields(Lex(rest).rest, ts, after) && IsText(ts, after)
    ensures Yields(rest, ts, after)
  {
    hide Lex;
    assert ts != [];
  }

  /** The parser accepts a text exactly when its tokens form a text of the language. */
  lemma AcceptedLanguage(rest: seq<Byte>)
    ensures Load(rest, START).Loaded?
            <==> exists ts: seq<Shape>, after: seq<Byte> :: Yields(rest, ts, after) && IsText(ts, after)
  {
    hide Load, Yields, IsText;
    if Load(rest, START).Loaded? {
      var ts, after := LoadedIsText(rest);
    }
    forall ts: seq<Shape>, after: seq<Byte> | Yields(rest, ts, after) && IsText(ts, after)
      ensures Load(rest, START).Loaded?
    {
      TextLoads(rest, ts, after);
    }
  }
}
