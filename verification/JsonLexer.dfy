/** The primitives that the parser of `modjson.c` reads from its stream: blanks, brackets,
    keywords, numbers and strings. */
module JsonLexer {

  import opened Bytes
  import ParseNumber
  import Utf8

  // ---------- The stream ----------

  /** `S_CUR`: the byte under the cursor; 0 at the end of the stream. */
  function Cur(rest: seq<Byte>): Byte { if rest == [] then 0 else rest[0] }

  /** `S_NEXT`: what is left after one more read. */
  function Next(rest: seq<Byte>): seq<Byte> { if rest == [] then [] else rest[1..] }

  /** `S_END`: a zero byte counts as the end. */
  predicate End(rest: seq<Byte>) { Cur(rest) == 0 }

  // ---------- Tokens ----------

  /** None, a truth value, a string, an integer, or a floating point number as written. */
  datatype Prim = PNone | PBool(b: bool) | PStr(s: seq<Byte>) | PInt(v: int) | PFloat(token: seq<Byte>)

  /** Garbage raises ValueError, a string that is not UTF-8 raises UnicodeError. */
  datatype Token = Blank | Scalar(p: Prim) | OpenList | OpenDict | Close | Garbage | NotUtf8

  /** A token and the stream after it. */
  datatype Lexed = Lexed(token: Token, rest: seq<Byte>)

  predicate IsNumberByte(c: Byte) {
    c == DOT || c == UPPER_E || c == LOWER_E || c == PLUS || c == MINUS || IsDigit(c)
  }

  predicate MakesFloat(c: Byte) { c == DOT || c == UPPER_E || c == LOWER_E }

  // ---------- Keywords ----------

  /** Compare the stream with `word`; on success the cursor is behind it. */
  function Keyword(rest: seq<Byte>, word: seq<Byte>, p: Prim): (r: Lexed)
    ensures |r.rest| <= |rest|
    decreases |word|
  {
    if word == [] then Lexed(Scalar(p), rest)
    else if Cur(rest) == word[0] then Keyword(Next(rest), word[1..], p)
    else Lexed(Garbage, rest)
  }

  const ULL: seq<Byte> := [LOWER_U, LOWER_L, LOWER_L]
  const ALSE: seq<Byte> := [LOWER_A, LOWER_L, LOWER_S, LOWER_E]
  const RUE: seq<Byte> := [LOWER_R, LOWER_U, LOWER_E]

  // ---------- Numbers ----------

  /** The longest run of number bytes. */
  function NumberRun(rest: seq<Byte>): (run: seq<Byte>)
    ensures |run| <= |rest| && run <= rest
    ensures forall i :: 0 <= i < |run| ==> IsNumberByte(run[i])
  {
    if rest == [] || !IsNumberByte(rest[0]) then [] else [rest[0]] + NumberRun(rest[1..])
  }

  function AfterNumber(rest: seq<Byte>): (r: seq<Byte>)
    ensures |r| <= |rest|
  {
    rest[|NumberRun(rest)|..]
  }

  predicate HasFloatByte(run: seq<Byte>) {
    run != [] && (MakesFloat(run[0]) || HasFloatByte(run[1..]))
  }

  /** The number that a run of number bytes denotes. */
  function NumberToken(token: seq<Byte>): Token {
    if HasFloatByte(token) then if ParseNumber.IsFloat(token) then Scalar(PFloat(token)) else Garbage
    else
      match ParseNumber.Integer(token)
      case Number(v) => Scalar(PInt(v))
      case Invalid => Garbage
  }

  // ---------- Strings ----------

  /** Bitwise OR. */
  function Or(a: nat, b: nat): nat
    decreases a
  {
    if a == 0 then b else if b == 0 then a
    else 2 * Or(a / 2, b / 2) + if a % 2 == 1 || b % 2 == 1 then 1 else 0
  }

  /** The value the parser gives to a hexadecimal digit, in 8-bit arithmetic. */
  function HexDigit(c: Byte): Byte {
    var lower := if c / 32 % 2 == 0 then c + 32 else c;
    var d := (lower - 48 + 256) % 256;
    if d > 9 then (d - 39 + 256) % 256 else d
  }

  /** Four digits of a \u escape; `rest` still has the cursor on the u. */
  function Hex4(rest: seq<Byte>): nat {
    var r1 := Next(rest);
    var r2 := Next(r1);
    var r3 := Next(r2);
    var r4 := Next(r3);
    Or(16 * Or(16 * Or(16 * HexDigit(Cur(r1)), HexDigit(Cur(r2))), HexDigit(Cur(r3))), HexDigit(Cur(r4)))
  }

  /** The byte that a one-letter escape stands for; letters without a meaning stand for themselves. */
  function Unescaped(c: Byte): Byte {
    if c == LOWER_B then 0x08 else if c == LOWER_F then 0x0c else if c == LOWER_N then 0x0a
    else if c == LOWER_R then 0x0d else if c == LOWER_T then 0x09 else c
  }

  /** `mp_obj_new_str` of the bytes collected. */
  function StringToken(bytes: seq<Byte>): Token { if Utf8.Passes(bytes, 0) then Scalar(PStr(bytes)) else NotUtf8 }

  /** A string body up to its closing quote. */
  function StringBody(rest: seq<Byte>, acc: seq<Byte>): (r: Lexed)
    ensures |r.rest| <= |rest|
    decreases |rest|
  {
    if End(rest) then Lexed(Garbage, rest)
    else if rest[0] == QUOTE then Lexed(StringToken(acc), Next(rest))
    else if rest[0] == BACKSLASH then
      var r := Next(rest);
      if Cur(r) == LOWER_U then StringBody(Next(Next(Next(Next(Next(r))))), acc + Utf8.Encoded(Hex4(r)))
      else StringBody(Next(r), acc + [Unescaped(Cur(r))])
    else StringBody(Next(rest), acc + [rest[0]])
  }

  // ---------- One token ----------

  datatype Kind = IsBlank | IsWord(tail: seq<Byte>, p: Prim) | IsQuote | IsNumber | IsOpen(list: bool) | IsClose | IsOther

  function KindOf(c: Byte): Kind {
    if c == COMMA || c == COLON || c == SPACE || c == TAB || c == LF || c == CR then IsBlank
    else if c == LOWER_N then IsWord(ULL, PNone)
    else if c == LOWER_F then IsWord(ALSE, PBool(false))
    else if c == LOWER_T then IsWord(RUE, PBool(true))
    else if c == QUOTE then IsQuote
    else if c == MINUS || IsDigit(c) then IsNumber
    else if c == LBRACKET then IsOpen(true)
    else if c == LBRACE then IsOpen(false)
    else if c == RBRACKET || c == RBRACE then IsClose
    else IsOther
  }

  /** One round of the parser's switch; every token consumes input. */
  function Lex(rest: seq<Byte>): (r: Lexed)
    requires !End(rest)
    ensures |r.rest| < |rest|
  {
    var r := rest[1..];
    match KindOf(rest[0])
    case IsBlank => Lexed(Blank, r)
    case IsWord(tail, p) => Keyword(r, tail, p)
    case IsQuote => StringBody(r, [])
    case IsNumber =>
      var run := NumberRun(r);
      Lexed(NumberToken([rest[0]] + run), AfterNumber(r))
    case IsOpen(list) => Lexed(if list then OpenList else OpenDict, r)
    case IsClose => Lexed(Close, r)
    case IsOther => Lexed(Garbage, r)
  }
}
