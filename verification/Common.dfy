/** Bytes, and the characters that several components name. */
module Bytes {

  type Byte = b: nat | b < 256

  const TAB: Byte := 9
  const LF: Byte := 10
  const CR: Byte := 13
  const SPACE: Byte := 32
  const QUOTE: Byte := 34
  const PLUS: Byte := 43
  const COMMA: Byte := 44
  const MINUS: Byte := 45
  const DOT: Byte := 46
  const ZERO_DIGIT: Byte := 48
  const COLON: Byte := 58
  const UPPER_E: Byte := 69
  const LBRACKET: Byte := 91
  const BACKSLASH: Byte := 92
  const RBRACKET: Byte := 93
  const UNDERSCORE: Byte := 95
  const LOWER_A: Byte := 97
  const LOWER_B: Byte := 98
  const LOWER_E: Byte := 101
  const LOWER_F: Byte := 102
  const LOWER_L: Byte := 108
  const LOWER_N: Byte := 110
  const LOWER_R: Byte := 114
  const LOWER_S: Byte := 115
  const LOWER_T: Byte := 116
  const LOWER_U: Byte := 117
  const LBRACE: Byte := 123
  const RBRACE: Byte := 125

  predicate IsDigit(c: Byte) { 48 <= c <= 57 }

  /** `unichar_isspace`. */
  predicate IsSpace(c: Byte) { 9 <= c <= 13 || c == SPACE }

  function SkipSpace(rest: seq<Byte>): (r: seq<Byte>)
    ensures |r| <= |rest|
  {
    if rest != [] && IsSpace(rest[0]) then SkipSpace(rest[1..]) else rest
  }
}

/** Counting on round a circle. */
module Circle {

  /** `i` counted on round a circle of `size` places. */
  function Around(i: nat, size: nat): nat {
    if i < size then i else i - size
  }
}
