/**
 Bytes, byte strings and the ASCII codes that the JSON reader and writers name.
 */
module Bytes {
  type byte = x: int | 0 <= x < 256
  type bytes = seq<byte>

  datatype Option<+T> = None | Some(value: T)

  const NUL: byte := 0
  const BACKSPACE: byte := 8
  const TAB: byte := 9
  const LF: byte := 10
  const FF: byte := 12
  const CR: byte := 13
  const SPACE: byte := 32
  const QUOTE: byte := 34
  const APOSTROPHE: byte := 39
  const STAR: byte := 42
  const PLUS: byte := 43
  const COMMA: byte := 44
  const MINUS: byte := 45
  const DOT: byte := 46
  const SLASH: byte := 47
  const ZERO: byte := 48
  const NINE: byte := 57
  const COLON: byte := 58
  const LBRACKET: byte := 91
  const BACKSLASH: byte := 92
  const RBRACKET: byte := 93
  const LBRACE: byte := 123
  const RBRACE: byte := 125

  const NULL_TEXT: bytes := [110, 117, 108, 108]
  const TRUE_TEXT: bytes := [116, 114, 117, 101]
  const FALSE_TEXT: bytes := [102, 97, 108, 115, 101]

  predicate IsDigit(b: byte) {
    ZERO <= b <= NINE
  }

  predicate IsSpace(b: byte) {
    b == SPACE || b == TAB || b == CR || b == LF
  }

  /** `part` occurs in `whole` at offset `at`. */
  predicate OccursAt(whole: bytes, at: nat, part: bytes) {
    at + |part| <= |whole| && whole[at..at + |part|] == part
  }
}
