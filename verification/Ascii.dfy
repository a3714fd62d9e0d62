/** The bytes the JSON text and the wire messages are made of. */
module Ascii {
  import opened Machine

  const NUL: byte := 0
  const BACKSPACE: byte := 8
  const TAB: byte := 9
  const NEWLINE: byte := 10
  const FORMFEED: byte := 12
  const RETURN: byte := 13
  const SPACE: byte := 32
  const QUOTE: byte := 34
  const PLUS: byte := 43
  const COMMA: byte := 44
  const MINUS: byte := 45
  const DOT: byte := 46
  const SLASH: byte := 47
  const DIGIT_0: byte := 48
  const DIGIT_9: byte := 57
  const COLON: byte := 58
  const UPPER_A: byte := 65
  const UPPER_E: byte := 69
  const UPPER_F: byte := 70
  const OPEN_BRACKET: byte := 91
  const BACKSLASH: byte := 92
  const CLOSE_BRACKET: byte := 93
  const LOWER_A: byte := 97
  const LOWER_B: byte := 98
  const LOWER_E: byte := 101
  const LOWER_F: byte := 102
  const LOWER_L: byte := 108
  const LOWER_N: byte := 110
  const LOWER_R: byte := 114
  const LOWER_S: byte := 115
  const LOWER_T: byte := 116
  const LOWER_U: byte := 117
  const OPEN_BRACE: byte := 123
  const CLOSE_BRACE: byte := 125

  predicate IsDigit(b: byte) { DIGIT_0 <= b <= DIGIT_9 }

  predicate IsHex(b: byte) {
    IsDigit(b) || UPPER_A <= b <= UPPER_F || LOWER_A <= b <= LOWER_F
  }

  /** The value of a hexadecimal digit. */
  function HexValue(b: byte): (v: nat)
    requires IsHex(b)
    ensures v < 16
  {
    if IsDigit(b) then b - DIGIT_0
    else if b <= UPPER_F then b - UPPER_A + 10
    else b - LOWER_A + 10
  }
}
