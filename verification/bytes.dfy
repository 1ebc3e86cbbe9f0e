/** Bytes of the input, of paths and of the output, as the values 0..255 that the
    library reads through `unsigned char` (or through a signed `char` whose
    comparisons, where they matter, are written out as unsigned ranges). */
module Bytes {

  type byte = x: int | 0 <= x < 256

  const QUOTE: byte := 0x22      // '"'
  const BACKSLASH: byte := 0x5C  // '\\'
  const SLASH: byte := 0x2F      // '/'
  const DOT: byte := 0x2E        // '.'
  const COMMA: byte := 0x2C      // ','
  const COLON: byte := 0x3A      // ':'
  const MINUS: byte := 0x2D      // '-'
  const PLUS: byte := 0x2B       // '+'
  const SPACE: byte := 0x20      // ' '
  const TAB: byte := 0x09        // '\t'
  const LF: byte := 0x0A         // '\n'
  const CR: byte := 0x0D         // '\r'
  const BS: byte := 0x08         // '\b'
  const FF: byte := 0x0C         // '\f'
  const LBRACE: byte := 0x7B     // '{'
  const RBRACE: byte := 0x7D     // '}'
  const LBRACKET: byte := 0x5B   // '['
  const RBRACKET: byte := 0x5D   // ']'
  const DIGIT_0: byte := 0x30    // '0'
  const DIGIT_9: byte := 0x39    // '9'
  const DEL: byte := 0x7F        // the C0-range DEL control
  const UPPER_A: byte := 0x41    // 'A'
  const UPPER_E: byte := 0x45    // 'E'
  const UPPER_F: byte := 0x46    // 'F'
  const LOWER_A: byte := 0x61    // 'a'
  const LOWER_B: byte := 0x62    // 'b'
  const LOWER_E: byte := 0x65    // 'e'
  const LOWER_F: byte := 0x66    // 'f'
  const LOWER_L: byte := 0x6C    // 'l'
  const LOWER_N: byte := 0x6E    // 'n'
  const LOWER_R: byte := 0x72    // 'r'
  const LOWER_S: byte := 0x73    // 's'
  const LOWER_T: byte := 0x74    // 't'
  const LOWER_U: byte := 0x75    // 'u'

  /** `ch >= '0' && ch <= '9'` */
  predicate IsDec(b: byte) {
    DIGIT_0 <= b <= DIGIT_9
  }
}
