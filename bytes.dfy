/** Bytes of a Go string and the few characters the placeholder utility looks at. */
module Bytes {

  /** One byte of a Go string; indexing a string (`pattern[i]`) reads one of these. */
  newtype byte = x: int | 0 <= x < 256

  const OPEN_PAREN: byte := 40    // '('
  const CLOSE_PAREN: byte := 41   // ')'
  const PLUS: byte := 43          // '+'
  const MINUS: byte := 45         // '-'
  const ZERO: byte := 48          // '0'
  const NINE: byte := 57          // '9'
  const BACKSLASH: byte := 92     // '\'
  const OPEN_BRACE: byte := 123   // '{'
  const CLOSE_BRACE: byte := 125  // '}'

  predicate IsParen(b: byte) {
    b == OPEN_PAREN || b == CLOSE_PAREN
  }

  predicate IsDigit(b: byte) {
    ZERO <= b <= NINE
  }

  predicate AllDigits(s: seq<byte>) {
    forall k :: 0 <= k < |s| ==> IsDigit(s[k])
  }
}
