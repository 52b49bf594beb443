/** The characters that patterns, filters and names are made of. */
module Chars {
  import opened Bytes

  const TAB: byte := 0x09
  const NEWLINE: byte := 0x0A
  const SPACE: byte := 0x20
  const BANG: byte := 0x21
  const DQUOTE: byte := 0x22
  const AMP: byte := 0x26
  const QUOTE: byte := 0x27
  const LPAREN: byte := 0x28
  const RPAREN: byte := 0x29
  const STAR: byte := 0x2A
  const PLUS: byte := 0x2B
  const DASH: byte := 0x2D
  const ZERO: byte := 0x30
  const LESS: byte := 0x3C
  const EQUALS: byte := 0x3D
  const GREATER: byte := 0x3E
  const QUESTION: byte := 0x3F
  const LBRACKET: byte := 0x5B
  const BACKSLASH: byte := 0x5C
  const RBRACKET: byte := 0x5D
  const CARET: byte := 0x5E
  const PIPE: byte := 0x7C
  const TILDE: byte := 0x7E

  predicate IsAscii(s: seq<byte>) {
    forall i | 0 <= i < |s| :: s[i] < 128
  }
}
