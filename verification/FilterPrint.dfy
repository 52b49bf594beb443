/** Printing of filter expressions, and lexing what was printed (tp-lexer/src/lib.rs). */
module FilterPrint {
  import opened Bytes
  import opened Chars
  import opened FilterLexer
  import opened FilterParser

  // ----- Integers

  function DigitsOf(n: nat): (s: seq<byte>)
    ensures s != []
  {
    if n < 10 then [ZERO + n] else DigitsOf(n / 10) + [ZERO + n % 10]
  }

  predicate AllDigits(s: seq<byte>) { forall i | 0 <= i < |s| :: IsDigit(s[i]) }

  lemma {:induction false} DigitsOfAreDigits(n: nat)
    ensures AllDigits(DigitsOf(n))
  {
    if n >= 10 {
      DigitsOfAreDigits(n / 10);
    }
  }

  lemma {:induction false} NumberOfDigits(n: nat)
    ensures Number(DigitsOf(n), 10) == Some(n)
  {
    if n < 10 {
      assert DigitsOf(n)[..0] == [];
    } else {
      NumberOfDigits(n / 10);
      var s := DigitsOf(n);
      assert s[..|s| - 1] == DigitsOf(n / 10) && s[|s| - 1] == ZERO + n % 10;
      assert DigitValue(ZERO + n % 10) == n % 10;
    }
  }

  lemma RadixOfDigits(n: nat)
    ensures FromStrRadix(DigitsOf(n), 10) == if n <= I64_MAX then Some(n) else None
    ensures !IsHexPrefixed(DigitsOf(n))
  {
    DigitsOfAreDigits(n);
    NumberOfDigits(n);
    assert IsDigit(DigitsOf(n)[0]);
  }

  lemma TrimKeeps(s: seq<byte>)
    requires s != [] && !IsTrimmed(s[0]) && !IsTrimmed(s[|s| - 1])
    ensures TrimEnd(TrimStart(s)) == s
  {
  }

  /** A negative literal written with a minus sign: all but the least one. */
  lemma NegativeLiteral(n: nat)
    ensures ParseI64LiteralText([DASH] + DigitsOf(n)) == if n <= I64_MAX then Some(Signed(true, n)) else None
  {
    hide DigitsOf, TrimStart, TrimEnd, FromStrRadix, IsHexPrefixed, Number;
    DigitsOfAreDigits(n);
    RadixOfDigits(n);
    var s := [DASH] + DigitsOf(n);
    assert s[|s| - 1] == DigitsOf(n)[|DigitsOf(n)| - 1];
    TrimKeeps(s);
    assert s[1..] == DigitsOf(n);
  }

  /** The least integer can only be written with a sign before its own minus sign. */
  lemma LeastNeedsPlus()
    ensures ParseI64LiteralText([PLUS, DASH] + DigitsOf(-I64_MIN)) == Some(I64_MIN)
    ensures ParseI64LiteralText([DASH] + DigitsOf(-I64_MIN)) == None
  {
    hide DigitsOf, TrimStart, TrimEnd, Number;
    NegativeLiteral(-I64_MIN);
    DigitsOfAreDigits(-I64_MIN);
    NumberOfDigits(-I64_MIN);
    var d := DigitsOf(-I64_MIN);
    var s := [PLUS, DASH] + d;
    assert s[|s| - 1] == d[|d| - 1];
    TrimKeeps(s);
    assert s[1..] == [DASH] + d && s[1..][1..] == d;
  }

  // ----- Tokens of an expression

  /** The least integer takes a plus before its minus. */
  function IntToken(v: i64): Token {
    if v >= 0 then Int(v)
    else if v == I64_MIN then Bareword([PLUS, DASH] + DigitsOf(-I64_MIN))
    else Bareword([DASH] + DigitsOf(Signed(true, v)))
  }

  function NumOpToken(op: NumOp): Token {
    match op
    case NumEq => EqEq
    case NumNe => NotEq
    case NumLt => Lt
    case NumLe => Le
    case NumGt => Gt
    case NumGe => Ge
  }

  function StrOpToken(op: StrOp): Token {
    match op
    case StrEq => EqEq
    case StrNe => NotEq
    case StrGlob => Tilde
  }

  function Print(e: Expr): (ts: seq<Token>)
    ensures ts != []
  {
    match e
    case Or(l, r) => Print(l) + [OrOr] + Print(r)
    case And(l, r) => Print(l) + [AndAnd] + Print(r)
    case Group(inner) => [LParen] + Print(inner) + [RParen]
    case NumCmp(field, None, op, rhs) => [Ident(field), NumOpToken(op), IntToken(rhs)]
    case NumCmp(field, Some(mask), op, rhs) => [Ident(field), Amp, IntToken(mask), NumOpToken(op), IntToken(rhs)]
    case StrCmp(field, op, pat) => [Ident(field), StrOpToken(op), String(pat)]
  }

  // ----- The text of a token

  predicate IsIdentifier(s: seq<byte>) {
    s != [] && IsIdentStart(s[0]) && forall i | 0 <= i < |s| :: IsIdentPart(s[i])
  }

  function EscapeOne(c: byte): seq<byte> {
    if c == DQUOTE || c == BACKSLASH then [BACKSLASH, c] else [c]
  }

  function Escape(s: seq<byte>): seq<byte> {
    if s == [] then [] else EscapeOne(s[0]) + Escape(s[1..])
  }

  function TokenText(t: Token): seq<byte> {
    match t
    case Ident(name) => name
    case Int(v) => if v >= 0 then DigitsOf(v) else []
    case String(text) => [DQUOTE] + Escape(text) + [DQUOTE]
    case Bareword(word) => word
    case AndAnd => [AMP, AMP]
    case OrOr => [PIPE, PIPE]
    case Amp => [AMP]
    case EqEq => [EQUALS, EQUALS]
    case NotEq => [BANG, EQUALS]
    case Lt => [LESS]
    case Le => [LESS, EQUALS]
    case Gt => [GREATER]
    case Ge => [GREATER, EQUALS]
    case Tilde => [TILDE]
    case LParen => [LPAREN]
    case RParen => [RPAREN]
    case Eof => []
    case Bad => []
  }

  /** The tokens, each after a space. */
  function Text(ts: seq<Token>): seq<byte> {
    if ts == [] then [] else [SPACE] + TokenText(ts[0]) + Text(ts[1..])
  }

  /** A token that has a text of its own. */
  predicate IsPrintable(t: Token) {
    match t
    case Ident(name) => IsIdentifier(name)
    case Int(v) => v >= 0
    case String(_) => true
    case Bareword(word) =>
      && word != [] && !IsIdentStart(word[0]) && !IsDigit(word[0]) && word[0] != DQUOTE && word[0] != QUOTE
      && forall i | 0 <= i < |word| :: IsBarePart(word[i])
    case Eof => false
    case Bad => false
    case _ => true
  }

  // ----- Lexing the text

  /** What follows a token: nothing, or the space before the next one. */
  predicate IsTail(s: seq<byte>) { s == [] || s[0] == SPACE }

  lemma {:induction false} RunUpTo(s: seq<byte>, tail: seq<byte>, p: byte -> bool)
    requires (forall i | 0 <= i < |s| :: p(s[i])) && (tail == [] || !p(tail[0]))
    ensures Run(s + tail, p) == |s| && (s + tail)[..|s|] == s && (s + tail)[|s|..] == tail
  {
    if s == [] {
      assert s + tail == tail;
    } else {
      RunUpTo(s[1..], tail, p);
      assert (s + tail)[1..] == s[1..] + tail;
    }
  }

  lemma {:induction false} EscapeRead(text: seq<byte>, tail: seq<byte>)
    ensures LexString(Escape(text) + [DQUOTE] + tail, DQUOTE) == Some((text, tail))
  {
    var s := Escape(text) + [DQUOTE] + tail;
    if text == [] {
      assert s[1..] == tail;
    } else {
      EscapeRead(text[1..], tail);
      var rest := Escape(text[1..]) + [DQUOTE] + tail;
      assert s == EscapeOne(text[0]) + rest;
      CharRead(text[0], rest);
      assert [text[0]] + text[1..] == text;
    }
  }

  /** One escaped character is read as the character. */
  lemma CharRead(c: byte, rest: seq<byte>)
    ensures LexString(EscapeOne(c) + rest, DQUOTE) == Then(c, LexString(rest, DQUOTE))
  {
    var s := EscapeOne(c) + rest;
    assert s[|EscapeOne(c)|..] == rest;
  }

  lemma LexInt(v: i64, tail: seq<byte>)
    requires v >= 0 && IsTail(tail)
    ensures LexNumber(DigitsOf(v) + tail) == Some((Int(v), tail))
  {
    hide Run, Number, FromStrRadix;
    DigitsOfAreDigits(v);
    RadixOfDigits(v);
    var s := DigitsOf(v);
    hide DigitsOf;
    RunUpTo(s, tail, IsDigit);
    assert |s| > 1 ==> (s + tail)[1] == s[1];
  }

  lemma LexWord(c: byte, s: seq<byte>, tail: seq<byte>)
    requires IsTail(tail) && !IsDigit(c) && !IsSpace(c) && !IsOpChar(c) && c != DQUOTE && c != QUOTE
    requires IsIdentStart(c) ==> forall i | 0 <= i < |s| :: IsIdentPart(s[i])
    requires !IsIdentStart(c) ==> forall i | 0 <= i < |s| :: IsBarePart(s[i])
    ensures LexToken([c] + s + tail) == Some((if IsIdentStart(c) then Ident([c] + s) else Bareword([c] + s), tail))
  {
    hide Run, LexNumber, LexString;
    if IsIdentStart(c) {
      RunUpTo(s, tail, IsIdentPart);
    } else {
      RunUpTo(s, tail, IsBarePart);
    }
    assert ([c] + s + tail)[1..] == s + tail;
  }

  lemma LexNamed(word: seq<byte>, tail: seq<byte>)
    requires IsTail(tail) && (IsPrintable(Ident(word)) || IsPrintable(Bareword(word)))
    ensures LexToken(word + tail) == Some((if IsIdentStart(word[0]) then Ident(word) else Bareword(word), tail))
    ensures !IsSpace(word[0])
  {
    hide LexToken;
    assert word + tail == [word[0]] + word[1..] + tail && [word[0]] + word[1..] == word;
    LexWord(word[0], word[1..], tail);
  }

  lemma LexDigits(v: i64, tail: seq<byte>)
    requires v >= 0 && IsTail(tail)
    ensures !IsSpace(DigitsOf(v)[0]) && !IsSpace((DigitsOf(v) + tail)[0])
    ensures LexToken(DigitsOf(v) + tail) == Some((Int(v), tail))
  {
    DigitsOfAreDigits(v);
    LexInt(v, tail);
    hide LexNumber, LexString, Run, DigitsOf;
    assert IsDigit(DigitsOf(v)[0]) && (DigitsOf(v) + tail)[0] == DigitsOf(v)[0];
  }

  lemma LexQuoted(text: seq<byte>, tail: seq<byte>)
    ensures LexToken([DQUOTE] + Escape(text) + [DQUOTE] + tail) == Some((String(text), tail))
  {
    EscapeRead(text, tail);
    hide LexNumber, LexString, Run, Escape;
    assert ([DQUOTE] + Escape(text) + [DQUOTE] + tail)[1..] == Escape(text) + [DQUOTE] + tail;
  }

  lemma LexPrinted(t: Token, tail: seq<byte>)
    requires IsPrintable(t) && IsTail(tail)
    ensures TokenText(t) != [] && !IsSpace(TokenText(t)[0]) && LexToken(TokenText(t) + tail) == Some((t, tail))
             && !t.Eof?
  {
    hide LexToken, DigitsOf, Escape;
    if t.Ident? {
      LexNamed(t.name, tail);
    } else if t.Bareword? {
      LexNamed(t.word, tail);
    } else if t.Int? {
      LexDigits(t.v, tail);
    } else if t.String? {
      LexQuoted(t.text, tail);
    } else {
      LexOperator(t, tail);
    }
  }

  lemma LexOperator(t: Token, tail: seq<byte>)
    requires IsPrintable(t) && IsTail(tail) && !t.Ident? && !t.Bareword? && !t.Int? && !t.String?
    ensures TokenText(t) != [] && !IsSpace(TokenText(t)[0]) && LexToken(TokenText(t) + tail) == Some((t, tail))
             && !t.Eof?
  {
    hide LexNumber, LexString, Run, Escape, DigitsOf, IsIdentStart, IsDigit, IsIdentifier, AllDigits;
    AfterFirst(TokenText(t), tail);
  }

  lemma AfterFirst(text: seq<byte>, tail: seq<byte>)
    requires 1 <= |text| <= 2
    ensures var r := (text + tail)[1..]; if |text| == 1 then r == tail else r[0] == text[1] && r[1..] == tail
  {
    var r := (text + tail)[1..];
    assert if |text| == 1 then r == tail else r[1..] == tail;
  }

  /** Lexing undoes printing: the tokens come back, whatever follows after a space. */
  lemma {:induction false} TokensOfText(ts: seq<Token>)
    requires forall i | 0 <= i < |ts| :: IsPrintable(ts[i])
    ensures Tokens(Text(ts)) == ts + [Eof] && IsTail(Text(ts))
    decreases |ts|
  {
    hide LexToken, IsPrintable, TokenText;
    if ts != [] {
      var t, rest := ts[0], Text(ts[1..]);
      TokensOfText(ts[1..]);
      LexPrinted(t, rest);
      var s := Text(ts);
      assert s == [SPACE] + (TokenText(t) + rest);
      RunUpTo([SPACE], TokenText(t) + rest, IsSpace);
      assert s[1..] == TokenText(t) + rest;
      assert ts + [Eof] == [t] + (ts[1..] + [Eof]);
    }
  }
}
