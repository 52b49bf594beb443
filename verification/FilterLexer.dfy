/** Integer literals and the lexer of the tracepoint filter language (tp-lexer/src/lib.rs). */
module FilterLexer {
  import opened Bytes
  import opened Chars

  const I64_MAX: int := 0x7FFF_FFFF_FFFF_FFFF
  const I64_MIN: int := -0x8000_0000_0000_0000

  type i64 = v: int | I64_MIN <= v <= I64_MAX

  // ----- Character classes

  predicate IsDigit(c: byte) { 0x30 <= c <= 0x39 }
  predicate IsHexDigit(c: byte) { IsDigit(c) || 0x41 <= c <= 0x46 || 0x61 <= c <= 0x66 }
  predicate IsIdentStart(c: byte) { 0x41 <= c <= 0x5A || 0x61 <= c <= 0x7A || c == 0x5F }
  predicate IsIdentPart(c: byte) { IsIdentStart(c) || IsDigit(c) }

  /** is_ascii_whitespace: no vertical tab. */
  predicate IsSpace(c: byte) { c == SPACE || c == TAB || c == NEWLINE || c == 0x0C || c == 0x0D }

  /** char::is_whitespace on ASCII, which trim uses: with the vertical tab. */
  predicate IsTrimmed(c: byte) { c == SPACE || 0x09 <= c <= 0x0D }

  predicate IsOpChar(c: byte) {
    c == AMP || c == PIPE || c == EQUALS || c == BANG || c == LESS || c == GREATER || c == TILDE || c == LPAREN
      || c == RPAREN
  }

  predicate IsBarePart(c: byte) { !IsSpace(c) && !IsOpChar(c) }

  /** The length of the longest prefix of such characters. */
  function Run(s: seq<byte>, p: byte -> bool): (n: nat)
    ensures n <= |s|
  {
    if s == [] || !p(s[0]) then 0 else 1 + Run(s[1..], p)
  }

  // ----- Integer literals

  function DigitValue(c: byte): (v: nat) {
    if IsDigit(c) then c - 0x30 else if 0x41 <= c <= 0x46 then c - 0x37 else if 0x61 <= c <= 0x66 then c - 0x57 else 99
  }

  function PushDigit(n: nat, radix: nat, digit: nat): Option<nat> {
    if digit < radix then Some(n * radix + digit) else None
  }

  function Number(s: seq<byte>, radix: nat): Option<nat> {
    if s == [] then Some(0)
    else
      match Number(s[..|s| - 1], radix)
      case None => None
      case Some(n) => PushDigit(n, radix, DigitValue(s[|s| - 1]))
  }

  function InI64(v: int): Option<i64> {
    if I64_MIN <= v <= I64_MAX then Some(v) else None
  }

  function Signed(negative: bool, v: int): int {
    if negative then -v else v
  }

  /** i64::from_str_radix, which takes a sign of its own. */
  function FromStrRadix(s: seq<byte>, radix: nat): Option<i64> {
    if s == [] then None
    else
      var signed := s[0] == DASH || s[0] == PLUS;
      var digits := if signed then s[1..] else s;
      if digits == [] then None
      else
        match Number(digits, radix)
        case None => None
        case Some(n) => InI64(Signed(s[0] == DASH, n))
  }

  function TrimStart(s: seq<byte>): seq<byte> {
    if s != [] && IsTrimmed(s[0]) then TrimStart(s[1..]) else s
  }

  function TrimEnd(s: seq<byte>): seq<byte> {
    if s != [] && IsTrimmed(s[|s| - 1]) then TrimEnd(s[..|s| - 1]) else s
  }

  predicate IsHexPrefixed(s: seq<byte>) {
    |s| >= 2 && s[0] == ZERO && (s[1] == 0x78 || s[1] == 0x58)
  }

  /** parse_i64_literal_text. */
  function ParseI64LiteralText(input: seq<byte>): Option<i64> {
    var s := TrimEnd(TrimStart(input));
    if s == [] then None
    else
      var negative := s[0] == DASH;
      var rest := if negative || s[0] == PLUS then s[1..] else s;
      var value := if IsHexPrefixed(rest) then FromStrRadix(rest[2..], 16) else FromStrRadix(rest, 10);
      match value
      case None => None
      case Some(v) => InI64(Signed(negative, v))
  }

  // ----- Tokens

  datatype Token =
    | Ident(name: seq<byte>) | Int(v: i64) | String(text: seq<byte>) | Bareword(word: seq<byte>)
    | AndAnd | OrOr | Amp | EqEq | NotEq | Lt | Le | Gt | Ge | Tilde | LParen | RParen | Eof
    | Bad  // stands for a lexical error

  function Unescape(c: byte): byte {
    if c == 0x6E then NEWLINE else if c == 0x74 then TAB else c
  }

  /** The text up to the closing quote, and what follows it. */
  function LexString(s: seq<byte>, quote: byte): (r: Option<(seq<byte>, seq<byte>)>)
    ensures r.Some? ==> |r.value.1| < |s|
  {
    if s == [] then None
    else if s[0] == quote then Some(([], s[1..]))
    else if s[0] == BACKSLASH then
      if |s| < 2 then None else Then(Unescape(s[1]), LexString(s[2..], quote))
    else Then(s[0], LexString(s[1..], quote))
  }

  function Then(c: byte, r: Option<(seq<byte>, seq<byte>)>): (q: Option<(seq<byte>, seq<byte>)>) {
    match r
    case None => None
    case Some((text, rest)) => Some(([c] + text, rest))
  }

  /** A number at the head: hexadecimal digits after 0x, else decimal digits. */
  function LexNumber(s: seq<byte>): Option<(Token, seq<byte>)> {
    if IsHexPrefixed(s) then
      var n := Run(s[2..], IsHexDigit);
      if n == 0 then None
      else
        match FromStrRadix(s[2..2 + n], 16)
        case None => None
        case Some(v) => Some((Int(v), s[2 + n..]))
    else
      var n := Run(s, IsDigit);
      match FromStrRadix(s[..n], 10)
      case None => None
      case Some(v) => Some((Int(v), s[n..]))
  }

  /** An operator of one character, or of two when the second is there. */
  function OneOrTwo(r: seq<byte>, second: byte, two: Token, one: Token): (t: (Token, seq<byte>))
    ensures t.0 in {two, one} && |t.1| <= |r|
  {
    if r != [] && r[0] == second then (two, r[1..]) else (one, r)
  }

  function Reject(t: (Token, seq<byte>)): Option<(Token, seq<byte>)> {
    if t.0.Bad? then None else Some(t)
  }

  /** The token at the head of a text that does not start with whitespace. */
  function LexToken(s: seq<byte>): Option<(Token, seq<byte>)>
    requires s != [] && !IsSpace(s[0])
  {
    var c, r := s[0], s[1..];
    if c == LPAREN then Some((LParen, r))
    else if c == RPAREN then Some((RParen, r))
    else if c == AMP then Some(OneOrTwo(r, AMP, AndAnd, Amp))
    else if c == PIPE then Reject(OneOrTwo(r, PIPE, OrOr, Bad))
    else if c == EQUALS then Reject(OneOrTwo(r, EQUALS, EqEq, Bad))
    else if c == BANG then Reject(OneOrTwo(r, EQUALS, NotEq, Bad))
    else if c == LESS then Some(OneOrTwo(r, EQUALS, Le, Lt))
    else if c == GREATER then Some(OneOrTwo(r, EQUALS, Ge, Gt))
    else if c == TILDE then Some((Tilde, r))
    else if c == DQUOTE || c == QUOTE then
      match LexString(r, c)
      case None => None
      case Some((text, rest)) => Some((String(text), rest))
    else if IsDigit(c) then LexNumber(s)
    else if IsIdentStart(c) then
      var n := Run(r, IsIdentPart);
      Some((Ident([c] + r[..n]), r[n..]))
    else
      var n := Run(r, IsBarePart);
      Some((Bareword([c] + r[..n]), r[n..]))
  }

  /** next_token. */
  function NextToken(s: seq<byte>): Option<(Token, seq<byte>)> {
    var n := Run(s, IsSpace);
    RunStops(s, IsSpace);
    if n == |s| then Some((Eof, [])) else LexToken(s[n..])
  }

  lemma {:induction false} RunStops(s: seq<byte>, p: byte -> bool)
    ensures forall i | 0 <= i < Run(s, p) :: p(s[i])
    ensures Run(s, p) < |s| ==> !p(s[Run(s, p)])
  {
    if s != [] && p(s[0]) {
      RunStops(s[1..], p);
      assert forall i | 0 < i < Run(s, p) :: s[i] == s[1..][i - 1];
    }
  }

  /** A token takes characters off the text; only the end of the text takes none. */
  lemma TokenShortens(s: seq<byte>)
    ensures NextToken(s).Some? ==>
              !NextToken(s).value.0.Bad? && (!NextToken(s).value.0.Eof? ==> |NextToken(s).value.1| < |s|)
  {
    RunStops(s, IsSpace);
    var t := s[Run(s, IsSpace)..];
    hide Run;
    if t != [] {
      LexShortens(t);
      hide LexToken;
    }
  }

  lemma LexShortens(s: seq<byte>)
    requires s != [] && !IsSpace(s[0])
    ensures LexToken(s).Some? ==>
              !LexToken(s).value.0.Bad? && !LexToken(s).value.0.Eof? && |LexToken(s).value.1| < |s|
  {
    hide LexString, Run, OneOrTwo, LexNumber;
    NumberShortens(s);
  }

  lemma NumberShortens(s: seq<byte>)
    ensures LexNumber(s).Some? ==> LexNumber(s).value.0.Int? && |LexNumber(s).value.1| < |s|
  {
    hide Run;
  }

  /** All the tokens of a text, ended by `Eof`, or by `Bad` at the first error. */
  function Tokens(s: seq<byte>): (ts: seq<Token>)
    ensures ts != []
    decreases |s|
  {
    TokenShortens(s);
    match NextToken(s)
    case None => [Bad]
    case Some((t, rest)) => if t.Eof? then [Eof] else [t] + Tokens(rest)
  }

  // ----- The lexer as the source runs it

  function Prepend(out: seq<byte>, r: Option<(seq<byte>, seq<byte>)>): Option<(seq<byte>, seq<byte>)> {
    match r
    case None => None
    case Some((text, rest)) => Some((out + text, rest))
  }

  class Lexer {
    const input: seq<byte>
    var pos: nat

    ghost predicate Valid()
      reads this
    {
      pos <= |input|
    }

    function Rest(): seq<byte>
      requires Valid()
      reads this
    {
      input[pos..]
    }

    constructor (input: seq<byte>)
      ensures Valid() && this.input == input && pos == 0
    {
      this.input, pos := input, 0;
    }

    method SkipWhile(p: byte -> bool)
      requires Valid()
      modifies this
      ensures Valid() && pos == old(pos) + Run(old(Rest()), p)
    {
      while pos < |input| && p(input[pos])
        invariant Valid() && old(pos) <= pos
        invariant Run(old(Rest()), p) == pos - old(pos) + Run(Rest(), p)
      {
        DropFirst(input, pos);
        pos := pos + 1;
      }
    }

    method LexNumberAt() returns (t: Option<Token>)
      requires Valid() && pos < |input|
      modifies this
      ensures Valid()
      ensures match LexNumber(old(Rest()))
              case None => t.None?
              case Some((tok, rest)) => t == Some(tok) && Rest() == rest
    {
      hide Run, FromStrRadix;
      ghost var start := Rest();
      if input[pos] == ZERO && pos + 1 < |input| && (input[pos + 1] == 0x78 || input[pos + 1] == 0x58) {
        pos := pos + 2;
        SliceOfRest(input, pos - 2, 2, 2);
        var n, v := DigitsAt(IsHexDigit, 16);
        SliceOfRest(start, 2, 0, n);
        t := if n == 0 || v.None? then None else Some(Int(v.value));
      } else {
        var _, v := DigitsAt(IsDigit, 10);
        t := if v.None? then None else Some(Int(v.value));
      }
    }

    /** Takes the digits ahead and gives their number and their value. */
    method DigitsAt(isDigit: byte -> bool, radix: nat) returns (n: nat, v: Option<i64>)
      requires Valid()
      modifies this
      ensures Valid() && n == Run(old(Rest()), isDigit) && Rest() == old(Rest())[n..]
      ensures v == FromStrRadix(old(Rest())[..n], radix)
    {
      hide Run, FromStrRadix;
      var from := pos;
      SkipWhile(isDigit);
      n := pos - from;
      SliceOfRest(input, from, 0, n);
      assert old(Rest())[0..n] == old(Rest())[..n];
      v := FromStrRadix(input[from..pos], radix);
    }

    method LexStringAt(quote: byte) returns (t: Option<Token>)
      requires Valid()
      modifies this
      ensures Valid()
      ensures match LexString(old(Rest()), quote)
              case None => t.None?
              case Some((text, rest)) => t == Some(String(text)) && Rest() == rest
    {
      hide Unescape, Prepend;
      var out: seq<byte> := [];
      PrependNothing(LexString(Rest(), quote));
      while pos < |input|
        invariant Valid()
        invariant Prepend(out, LexString(Rest(), quote)) == LexString(old(Rest()), quote)
      {
        ghost var here, shown := Rest(), out;
        var b := input[pos];
        DropFirst(input, pos);
        pos := pos + 1;
        if b == quote {
          PrependEnd(out, here[1..]);
          return Some(String(out));
        } else if b == BACKSLASH {
          PrependEnd(out, []);
          if pos == |input| {
            return None;
          }
          DropFirst(input, pos);
          assert here[1] == input[pos] && here[2..] == here[1..][1..];
          out := out + [Unescape(input[pos])];
          pos := pos + 1;
          PrependThen(shown, here[1], LexString(Rest(), quote), Unescape(here[1]));
        } else {
          out := out + [b];
          PrependThen(shown, b, LexString(Rest(), quote), b);
        }
      }
      PrependEnd(out, []);
      t := None;
    }

    method Next() returns (t: Option<Token>)
      requires Valid()
      modifies this
      ensures Valid()
      ensures match NextToken(old(Rest()))
              case None => t.None?
              case Some((tok, rest)) => t == Some(tok) && Rest() == rest
    {
      hide LexToken, Run;
      ghost var all := Rest();
      RunStops(all, IsSpace);
      SkipWhile(IsSpace);
      if pos >= |input| {
        return Some(Eof);
      }
      assert Rest() == all[pos - old(pos)..];
      t := LexHere();
    }

    /** The token whose first character is the next one. */
    method LexHere() returns (t: Option<Token>)
      requires Valid() && pos < |input| && !IsSpace(input[pos])
      modifies this
      ensures Valid()
      ensures match LexToken(old(Rest()))
              case None => t.None?
              case Some((tok, rest)) => t == Some(tok) && Rest() == rest
    {
      hide LexNumber, LexString, Run;
      DropFirst(input, pos);
      var b := input[pos];
      if IsDigit(b) {
        t := LexNumberAt();
        return;
      }
      pos := pos + 1;
      if b == LPAREN {
        t := Some(LParen);
      } else if b == RPAREN {
        t := Some(RParen);
      } else if b == AMP {
        t := Operator(AMP, AndAnd, Amp);
      } else if b == PIPE {
        t := Operator(PIPE, OrOr, Bad);
      } else if b == EQUALS {
        t := Operator(EQUALS, EqEq, Bad);
      } else if b == BANG {
        t := Operator(EQUALS, NotEq, Bad);
      } else if b == LESS {
        t := Operator(EQUALS, Le, Lt);
      } else if b == GREATER {
        t := Operator(EQUALS, Ge, Gt);
      } else if b == TILDE {
        t := Some(Tilde);
      } else if b == DQUOTE || b == QUOTE {
        t := LexStringAt(b);
      } else {
        t := LexWord(b);
      }
    }

    /** An operator that the character `second` would continue; `Bad` alone is an error. */
    method Operator(second: byte, two: Token, one: Token) returns (t: Option<Token>)
      requires Valid() && !two.Bad?
      modifies this
      ensures Valid()
      ensures match Reject(OneOrTwo(old(Rest()), second, two, one))
              case None => t.None?
              case Some((tok, rest)) => t == Some(tok) && Rest() == rest
    {
      if pos < |input| {
        DropFirst(input, pos);
        if input[pos] == second {
          pos := pos + 1;
          return Some(two);
        }
      }
      t := if one.Bad? then None else Some(one);
    }

    /** lex_ident and lex_bareword, after the first character. */
    method LexWord(b: byte) returns (t: Option<Token>)
      requires Valid() && 0 < pos && b == input[pos - 1]
      modifies this
      ensures Valid()
      ensures var n := Run(old(Rest()), if IsIdentStart(b) then IsIdentPart else IsBarePart);
              && Rest() == old(Rest())[n..]
              && t == Some(if IsIdentStart(b) then Ident([b] + old(Rest())[..n]) else Bareword([b] + old(Rest())[..n]))
    {
      hide Run;
      var from := pos - 1;
      if IsIdentStart(b) {
        SkipWhile(IsIdentPart);
        t := Some(Ident(input[from..pos]));
      } else {
        SkipWhile(IsBarePart);
        t := Some(Bareword(input[from..pos]));
      }
      assert input[from..pos] == [b] + old(Rest())[..pos - from - 1];
      assert Rest() == old(Rest())[pos - from - 1..];
    }
  }

  lemma DropFirst(s: seq<byte>, k: nat)
    requires k < |s|
    ensures s[k..][0] == s[k] && s[k..][1..] == s[k + 1..]
  {
  }

  lemma SliceOfRest(s: seq<byte>, k: nat, from: nat, to: nat)
    requires from <= to && k + to <= |s|
    ensures s[k..][from..to] == s[k + from..k + to] && s[k..][from..] == s[k + from..] && s[k..][to..] == s[k + to..]
  {
  }

  lemma PrependNothing(r: Option<(seq<byte>, seq<byte>)>)
    ensures Prepend([], r) == r
  {
    if r.Some? {
      assert [] + r.value.0 == r.value.0;
    }
  }

  lemma PrependEnd(out: seq<byte>, rest: seq<byte>)
    ensures Prepend(out, Some(([], rest))) == Some((out, rest))
    ensures Prepend(out, None) == None
  {
    assert out + [] == out;
  }

  lemma PrependThen(out: seq<byte>, raw: byte, r: Option<(seq<byte>, seq<byte>)>, c: byte)
    ensures Prepend(out + [c], r) == Prepend(out, Then(c, r))
  {
    if r.Some? {
      assert out + [c] + r.value.0 == out + ([c] + r.value.0);
    }
  }
}
