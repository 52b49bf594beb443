/** The recursive-descent parser of the tracepoint filter language (tp-lexer/src/lib.rs). */
module FilterParser {
  import opened Bytes
  import opened Chars
  import opened FilterLexer

  datatype NumOp = NumEq | NumNe | NumLt | NumLe | NumGt | NumGe
  datatype StrOp = StrEq | StrNe | StrGlob

  /** An expression, without the spans that only messages use. */
  datatype Expr =
    | Or(left: Expr, right: Expr)
    | And(left: Expr, right: Expr)
    | NumCmp(field: seq<byte>, mask: Option<i64>, nop: NumOp, rhs: i64)
    | StrCmp(field: seq<byte>, sop: StrOp, pat: seq<byte>)
    | Group(inner: Expr)

  // ----- Token streams

  /**
    What the parser has ahead: the lookahead and the tokens after it. Only the last token can
    be `Eof` or `Bad`, and the lookahead is never `Bad`: to fetch that is an error.
  */
  type Stream = ts: seq<Token> | IsStream(ts) witness [Eof]

  predicate IsStream(ts: seq<Token>) {
    && ts != [] && !ts[0].Bad? && (ts[|ts| - 1].Eof? || ts[|ts| - 1].Bad?)
    && forall i | 0 <= i < |ts| - 1 :: !ts[i].Eof? && !ts[i].Bad?
  }

  /** The stream that starts with the tokens `ts`, if the first is not an error. */
  function Fetch(ts: seq<Token>): Option<seq<Token>> {
    if ts == [] || ts[0].Bad? then None else Some(ts)
  }

  /** bump: takes the lookahead and fetches the next token; the end stays the end. */
  function Bump(ts: Stream): (r: Option<Stream>)
    ensures r.Some? && !ts[0].Eof? ==> |r.value| == |ts| - 1
  {
    if ts[0].Eof? then Some(ts) else Fetch(ts[1..])
  }

  function Expect(ts: Stream, t: Token): (r: Option<Stream>)
    ensures r.Some? && !t.Eof? ==> |r.value| == |ts| - 1
  {
    if ts[0] == t then Bump(ts) else None
  }

  // ----- Literals and patterns

  function ParseSignedInt(ts: Stream): (r: Option<(i64, Stream)>)
    ensures r.Some? ==> |r.value.1| < |ts|
    decreases |ts|
  {
    match ts[0]
    case Int(v) =>
      (match Bump(ts)
       case None => None
       case Some(t1) => Some((v, t1)))
    case Bareword(word) =>
      if word == [DASH] || word == [PLUS] then
        match Bump(ts)
        case None => None
        case Some(t1) =>
          match ParseSignedInt(t1)
          case None => None
          case Some((v, t2)) =>
            if word == [PLUS] then Some((v, t2))
            else if v == I64_MIN then None else Some((-v, t2))
      else
        (match ParseI64LiteralText(word)
         case None => None
         case Some(v) =>
           match Bump(ts)
           case None => None
           case Some(t1) => Some((v, t1)))
    case LParen =>
      (match Bump(ts)
       case None => None
       case Some(t1) =>
         match ParseSignedInt(t1)
         case None => None
         case Some((v, t2)) =>
           match Expect(t2, RParen)
           case None => None
           case Some(t3) => Some((v, t3)))
    case _ => None
  }

  predicate StartsNumericLiteral(t: Token) {
    match t
    case Int(_) => true
    case Bareword(word) => word == [DASH] || word == [PLUS] || ParseI64LiteralText(word).Some?
    case LParen => true
    case _ => false
  }

  /** Words without quotes that follow the pattern belong to it: `bash*` is two tokens. */
  function MergeWords(s: seq<byte>, ts: Stream): (r: Option<(seq<byte>, Stream)>)
    ensures r.Some? ==> |r.value.1| <= |ts|
    decreases |ts|
  {
    if !ts[0].Bareword? then Some((s, ts))
    else
      match Bump(ts)
      case None => None
      case Some(t1) => MergeWords(s + ts[0].word, t1)
  }

  function PatternText(t: Token): Option<seq<byte>> {
    match t
    case String(text) => Some(text)
    case Bareword(word) => Some(word)
    case Ident(name) => Some(name)
    case _ => None
  }

  function ParsePatternLiteral(ts: Stream): (r: Option<(seq<byte>, Stream)>)
    ensures r.Some? ==> |r.value.1| < |ts|
  {
    match PatternText(ts[0])
    case None => None
    case Some(text) =>
      match Bump(ts)
      case None => None
      case Some(t1) => MergeWords(text, t1)
  }

  // ----- Comparisons

  function NumOpOf(t: Token): Option<NumOp> {
    match t
    case EqEq => Some(NumEq)
    case NotEq => Some(NumNe)
    case Lt => Some(NumLt)
    case Le => Some(NumLe)
    case Gt => Some(NumGt)
    case Ge => Some(NumGe)
    case _ => None
  }

  /** `field & mask op rhs`, from the mask on. */
  function ParseMasked(field: seq<byte>, ts: Stream): (r: Option<(Expr, Stream)>)
    ensures r.Some? ==> |r.value.1| < |ts|
  {
    match ParseSignedInt(ts)
    case None => None
    case Some((mask, t1)) =>
      match Bump(t1)
      case None => None
      case Some(t2) =>
        match NumOpOf(t1[0])
        case None => None
        case Some(op) =>
          match ParseSignedInt(t2)
          case None => None
          case Some((rhs, t3)) => Some((NumCmp(field, Some(mask), op, rhs), t3))
  }

  function ParseRhs(field: seq<byte>, op: NumOp, ts: Stream): (r: Option<(Expr, Stream)>)
    ensures r.Some? ==> |r.value.1| < |ts|
  {
    match ParseSignedInt(ts)
    case None => None
    case Some((rhs, t1)) => Some((NumCmp(field, None, op, rhs), t1))
  }

  function ParsePattern(field: seq<byte>, op: StrOp, ts: Stream): (r: Option<(Expr, Stream)>)
    ensures r.Some? ==> |r.value.1| < |ts|
  {
    match ParsePatternLiteral(ts)
    case None => None
    case Some((pat, t1)) => Some((StrCmp(field, op, pat), t1))
  }

  /** The operator and, for `==` and `!=`, the token after it decide between numbers and patterns. */
  function ParseComparison(field: seq<byte>, op: Token, ts: Stream): (r: Option<(Expr, Stream)>)
    requires op.Amp? || op.Tilde? || NumOpOf(op).Some?
    ensures r.Some? ==> |r.value.1| < |ts|
  {
    match op
    case Amp => ParseMasked(field, ts)
    case Tilde => ParsePattern(field, StrGlob, ts)
    case EqEq => if StartsNumericLiteral(ts[0]) then ParseRhs(field, NumEq, ts) else ParsePattern(field, StrEq, ts)
    case NotEq => if StartsNumericLiteral(ts[0]) then ParseRhs(field, NumNe, ts) else ParsePattern(field, StrNe, ts)
    case _ => ParseRhs(field, NumOpOf(op).value, ts)
  }

  /** parse_field_cmp. */
  function ParseFieldCmp(ts: Stream): (r: Option<(Expr, Stream)>)
    requires ts[0].Ident?
    ensures r.Some? ==> |r.value.1| < |ts|
  {
    var field := ts[0].name;
    match Bump(ts)
    case None => None
    case Some(t1) =>
      if !(t1[0].Amp? || t1[0].Tilde? || NumOpOf(t1[0]).Some?) then None
      else
        match Bump(t1)
        case None => None
        case Some(t2) => ParseComparison(field, t1[0], t2)
  }

  // ----- Expressions

  function ParseOr(ts: Stream): (r: Option<(Expr, Stream)>)
    ensures r.Some? ==> |r.value.1| < |ts|
    decreases |ts|, 3
  {
    match ParseAnd(ts)
    case None => None
    case Some((left, t1)) => OrLoop(left, t1)
  }

  function OrLoop(left: Expr, ts: Stream): (r: Option<(Expr, Stream)>)
    ensures r.Some? ==> |r.value.1| <= |ts|
    decreases |ts|, 2
  {
    if !ts[0].OrOr? then Some((left, ts))
    else
      match Bump(ts)
      case None => None
      case Some(t1) =>
        match ParseAnd(t1)
        case None => None
        case Some((right, t2)) => OrLoop(Or(left, right), t2)
  }

  function ParseAnd(ts: Stream): (r: Option<(Expr, Stream)>)
    ensures r.Some? ==> |r.value.1| < |ts|
    decreases |ts|, 2
  {
    match ParseCmp(ts)
    case None => None
    case Some((left, t1)) => AndLoop(left, t1)
  }

  function AndLoop(left: Expr, ts: Stream): (r: Option<(Expr, Stream)>)
    ensures r.Some? ==> |r.value.1| <= |ts|
    decreases |ts|, 1
  {
    if !ts[0].AndAnd? then Some((left, ts))
    else
      match Bump(ts)
      case None => None
      case Some(t1) =>
        match ParseCmp(t1)
        case None => None
        case Some((right, t2)) => AndLoop(And(left, right), t2)
  }

  function ParseCmp(ts: Stream): (r: Option<(Expr, Stream)>)
    ensures r.Some? ==> |r.value.1| < |ts|
    decreases |ts|, 1
  {
    match ts[0]
    case LParen =>
      (match Bump(ts)
       case None => None
       case Some(t1) =>
         match ParseOr(t1)
         case None => None
         case Some((inner, t2)) =>
           match Expect(t2, RParen)
           case None => None
           case Some(t3) => Some((Group(inner), t3)))
    case Ident(_) => ParseFieldCmp(ts)
    case _ => None
  }

  /** Parser::new and parse: the whole text is one expression. */
  function Parse(input: seq<byte>): Option<Expr> {
    TokensAreStream(input);
    match Fetch(Tokens(input))
    case None => None
    case Some(ts) =>
      match ParseOr(ts)
      case None => None
      case Some((e, rest)) => if rest[0].Eof? then Some(e) else None
  }

  lemma {:induction false} TokensAreStream(s: seq<byte>)
    ensures !Tokens(s)[0].Bad? ==> IsStream(Tokens(s))
    ensures Tokens(s)[0].Bad? ==> Tokens(s) == [Bad]
    decreases |s|
  {
    hide NextToken;
    TokenShortens(s);
    if NextToken(s).Some? && !NextToken(s).value.0.Eof? {
      TokensAreStream(NextToken(s).value.1);
    }
  }

  // ----- The parser as the source runs it

  lemma AheadIsStream(t: Token, s: seq<byte>)
    requires !t.Bad? && !t.Eof?
    ensures IsStream([t] + Tokens(s))
  {
    TokensAreStream(s);
    hide Tokens;
  }

  lemma SignUnfolds(ts: Stream, minus: bool)
    requires ts[0] == Bareword(if minus then [DASH] else [PLUS])
    ensures ParseSignedInt(ts) ==
            match Bump(ts)
            case None => None
            case Some(t1) =>
              match ParseSignedInt(t1)
              case None => None
              case Some((v, t2)) => if !minus then Some((v, t2)) else if v == I64_MIN then None else Some((-v, t2))
  {
    hide ParseI64LiteralText, IsStream, Bump;
    assert [DASH] != [PLUS];
  }

  lemma ParenUnfolds(ts: Stream)
    requires ts[0].LParen?
    ensures ParseSignedInt(ts) ==
            match Bump(ts)
            case None => None
            case Some(t1) =>
              match ParseSignedInt(t1)
              case None => None
              case Some((v, t2)) =>
                match Expect(t2, RParen)
                case None => None
                case Some(t3) => Some((v, t3))
  {
    hide ParseI64LiteralText, IsStream, Bump, Expect;
  }

  class Parser {
    const lexer: Lexer
    var lookahead: Token

    ghost predicate Valid()
      reads this, lexer
    {
      lexer.Valid() && !lookahead.Bad? && (lookahead.Eof? ==> lexer.Rest() == [])
    }

    /** The lookahead and the tokens the lexer has still to give. */
    ghost function Ahead(): Stream
      requires Valid()
      reads this, lexer
    {
      if lookahead.Eof? then [Eof]
      else
        AheadIsStream(lookahead, lexer.Rest());
        [lookahead] + Tokens(lexer.Rest())
    }

    constructor (lexer: Lexer, first: Token)
      requires lexer.Valid() && !first.Bad? && (first.Eof? ==> lexer.Rest() == [])
      ensures Valid() && this.lexer == lexer && lookahead == first
    {
      this.lexer, lookahead := lexer, first;
    }

    method Advance() returns (cur: Token, ok: bool)
      requires Valid()
      modifies this, lexer
      ensures cur == old(lookahead)
      ensures match Bump(old(Ahead())) case None => !ok case Some(ts) => ok && Valid() && Ahead() == ts
    {
      hide NextToken;
      TokenShortens(lexer.Rest());
      AtEnd(lexer.Rest());
      ghost var before := Ahead();
      cur := lookahead;
      assert !cur.Eof? ==> before[1..] == Tokens(lexer.Rest());
      lookahead := Eof;
      var next := lexer.Next();
      ok := next.Some?;
      if ok {
        lookahead := next.value;
      }
    }

    method ExpectToken(t: Token) returns (ok: bool)
      requires Valid()
      modifies this, lexer
      ensures match Expect(old(Ahead()), t) case None => !ok case Some(ts) => ok && Valid() && Ahead() == ts
    {
      if lookahead != t {
        return false;
      }
      var _, bumped := Advance();
      ok := bumped;
    }

    method SignedInt() returns (v: Option<i64>)
      requires Valid()
      modifies this, lexer
      ensures match ParseSignedInt(old(Ahead()))
              case None => v.None?
              case Some((w, ts)) => v == Some(w) && Valid() && Ahead() == ts
      decreases |Ahead()|, 1
    {
      hide Tokens, ParseI64LiteralText;
      match lookahead
      case Int(n) =>
        var _, bumped := Advance();
        v := if bumped then Some(n) else None;
      case Bareword(word) =>
        if word == [DASH] || word == [PLUS] {
          v := SignThenInt(word == [DASH]);
        } else {
          var value := ParseI64LiteralText(word);
          if value.None? {
            return None;
          }
          var _, bumped := Advance();
          v := if bumped then value else None;
        }
      case LParen => v := ParenInt();
      case _ => v := None;
    }

    /** A sign that is a token of its own. */
    method SignThenInt(minus: bool) returns (v: Option<i64>)
      requires Valid() && lookahead == Bareword(if minus then [DASH] else [PLUS])
      modifies this, lexer
      ensures match ParseSignedInt(old(Ahead()))
              case None => v.None?
              case Some((w, ts)) => v == Some(w) && Valid() && Ahead() == ts
      decreases |Ahead()|, 0
    {
      hide Tokens, ParseSignedInt, Bump, IsStream;
      SignUnfolds(Ahead(), minus);
      var _, bumped := Advance();
      if !bumped {
        return None;
      }
      v := SignedInt();
      if minus && v.Some? {
        v := if v.value == I64_MIN then None else Some(-v.value);
      }
    }

    method ParenInt() returns (v: Option<i64>)
      requires Valid() && lookahead.LParen?
      modifies this, lexer
      ensures match ParseSignedInt(old(Ahead()))
              case None => v.None?
              case Some((w, ts)) => v == Some(w) && Valid() && Ahead() == ts
      decreases |Ahead()|, 0
    {
      hide Tokens, ParseSignedInt, Bump, Expect, IsStream;
      ParenUnfolds(Ahead());
      var _, bumped := Advance();
      if !bumped {
        return None;
      }
      v := SignedInt();
      if v.Some? {
        var ok := ExpectToken(RParen);
        v := if ok then v else None;
      }
    }

    method PatternLiteral() returns (s: Option<seq<byte>>)
      requires Valid()
      modifies this, lexer
      ensures match ParsePatternLiteral(old(Ahead()))
              case None => s.None?
              case Some((pat, ts)) => s == Some(pat) && Valid() && Ahead() == ts
    {
      s := PatternText(lookahead);
      if s.None? {
        return;
      }
      var _, ok := Advance();
      if !ok {
        return None;
      }
      ghost var start := MergeWords(s.value, Ahead());
      while lookahead.Bareword?
        invariant Valid() && s.Some? && start == MergeWords(s.value, Ahead())
        decreases |Ahead()|
      {
        s := Some(s.value + lookahead.word);
        var _, bumped := Advance();
        if !bumped {
          return None;
        }
      }
    }

    method FieldCmp() returns (e: Option<Expr>)
      requires Valid() && lookahead.Ident?
      modifies this, lexer
      ensures match ParseFieldCmp(old(Ahead()))
              case None => e.None?
              case Some((f, ts)) => e == Some(f) && Valid() && Ahead() == ts
    {
      hide ParseComparison, MergeWords, Tokens;
      var name, ok := Advance();
      if !ok {
        return None;
      }
      var field, op := name.name, lookahead;
      if !(op.Amp? || op.Tilde? || NumOpOf(op).Some?) {
        return None;
      }
      var _, bumped := Advance();
      if !bumped {
        return None;
      }
      e := Comparison(field, op);
    }

    /** The cases of parse_field_cmp, after the operator. */
    method Comparison(field: seq<byte>, op: Token) returns (e: Option<Expr>)
      requires Valid() && (op.Amp? || op.Tilde? || NumOpOf(op).Some?)
      modifies this, lexer
      ensures match ParseComparison(field, op, old(Ahead()))
              case None => e.None?
              case Some((f, ts)) => e == Some(f) && Valid() && Ahead() == ts
    {
      hide ParseSignedInt, ParsePatternLiteral, StartsNumericLiteral;
      if op.Amp? {
        e := Masked(field);
      } else if op.Tilde? || ((op.EqEq? || op.NotEq?) && !StartsNumericLiteral(lookahead)) {
        var pat := PatternLiteral();
        var strOp := if op.Tilde? then StrGlob else if op.EqEq? then StrEq else StrNe;
        e := if pat.None? then None else Some(StrCmp(field, strOp, pat.value));
      } else {
        var rhs := SignedInt();
        e := if rhs.None? then None else Some(NumCmp(field, None, NumOpOf(op).value, rhs.value));
      }
    }

    method Masked(field: seq<byte>) returns (e: Option<Expr>)
      requires Valid()
      modifies this, lexer
      ensures match ParseMasked(field, old(Ahead()))
              case None => e.None?
              case Some((f, ts)) => e == Some(f) && Valid() && Ahead() == ts
    {
      hide ParseSignedInt;
      var mask := SignedInt();
      if mask.None? {
        return None;
      }
      var opTok, ok := Advance();
      if !ok || NumOpOf(opTok).None? {
        return None;
      }
      var rhs := SignedInt();
      e := if rhs.None? then None else Some(NumCmp(field, Some(mask.value), NumOpOf(opTok).value, rhs.value));
    }

    method OrExpr() returns (e: Option<Expr>)
      requires Valid()
      modifies this, lexer
      ensures match ParseOr(old(Ahead()))
              case None => e.None?
              case Some((f, ts)) => e == Some(f) && Valid() && Ahead() == ts
      decreases |Ahead()|, 3
    {
      hide ParseAnd;
      ghost var all := Ahead();
      e := AndExpr();
      if e.None? {
        return;
      }
      ghost var start := OrLoop(e.value, Ahead());
      while lookahead.OrOr?
        invariant Valid() && e.Some? && |Ahead()| < |all| && start == OrLoop(e.value, Ahead())
        decreases |Ahead()|
      {
        var _, bumped := Advance();
        if !bumped {
          return None;
        }
        var right := AndExpr();
        if right.None? {
          return None;
        }
        e := Some(Or(e.value, right.value));
      }
    }

    method AndExpr() returns (e: Option<Expr>)
      requires Valid()
      modifies this, lexer
      ensures match ParseAnd(old(Ahead()))
              case None => e.None?
              case Some((f, ts)) => e == Some(f) && Valid() && Ahead() == ts
      decreases |Ahead()|, 2
    {
      hide ParseCmp;
      ghost var all := Ahead();
      e := Cmp();
      if e.None? {
        return;
      }
      ghost var start := AndLoop(e.value, Ahead());
      while lookahead.AndAnd?
        invariant Valid() && e.Some? && |Ahead()| < |all| && start == AndLoop(e.value, Ahead())
        decreases |Ahead()|
      {
        var _, bumped := Advance();
        if !bumped {
          return None;
        }
        var right := Cmp();
        if right.None? {
          return None;
        }
        e := Some(And(e.value, right.value));
      }
    }

    method Cmp() returns (e: Option<Expr>)
      requires Valid()
      modifies this, lexer
      ensures match ParseCmp(old(Ahead()))
              case None => e.None?
              case Some((f, ts)) => e == Some(f) && Valid() && Ahead() == ts
      decreases |Ahead()|, 1
    {
      hide ParseFieldCmp, ParseOr, Tokens, Bump, Expect, IsStream;
      if lookahead.LParen? {
        var _, bumped := Advance();
        if !bumped {
          return None;
        }
        var inner := OrExpr();
        if inner.None? {
          return None;
        }
        var ok := ExpectToken(RParen);
        e := if ok then Some(Group(inner.value)) else None;
      } else if lookahead.Ident? {
        e := FieldCmp();
      } else {
        e := None;
      }
    }
  }

  /** Nothing but the end follows the end. */
  lemma AtEnd(s: seq<byte>)
    ensures s == [] ==> NextToken(s) == Some((Eof, []))
    ensures NextToken(s).Some? && NextToken(s).value.0.Eof? ==> NextToken(s).value.1 == []
  {
    RunStops(s, IsSpace);
    hide LexString, Run;
  }

  /** The parser run over a text. */
  method ParseText(input: seq<byte>) returns (e: Option<Expr>)
    ensures e == Parse(input)
  {
    hide NextToken, ParseOr;
    TokenShortens(input);
    AtEnd(input);
    var lexer := new Lexer(input);
    assert lexer.Rest() == input;
    var first := lexer.Next();
    if first.None? {
      return None;
    }
    var parser := new Parser(lexer, first.value);
    e := parser.OrExpr();
    if e.Some? && !parser.lookahead.Eof? {
      e := None;
    }
  }
}
