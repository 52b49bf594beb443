/** Parsing undoes printing, and for which expressions exactly (tp-lexer/src/lib.rs). */
module FilterRoundTrip {
  import opened Bytes
  import opened Chars
  import opened FilterLexer
  import opened FilterParser
  import opened FilterPrint

  // ----- The shape of what the parser builds

  /** `||` nests to the left over `&&`, `&&` to the left over comparisons; groups are explicit. */
  predicate OrShape(e: Expr)
    decreases e, 2
  {
    match e
    case Or(l, r) => OrShape(l) && AndShape(r)
    case _ => AndShape(e)
  }

  predicate AndShape(e: Expr)
    decreases e, 1
  {
    match e
    case Or(_, _) => false
    case And(l, r) => AndShape(l) && CmpShape(r)
    case _ => CmpShape(e)
  }

  predicate CmpShape(e: Expr)
    decreases e, 0
  {
    match e
    case Or(_, _) => false
    case And(_, _) => false
    case Group(inner) => OrShape(inner)
    case _ => true
  }

  /** Fields are identifiers and patterns ASCII text. */
  predicate Sound(e: Expr) {
    match e
    case Or(l, r) => Sound(l) && Sound(r)
    case And(l, r) => Sound(l) && Sound(r)
    case Group(inner) => Sound(inner)
    case NumCmp(field, _, _, _) => IsIdentifier(field)
    case StrCmp(field, _, pat) => IsIdentifier(field) && IsAscii(pat)
  }

  // ----- Token streams made of printed expressions

  predicate IsPlain(t: Token) { !t.Eof? && !t.Bad? }

  lemma PlainStream(ts: seq<Token>, rest: Stream)
    requires forall i | 0 <= i < |ts| :: IsPlain(ts[i])
    ensures IsStream(ts + rest)
  {
  }

  lemma {:induction false} PrintPlain(e: Expr)
    ensures forall i | 0 <= i < |Print(e)| :: IsPlain(Print(e)[i])
  {
    match e
    case Or(l, r) => PrintPlain(l); PrintPlain(r);
    case And(l, r) => PrintPlain(l); PrintPlain(r);
    case Group(inner) => PrintPlain(inner);
    case _ =>
  }

  lemma PrintedStream(e: Expr, rest: Stream)
    ensures IsStream(Print(e) + rest)
  {
    PrintPlain(e);
    PlainStream(Print(e), rest);
  }

  lemma Cons(t: Token, ts: Stream)
    requires IsPlain(t)
    ensures IsStream([t] + ts) && Bump([t] + ts) == Some(ts)
  {
    PlainStream([t], ts);
    assert ([t] + ts)[1..] == ts;
  }

  // ----- Leaves

  lemma IntPrinted(v: i64, rest: Stream)
    ensures IsStream([IntToken(v)] + rest)
    ensures ParseSignedInt([IntToken(v)] + rest) == Some((v, rest)) && StartsNumericLiteral(IntToken(v))
  {
    hide DigitsOf, ParseI64LiteralText, IsStream, Bump;
    Cons(IntToken(v), rest);
    if v == I64_MIN {
      LeastNeedsPlus();
      assert |IntToken(v).word| > 1;
    } else if v < 0 {
      NegativeLiteral(Signed(true, v));
      assert |IntToken(v).word| > 1;
    }
    assert ([IntToken(v)] + rest)[0] == IntToken(v);
  }

  predicate Stops(t: Token) { t.AndAnd? || t.OrOr? || t.RParen? || t.Eof? }

  lemma PatternPrinted(t: Token, rest: Stream)
    requires PatternText(t).Some? && Stops(rest[0])
    ensures IsStream([t] + rest) && ParsePatternLiteral([t] + rest) == Some((PatternText(t).value, rest))
  {
    Cons(t, rest);
  }

  lemma MaskedPrinted(field: seq<byte>, mask: i64, op: NumOp, rhs: i64, rest: Stream)
    requires Stops(rest[0])
    ensures IsStream([IntToken(mask), NumOpToken(op), IntToken(rhs)] + rest)
    ensures ParseMasked(field, [IntToken(mask), NumOpToken(op), IntToken(rhs)] + rest)
         == Some((NumCmp(field, Some(mask), op, rhs), rest))
  {
    assert NumOpOf(NumOpToken(op)) == Some(op) && IsPlain(NumOpToken(op));
    hide ParseSignedInt, IntToken, Stops, NumOpOf, NumOpToken, Bump, IsStream;
    var t2: seq<Token> := [IntToken(rhs)] + rest;
    IntPrinted(rhs, rest);
    Cons(NumOpToken(op), t2);
    var t1: seq<Token> := [NumOpToken(op)] + t2;
    IntPrinted(mask, t1);
    ThreeTokens(IntToken(mask), NumOpToken(op), IntToken(rhs), rest);
  }

  lemma ThreeTokens(a: Token, b: Token, c: Token, rest: seq<Token>)
    ensures [a, b, c] + rest == [a] + ([b] + ([c] + rest))
  {
  }

  lemma RhsPrinted(field: seq<byte>, op: NumOp, rhs: i64, rest: Stream)
    requires Stops(rest[0])
    ensures IsStream([IntToken(rhs)] + rest)
    ensures ParseComparison(field, NumOpToken(op), [IntToken(rhs)] + rest)
         == Some((NumCmp(field, None, op, rhs), rest))
  {
    hide ParseSignedInt, StartsNumericLiteral, ParsePatternLiteral, IntToken;
    IntPrinted(rhs, rest);
    assert ([IntToken(rhs)] + rest)[0] == IntToken(rhs);
  }

  lemma FieldPrinted(field: seq<byte>, op: Token, ts: Stream)
    requires op.Amp? || op.Tilde? || NumOpOf(op).Some?
    ensures IsStream([Ident(field), op] + ts)
    ensures ParseCmp([Ident(field), op] + ts) == ParseComparison(field, op, ts)
  {
    hide ParseComparison;
    Cons(op, ts);
    var t1: seq<Token> := [op] + ts;
    Cons(Ident(field), t1);
    assert [Ident(field), op] + ts == [Ident(field)] + t1;
  }

  lemma StrPrinted(field: seq<byte>, op: StrOp, pat: seq<byte>, rest: Stream)
    requires Stops(rest[0])
    ensures IsStream([String(pat)] + rest)
    ensures ParseComparison(field, StrOpToken(op), [String(pat)] + rest) == Some((StrCmp(field, op, pat), rest))
  {
    hide ParseSignedInt, ParsePatternLiteral, ParseMasked;
    PatternPrinted(String(pat), rest);
    assert ([String(pat)] + rest)[0] == String(pat);
  }

  lemma LeafPrinted(e: Expr, rest: Stream)
    requires e.NumCmp? || e.StrCmp?
    requires Stops(rest[0])
    ensures IsStream(Print(e) + rest) && ParseCmp(Print(e) + rest) == Some((e, rest))
  {
    hide ParseCmp, ParseSignedInt, ParsePatternLiteral, IntToken, ParseComparison;
    PrintedStream(e, rest);
    if e.StrCmp? {
      StrPrinted(e.field, e.sop, e.pat, rest);
      var ts: seq<Token> := [String(e.pat)] + rest;
      FieldPrinted(e.field, StrOpToken(e.sop), ts);
      assert Print(e) + rest == [Ident(e.field), StrOpToken(e.sop)] + ts;
    } else if e.mask.None? {
      RhsPrinted(e.field, e.nop, e.rhs, rest);
      var ts: seq<Token> := [IntToken(e.rhs)] + rest;
      FieldPrinted(e.field, NumOpToken(e.nop), ts);
      assert Print(e) + rest == [Ident(e.field), NumOpToken(e.nop)] + ts;
    } else {
      MaskedLeaf(e.field, e.mask.value, e.nop, e.rhs, rest);
    }
  }

  lemma MaskedLeaf(field: seq<byte>, mask: i64, op: NumOp, rhs: i64, rest: Stream)
    requires Stops(rest[0])
    ensures var e := NumCmp(field, Some(mask), op, rhs);
            IsStream(Print(e) + rest) && ParseCmp(Print(e) + rest) == Some((e, rest))
  {
    hide ParseCmp, ParseSignedInt, IntToken, ParseMasked, NumOpToken;
    MaskedPrinted(field, mask, op, rhs, rest);
    var ts: seq<Token> := [IntToken(mask), NumOpToken(op), IntToken(rhs)] + rest;
    FieldPrinted(field, Amp, ts);
    assert Print(NumCmp(field, Some(mask), op, rhs)) + rest == [Ident(field), Amp] + ts;
  }

  // ----- Whole expressions

  lemma GroupJoin(inner: Expr, ts: Stream, rest: Stream)
    requires IsStream([RParen] + rest) && ParseOr(ts) == Some((inner, [RParen] + rest))
    ensures IsStream([LParen] + ts) && ParseCmp([LParen] + ts) == Some((Group(inner), rest))
  {
    hide ParseOr, ParseFieldCmp, IsStream, Bump;
    Cons(RParen, rest);
    Cons(LParen, ts);
    assert ([LParen] + ts)[0] == LParen && ([RParen] + rest)[0] == RParen;
  }

  lemma GroupText(inner: Expr, rest: seq<Token>)
    ensures Print(Group(inner)) + rest == [LParen] + (Print(inner) + ([RParen] + rest))
  {
  }

  lemma {:induction false} CmpPrinted(e: Expr, rest: Stream)
    requires CmpShape(e) && Stops(rest[0])
    ensures IsStream(Print(e) + rest) && ParseCmp(Print(e) + rest) == Some((e, rest))
    decreases e, 0
  {
    hide ParseOr, ParseCmp, IsStream, OrShape, Print;
    if e.Group? {
      var t2: seq<Token> := [RParen] + rest;
      Cons(RParen, rest);
      assert t2[0] == RParen;
      OrPrinted(e.inner, t2);
      var t1: seq<Token> := Print(e.inner) + t2;
      GroupJoin(e.inner, t1, rest);
      GroupText(e.inner, rest);
    } else {
      LeafPrinted(e, rest);
    }
  }

  lemma AndStep(left: Expr, right: Expr, ts: Stream, rest: Stream)
    requires ParseCmp(ts) == Some((right, rest))
    ensures IsStream([AndAnd] + ts) && AndLoop(left, [AndAnd] + ts) == AndLoop(And(left, right), rest)
  {
    hide ParseCmp, IsStream, Bump;
    Cons(AndAnd, ts);
    assert ([AndAnd] + ts)[0] == AndAnd;
  }

  lemma OrStep(left: Expr, right: Expr, ts: Stream, rest: Stream)
    requires ParseAnd(ts) == Some((right, rest))
    ensures IsStream([OrOr] + ts) && OrLoop(left, [OrOr] + ts) == OrLoop(Or(left, right), rest)
  {
    hide ParseAnd, IsStream, Bump;
    Cons(OrOr, ts);
    assert ([OrOr] + ts)[0] == OrOr;
  }

  lemma Assoc(a: seq<Token>, t: Token, b: seq<Token>, c: seq<Token>)
    ensures a + [t] + b + c == a + ([t] + (b + c))
  {
  }

  /** The loop takes what was parsed of `e` and goes on with what follows. */
  lemma {:induction false} AndPrinted(e: Expr, rest: Stream)
    requires AndShape(e) && Stops(rest[0])
    ensures IsStream(Print(e) + rest) && ParseAnd(Print(e) + rest) == AndLoop(e, rest)
    decreases e, 1
  {
    hide ParseCmp, AndLoop, IsStream, OrShape, CmpShape;
    if e.And? {
      var l, r := e.left, e.right;
      hide ParseAnd;
      CmpPrinted(r, rest);
      var ts: seq<Token> := Print(r) + rest;
      Cons(AndAnd, ts);
      assert ([AndAnd] + ts)[0] == AndAnd;
      AndPrinted(l, [AndAnd] + ts);
      AndStep(l, r, ts, rest);
      Assoc(Print(l), AndAnd, Print(r), rest);
    } else {
      CmpPrinted(e, rest);
      hide Print;
    }
  }

  lemma {:induction false} OrPrinted(e: Expr, rest: Stream)
    requires OrShape(e) && Stops(rest[0]) && !rest[0].AndAnd?
    ensures IsStream(Print(e) + rest) && ParseOr(Print(e) + rest) == OrLoop(e, rest)
    decreases e, 2
  {
    hide ParseAnd, OrLoop, IsStream, AndShape;
    if e.Or? {
      var l, r := e.left, e.right;
      hide ParseOr;
      AndPrinted(r, rest);
      var ts: seq<Token> := Print(r) + rest;
      AndEnds(r, rest);
      Cons(OrOr, ts);
      assert ([OrOr] + ts)[0] == OrOr;
      OrPrinted(l, [OrOr] + ts);
      OrStep(l, r, ts, rest);
      Assoc(Print(l), OrOr, Print(r), rest);
    } else {
      AndPrinted(e, rest);
      AndEnds(e, rest);
      hide Print;
    }
  }

  lemma AndEnds(e: Expr, rest: Stream)
    requires !rest[0].AndAnd?
    ensures AndLoop(e, rest) == Some((e, rest))
  {
  }

  // ----- What the parser can return

  predicate IsSoundToken(t: Token) {
    match t
    case Ident(name) => IsIdentifier(name) && IsAscii(name)
    case String(text) => IsAscii(text)
    case Bareword(word) => IsAscii(word)
    case _ => true
  }

  predicate AllSound(ts: seq<Token>) { forall i | 0 <= i < |ts| :: IsSoundToken(ts[i]) }

  lemma {:induction false} StringAscii(s: seq<byte>, quote: byte)
    requires IsAscii(s)
    ensures LexString(s, quote).Some? ==> IsAscii(LexString(s, quote).value.0) && IsAscii(LexString(s, quote).value.1)
  {
    if s != [] && s[0] != quote {
      StringAscii(s[if s[0] == BACKSLASH && |s| >= 2 then 2 else 1..], quote);
    }
  }

  lemma SliceAscii(s: seq<byte>, n: nat)
    requires IsAscii(s) && n <= |s|
    ensures IsAscii(s[..n]) && IsAscii(s[n..])
  {
  }

  lemma NameSound(s: seq<byte>)
    requires IsAscii(s) && s != [] && IsIdentStart(s[0])
    ensures var n := Run(s[1..], IsIdentPart); IsSoundToken(Ident([s[0]] + s[1..][..n])) && IsAscii(s[1..][n..])
  {
    RunStops(s[1..], IsIdentPart);
    hide Run;
  }

  lemma WordSound(s: seq<byte>)
    requires IsAscii(s) && s != []
    ensures var n := Run(s[1..], IsBarePart); IsSoundToken(Bareword([s[0]] + s[1..][..n])) && IsAscii(s[1..][n..])
  {
    hide Run;
  }

  lemma NumberSound(s: seq<byte>)
    requires IsAscii(s)
    ensures LexNumber(s).Some? ==> IsSoundToken(LexNumber(s).value.0) && IsAscii(LexNumber(s).value.1)
  {
    hide FromStrRadix, Run;
  }

  lemma LexSound(s: seq<byte>)
    requires IsAscii(s) && s != [] && !IsSpace(s[0])
    ensures LexToken(s).Some? ==> IsSoundToken(LexToken(s).value.0) && IsAscii(LexToken(s).value.1)
  {
    hide Run, LexString, LexNumber, IsIdentifier;
    SliceAscii(s, 1);
    if IsIdentStart(s[0]) {
      NameSound(s);
    }
    WordSound(s);
    NumberSound(s);
    StringAscii(s[1..], s[0]);
    if |s| > 1 {
      SliceAscii(s[1..], 1);
    }
    hide IsAscii;
  }

  lemma TokenSound(s: seq<byte>)
    requires IsAscii(s)
    ensures NextToken(s).Some? ==> IsSoundToken(NextToken(s).value.0) && IsAscii(NextToken(s).value.1)
  {
    hide LexToken, Run;
    RunStops(s, IsSpace);
    var n := Run(s, IsSpace);
    SliceAscii(s, n);
    if n < |s| {
      LexSound(s[n..]);
    }
  }

  lemma {:induction false} TokensSound(s: seq<byte>)
    requires IsAscii(s)
    ensures AllSound(Tokens(s))
    decreases |s|
  {
    hide NextToken, IsSoundToken;
    TokenSound(s);
    TokenShortens(s);
    if NextToken(s).Some? && !NextToken(s).value.0.Eof? {
      TokensSound(NextToken(s).value.1);
    }
    assert IsSoundToken(Eof) && IsSoundToken(Bad) by {
      PlainTokensSound();
    }
  }

  lemma PlainTokensSound()
    ensures IsSoundToken(Eof) && IsSoundToken(Bad)
  {
  }

  lemma BumpSound(ts: Stream)
    requires AllSound(ts)
    ensures Bump(ts).Some? ==> AllSound(Bump(ts).value)
  {
    hide IsSoundToken;
  }

  lemma {:induction false} IntSound(ts: Stream)
    requires AllSound(ts)
    ensures ParseSignedInt(ts).Some? ==> AllSound(ParseSignedInt(ts).value.1)
    decreases |ts|
  {
    hide AllSound, ParseI64LiteralText;
    BumpSound(ts);
    if Bump(ts).Some? && !ts[0].Eof? {
      var t1 := Bump(ts).value;
      IntSound(t1);
      if ParseSignedInt(t1).Some? {
        BumpSound(ParseSignedInt(t1).value.1);
      }
    }
  }

  lemma {:induction false} MergeSound(s: seq<byte>, ts: Stream)
    requires AllSound(ts) && IsAscii(s)
    ensures MergeWords(s, ts).Some? ==> IsAscii(MergeWords(s, ts).value.0) && AllSound(MergeWords(s, ts).value.1)
    decreases |ts|
  {
    BumpSound(ts);
    if ts[0].Bareword? && Bump(ts).Some? {
      assert IsSoundToken(ts[0]);
      assert IsAscii(s + ts[0].word);
      hide AllSound, IsAscii;
      MergeSound(s + ts[0].word, Bump(ts).value);
    }
  }

  lemma PatternSound(ts: Stream)
    requires AllSound(ts)
    ensures ParsePatternLiteral(ts).Some? ==>
              IsAscii(ParsePatternLiteral(ts).value.0) && AllSound(ParsePatternLiteral(ts).value.1)
  {
    hide MergeWords;
    BumpSound(ts);
    assert IsSoundToken(ts[0]);
    hide AllSound;
    if PatternText(ts[0]).Some? && Bump(ts).Some? {
      MergeSound(PatternText(ts[0]).value, Bump(ts).value);
    }
  }

  ghost predicate Good(r: Option<(Expr, Stream)>) {
    r.Some? ==> Sound(r.value.0) && AllSound(r.value.1)
  }

  lemma MaskedSound(field: seq<byte>, ts: Stream)
    requires AllSound(ts) && IsIdentifier(field)
    ensures Good(ParseMasked(field, ts)) && (ParseMasked(field, ts).Some? ==> ParseMasked(field, ts).value.0.NumCmp?)
  {
    hide AllSound, IsIdentifier, ParseSignedInt;
    IntSound(ts);
    if ParseSignedInt(ts).Some? {
      var t1 := ParseSignedInt(ts).value.1;
      BumpSound(t1);
      if Bump(t1).Some? {
        IntSound(Bump(t1).value);
      }
    }
  }

  lemma ComparisonSound(field: seq<byte>, op: Token, ts: Stream)
    requires AllSound(ts) && IsIdentifier(field) && (op.Amp? || op.Tilde? || NumOpOf(op).Some?)
    ensures var r := ParseComparison(field, op, ts); Good(r) && (r.Some? ==> r.value.0.NumCmp? || r.value.0.StrCmp?)
  {
    hide AllSound, IsIdentifier, ParseSignedInt, ParsePatternLiteral, ParseMasked, StartsNumericLiteral;
    MaskedSound(field, ts);
    PatternSound(ts);
    IntSound(ts);
  }

  lemma FieldSound(ts: Stream)
    requires AllSound(ts) && ts[0].Ident?
    ensures var r := ParseFieldCmp(ts); Good(r) && (r.Some? ==> r.value.0.NumCmp? || r.value.0.StrCmp?)
  {
    hide ParseComparison;
    assert IsSoundToken(ts[0]);
    hide AllSound, IsIdentifier;
    BumpSound(ts);
    if Bump(ts).Some? {
      var t1 := Bump(ts).value;
      BumpSound(t1);
      if Bump(t1).Some? && (t1[0].Amp? || t1[0].Tilde? || NumOpOf(t1[0]).Some?) {
        ComparisonSound(ts[0].name, t1[0], Bump(t1).value);
      }
    }
  }

  /** The parser returns comparisons of sound fields, nested as it parses them. */
  lemma {:induction false} CmpSound(ts: Stream)
    requires AllSound(ts)
    ensures Good(ParseCmp(ts)) && (ParseCmp(ts).Some? ==> CmpShape(ParseCmp(ts).value.0))
    decreases |ts|, 1
  {
    hide AllSound, ParseFieldCmp, ParseOr;
    if ts[0].Ident? {
      FieldSound(ts);
    } else {
      BumpSound(ts);
      if ts[0].LParen? && Bump(ts).Some? {
        OrSound(Bump(ts).value);
        if ParseOr(Bump(ts).value).Some? {
          BumpSound(ParseOr(Bump(ts).value).value.1);
        }
      }
    }
  }

  lemma {:induction false} AndLoopSound(left: Expr, ts: Stream)
    requires AllSound(ts) && Sound(left) && AndShape(left)
    ensures Good(AndLoop(left, ts)) && (AndLoop(left, ts).Some? ==> AndShape(AndLoop(left, ts).value.0))
    decreases |ts|, 1
  {
    hide AllSound, ParseCmp;
    BumpSound(ts);
    if ts[0].AndAnd? && Bump(ts).Some? {
      CmpSound(Bump(ts).value);
      var r := ParseCmp(Bump(ts).value);
      if r.Some? {
        AndLoopSound(And(left, r.value.0), r.value.1);
      }
    }
  }

  lemma {:induction false} AndSound(ts: Stream)
    requires AllSound(ts)
    ensures Good(ParseAnd(ts)) && (ParseAnd(ts).Some? ==> AndShape(ParseAnd(ts).value.0))
    decreases |ts|, 2
  {
    hide AllSound, ParseCmp, AndLoop;
    CmpSound(ts);
    var r := ParseCmp(ts);
    if r.Some? {
      AndLoopSound(r.value.0, r.value.1);
    }
  }

  lemma {:induction false} OrLoopSound(left: Expr, ts: Stream)
    requires AllSound(ts) && Sound(left) && OrShape(left)
    ensures Good(OrLoop(left, ts)) && (OrLoop(left, ts).Some? ==> OrShape(OrLoop(left, ts).value.0))
    decreases |ts|, 2
  {
    hide AllSound, ParseAnd;
    BumpSound(ts);
    if ts[0].OrOr? && Bump(ts).Some? {
      AndSound(Bump(ts).value);
      var r := ParseAnd(Bump(ts).value);
      if r.Some? {
        OrLoopSound(Or(left, r.value.0), r.value.1);
      }
    }
  }

  lemma {:induction false} OrSound(ts: Stream)
    requires AllSound(ts)
    ensures Good(ParseOr(ts)) && (ParseOr(ts).Some? ==> OrShape(ParseOr(ts).value.0))
    decreases |ts|, 3
  {
    hide AllSound, ParseAnd, OrLoop;
    AndSound(ts);
    var r := ParseAnd(ts);
    if r.Some? {
      OrLoopSound(r.value.0, r.value.1);
    }
  }

  // ----- The theorems

  lemma ParseIsSound(input: seq<byte>)
    requires IsAscii(input)
    ensures Parse(input).Some? ==> OrShape(Parse(input).value) && Sound(Parse(input).value)
  {
    hide Tokens, ParseOr, AllSound;
    TokensAreStream(input);
    TokensSound(input);
    if Fetch(Tokens(input)).Some? {
      OrSound(Tokens(input));
    }
  }

  lemma {:induction false} PrintIsPrintable(e: Expr)
    requires Sound(e)
    ensures forall i | 0 <= i < |Print(e)| :: IsPrintable(Print(e)[i]) && IsSoundToken(Print(e)[i])
  {
    assert forall t | t in {OrOr, AndAnd, LParen, RParen} :: IsPrintable(t) && IsSoundToken(t);
    if e.NumCmp? || e.StrCmp? {
      ComparisonIsPrintable(e);
    } else {
      hide IsPrintable, IsSoundToken;
      match e
      case Or(l, r) => PrintIsPrintable(l); PrintIsPrintable(r);
      case And(l, r) => PrintIsPrintable(l); PrintIsPrintable(r);
      case Group(inner) => PrintIsPrintable(inner);
    }
  }

  lemma ComparisonIsPrintable(e: Expr)
    requires Sound(e) && (e.NumCmp? || e.StrCmp?)
    ensures forall i | 0 <= i < |Print(e)| :: IsPrintable(Print(e)[i]) && IsSoundToken(Print(e)[i])
  {
    hide DigitsOf, AllDigits;
    match e
    case NumCmp(_, mask, _, rhs) =>
      IntIsPrintable(rhs);
      if mask.Some? {
        IntIsPrintable(mask.value);
      }
      hide IntToken;
    case StrCmp(_, _, _) =>
  }

  lemma IntIsPrintable(v: i64)
    ensures IsPrintable(IntToken(v)) && IsSoundToken(IntToken(v))
  {
    if v < 0 {
      DigitsOfAreDigits(Signed(true, v));
      hide DigitsOf;
    }
  }

  lemma {:induction false} TextAscii(ts: seq<Token>)
    requires forall i | 0 <= i < |ts| :: IsPrintable(ts[i]) && IsSoundToken(ts[i])
    ensures IsAscii(Text(ts))
  {
    if ts != [] {
      TextAscii(ts[1..]);
      TokenAscii(ts[0]);
    }
  }

  lemma {:induction false} EscapeAscii(s: seq<byte>)
    requires IsAscii(s)
    ensures IsAscii(Escape(s))
  {
    if s != [] {
      EscapeAscii(s[1..]);
    }
  }

  lemma TokenAscii(t: Token)
    requires IsPrintable(t) && IsSoundToken(t)
    ensures IsAscii(TokenText(t))
  {
    if t.Int? {
      DigitsOfAreDigits(t.v);
    } else if t.String? {
      EscapeAscii(t.text);
    }
    hide DigitsOf, Escape;
  }

  /** Printing and parsing an expression of the parser's shape gives it back. */
  lemma ParsePrinted(e: Expr)
    requires Sound(e) && OrShape(e)
    ensures Parse(Text(Print(e))) == Some(e)
  {
    hide Tokens, ParseOr, Text, Print;
    PrintIsPrintable(e);
    TokensOfText(Print(e));
    TokensAreStream(Text(Print(e)));
    OrPrinted(e, [Eof]);
    FirstIsGood(e);
  }

  lemma FirstIsGood(e: Expr)
    ensures (Print(e) + [Eof])[0] == Print(e)[0] && !Print(e)[0].Bad?
  {
    PrintPlain(e);
  }

  /**
    Printing an expression over identifiers and ASCII patterns and parsing the text gives the
    expression back exactly when it has the parser's shape.
  */
  lemma RoundTrip(e: Expr)
    requires Sound(e)
    ensures Parse(Text(Print(e))) == Some(e) <==> OrShape(e)
  {
    hide Parse, Text, Print, Tokens;
    if OrShape(e) {
      ParsePrinted(e);
    } else {
      PrintIsPrintable(e);
      TextAscii(Print(e));
      ParseIsSound(Text(Print(e)));
    }
  }

  /** What an ASCII text parses to is stable under printing and parsing. */
  lemma Reformat(input: seq<byte>)
    requires IsAscii(input) && Parse(input).Some?
    ensures Parse(Text(Print(Parse(input).value))) == Parse(input)
  {
    hide Parse, Text, Print, OrShape, Sound;
    ParseIsSound(input);
    ParsePrinted(Parse(input).value);
  }
}
