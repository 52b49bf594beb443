/**
  Texts of the filter language written out byte by byte, and what they are parsed as: a reading
  that shares no character with the lexer, and no precedence with the parser (tp-lexer/src/lib.rs).
*/
module FilterSyntax {
  import opened Bytes
  import opened FilterLexer
  import opened FilterParser
  import FilterPrint
  import FilterRoundTrip

  // ----- Writing expressions

  function Decimal(n: nat): seq<byte> {
    if n < 10 then [0x30 + n] else Decimal(n / 10) + [0x30 + n % 10]
  }

  /** A minus sign makes a number negative; the least one takes a plus before it. */
  function SpellInt(v: i64): seq<byte> {
    if v >= 0 then Decimal(v)
    else if v == -0x8000_0000_0000_0000 then [0x2B, 0x2D] + Decimal(0x8000_0000_0000_0000)
    else [0x2D] + Decimal(-v)
  }

  function SpellNumOp(op: NumOp): seq<byte> {
    match op
    case NumEq => [0x3D, 0x3D]
    case NumNe => [0x21, 0x3D]
    case NumLt => [0x3C]
    case NumLe => [0x3C, 0x3D]
    case NumGt => [0x3E]
    case NumGe => [0x3E, 0x3D]
  }

  function SpellStrOp(op: StrOp): seq<byte> {
    match op
    case StrEq => [0x3D, 0x3D]
    case StrNe => [0x21, 0x3D]
    case StrGlob => [0x7E]
  }

  /** A double quote and a backslash stand behind a backslash. */
  function Quoted(s: seq<byte>): seq<byte> {
    if s == [] then []
    else (if s[0] == 0x22 || s[0] == 0x5C then [0x5C, s[0]] else [s[0]]) + Quoted(s[1..])
  }

  function Spell(e: Expr): seq<byte> {
    match e
    case Or(l, r) => Spell(l) + [0x20, 0x7C, 0x7C] + Spell(r)
    case And(l, r) => Spell(l) + [0x20, 0x26, 0x26] + Spell(r)
    case Group(inner) => [0x20, 0x28] + Spell(inner) + [0x20, 0x29]
    case NumCmp(field, None, op, rhs) => [0x20] + field + ([0x20] + SpellNumOp(op) + ([0x20] + SpellInt(rhs)))
    case NumCmp(field, Some(mask), op, rhs) =>
      [0x20] + field + ([0x20, 0x26] + ([0x20] + SpellInt(mask) + ([0x20] + SpellNumOp(op) + ([0x20] + SpellInt(rhs)))))
    case StrCmp(field, op, pat) =>
      [0x20] + field + ([0x20] + SpellStrOp(op) + ([0x20] + ([0x22] + Quoted(pat) + [0x22])))
  }

  /** Letters, digits and underscores, no digit first. */
  predicate IsName(s: seq<byte>) {
    && s != [] && !(0x30 <= s[0] <= 0x39)
    && forall i | 0 <= i < |s| ::
         0x30 <= s[i] <= 0x39 || 0x41 <= s[i] <= 0x5A || s[i] == 0x5F || 0x61 <= s[i] <= 0x7A
  }

  lemma NamesAreIdentifiers(s: seq<byte>)
    ensures IsName(s) <==> FilterPrint.IsIdentifier(s)
  {
  }

  // ----- What is printed is what is written

  lemma {:induction false} DecimalPrinted(n: nat)
    ensures Decimal(n) == FilterPrint.DigitsOf(n)
  {
    if n >= 10 {
      DecimalPrinted(n / 10);
    }
  }

  lemma IntPrinted(v: i64)
    ensures SpellInt(v) == FilterPrint.TokenText(FilterPrint.IntToken(v))
  {
    hide Decimal, FilterPrint.DigitsOf;
    DecimalPrinted(if v >= 0 then v else Signed(true, v));
  }

  lemma {:induction false} QuotedPrinted(s: seq<byte>)
    ensures Quoted(s) == FilterPrint.Escape(s)
  {
    if s != [] {
      QuotedPrinted(s[1..]);
    }
  }

  lemma TextStarts(t: Token, ts: seq<Token>)
    ensures FilterPrint.Text([t] + ts) == [0x20] + FilterPrint.TokenText(t) + FilterPrint.Text(ts)
  {
    hide FilterPrint.TokenText;
    assert ([t] + ts)[1..] == ts;
  }

  lemma {:induction false} TextJoins(a: seq<Token>, b: seq<Token>)
    ensures FilterPrint.Text(a + b) == FilterPrint.Text(a) + FilterPrint.Text(b)
  {
    if a == [] {
      assert a + b == b;
    } else {
      var t, rest := a[0], a[1..];
      assert [t] + rest == a && [t] + (rest + b) == a + b;
      hide *;
      TextJoins(rest, b);
      TextStarts(t, rest);
      TextStarts(t, rest + b);
      Regroup([0x20] + FilterPrint.TokenText(t), FilterPrint.Text(rest), FilterPrint.Text(b));
    }
  }

  lemma Regroup(a: seq<byte>, b: seq<byte>, c: seq<byte>)
    ensures a + b + c == a + (b + c)
  {
  }

  /** The text of up to three tokens. */
  lemma ThreeTokens(a: Token, b: Token, c: Token)
    ensures FilterPrint.Text([a]) == [0x20] + FilterPrint.TokenText(a)
    ensures FilterPrint.Text([a, b]) == [0x20] + FilterPrint.TokenText(a) + ([0x20] + FilterPrint.TokenText(b))
    ensures FilterPrint.Text([a, b, c])
         == [0x20] + FilterPrint.TokenText(a)
            + ([0x20] + FilterPrint.TokenText(b) + ([0x20] + FilterPrint.TokenText(c)))
  {
    hide FilterPrint.TokenText, FilterPrint.Text;
    TextStarts(a, []);
    TextStarts(b, []);
    TextStarts(c, []);
    TextStarts(b, [c]);
    TextStarts(a, [b]);
    TextStarts(a, [b, c]);
    TextEmpty();
    assert [a] + [] == [a] && [b] + [] == [b] && [c] + [] == [c] && [b] + [c] == [b, c] && [a] + [b] == [a, b];
    assert [a] + [b, c] == [a, b, c];
  }

  lemma TextEmpty()
    ensures FilterPrint.Text([]) == []
  {
  }

  lemma OperatorTexts(op: NumOp, sop: StrOp)
    ensures FilterPrint.TokenText(FilterPrint.NumOpToken(op)) == SpellNumOp(op)
    ensures FilterPrint.TokenText(FilterPrint.StrOpToken(sop)) == SpellStrOp(sop)
  {
  }

  lemma {:induction false} ExprPrinted(e: Expr)
    ensures Spell(e) == FilterPrint.Text(FilterPrint.Print(e))
  {
    hide FilterPrint.Text, FilterPrint.TokenText, SpellInt, SpellNumOp, SpellStrOp;
    JoinTexts();
    match e
    case Or(l, r) =>
      ExprPrinted(l);
      ExprPrinted(r);
      JoinPrinted(FilterPrint.Print(l), OrOr, FilterPrint.Print(r));
    case And(l, r) =>
      ExprPrinted(l);
      ExprPrinted(r);
      JoinPrinted(FilterPrint.Print(l), AndAnd, FilterPrint.Print(r));
    case Group(inner) =>
      ExprPrinted(inner);
      GroupPrinted(FilterPrint.Print(inner));
    case _ => LeafPrinted(e);
  }

  lemma JoinTexts()
    ensures FilterPrint.TokenText(OrOr) == [0x7C, 0x7C] && FilterPrint.TokenText(AndAnd) == [0x26, 0x26]
  {
  }

  lemma JoinPrinted(l: seq<Token>, t: Token, r: seq<Token>)
    ensures FilterPrint.Text(l + [t] + r)
         == FilterPrint.Text(l) + ([0x20] + FilterPrint.TokenText(t)) + FilterPrint.Text(r)
  {
    hide FilterPrint.TokenText, FilterPrint.Text;
    TextJoins(l + [t], r);
    TextJoins(l, [t]);
    ThreeTokens(t, t, t);
  }

  lemma GroupPrinted(ts: seq<Token>)
    ensures FilterPrint.Text([LParen] + ts + [RParen]) == [0x20, 0x28] + FilterPrint.Text(ts) + [0x20, 0x29]
  {
    TextJoins([LParen] + ts, [RParen]);
    TextStarts(LParen, ts);
    hide FilterPrint.Text;
    ThreeTokens(RParen, RParen, RParen);
  }

  lemma LeafPrinted(e: Expr)
    requires e.NumCmp? || e.StrCmp?
    ensures Spell(e) == FilterPrint.Text(FilterPrint.Print(e))
  {
    if e.StrCmp? {
      PatternPrinted(e.field, e.sop, e.pat);
    } else {
      NumberPrinted(e.field, e.mask, e.nop, e.rhs);
    }
  }

  lemma PatternPrinted(field: seq<byte>, op: StrOp, pat: seq<byte>)
    ensures Spell(StrCmp(field, op, pat)) == FilterPrint.Text(FilterPrint.Print(StrCmp(field, op, pat)))
  {
    ThreeTokens(Ident(field), FilterPrint.StrOpToken(op), String(pat));
    OperatorTexts(NumEq, op);
    QuotedPrinted(pat);
    hide FilterPrint.Text, Quoted, FilterPrint.Escape, FilterPrint.StrOpToken, SpellStrOp;
  }

  lemma NumberPrinted(field: seq<byte>, mask: Option<i64>, op: NumOp, rhs: i64)
    ensures Spell(NumCmp(field, mask, op, rhs)) == FilterPrint.Text(FilterPrint.Print(NumCmp(field, mask, op, rhs)))
  {
    var n, o, v := Ident(field), FilterPrint.NumOpToken(op), FilterPrint.IntToken(rhs);
    ThreeTokens(n, o, v);
    OperatorTexts(op, StrEq);
    IntPrinted(rhs);
    hide FilterPrint.Text, SpellInt, FilterPrint.IntToken, FilterPrint.NumOpToken, SpellNumOp;
    if mask.Some? {
      var m := FilterPrint.IntToken(mask.value);
      IntPrinted(mask.value);
      ThreeTokens(m, o, v);
      MaskPrinted(n, m, o, v);
    }
  }

  lemma MaskPrinted(n: Token, m: Token, op: Token, v: Token)
    ensures FilterPrint.Text([n, Amp, m, op, v])
         == [0x20] + FilterPrint.TokenText(n) + ([0x20, 0x26] + FilterPrint.Text([m, op, v]))
  {
    TextStarts(Amp, [m, op, v]);
    TextStarts(n, [Amp, m, op, v]);
    hide FilterPrint.Text;
    assert [n, Amp, m, op, v] == [n] + [Amp, m, op, v] && [Amp, m, op, v] == [Amp] + [m, op, v];
  }

  // ----- Precedence

  /** `a && b && ...` */
  function JoinAnd(cs: seq<Expr>): seq<byte>
    requires cs != []
  {
    if |cs| == 1 then Spell(cs[0]) else JoinAnd(cs[..|cs| - 1]) + [0x20, 0x26, 0x26] + Spell(cs[|cs| - 1])
  }

  predicate NoneEmpty(ps: seq<seq<Expr>>) {
    forall i | 0 <= i < |ps| :: ps[i] != []
  }

  /** `a && b || c && d || ...` */
  function JoinOr(ps: seq<seq<Expr>>): seq<byte>
    requires ps != [] && NoneEmpty(ps)
  {
    if |ps| == 1 then JoinAnd(ps[0]) else JoinOr(ps[..|ps| - 1]) + [0x20, 0x7C, 0x7C] + JoinAnd(ps[|ps| - 1])
  }

  function AllOf(cs: seq<Expr>): Expr
    requires cs != []
  {
    if |cs| == 1 then cs[0] else And(AllOf(cs[..|cs| - 1]), cs[|cs| - 1])
  }

  function AnyOf(ps: seq<seq<Expr>>): Expr
    requires ps != [] && NoneEmpty(ps)
  {
    if |ps| == 1 then AllOf(ps[0]) else Or(AnyOf(ps[..|ps| - 1]), AllOf(ps[|ps| - 1]))
  }

  /** A comparison, or in parentheses whatever was parsed before. */
  ghost predicate IsOperand(e: Expr) {
    match e
    case NumCmp(field, _, _, _) => IsName(field)
    case StrCmp(field, _, pat) => IsName(field) && forall i | 0 <= i < |pat| :: pat[i] < 0x80
    case Group(inner) => FilterRoundTrip.Sound(inner) && FilterRoundTrip.OrShape(inner)
    case _ => false
  }

  ghost predicate AllOperands(cs: seq<Expr>) {
    forall i | 0 <= i < |cs| :: IsOperand(cs[i])
  }

  lemma OperandIsSound(e: Expr)
    requires IsOperand(e)
    ensures FilterRoundTrip.Sound(e) && FilterRoundTrip.CmpShape(e)
  {
    if !e.Group? {
      NamesAreIdentifiers(e.field);
    }
    hide IsName, FilterPrint.IsIdentifier;
  }

  lemma {:induction false} ProductIsSound(cs: seq<Expr>)
    requires cs != [] && AllOperands(cs)
    ensures Spell(AllOf(cs)) == JoinAnd(cs)
    ensures FilterRoundTrip.Sound(AllOf(cs)) && FilterRoundTrip.AndShape(AllOf(cs))
  {
    OperandIsSound(cs[|cs| - 1]);
    hide IsOperand;
    if |cs| > 1 {
      ProductIsSound(cs[..|cs| - 1]);
    } else {
      CmpIsAnd(cs[0]);
    }
  }

  lemma CmpIsAnd(e: Expr)
    requires FilterRoundTrip.CmpShape(e)
    ensures FilterRoundTrip.AndShape(e)
  {
  }

  lemma AndIsOr(e: Expr)
    requires FilterRoundTrip.AndShape(e)
    ensures FilterRoundTrip.OrShape(e)
  {
  }

  ghost predicate Products(ps: seq<seq<Expr>>) {
    NoneEmpty(ps) && forall i | 0 <= i < |ps| :: AllOperands(ps[i])
  }

  lemma {:induction false} SumIsSound(ps: seq<seq<Expr>>)
    requires ps != [] && Products(ps)
    ensures Spell(AnyOf(ps)) == JoinOr(ps)
    ensures FilterRoundTrip.Sound(AnyOf(ps)) && FilterRoundTrip.OrShape(AnyOf(ps))
  {
    hide AllOperands;
    ProductIsSound(ps[|ps| - 1]);
    AndIsOr(AllOf(ps[|ps| - 1]));
    hide AllOf, JoinAnd;
    if |ps| > 1 {
      SumIsSound(ps[..|ps| - 1]);
    }
  }

  /** What is written for an expression that the parser can build is parsed as it. */
  lemma ReadsBack(e: Expr)
    requires FilterRoundTrip.Sound(e) && FilterRoundTrip.OrShape(e)
    ensures Parse(Spell(e)) == Some(e)
  {
    hide Parse, Spell, FilterRoundTrip.Sound, FilterRoundTrip.OrShape;
    ExprPrinted(e);
    FilterRoundTrip.ParsePrinted(e);
  }

  /**
    `&&` binds stronger than `||`, and both group to the left: alternatives of conjunctions of
    comparisons, or of what stands in parentheses, are parsed as such.
  */
  lemma SumsOfProducts(ps: seq<seq<Expr>>)
    requires ps != [] && Products(ps)
    ensures Parse(JoinOr(ps)) == Some(AnyOf(ps))
    ensures IsOperand(Group(AnyOf(ps)))
  {
    hide Parse, JoinOr, AnyOf, AllOperands;
    SumIsSound(ps);
    ReadsBack(AnyOf(ps));
  }

  // ----- Texts that no expression is printed as

  lemma SameTokens(a: seq<byte>, b: seq<byte>)
    requires Tokens(a) == Tokens(b)
    ensures Parse(a) == Parse(b)
  {
    hide Tokens, ParseOr;
    TokensAreStream(a);
  }

  /** Space, tab, line feed, form feed and carriage return are skipped. */
  lemma WhitespaceSkipped(c: byte, s: seq<byte>)
    requires c in {0x20, 0x09, 0x0A, 0x0C, 0x0D}
    ensures Parse([c] + s) == Parse(s)
  {
    hide Tokens, Parse;
    OneSkipped(c, s);
    SameTokens([c] + s, s);
  }

  lemma OneSkipped(c: byte, s: seq<byte>)
    requires c in {0x20, 0x09, 0x0A, 0x0C, 0x0D}
    ensures Tokens([c] + s) == Tokens(s)
  {
    assert ([c] + s)[1..] == s;
    var n := Run(s, IsSpace);
    assert Run([c] + s, IsSpace) == 1 + n;
    assert ([c] + s)[1 + n..] == s[n..];
    hide LexToken, Run;
    assert NextToken([c] + s) == NextToken(s);
  }

  /** After a space, a text that is read as a token gives it; one that is not ends in an error. */
  lemma TokenFirst(text: seq<byte>, t: Token, tail: seq<byte>)
    requires text != [] && !IsSpace(text[0]) && LexToken(text + tail) == Some((t, tail)) && !t.Eof?
    ensures Tokens([0x20] + text + tail) == [t] + Tokens(tail)
  {
    hide LexToken;
    FilterPrint.RunUpTo([0x20], text + tail, IsSpace);
    assert [0x20] + text + tail == [0x20] + (text + tail);
  }

  lemma ErrorFirst(text: seq<byte>)
    requires text != [] && !IsSpace(text[0]) && LexToken(text) == None
    ensures Tokens([0x20] + text) == [Bad]
  {
    hide LexToken;
    FilterPrint.RunUpTo([0x20], text, IsSpace);
  }

  /** A field, an operator, and what follows. */
  function After(field: seq<byte>, op: seq<byte>, rest: seq<byte>): seq<byte> {
    [0x20] + field + ([0x20] + op + rest)
  }

  lemma NameLexed(field: seq<byte>, tail: seq<byte>)
    requires IsName(field) && FilterPrint.IsTail(tail)
    ensures field != [] && !IsSpace(field[0]) && LexToken(field + tail) == Some((Ident(field), tail))
  {
    NamesAreIdentifiers(field);
    hide LexToken;
    FilterPrint.LexNamed(field, tail);
  }

  lemma OperatorFirst(field: seq<byte>, op: Token, rest: seq<byte>)
    requires IsName(field) && FilterPrint.IsPrintable(op) && rest != [] && rest[0] == 0x20
    ensures Tokens(After(field, FilterPrint.TokenText(op), rest)) == [Ident(field), op] + Tokens(rest)
  {
    hide IsName, FilterPrint.IsPrintable, FilterPrint.IsIdentifier, IsSpace, LexToken, Tokens, FilterPrint.TokenText;
    var tail := [0x20] + FilterPrint.TokenText(op) + rest;
    FilterPrint.LexPrinted(op, rest);
    NameLexed(field, tail);
    TokenFirst(FilterPrint.TokenText(op), op, rest);
    TokenFirst(field, Ident(field), tail);
    assert [Ident(field)] + ([op] + Tokens(rest)) == [Ident(field), op] + Tokens(rest);
  }

  /** What is parsed is what the comparison is parsed as, if nothing is left behind it. */
  lemma OneComparison(s: seq<byte>, field: seq<byte>, op: Token, ts: Stream)
    requires Tokens(s) == [Ident(field), op] + ts && (op.Tilde? || NumOpOf(op).Some?)
    ensures match ParseComparison(field, op, ts)
            case None => Parse(s) == None
            case Some((e, rest)) => rest == [Eof] ==> Parse(s) == Some(e)
  {
    hide Tokens, ParseCmp, ParseComparison, IsStream, ParseOr, NumOpOf;
    TokensAreStream(s);
    FilterRoundTrip.FieldPrinted(field, op, ts);
    assert ([Ident(field), op] + ts)[0] == Ident(field);
    OneCmp([Ident(field), op] + ts);
  }

  lemma OneCmp(ts: Stream)
    ensures match ParseCmp(ts)
            case None => ParseOr(ts) == None
            case Some((e, rest)) => rest == [Eof] ==> ParseOr(ts) == Some((e, rest))
  {
    hide ParseCmp;
    if ParseCmp(ts).Some? && ParseCmp(ts).value.1 == [Eof] {
      assert ParseCmp(ts).value.1[0] == Eof;
      FilterRoundTrip.AndEnds(ParseCmp(ts).value.0, ParseCmp(ts).value.1);
      hide AndLoop;
    }
  }

  lemma NothingParsed(s: seq<byte>, field: seq<byte>, op: Token)
    requires Tokens(s) == [Ident(field), op, Bad] && !op.Eof? && !op.Bad?
    ensures Parse(s) == None
  {
    hide Tokens, ParseComparison, ParseOr;
    TokensAreStream(s);
    var ts: Stream := Tokens(s);
    assert ts[1..] == [op, Bad] && ts[1..][1..] == [Bad];
    OneCmp(ts);
  }

  // ----- Numbers

  lemma NumberCompared(s: seq<byte>, field: seq<byte>, op: NumOp, v: i64)
    requires v >= 0 && Tokens(s) == [Ident(field), FilterPrint.NumOpToken(op)] + [Int(v), Eof]
    ensures Parse(s) == Some(NumCmp(field, None, op, v))
  {
    hide Tokens, ParseComparison, Parse, FilterPrint.DigitsOf;
    FilterRoundTrip.RhsPrinted(field, op, v, [Eof]);
    assert [FilterPrint.IntToken(v)] + [Eof] == [Int(v), Eof];
    OneComparison(s, field, FilterPrint.NumOpToken(op), [Int(v), Eof]);
  }

  /** A literal of digits alone is compared if it is a 64-bit number, and an error otherwise. */
  lemma LiteralCompared(field: seq<byte>, op: NumOp, lit: seq<byte>, n: nat)
    requires IsName(field) && lit != [] && !IsSpace(lit[0])
    requires LexToken(lit) == if n <= 0x7FFF_FFFF_FFFF_FFFF then Some((Int(n), [])) else None
    ensures Parse(After(field, SpellNumOp(op), [0x20] + lit))
         == if n <= 0x7FFF_FFFF_FFFF_FFFF then Some(NumCmp(field, None, op, n)) else None
  {
    hide Tokens, Parse, IsName, LexToken, FilterPrint.NumOpToken, SpellNumOp, IsSpace, After;
    var t, s := FilterPrint.NumOpToken(op), After(field, SpellNumOp(op), [0x20] + lit);
    OperatorTexts(op, StrEq);
    OperatorIsPlain(op, StrEq);
    OperatorFirst(field, t, [0x20] + lit);
    if n <= 0x7FFF_FFFF_FFFF_FFFF {
      assert lit + [] == lit && [0x20] + lit + [] == [0x20] + lit;
      TokenFirst(lit, Int(n), []);
      NoTokens();
      assert [Int(n)] + [Eof] == [Int(n), Eof];
      NumberCompared(s, field, op, n);
    } else {
      ErrorFirst(lit);
      NothingParsed(s, field, t);
    }
  }

  lemma OperatorIsPlain(op: NumOp, sop: StrOp)
    ensures var t := FilterPrint.NumOpToken(op);
            FilterPrint.IsPrintable(t) && !t.Eof? && !t.Bad? && NumOpOf(t).Some?
    ensures var t := FilterPrint.StrOpToken(sop);
            FilterPrint.IsPrintable(t) && !t.Eof? && !t.Bad? && (t.Tilde? || NumOpOf(t).Some?)
  {
  }

  lemma NoTokens()
    ensures Tokens([]) == [Eof]
  {
  }

  lemma DecimalCompared(field: seq<byte>, op: NumOp, n: nat)
    requires IsName(field)
    ensures Parse(After(field, SpellNumOp(op), [0x20] + Decimal(n)))
         == if n <= 0x7FFF_FFFF_FFFF_FFFF then Some(NumCmp(field, None, op, n)) else None
  {
    DecimalLexed(n);
    hide Decimal, LexToken, Parse, SpellNumOp, IsSpace, IsName, After;
    LiteralCompared(field, op, Decimal(n), n);
  }

  lemma DecimalLexed(n: nat)
    ensures Decimal(n) != [] && !IsSpace(Decimal(n)[0])
    ensures LexToken(Decimal(n)) == if n <= 0x7FFF_FFFF_FFFF_FFFF then Some((Int(n), [])) else None
  {
    DecimalPrinted(n);
    FilterPrint.DigitsOfAreDigits(n);
    FilterPrint.RadixOfDigits(n);
    var s := Decimal(n);
    hide Decimal, FilterPrint.DigitsOf, FilterLexer.Number, FromStrRadix, Run, LexString;
    FilterPrint.RunUpTo(s, [], IsDigit);
    assert s + [] == s && IsDigit(s[0]);
  }

  type nibble = n: nat | n < 16

  /** Ten and more are letters, of either case. */
  datatype HexDigit = HexDigit(value: nibble, upper: bool)

  function HexChar(d: HexDigit): byte {
    if d.value < 10 then 0x30 + d.value else (if d.upper then 0x41 else 0x61) + d.value - 10
  }

  function HexText(ds: seq<HexDigit>): seq<byte> {
    if ds == [] then [] else HexText(ds[..|ds| - 1]) + [HexChar(ds[|ds| - 1])]
  }

  function HexValue(ds: seq<HexDigit>): nat {
    if ds == [] then 0 else 16 * HexValue(ds[..|ds| - 1]) + ds[|ds| - 1].value
  }

  lemma HexCharRead(d: HexDigit)
    ensures IsHexDigit(HexChar(d)) && DigitValue(HexChar(d)) == d.value
  {
  }

  lemma {:induction false} HexNumber(ds: seq<HexDigit>)
    ensures FilterLexer.Number(HexText(ds), 16) == Some(HexValue(ds))
  {
    hide HexChar, DigitValue;
    if ds != [] {
      var rest, d := ds[..|ds| - 1], ds[|ds| - 1];
      HexNumber(rest);
      HexCharRead(d);
      var s := HexText(ds);
      assert s[..|s| - 1] == HexText(rest) && s[|s| - 1] == HexChar(d);
    }
  }

  lemma {:induction false} HexDigits(ds: seq<HexDigit>)
    ensures |HexText(ds)| == |ds| && forall i | 0 <= i < |ds| :: IsHexDigit(HexText(ds)[i])
  {
    hide HexChar, IsHexDigit;
    if ds != [] {
      HexDigits(ds[..|ds| - 1]);
      HexCharRead(ds[|ds| - 1]);
    }
  }

  lemma HexRadix(ds: seq<HexDigit>)
    requires ds != []
    ensures FromStrRadix(HexText(ds), 16)
         == if HexValue(ds) <= 0x7FFF_FFFF_FFFF_FFFF then Some(HexValue(ds)) else None
  {
    HexNumber(ds);
    HexDigits(ds);
    hide HexText, HexValue, FilterLexer.Number;
    assert IsHexDigit(HexText(ds)[0]);
  }

  lemma HexLexed(x: byte, ds: seq<HexDigit>)
    requires (x == 0x78 || x == 0x58) && ds != []
    ensures LexToken([0x30, x] + HexText(ds))
         == if HexValue(ds) <= 0x7FFF_FFFF_FFFF_FFFF then Some((Int(HexValue(ds)), [])) else None
  {
    HexRadix(ds);
    HexDigits(ds);
    var h := HexText(ds);
    var s := [0x30, x] + h;
    hide HexText, HexValue, FromStrRadix, Run, IsHexDigit;
    FilterPrint.RunUpTo(h, [], IsHexDigit);
    HexSlices(x, h);
    DigitFirst(s);
    hide LexToken;
  }

  lemma HexSlices(x: byte, h: seq<byte>)
    ensures var s := [0x30, x] + h; h + [] == h && s[2..] == h && s[2..2 + |h|] == h && s[2 + |h|..] == []
  {
  }

  lemma DigitFirst(s: seq<byte>)
    requires s != [] && 0x30 <= s[0] <= 0x39
    ensures !IsSpace(s[0]) && LexToken(s) == LexNumber(s)
  {
    hide LexNumber, LexString, Run;
  }

  /** Behind `0x` or `0X` the digits are hexadecimal. */
  lemma HexCompared(field: seq<byte>, op: NumOp, x: byte, ds: seq<HexDigit>)
    requires IsName(field) && (x == 0x78 || x == 0x58) && ds != []
    ensures Parse(After(field, SpellNumOp(op), [0x20] + ([0x30, x] + HexText(ds))))
         == if HexValue(ds) <= 0x7FFF_FFFF_FFFF_FFFF then Some(NumCmp(field, None, op, HexValue(ds))) else None
  {
    HexLexed(x, ds);
    hide HexText, HexValue, LexToken, Parse, SpellNumOp, IsName, After;
    LiteralCompared(field, op, [0x30, x] + HexText(ds), HexValue(ds));
  }

  // ----- Signs and parentheses

  datatype Number = Digits(v: i64) | Minus(x: Number) | Plus(x: Number) | Parens(x: Number)

  predicate NotNegative(s: Number) {
    if s.Digits? then s.v >= 0 else NotNegative(s.x)
  }

  function SpellSigned(s: Number): seq<byte>
    requires NotNegative(s)
  {
    match s
    case Digits(v) => [0x20] + Decimal(v)
    case Minus(x) => [0x20, 0x2D] + SpellSigned(x)
    case Plus(x) => [0x20, 0x2B] + SpellSigned(x)
    case Parens(x) => [0x20, 0x28] + SpellSigned(x) + [0x20, 0x29]
  }

  function ValueOf(s: Number): (v: i64)
    requires NotNegative(s)
    ensures v != I64_MIN
  {
    match s
    case Digits(v) => v
    case Minus(x) => -ValueOf(x)
    case Plus(x) => ValueOf(x)
    case Parens(x) => ValueOf(x)
  }

  function SignedTokens(s: Number): (ts: seq<Token>)
    ensures ts != []
  {
    match s
    case Digits(v) => [Int(v)]
    case Minus(x) => [Bareword([0x2D])] + SignedTokens(x)
    case Plus(x) => [Bareword([0x2B])] + SignedTokens(x)
    case Parens(x) => [LParen] + SignedTokens(x) + [RParen]
  }

  lemma {:induction false} SignedPrinted(s: Number)
    requires NotNegative(s)
    ensures FilterPrint.Text(SignedTokens(s)) == SpellSigned(s)
  {
    hide FilterPrint.Text, FilterPrint.DigitsOf, Decimal;
    match s
    case Digits(v) =>
      DecimalPrinted(v);
      ThreeTokens(Int(v), Int(v), Int(v));
    case Minus(x) =>
      SignedPrinted(x);
      TextStarts(Bareword([0x2D]), SignedTokens(x));
    case Plus(x) =>
      SignedPrinted(x);
      TextStarts(Bareword([0x2B]), SignedTokens(x));
    case Parens(x) =>
      SignedPrinted(x);
      GroupPrinted(SignedTokens(x));
  }

  lemma SignsArePrintable(v: i64)
    ensures FilterPrint.IsPrintable(Bareword([0x2D])) && FilterPrint.IsPrintable(Bareword([0x2B]))
    ensures FilterPrint.IsPrintable(LParen) && FilterPrint.IsPrintable(RParen)
    ensures v >= 0 ==> FilterPrint.IsPrintable(Int(v))
  {
  }

  lemma {:induction false} SignedPrintable(s: Number)
    requires NotNegative(s)
    ensures forall i | 0 <= i < |SignedTokens(s)| :: FilterPrint.IsPrintable(SignedTokens(s)[i])
  {
    hide FilterPrint.IsPrintable;
    SignsArePrintable(if s.Digits? then s.v else 0);
    if !s.Digits? {
      SignedPrintable(s.x);
    }
  }

  lemma {:induction false} SignedRead(s: Number, rest: Stream)
    requires NotNegative(s)
    ensures IsStream(SignedTokens(s) + rest)
    ensures ParseSignedInt(SignedTokens(s) + rest) == Some((ValueOf(s), rest))
    decreases s
  {
    hide ParseI64LiteralText, IsStream, Bump, Expect, ParseSignedInt;
    match s
    case Digits(v) => DigitsRead(v, rest);
    case Minus(x) =>
      SignedRead(x, rest);
      SignRead(true, SignedTokens(x) + rest);
      Joins([Bareword([0x2D])], SignedTokens(x), rest);
    case Plus(x) =>
      SignedRead(x, rest);
      SignRead(false, SignedTokens(x) + rest);
      Joins([Bareword([0x2B])], SignedTokens(x), rest);
    case Parens(x) =>
      FilterRoundTrip.Cons(RParen, rest);
      SignedRead(x, [RParen] + rest);
      ParenRead(SignedTokens(x) + ([RParen] + rest), rest);
      Joins([LParen] + SignedTokens(x), [RParen], rest);
      Joins([LParen], SignedTokens(x), [RParen] + rest);
  }

  lemma DigitsRead(v: i64, rest: Stream)
    ensures IsStream([Int(v)] + rest) && ParseSignedInt([Int(v)] + rest) == Some((v, rest))
  {
    hide IsStream, Bump, ParseI64LiteralText;
    FilterRoundTrip.Cons(Int(v), rest);
  }

  lemma Joins(a: seq<Token>, b: seq<Token>, c: seq<Token>)
    ensures a + b + c == a + (b + c)
  {
  }

  lemma SignRead(minus: bool, ts: Stream)
    ensures var all := [Bareword([if minus then 0x2D else 0x2B])] + ts;
            IsStream(all) && match ParseSignedInt(ts)
                             case None => true
                             case Some((v, rest)) => v != I64_MIN ==>
                               ParseSignedInt(all) == Some((if minus then -v else v, rest))
  {
    hide ParseI64LiteralText, IsStream, Bump, ParseSignedInt;
    FilterRoundTrip.Cons(Bareword([if minus then 0x2D else 0x2B]), ts);
    SignUnfolds([Bareword([if minus then 0x2D else 0x2B])] + ts, minus);
  }

  lemma ParenRead(ts: Stream, rest: Stream)
    requires IsStream([RParen] + rest)
    ensures IsStream([LParen] + ts)
    ensures forall v | ParseSignedInt(ts) == Some((v, [RParen] + rest)) ::
              ParseSignedInt([LParen] + ts) == Some((v, rest))
  {
    hide ParseI64LiteralText, IsStream, Bump, ParseSignedInt;
    FilterRoundTrip.Cons(LParen, ts);
    FilterRoundTrip.Cons(RParen, rest);
    ParenUnfolds([LParen] + ts);
    assert ([RParen] + rest)[0] == RParen;
  }

  lemma SignedStarts(s: Number)
    requires NotNegative(s)
    ensures StartsNumericLiteral(SignedTokens(s)[0]) && SpellSigned(s) != [] && SpellSigned(s)[0] == 0x20
  {
    hide Decimal, ParseI64LiteralText;
  }

  /** Signs apart from the number, and parentheses, as often as one likes. */
  lemma SignedCompared(field: seq<byte>, op: NumOp, s: Number)
    requires IsName(field) && NotNegative(s)
    ensures Parse(After(field, SpellNumOp(op), SpellSigned(s))) == Some(NumCmp(field, None, op, ValueOf(s)))
  {
    hide Tokens, Parse, IsName, SignedTokens, SpellSigned, ValueOf, SpellNumOp, After;
    var text := After(field, SpellNumOp(op), SpellSigned(s));
    SignedStarts(s);
    SignedPrinted(s);
    SignedPrintable(s);
    OperatorTexts(op, StrEq);
    OperatorIsPlain(op, StrEq);
    OperatorFirst(field, FilterPrint.NumOpToken(op), SpellSigned(s));
    FilterPrint.TokensOfText(SignedTokens(s));
    SignedRead(s, [Eof]);
    hide ParseSignedInt, StartsNumericLiteral, NotNegative, ParsePatternLiteral, ParseMasked;
    var ts: Stream := SignedTokens(s) + [Eof];
    assert ts[0] == SignedTokens(s)[0];
    OneComparison(text, field, FilterPrint.NumOpToken(op), ts);
  }

  // ----- Quoted patterns

  /** A character of a quoted string, by itself or behind a backslash. */
  datatype Piece = Bare(c: byte) | Escaped(c: byte)

  predicate PieceOk(p: Piece, quote: byte) {
    p.Bare? ==> p.c != quote && p.c != 0x5C
  }

  predicate PiecesOk(ps: seq<Piece>, quote: byte) {
    forall i | 0 <= i < |ps| :: PieceOk(ps[i], quote)
  }

  function SpellPiece(p: Piece): seq<byte> {
    if p.Bare? then [p.c] else [0x5C, p.c]
  }

  function SpellPieces(ps: seq<Piece>): seq<byte> {
    if ps == [] then [] else SpellPiece(ps[0]) + SpellPieces(ps[1..])
  }

  /** `\n` is a line feed and `\t` a tab; any other character stands for itself. */
  function Said(p: Piece): byte {
    if p == Escaped(0x6E) then 0x0A else if p == Escaped(0x74) then 0x09 else p.c
  }

  function AllSaid(ps: seq<Piece>): seq<byte> {
    if ps == [] then [] else [Said(ps[0])] + AllSaid(ps[1..])
  }

  lemma {:induction false} PiecesRead(ps: seq<Piece>, quote: byte, tail: seq<byte>)
    requires PiecesOk(ps, quote) && quote != 0x5C && (tail == [] || tail == [0x5C] || tail[0] == quote)
    ensures LexString(SpellPieces(ps) + tail, quote)
         == if tail != [] && tail[0] == quote then Some((AllSaid(ps), tail[1..])) else None
  {
    hide Said, PieceOk, SpellPiece;
    if ps == [] {
      assert SpellPieces(ps) + tail == tail;
    } else {
      hide LexString;
      var rest := SpellPieces(ps[1..]);
      assert SpellPiece(ps[0]) + rest + tail == SpellPiece(ps[0]) + (rest + tail);
      PiecesRead(ps[1..], quote, tail);
      PieceRead(ps[0], quote, rest + tail);
    }
  }

  lemma PieceRead(p: Piece, quote: byte, rest: seq<byte>)
    requires PieceOk(p, quote) && quote != 0x5C
    ensures LexString(SpellPiece(p) + rest, quote) == Then(Said(p), LexString(rest, quote))
  {
    assert (SpellPiece(p) + rest)[|SpellPiece(p)|..] == rest;
  }

  /** Every text behind a quote consists of pieces, then the quote, a lone backslash, or nothing. */
  lemma {:induction false} PiecesOf(s: seq<byte>, quote: byte) returns (ps: seq<Piece>, tail: seq<byte>)
    requires quote != 0x5C
    ensures s == SpellPieces(ps) + tail && PiecesOk(ps, quote)
    ensures tail == [] || tail == [0x5C] || tail[0] == quote
    decreases |s|
  {
    if s == [] || s == [0x5C] || s[0] == quote {
      ps, tail := [], s;
    } else {
      var p := if s[0] == 0x5C then Escaped(s[1]) else Bare(s[0]);
      var n := if s[0] == 0x5C then 2 else 1;
      assert s == SpellPiece(p) + s[n..] && PieceOk(p, quote);
      hide SpellPiece, PieceOk;
      var others, end := PiecesOf(s[n..], quote);
      ps, tail := [p] + others, end;
      assert ps[1..] == others;
      assert SpellPiece(p) + (SpellPieces(others) + end) == SpellPiece(p) + SpellPieces(others) + end;
    }
  }

  lemma PatternCompared(s: seq<byte>, field: seq<byte>, op: StrOp, text: seq<byte>)
    requires Tokens(s) == [Ident(field), FilterPrint.StrOpToken(op)] + [String(text), Eof]
    ensures Parse(s) == Some(StrCmp(field, op, text))
  {
    hide Tokens, ParseComparison, Parse;
    FilterRoundTrip.StrPrinted(field, op, text, [Eof]);
    assert [String(text)] + [Eof] == [String(text), Eof];
    OperatorIsPlain(NumEq, op);
    OneComparison(s, field, FilterPrint.StrOpToken(op), [String(text), Eof]);
  }

  lemma QuoteLexed(quote: byte, ps: seq<Piece>, end: seq<byte>)
    requires quote in {0x22, 0x27} && PiecesOk(ps, quote) && (end == [] || end == [0x5C] || end == [quote])
    ensures LexToken([quote] + (SpellPieces(ps) + end))
         == if end == [quote] then Some((String(AllSaid(ps)), [])) else None
  {
    PiecesRead(ps, quote, end);
    var s := [quote] + (SpellPieces(ps) + end);
    assert s[1..] == SpellPieces(ps) + end;
    hide SpellPieces, AllSaid, LexString, LexNumber, Run, PiecesOk;
  }

  /** A pattern in quotes of either kind is what its pieces say; without its closing quote it is an error. */
  lemma QuotedCompared(field: seq<byte>, op: StrOp, quote: byte, ps: seq<Piece>, end: seq<byte>)
    requires IsName(field) && quote in {0x22, 0x27} && PiecesOk(ps, quote)
    requires end == [] || end == [0x5C] || end == [quote]
    ensures Parse(After(field, SpellStrOp(op), [0x20] + ([quote] + (SpellPieces(ps) + end))))
         == if end == [quote] then Some(StrCmp(field, op, AllSaid(ps))) else None
  {
    hide Tokens, Parse, IsName, LexToken, FilterPrint.StrOpToken, SpellStrOp, After, SpellPieces, AllSaid, PiecesOk;
    var lit := [quote] + (SpellPieces(ps) + end);
    var t, s := FilterPrint.StrOpToken(op), After(field, SpellStrOp(op), [0x20] + lit);
    OperatorTexts(NumEq, op);
    OperatorIsPlain(NumEq, op);
    OperatorFirst(field, t, [0x20] + lit);
    QuoteLexed(quote, ps, end);
    if end == [quote] {
      assert lit + [] == lit && [0x20] + lit + [] == [0x20] + lit;
      TokenFirst(lit, String(AllSaid(ps)), []);
      NoTokens();
      assert [String(AllSaid(ps))] + [Eof] == [String(AllSaid(ps)), Eof];
      PatternCompared(s, field, op, AllSaid(ps));
    } else {
      ErrorFirst(lit);
      NothingParsed(s, field, t);
    }
  }

  // ----- Patterns without quotes

  /** Neither whitespace nor an operator's character. */
  predicate IsBare(c: byte) {
    c !in {0x20, 0x09, 0x0A, 0x0C, 0x0D} && c !in {0x21, 0x26, 0x28, 0x29, 0x3C, 0x3D, 0x3E, 0x7C, 0x7E}
  }

  predicate IsNameChar(c: byte) {
    0x30 <= c <= 0x39 || 0x41 <= c <= 0x5A || c == 0x5F || 0x61 <= c <= 0x7A
  }

  /** A word that is not a name: no name's character and no quote first. */
  predicate IsWord(s: seq<byte>) {
    s != [] && !IsNameChar(s[0]) && s[0] != 0x22 && s[0] != 0x27 && forall i | 0 <= i < |s| :: IsBare(s[i])
  }

  lemma WordLexed(w: seq<byte>, tail: seq<byte>)
    requires IsWord(w) && FilterPrint.IsTail(tail)
    ensures FilterPrint.IsPrintable(Bareword(w)) && w != [] && !IsSpace(w[0])
    ensures LexToken(w + tail) == Some((Bareword(w), tail))
  {
    assert forall i | 0 <= i < |w| :: IsBarePart(w[i]) by {
      assert forall i | 0 <= i < |w| :: IsBare(w[i]);
    }
    hide LexToken;
    FilterPrint.LexNamed(w, tail);
  }

  /** A word right behind a name is a token of its own. */
  lemma NameAndWord(name: seq<byte>, w: seq<byte>, tail: seq<byte>)
    requires IsName(name) && IsWord(w) && FilterPrint.IsTail(tail)
    ensures Tokens([0x20] + name + (w + tail)) == [Ident(name), Bareword(w)] + Tokens(tail)
  {
    assert (w + tail)[0] == w[0];
    NameEnds(name, w + tail);
    WordFirst(w, tail);
    hide LexToken, IsName, IsWord, Tokens;
    TokenFirst(name, Ident(name), w + tail);
    assert [Ident(name)] + ([Bareword(w)] + Tokens(tail)) == [Ident(name), Bareword(w)] + Tokens(tail);
  }

  lemma WordFirst(w: seq<byte>, tail: seq<byte>)
    requires IsWord(w) && FilterPrint.IsTail(tail)
    ensures Tokens(w + tail) == [Bareword(w)] + Tokens(tail)
  {
    WordLexed(w, tail);
    assert (w + tail)[0] == w[0];
    hide LexToken, IsWord, FilterPrint.IsPrintable;
    NoSpaceFirst(w + tail);
  }

  lemma NoSpaceFirst(s: seq<byte>)
    requires s != [] && !IsSpace(s[0])
    ensures NextToken(s) == LexToken(s)
  {
    hide LexToken;
    assert s[0..] == s;
  }

  lemma NameEnds(name: seq<byte>, rest: seq<byte>)
    requires IsName(name) && rest != [] && !IsNameChar(rest[0])
    ensures !IsSpace(name[0]) && LexToken(name + rest) == Some((Ident(name), rest))
  {
    var s := name[1..];
    assert forall i | 0 <= i < |s| :: IsIdentPart(s[i]) by {
      assert forall i | 0 <= i < |s| :: s[i] == name[i + 1];
    }
    FilterPrint.RunUpTo(s, rest, IsIdentPart);
    assert (name + rest)[1..] == s + rest && [name[0]] + s == name && IsIdentStart(name[0]);
    hide Run, LexNumber, LexString, IsIdentPart, IsIdentStart;
  }

  /** The words that follow, each after a space. */
  function SpellWords(ws: seq<seq<byte>>): seq<byte> {
    if ws == [] then [] else [0x20] + ws[0] + SpellWords(ws[1..])
  }

  function Joined(ws: seq<seq<byte>>): seq<byte> {
    if ws == [] then [] else ws[0] + Joined(ws[1..])
  }

  function Words(ws: seq<seq<byte>>): seq<Token> {
    if ws == [] then [] else [Bareword(ws[0])] + Words(ws[1..])
  }

  predicate AllWords(ws: seq<seq<byte>>) {
    forall i | 0 <= i < |ws| :: IsWord(ws[i])
  }

  lemma {:induction false} WordsRead(ws: seq<seq<byte>>)
    requires AllWords(ws)
    ensures Tokens(SpellWords(ws)) == Words(ws) + [Eof] && FilterPrint.IsTail(SpellWords(ws))
  {
    hide IsWord, Tokens, LexToken, FilterPrint.IsPrintable, IsSpace;
    if ws == [] {
      NoTokens();
    } else {
      var tail := SpellWords(ws[1..]);
      WordsRead(ws[1..]);
      WordLexed(ws[0], tail);
      TokenFirst(ws[0], Bareword(ws[0]), tail);
      assert Words(ws) + [Eof] == [Bareword(ws[0])] + (Words(ws[1..]) + [Eof]);
    }
  }

  lemma {:induction false} WordsMerge(s: seq<byte>, ws: seq<seq<byte>>)
    ensures IsStream(Words(ws) + [Eof])
    ensures MergeWords(s, Words(ws) + [Eof]) == Some((s + Joined(ws), [Eof]))
    decreases |ws|
  {
    hide IsStream, Bump;
    if ws == [] {
      EndOnly();
      assert Words(ws) + [Eof] == [Eof] && s + Joined(ws) == s;
    } else {
      WordsMerge(s + ws[0], ws[1..]);
      var ts: Stream := Words(ws[1..]) + [Eof];
      FilterRoundTrip.Cons(Bareword(ws[0]), ts);
      assert Words(ws) + [Eof] == [Bareword(ws[0])] + ts;
      assert s + ws[0] + Joined(ws[1..]) == s + (ws[0] + Joined(ws[1..]));
    }
  }

  lemma EndOnly()
    ensures IsStream([Eof])
  {
  }

  lemma NameMerges(field: seq<byte>, name: seq<byte>, ws: seq<seq<byte>>)
    ensures IsStream([Ident(name)] + (Words(ws) + [Eof]))
    ensures ParseComparison(field, Tilde, [Ident(name)] + (Words(ws) + [Eof]))
         == Some((StrCmp(field, StrGlob, name + Joined(ws)), [Eof]))
  {
    hide IsStream, Bump, MergeWords;
    WordsMerge(name, ws);
    FilterRoundTrip.Cons(Ident(name), Words(ws) + [Eof]);
  }

  lemma WordMerges(field: seq<byte>, w: seq<byte>, ws: seq<seq<byte>>)
    ensures IsStream(Words([w] + ws) + [Eof])
    ensures ParseComparison(field, Tilde, Words([w] + ws) + [Eof])
         == Some((StrCmp(field, StrGlob, w + Joined(ws)), [Eof]))
  {
    hide IsStream, Bump, MergeWords;
    WordsMerge(w, ws);
    FilterRoundTrip.Cons(Bareword(w), Words(ws) + [Eof]);
    assert ([w] + ws)[1..] == ws;
    assert Words([w] + ws) + [Eof] == [Bareword(w)] + (Words(ws) + [Eof]);
  }

  lemma WordAlone(field: seq<byte>, w: seq<byte>, ws: seq<seq<byte>>)
    requires IsName(field) && IsWord(w) && AllWords(ws)
    ensures Parse(After(field, [0x7E], SpellWords([w] + ws))) == Some(StrCmp(field, StrGlob, w + Joined(ws)))
  {
    var all := [w] + ws;
    WordsStart(w, ws);
    hide *;
    WordsRead(all);
    WordMerges(field, w, ws);
    TildeCompared(field, SpellWords(all), Words(all) + [Eof]);
  }

  lemma WordsStart(w: seq<byte>, ws: seq<seq<byte>>)
    requires IsWord(w) && AllWords(ws)
    ensures AllWords([w] + ws) && SpellWords([w] + ws) != [] && SpellWords([w] + ws)[0] == 0x20
  {
    hide IsWord;
  }

  lemma TildeText()
    ensures FilterPrint.IsPrintable(Tilde) && FilterPrint.TokenText(Tilde) == [0x7E]
  {
  }

  lemma TildeCompared(field: seq<byte>, rest: seq<byte>, ts: Stream)
    requires IsName(field) && rest != [] && rest[0] == 0x20 && Tokens(rest) == ts
    ensures match ParseComparison(field, Tilde, ts)
            case None => true
            case Some((e, left)) => left == [Eof] ==> Parse(After(field, [0x7E], rest)) == Some(e)
  {
    hide *;
    TildeText();
    OperatorFirst(field, Tilde, rest);
    OneComparison(After(field, [0x7E], rest), field, Tilde, ts);
  }

  lemma NameFirst(field: seq<byte>, name: seq<byte>, w: seq<byte>, ws: seq<seq<byte>>)
    requires IsName(field) && IsName(name) && IsWord(w) && AllWords(ws)
    ensures Parse(After(field, [0x7E], [0x20] + name + (w + SpellWords(ws))))
         == Some(StrCmp(field, StrGlob, name + (w + Joined(ws))))
  {
    var all, rest := [w] + ws, [0x20] + name + (w + SpellWords(ws));
    WordsUnfold(name, w, ws);
    hide *;
    WordsRead(ws);
    NameAndWord(name, w, SpellWords(ws));
    NameMerges(field, name, all);
    TildeCompared(field, rest, [Ident(name)] + (Words(all) + [Eof]));
  }

  lemma WordsUnfold(name: seq<byte>, w: seq<byte>, ws: seq<seq<byte>>)
    ensures Joined([w] + ws) == w + Joined(ws)
    ensures [Ident(name), Bareword(w)] + (Words(ws) + [Eof]) == [Ident(name)] + (Words([w] + ws) + [Eof])
  {
    assert ([w] + ws)[1..] == ws;
  }

  /**
    A pattern without quotes is a name, the word right behind it, and the words after it, or words
    alone: they are joined without the spaces between them.
  */
  lemma WordsCompared(field: seq<byte>, name: seq<byte>, w: seq<byte>, ws: seq<seq<byte>>)
    requires IsName(field) && IsName(name) && IsWord(w) && AllWords(ws)
    ensures Parse(After(field, [0x7E], [0x20] + name + (w + SpellWords(ws))))
         == Some(StrCmp(field, StrGlob, name + (w + Joined(ws))))
    ensures Parse(After(field, [0x7E], SpellWords([w] + ws))) == Some(StrCmp(field, StrGlob, w + Joined(ws)))
  {
    hide Parse, After, SpellWords, Joined, AllWords, IsWord, IsName;
    NameFirst(field, name, w, ws);
    WordAlone(field, w, ws);
  }

  // ----- Spaces

  /** What follows a token's text does not continue it. */
  predicate Apart(t: Token, tail: seq<byte>) {
    tail != [] ==>
      match t
      case Ident(_) => !IsNameChar(tail[0])
      case Int(_) => !(0x30 <= tail[0] <= 0x39) && tail[0] != 0x78 && tail[0] != 0x58
      case Bareword(_) => !IsBare(tail[0])
      case Amp => tail[0] != 0x26
      case Lt => tail[0] != 0x3D
      case Gt => tail[0] != 0x3D
      case _ => true
  }

  predicate IsGap(s: seq<byte>) {
    forall i | 0 <= i < |s| :: s[i] in {0x20, 0x09, 0x0A, 0x0C, 0x0D}
  }

  /** The texts of the tokens, with gaps before, between and after them. */
  function Spread(ts: seq<Token>, gaps: seq<seq<byte>>): seq<byte>
    requires |gaps| == |ts| + 1
  {
    if ts == [] then gaps[0] else gaps[0] + (FilterPrint.TokenText(ts[0]) + Spread(ts[1..], gaps[1..]))
  }

  predicate AllApart(ts: seq<Token>, gaps: seq<seq<byte>>)
    requires |gaps| == |ts| + 1
  {
    IsGap(gaps[0]) && (ts != [] ==> Apart(ts[0], Spread(ts[1..], gaps[1..])) && AllApart(ts[1..], gaps[1..]))
  }

  lemma IntApart(v: i64, tail: seq<byte>)
    requires v >= 0 && Apart(Int(v), tail)
    ensures !IsSpace(FilterPrint.DigitsOf(v)[0]) && !IsSpace((FilterPrint.DigitsOf(v) + tail)[0])
    ensures LexToken(FilterPrint.DigitsOf(v) + tail) == Some((Int(v), tail))
  {
    FilterPrint.DigitsOfAreDigits(v);
    FilterPrint.RadixOfDigits(v);
    var s := FilterPrint.DigitsOf(v);
    hide FilterPrint.DigitsOf, Run, FilterLexer.Number, FromStrRadix;
    FilterPrint.RunUpTo(s, tail, IsDigit);
    assert |s| > 1 ==> (s + tail)[1] == s[1];
    assert IsDigit(s[0]) && (s + tail)[0] == s[0];
    DigitFirst(s + tail);
    hide LexToken;
  }

  lemma WordApart(w: seq<byte>, tail: seq<byte>)
    requires IsWord(w) && Apart(Bareword(w), tail)
    ensures !IsSpace(w[0]) && LexToken(w + tail) == Some((Bareword(w), tail))
  {
    var s := w[1..];
    assert IsBare(w[0]) && !IsNameChar(w[0]);
    assert forall i | 0 <= i < |s| :: IsBarePart(s[i]) by {
      assert forall i | 0 <= i < |s| :: s[i] == w[i + 1] && IsBare(w[i + 1]);
    }
    FilterPrint.RunUpTo(s, tail, IsBarePart);
    assert (w + tail)[1..] == s + tail && [w[0]] + s == w;
    hide Run, LexNumber, LexString, IsBarePart;
  }

  lemma OperatorApart(t: Token, tail: seq<byte>)
    requires FilterPrint.IsPrintable(t) && Apart(t, tail) && !t.Ident? && !t.Bareword? && !t.Int? && !t.String?
    ensures FilterPrint.TokenText(t) != [] && !IsSpace(FilterPrint.TokenText(t)[0])
    ensures LexToken(FilterPrint.TokenText(t) + tail) == Some((t, tail)) && !t.Eof?
  {
    hide LexNumber, LexString, Run, FilterPrint.Escape, FilterPrint.DigitsOf, IsIdentStart, IsDigit,
      FilterPrint.IsIdentifier;
    FilterPrint.AfterFirst(FilterPrint.TokenText(t), tail);
  }

  lemma ApartLexed(t: Token, tail: seq<byte>)
    requires FilterPrint.IsPrintable(t) && Apart(t, tail)
    ensures FilterPrint.TokenText(t) != [] && !IsSpace(FilterPrint.TokenText(t)[0]) && !t.Eof?
    ensures LexToken(FilterPrint.TokenText(t) + tail) == Some((t, tail))
  {
    hide LexToken, FilterPrint.DigitsOf, FilterPrint.Escape, IsName, IsSpace;
    match t
    case Ident(name) =>
      NamesAreIdentifiers(name);
      if tail == [] {
        NameLexed(name, tail);
      } else {
        NameEnds(name, tail);
      }
    case Bareword(word) =>
      PrintableWord(word);
      WordApart(word, tail);
    case Int(v) => IntApart(v, tail);
    case String(text) => QuotedApart(text, tail);
    case _ => OperatorApart(t, tail);
  }

  lemma PrintableWord(w: seq<byte>)
    ensures FilterPrint.IsPrintable(Bareword(w)) <==> IsWord(w)
  {
    if IsWord(w) {
      assert forall i | 0 <= i < |w| :: IsBare(w[i]);
    }
    if FilterPrint.IsPrintable(Bareword(w)) {
      assert forall i | 0 <= i < |w| :: IsBarePart(w[i]);
    }
  }

  lemma QuotedApart(text: seq<byte>, tail: seq<byte>)
    ensures var s := FilterPrint.TokenText(String(text));
            s != [] && !IsSpace(s[0]) && LexToken(s + tail) == Some((String(text), tail))
  {
    hide LexToken, FilterPrint.Escape;
    FilterPrint.LexQuoted(text, tail);
  }

  /** A gap before a text is skipped. */
  lemma {:induction false} GapSkipped(gap: seq<byte>, s: seq<byte>)
    requires IsGap(gap)
    ensures Tokens(gap + s) == Tokens(s)
  {
    hide Tokens;
    if gap == [] {
      assert gap + s == s;
    } else {
      GapSkipped(gap[1..], s);
      OneSkipped(gap[0], gap[1..] + s);
      Regroup([gap[0]], gap[1..], s);
      assert gap == [gap[0]] + gap[1..];
    }
  }

  lemma {:induction false} SpreadRead(ts: seq<Token>, gaps: seq<seq<byte>>)
    requires |gaps| == |ts| + 1 && AllApart(ts, gaps) && forall i | 0 <= i < |ts| :: FilterPrint.IsPrintable(ts[i])
    ensures Tokens(Spread(ts, gaps)) == ts + [Eof]
    decreases |ts|
  {
    hide IsGap, Apart, LexToken, FilterPrint.IsPrintable, FilterPrint.TokenText, Tokens, IsSpace;
    if ts == [] {
      assert gaps[0] + [] == gaps[0];
      GapSkipped(gaps[0], []);
      NoTokens();
    } else {
      var rest := Spread(ts[1..], gaps[1..]);
      SpreadRead(ts[1..], gaps[1..]);
      ApartLexed(ts[0], rest);
      GapSkipped(gaps[0], FilterPrint.TokenText(ts[0]) + rest);
      TokenHere(FilterPrint.TokenText(ts[0]), ts[0], rest);
      assert ts + [Eof] == [ts[0]] + (ts[1..] + [Eof]);
    }
  }

  lemma TokenHere(text: seq<byte>, t: Token, tail: seq<byte>)
    requires text != [] && !IsSpace(text[0]) && LexToken(text + tail) == Some((t, tail)) && !t.Eof?
    ensures Tokens(text + tail) == [t] + Tokens(tail)
  {
    hide LexToken;
    assert (text + tail)[0] == text[0];
    NoSpaceFirst(text + tail);
  }

  /**
    Whitespace is needed only where a token would run into the next one: with any gaps that keep
    them apart, the tokens of an expression are parsed as the expression.
  */
  lemma AnySpacing(e: Expr, gaps: seq<seq<byte>>)
    requires FilterRoundTrip.Sound(e) && FilterRoundTrip.OrShape(e)
    requires |gaps| == |FilterPrint.Print(e)| + 1 && AllApart(FilterPrint.Print(e), gaps)
    ensures Parse(Spread(FilterPrint.Print(e), gaps)) == Some(e)
  {
    var ts := FilterPrint.Print(e);
    hide Parse, Tokens, Spread, AllApart, FilterPrint.Print, FilterPrint.Text, FilterRoundTrip.Sound,
      FilterRoundTrip.OrShape, FilterPrint.IsPrintable;
    FilterRoundTrip.PrintIsPrintable(e);
    SpreadRead(ts, gaps);
    FilterPrint.TokensOfText(ts);
    SameTokens(Spread(ts, gaps), FilterPrint.Text(ts));
    FilterRoundTrip.ParsePrinted(e);
  }
}
