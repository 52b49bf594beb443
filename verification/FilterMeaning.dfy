/**
  What filters decide, said without the evaluator's own comparisons: each leaf, how leaves
  combine, and texts from compilation to the verdict (tp-lexer/src/lib.rs).
*/
module FilterMeaning {
  import opened Bytes
  import opened FilterLexer
  import opened FilterParser
  import opened FilterEval
  import FilterGlob
  import FilterPrint
  import FilterRoundTrip
  import FilterSyntax
  import Glob
  import GlobMeaning

  // ----- Bits

  predicate Bit(n: nat, i: nat) {
    if i == 0 then n % 2 == 1 else Bit(n / 2, i - 1)
  }

  /** A bit of a 64-bit integer in two's complement. */
  predicate IntBit(v: i64, i: nat) {
    Bit(if v >= 0 then v else v + 0x1_0000_0000_0000_0000, i)
  }

  predicate IsMasked(x: i64, v: i64, mask: i64) {
    forall i | 0 <= i < 64 :: IntBit(x, i) <==> IntBit(v, i) && IntBit(mask, i)
  }

  lemma {:induction false} BitOfAnd(a: nat, b: nat, i: nat)
    ensures Bit(AndBits(a, b), i) <==> Bit(a, i) && Bit(b, i)
    decreases i
  {
    if a == 0 || b == 0 {
      NoBits(i);
    } else {
      var r := AndBits(a / 2, b / 2);
      assert AndBits(a, b) / 2 == r && (AndBits(a, b) % 2 == 1 <==> a % 2 == 1 && b % 2 == 1);
      if i > 0 {
        BitOfAnd(a / 2, b / 2, i - 1);
      }
    }
  }

  lemma {:induction false} NoBits(i: nat)
    ensures !Bit(0, i)
  {
    if i > 0 {
      NoBits(i - 1);
    }
  }

  function Two(n: nat): (p: nat)
    ensures p > 0
  {
    if n == 0 then 1 else 2 * Two(n - 1)
  }

  lemma {:induction false} BitsDetermineNat(a: nat, b: nat, n: nat)
    requires a < Two(n) && b < Two(n) && forall i | 0 <= i < n :: Bit(a, i) <==> Bit(b, i)
    ensures a == b
  {
    if n > 0 {
      assert Bit(a, 0) <==> Bit(b, 0);
      forall i | 0 <= i < n - 1
        ensures Bit(a / 2, i) <==> Bit(b / 2, i)
      {
        assert Bit(a, i + 1) <==> Bit(b, i + 1);
      }
      BitsDetermineNat(a / 2, b / 2, n - 1);
    }
  }

  lemma TwoTo64()
    ensures Two(64) == 0x1_0000_0000_0000_0000
  {
    assert Two(8) == 0x100;
    assert Two(16) == 0x1_0000;
    assert Two(24) == 0x100_0000;
    assert Two(32) == 0x1_0000_0000;
    assert Two(40) == 0x100_0000_0000;
    assert Two(48) == 0x1_0000_0000_0000;
    assert Two(56) == 0x100_0000_0000_0000;
  }

  /** Its bits determine a 64-bit integer, so a mask leaves one value only. */
  lemma MaskedIsOne(x: i64, y: i64, v: i64, mask: i64)
    requires IsMasked(x, v, mask) && IsMasked(y, v, mask)
    ensures x == y
  {
    TwoTo64();
    var a, b := ToWord(x), ToWord(y);
    forall i | 0 <= i < 64
      ensures Bit(a, i) <==> Bit(b, i)
    {
      assert IntBit(x, i) <==> IntBit(y, i);
    }
    hide Bit;
    BitsDetermineNat(a, b, 64);
  }

  lemma MaskKeepsBits(v: i64, mask: i64)
    ensures IsMasked(MaskWith(v, mask), v, mask)
  {
    forall i | 0 <= i < 64
      ensures IntBit(MaskWith(v, mask), i) <==> IntBit(v, i) && IntBit(mask, i)
    {
      BitOfAnd(ToWord(v), ToWord(mask), i);
      hide Bit, AndBits;
    }
  }

  // ----- Leaves

  /** The field's value stands in the relation the operator names to the number. */
  predicate Relates(op: NumOp, x: int, n: int) {
    match op
    case NumEq => x == n
    case NumNe => x < n || n < x
    case NumLt => x < n
    case NumLe => x < n || x == n
    case NumGt => n < x
    case NumGe => n < x || x == n
  }

  /**
    A numeric comparison of a field that reads as `v` is true if and only if the relation holds of
    `v`, or of the value with the bits set in both `v` and the mask.
  */
  lemma NumberDecides(field: seq<byte>, mask: Option<i64>, op: NumOp, rhs: i64, schema: seq<Field>, ctx: Context,
                      v: i64) returns (x: i64)
    requires Validate(NumCmp(field, mask, op, rhs), schema) && ctx.getInteger(field) == Found(v)
    ensures if mask.Some? then IsMasked(x, v, mask.value) else x == v
    ensures EvalExpr(NumCmp(field, mask, op, rhs), schema, ctx) == Done(if Relates(op, x, rhs) then True else False)
  {
    hide MaskWith, IsMasked;
    x := if mask.Some? then MaskWith(v, mask.value) else v;
    if mask.Some? {
      MaskKeepsBits(v, mask.value);
    }
  }

  /** A pattern is compared byte by byte, or read as a glob: accepted is what the parts it is written by mean. */
  lemma PatternDecides(field: seq<byte>, op: StrOp, pat: seq<byte>, schema: seq<Field>, ctx: Context, v: seq<byte>)
    returns (parts: seq<GlobMeaning.Part>)
    requires Validate(StrCmp(field, op, pat), schema) && ctx.getStrBytes(field) == Found(v)
    ensures GlobMeaning.PartsOk(parts) && GlobMeaning.Spell(parts) == pat
    ensures EvalExpr(StrCmp(field, op, pat), schema, ctx)
         == Done(if (match op
                     case StrEq => v == pat
                     case StrNe => v != pat
                     case StrGlob => GlobMeaning.Means(parts, v)) then True else False)
  {
    parts := GlobMeaning.Spelled(pat);
    GlobDecides(parts, v);
    hide GlobMeaning.Means, GlobMeaning.PartsOk, GlobMeaning.Spell, Glob.M, FilterGlob.Elements;
  }

  lemma GlobDecides(parts: seq<GlobMeaning.Part>, v: seq<byte>)
    requires GlobMeaning.PartsOk(parts)
    ensures Glob.M(FilterGlob.Elements(GlobMeaning.Spell(parts), 0), v, 0) <==> GlobMeaning.Means(parts, v)
  {
    hide GlobMeaning.Means, GlobMeaning.PartsOk, GlobMeaning.Spell, Glob.M, Glob.Matches, FilterGlob.Elements;
    GlobMeaning.GlobMeans(parts, v);
    Glob.RecursionDecides(FilterGlob.Elements(GlobMeaning.Spell(parts), 0), v);
  }

  /** A leaf whose field is missing lets the event through; one whose field is malformed drops it. */
  lemma AbsentAndMalformed(leaf: Expr, schema: seq<Field>, ctx: Context)
    requires (leaf.NumCmp? || leaf.StrCmp?) && Validate(leaf, schema)
    ensures (leaf.NumCmp? && ctx.getInteger(leaf.field).Missing?)
            || (leaf.StrCmp? && ctx.getStrBytes(leaf.field).Missing?)
            ==> EvalExpr(leaf, schema, ctx) == Done(Unknown) && Evaluate(leaf, schema, ctx)
    ensures (leaf.NumCmp? && ctx.getInteger(leaf.field).Malformed?)
            || (leaf.StrCmp? && ctx.getStrBytes(leaf.field).Malformed?)
            ==> EvalExpr(leaf, schema, ctx) == Failed(leaf.field) && !Evaluate(leaf, schema, ctx)
  {
  }

  // ----- Combinations

  /**
    The right side is not evaluated when the left decides; what is unknown leaves the decision to the
    other side; an error of a side that is evaluated is the error of the whole.
  */
  lemma SidesCombine(l: Expr, r: Expr, schema: seq<Field>, ctx: Context)
    requires !EvalExpr(l, schema, ctx).Panicked? && !EvalExpr(r, schema, ctx).Panicked?
    ensures var lv, rv := EvalExpr(l, schema, ctx), EvalExpr(r, schema, ctx);
            && EvalExpr(Or(l, r), schema, ctx)
               == (if lv.Failed? || lv == Done(True) || rv == Done(Unknown) then lv else rv)
            && EvalExpr(And(l, r), schema, ctx)
               == (if lv.Failed? || lv == Done(False) || rv == Done(Unknown) then lv else rv)
            && EvalExpr(Group(l), schema, ctx) == lv
  {
  }

  // ----- Fields

  ghost predicate IsFirst(schema: seq<Field>, i: nat, f: Field, name: seq<byte>) {
    && i < |schema| && schema[i] == f && f.name == name
    && forall j | 0 <= j < i :: schema[j].name != name
  }

  /** A name stands for the first field of that name. */
  lemma {:induction false} FirstOfName(schema: seq<Field>, name: seq<byte>) returns (i: nat)
    ensures match Get(schema, name)
            case None => forall j | 0 <= j < |schema| :: schema[j].name != name
            case Some(f) => IsFirst(schema, i, f, name)
  {
    i := 0;
    if schema != [] && schema[0].name != name {
      var k := FirstOfName(schema[1..], name);
      assert forall j | 0 < j < |schema| :: schema[j] == schema[1..][j - 1];
      i := k + 1;
    }
  }

  /**
    Over a buffer a text field is its bytes before the first zero, all of them if there is none, and
    malformed if and only if it reaches beyond the buffer; an integer is what its converter makes of
    the bytes at its offset, if it has the width the converter wants.
  */
  lemma BufferReads(buf: seq<byte>, schema: seq<Field>, name: seq<byte>)
    requires Get(schema, name).Some?
    ensures var f, ctx := Get(schema, name).value, BufContext(buf, schema);
            && (f.kind.BytesField? ==>
                  match ctx.getStrBytes(name)
                  case Missing => false
                  case Malformed => |buf| < f.offset + f.length
                  case Found(s) => IsTextOf(s, buf, f.offset, f.length))
            && (f.kind.Integer? ==>
                  match ctx.getInteger(name)
                  case Missing => false
                  case Malformed => !(f.kind.width in {None, Some(f.length)}) || f.kind.convert(buf, f.offset) == None
                  case Found(v) => f.kind.width in {None, Some(f.length)} && f.kind.convert(buf, f.offset) == Some(v))
  {
    hide Get, ToStrBytes, IsTextOf;
    TextRead(buf, Get(schema, name).value.offset, Get(schema, name).value.length);
  }

  /** The bytes from `offset` on, up to the first zero or to the field's length. */
  predicate IsTextOf(s: seq<byte>, buf: seq<byte>, offset: nat, length: nat) {
    && offset + length <= |buf| && |s| <= length
    && (forall i | 0 <= i < |s| :: s[i] == buf[offset + i] && s[i] != 0)
    && (|s| < length ==> buf[offset + |s|] == 0)
  }

  lemma TextRead(buf: seq<byte>, offset: nat, length: nat)
    ensures match ToStrBytes(buf, offset, length)
            case Missing => false
            case Malformed => |buf| < offset + length
            case Found(s) => IsTextOf(s, buf, offset, length)
  {
    if offset + length <= |buf| {
      RunStops(buf[offset..offset + length], IsNonZero);
    }
    hide Run;
  }

  // ----- Integers in texts

  predicate Blank(s: seq<byte>) {
    forall i | 0 <= i < |s| :: s[i] == 0x20 || 0x09 <= s[i] <= 0x0D
  }

  lemma {:induction false} TrimmedStart(pre: seq<byte>, s: seq<byte>)
    requires Blank(pre) && s != [] && !IsTrimmed(s[0])
    ensures TrimStart(pre + s) == s
  {
    if pre == [] {
      assert pre + s == s;
    } else {
      assert (pre + s)[1..] == pre[1..] + s && IsTrimmed(pre[0]);
      TrimmedStart(pre[1..], s);
    }
  }

  lemma {:induction false} TrimmedEnd(s: seq<byte>, post: seq<byte>)
    requires Blank(post) && s != [] && !IsTrimmed(s[|s| - 1])
    ensures TrimEnd(s + post) == s
  {
    if post == [] {
      assert s + post == s;
    } else {
      var n := |post| - 1;
      assert (s + post)[..|s| + n] == s + post[..n] && IsTrimmed(post[n]);
      TrimmedEnd(s, post[..n]);
    }
  }

  lemma BlanksTrimmed(pre: seq<byte>, s: seq<byte>, post: seq<byte>)
    requires Blank(pre) && Blank(post) && s != [] && !IsTrimmed(s[0]) && !IsTrimmed(s[|s| - 1])
    ensures ParseI64LiteralText(pre + s + post) == ParseI64LiteralText(s)
  {
    assert pre + s + post == pre + (s + post) && (s + post)[0] == s[0];
    TrimmedStart(pre, s + post);
    TrimmedEnd(s, post);
    FilterPrint.TrimKeeps(s);
    hide TrimStart, TrimEnd, FromStrRadix, IsHexPrefixed, IsTrimmed;
  }

  lemma IntText(v: i64)
    ensures var s := FilterSyntax.SpellInt(v);
            s != [] && !IsTrimmed(s[0]) && !IsTrimmed(s[|s| - 1]) && ParseI64LiteralText(s) == Some(v)
  {
    hide TrimStart, TrimEnd, FilterLexer.Number, FilterSyntax.Decimal, FilterPrint.DigitsOf, FromStrRadix;
    var n: nat := if v >= 0 then v else Signed(true, v);
    FilterSyntax.DecimalPrinted(n);
    FilterPrint.DigitsOfAreDigits(n);
    FilterPrint.RadixOfDigits(n);
    var s := FilterSyntax.SpellInt(v);
    assert s[|s| - 1] == FilterPrint.DigitsOf(n)[|FilterPrint.DigitsOf(n)| - 1];
    if v >= 0 {
      FilterPrint.TrimKeeps(s);
      assert IsDigit(s[0]);
    } else if v == -0x8000_0000_0000_0000 {
      FilterPrint.LeastNeedsPlus();
    } else {
      FilterPrint.NegativeLiteral(n);
    }
  }

  /** A map's text is read as the integer it writes, whatever blanks are around it. */
  lemma MapReads(m: map<seq<byte>, seq<byte>>, name: seq<byte>, pre: seq<byte>, v: i64, post: seq<byte>)
    requires name in m && m[name] == pre + FilterSyntax.SpellInt(v) + post && Blank(pre) && Blank(post)
    ensures MapContext(m).getInteger(name) == Found(v)
  {
    hide ParseI64LiteralText, IsTrimmed, FilterSyntax.SpellInt;
    IntText(v);
    BlanksTrimmed(pre, FilterSyntax.SpellInt(v), post);
  }

  // ----- From the text to the verdict

  lemma LeadingSpace(e: Expr, text: seq<byte>)
    requires FilterSyntax.Spell(e) == [0x20] + text && FilterRoundTrip.Sound(e) && (e.NumCmp? || e.StrCmp?)
    ensures Parse(text) == Some(e)
  {
    FilterSyntax.CmpIsAnd(e);
    FilterSyntax.AndIsOr(e);
    hide Parse, FilterSyntax.Spell, FilterRoundTrip.Sound, FilterRoundTrip.OrShape;
    FilterSyntax.ReadsBack(e);
    FilterSyntax.WhitespaceSkipped(0x20, text);
  }

  /**
    `field op n` compiles against a schema with an integer field of that name, and lets an event
    through if and only if the field's value stands in the relation that the operator names to n.
  */
  lemma ComparisonVerdict(field: seq<byte>, op: NumOp, n: i64, schema: seq<Field>, ctx: Context, v: i64)
    requires FilterSyntax.IsName(field) && Get(schema, field).Some? && ctx.getInteger(field) == Found(v)
    requires var f := Get(schema, field).value; f.kind.Integer? && f.kind.width in {None, Some(f.length)}
    ensures var text := field + ([0x20] + FilterSyntax.SpellNumOp(op) + ([0x20] + FilterSyntax.SpellInt(n)));
            Compile(text, schema).Some? && (Evaluate(Compile(text, schema).value, schema, ctx) <==> Relates(op, v, n))
  {
    var e := NumCmp(field, None, op, n);
    hide Parse, FilterSyntax.Spell, FilterSyntax.SpellInt, FilterSyntax.SpellNumOp, FilterSyntax.IsName, EvalExpr, Get,
      Relates, IsMasked;
    NumberText(field, op, n);
    LeadingSpace(e, field + ([0x20] + FilterSyntax.SpellNumOp(op) + ([0x20] + FilterSyntax.SpellInt(n))));
    var x := NumberDecides(field, None, op, n, schema, ctx, v);
  }

  lemma NumberText(field: seq<byte>, op: NumOp, n: i64)
    requires FilterSyntax.IsName(field)
    ensures FilterSyntax.Spell(NumCmp(field, None, op, n))
         == [0x20] + (field + ([0x20] + FilterSyntax.SpellNumOp(op) + ([0x20] + FilterSyntax.SpellInt(n))))
    ensures FilterRoundTrip.Sound(NumCmp(field, None, op, n))
  {
    FilterSyntax.NamesAreIdentifiers(field);
    hide FilterSyntax.SpellInt, FilterSyntax.SpellNumOp, FilterSyntax.IsName, FilterPrint.IsIdentifier;
    FilterSyntax.Regroup([0x20], field, [0x20] + FilterSyntax.SpellNumOp(op) + ([0x20] + FilterSyntax.SpellInt(n)));
  }

  lemma PatternSpelled(field: seq<byte>, pat: seq<byte>)
    ensures FilterSyntax.Spell(StrCmp(field, StrGlob, pat))
         == [0x20] + (field + ([0x20, 0x7E] + ([0x20] + ([0x22] + FilterSyntax.Quoted(pat) + [0x22]))))
  {
    var quoted := [0x22] + FilterSyntax.Quoted(pat) + [0x22];
    hide FilterSyntax.Quoted;
    assert FilterSyntax.Spell(StrCmp(field, StrGlob, pat)) == [0x20] + field + ([0x20] + [0x7E] + ([0x20] + quoted));
    assert [0x20] + [0x7E] == [0x20, 0x7E];
    hide FilterSyntax.Spell;
    FilterSyntax.Regroup([0x20], field, [0x20, 0x7E] + ([0x20] + quoted));
  }

  lemma PatternText(field: seq<byte>, pat: seq<byte>)
    requires FilterSyntax.IsName(field) && forall i | 0 <= i < |pat| :: pat[i] < 0x80
    ensures FilterSyntax.Spell(StrCmp(field, StrGlob, pat))
         == [0x20] + (field + ([0x20, 0x7E] + ([0x20] + ([0x22] + FilterSyntax.Quoted(pat) + [0x22]))))
    ensures FilterRoundTrip.Sound(StrCmp(field, StrGlob, pat))
  {
    FilterSyntax.NamesAreIdentifiers(field);
    PatternSpelled(field, pat);
    hide FilterSyntax.Quoted, FilterSyntax.IsName, FilterPrint.IsIdentifier, FilterSyntax.Spell;
  }

  /** `field ~ "pat"` lets an event through if and only if the field's text is what the pattern's parts mean. */
  lemma PatternVerdict(field: seq<byte>, parts: seq<GlobMeaning.Part>, schema: seq<Field>, ctx: Context, v: seq<byte>)
    requires FilterSyntax.IsName(field) && Get(schema, field).Some? && ctx.getStrBytes(field) == Found(v)
    requires Get(schema, field).value.kind.BytesField? && GlobMeaning.PartsOk(parts)
    requires forall i | 0 <= i < |GlobMeaning.Spell(parts)| :: GlobMeaning.Spell(parts)[i] < 0x80
    ensures var quoted := [0x22] + FilterSyntax.Quoted(GlobMeaning.Spell(parts)) + [0x22];
            var text := field + ([0x20, 0x7E] + ([0x20] + quoted));
            && Compile(text, schema).Some?
            && (Evaluate(Compile(text, schema).value, schema, ctx) <==> GlobMeaning.Means(parts, v))
  {
    var pat := GlobMeaning.Spell(parts);
    hide Parse, FilterSyntax.Spell, FilterSyntax.Quoted, FilterSyntax.IsName, Glob.M, GlobMeaning.Means,
      GlobMeaning.Spell, GlobMeaning.PartsOk, FilterGlob.Elements, Get;
    PatternText(field, pat);
    LeadingSpace(StrCmp(field, StrGlob, pat),
                 field + ([0x20, 0x7E] + ([0x20] + ([0x22] + FilterSyntax.Quoted(pat) + [0x22]))));
    GlobDecides(parts, v);
  }
}
