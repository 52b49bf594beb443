/**
  Validation and three-valued evaluation of filters (tp-lexer/src/lib.rs).
*/
module FilterEval {
  import opened Bytes
  import Glob
  import FilterGlob
  import opened FilterLexer
  import opened FilterParser

  datatype Tri = True | False | Unknown

  function TriAnd(a: Tri, b: Tri): Tri {
    if a.False? || b.False? then False
    else if a.Unknown? then b
    else if b.Unknown? then a
    else True
  }

  function TriOr(a: Tri, b: Tri): Tri {
    if a.True? || b.True? then True
    else if a.Unknown? then b
    else if b.Unknown? then a
    else False
  }

  function ToTri(b: bool): Tri { if b then True else False }

  // ----- Schemas and contexts

  /** `width` is the byte width an integer converter insists on, `convert` the converter. */
  datatype FieldType =
    | Integer(width: Option<nat>, convert: (seq<byte>, nat) -> Option<i64>)
    | BytesField
    | Unsupported

  datatype Field = Field(name: seq<byte>, kind: FieldType, offset: nat, length: nat)

  /** Schema::get: the first field of that name. */
  function Get(schema: seq<Field>, name: seq<byte>): (r: Option<Field>)
    ensures r.Some? ==> r.value in schema && r.value.name == name
  {
    if schema == [] then None
    else if schema[0].name == name then Some(schema[0])
    else Get(schema[1..], name)
  }

  datatype Lookup<T> = Missing | Found(value: T) | Malformed

  datatype Context = Context(getInteger: seq<byte> -> Lookup<i64>, getStrBytes: seq<byte> -> Lookup<seq<byte>>)

  // ----- Evaluation

  /** `Failed` is an EvalError; `Panicked` the arm the source calls unreachable. */
  datatype Outcome = Done(tri: Tri) | Failed(field: seq<byte>) | Panicked

  /** Bitwise and of two's-complement words. */
  function MaskWith(a: i64, b: i64): i64 {
    FromWord(AndBits(ToWord(a), ToWord(b)))
  }

  function AndBits(a: nat, b: nat): (r: nat)
    ensures r <= a && r <= b
  {
    if a == 0 || b == 0 then 0 else 2 * AndBits(a / 2, b / 2) + (if a % 2 == 1 && b % 2 == 1 then 1 else 0)
  }

  function ToWord(v: i64): (w: nat)
    ensures w < TWO64
  {
    if v >= 0 then v else v + TWO64
  }

  function FromWord(w: nat): i64
    requires w < TWO64
  {
    if w <= I64_MAX then w else w - TWO64
  }

  predicate Compare(op: NumOp, v: i64, rhs: i64) {
    match op
    case NumEq => v == rhs
    case NumNe => v != rhs
    case NumLt => v < rhs
    case NumLe => v <= rhs
    case NumGt => v > rhs
    case NumGe => v >= rhs
  }

  /** What a numeric comparison says of a field's value. */
  predicate NumHolds(mask: Option<i64>, op: NumOp, rhs: i64, v: i64) {
    Compare(op, if mask.Some? then MaskWith(v, mask.value) else v, rhs)
  }

  predicate StrHolds(op: StrOp, pat: seq<byte>, v: seq<byte>) {
    match op
    case StrEq => v == pat
    case StrNe => v != pat
    case StrGlob => Glob.M(FilterGlob.Elements(pat, 0), v, 0)
  }

  function EvalExpr(e: Expr, schema: seq<Field>, ctx: Context): Outcome {
    match e
    case Group(inner) => EvalExpr(inner, schema, ctx)
    case Or(l, r) =>
      (match EvalExpr(l, schema, ctx)
       case Done(lv) =>
         if lv.True? then Done(True)
         else
           (match EvalExpr(r, schema, ctx)
            case Done(rv) => Done(TriOr(lv, rv))
            case other => other)
       case other => other)
    case And(l, r) =>
      (match EvalExpr(l, schema, ctx)
       case Done(lv) =>
         if lv.False? then Done(False)
         else
           (match EvalExpr(r, schema, ctx)
            case Done(rv) => Done(TriAnd(lv, rv))
            case other => other)
       case other => other)
    case NumCmp(field, mask, op, rhs) =>
      (match Get(schema, field)
       case None => Panicked
       case Some(f) =>
         if !f.kind.Integer? then Done(False)
         else
           match ctx.getInteger(field)
           case Malformed => Failed(field)
           case Missing => Done(Unknown)
           case Found(v) => Done(ToTri(NumHolds(mask, op, rhs, v))))
    case StrCmp(field, op, pat) =>
      (match Get(schema, field)
       case None => Panicked
       case Some(f) =>
         if !f.kind.BytesField? then Done(False)
         else
           match ctx.getStrBytes(field)
           case Malformed => Failed(field)
           case Missing => Done(Unknown)
           case Found(v) => Done(ToTri(StrHolds(op, pat, v))))
  }

  /** Compiled::evaluate: unknown counts as true, an error as false. */
  predicate Evaluate(e: Expr, schema: seq<Field>, ctx: Context) {
    match EvalExpr(e, schema, ctx)
    case Done(t) => !t.False?
    case _ => false
  }

  // ----- Validation

  predicate Validate(e: Expr, schema: seq<Field>) {
    match e
    case Or(l, r) => Validate(l, schema) && Validate(r, schema)
    case And(l, r) => Validate(l, schema) && Validate(r, schema)
    case Group(inner) => Validate(inner, schema)
    case NumCmp(field, _, _, _) =>
      (match Get(schema, field)
       case None => false
       case Some(f) => f.kind.Integer? && (f.kind.width.None? || f.length == f.kind.width.value))
    case StrCmp(field, _, _) =>
      (match Get(schema, field)
       case None => false
       case Some(f) => f.kind.BytesField?)
  }

  /** compile_with_schema. */
  function Compile(input: seq<byte>, schema: seq<Field>): Option<Expr> {
    match Parse(input)
    case None => None
    case Some(e) => if Validate(e, schema) then Some(e) else None
  }

  // ----- Classical evaluation

  /** The leaf's field is there and reads without an error. */
  predicate Present(e: Expr, ctx: Context)
    requires e.NumCmp? || e.StrCmp?
  {
    if e.NumCmp? then ctx.getInteger(e.field).Found? else ctx.getStrBytes(e.field).Found?
  }

  predicate NoErrors(e: Expr, ctx: Context) {
    match e
    case Or(l, r) => NoErrors(l, ctx) && NoErrors(r, ctx)
    case And(l, r) => NoErrors(l, ctx) && NoErrors(r, ctx)
    case Group(inner) => NoErrors(inner, ctx)
    case NumCmp(field, _, _, _) => !ctx.getInteger(field).Malformed?
    case StrCmp(field, _, _) => !ctx.getStrBytes(field).Malformed?
  }

  /** The expression without the comparisons of missing fields; nothing when none is left. */
  function Prune(e: Expr, ctx: Context): (r: Option<Expr>)
    ensures r.Some? ==> AllPresent(r.value, ctx)
  {
    match e
    case Or(l, r) => PrunePair(Prune(l, ctx), Prune(r, ctx), true)
    case And(l, r) => PrunePair(Prune(l, ctx), Prune(r, ctx), false)
    case Group(inner) =>
      (match Prune(inner, ctx)
       case None => None
       case Some(i) => Some(Group(i)))
    case _ => if Present(e, ctx) then Some(e) else None
  }

  function PrunePair(l: Option<Expr>, r: Option<Expr>, isOr: bool): Option<Expr> {
    if l.None? then r
    else if r.None? then l
    else Some(if isOr then Or(l.value, r.value) else And(l.value, r.value))
  }

  predicate AllPresent(e: Expr, ctx: Context) {
    match e
    case Or(l, r) => AllPresent(l, ctx) && AllPresent(r, ctx)
    case And(l, r) => AllPresent(l, ctx) && AllPresent(r, ctx)
    case Group(inner) => AllPresent(inner, ctx)
    case _ => Present(e, ctx)
  }

  /** Two-valued truth of an expression whose fields are all there. */
  predicate Holds(e: Expr, ctx: Context)
    requires AllPresent(e, ctx)
  {
    match e
    case Or(l, r) => Holds(l, ctx) || Holds(r, ctx)
    case And(l, r) => Holds(l, ctx) && Holds(r, ctx)
    case Group(inner) => Holds(inner, ctx)
    case NumCmp(field, mask, op, rhs) => NumHolds(mask, op, rhs, ctx.getInteger(field).value)
    case StrCmp(field, op, pat) => StrHolds(op, pat, ctx.getStrBytes(field).value)
  }

  /**
    For a validated filter whose fields read without errors, short-circuit evaluation is
    two-valued evaluation of what is left without the missing fields; it is unknown exactly
    when nothing is left.
  */
  lemma {:induction false} EvalIsClassical(e: Expr, schema: seq<Field>, ctx: Context)
    requires Validate(e, schema) && NoErrors(e, ctx)
    ensures EvalExpr(e, schema, ctx)
         == Done(if Prune(e, ctx).None? then Unknown else ToTri(Holds(Prune(e, ctx).value, ctx)))
  {
    hide NumHolds, StrHolds;
    match e
    case Or(l, r) => EvalIsClassical(l, schema, ctx); EvalIsClassical(r, schema, ctx);
    case And(l, r) => EvalIsClassical(l, schema, ctx); EvalIsClassical(r, schema, ctx);
    case Group(inner) => EvalIsClassical(inner, schema, ctx);
    case _ =>
  }

  /** The filter lets an event through unless what is left is false. */
  lemma EvaluateFailsOpen(e: Expr, schema: seq<Field>, ctx: Context)
    requires Validate(e, schema) && NoErrors(e, ctx)
    ensures Evaluate(e, schema, ctx) <==> (Prune(e, ctx).Some? ==> Holds(Prune(e, ctx).value, ctx))
  {
    hide Prune, Holds, EvalExpr, Validate, NoErrors;
    EvalIsClassical(e, schema, ctx);
  }

  /** The comparisons of an expression, from left to right. */
  function Leaves(e: Expr): (s: seq<Expr>)
    ensures forall f | f in s :: f.NumCmp? || f.StrCmp?
  {
    match e
    case Or(l, r) => Leaves(l) + Leaves(r)
    case And(l, r) => Leaves(l) + Leaves(r)
    case Group(inner) => Leaves(inner)
    case _ => [e]
  }

  /** The schema has a field of the comparison's type, as wide as the converter wants it. */
  predicate TypeMatches(leaf: Expr, schema: seq<Field>)
    requires leaf.NumCmp? || leaf.StrCmp?
  {
    var f := Get(schema, leaf.field);
    && f.Some?
    && if leaf.NumCmp? then f.value.kind.Integer? && f.value.kind.width in {None, Some(f.value.length)}
       else f.value.kind.BytesField?
  }

  /** Validation checks every comparison: no evaluation takes the arm of a missing or mistyped field. */
  lemma {:induction false} ValidIffTyped(e: Expr, schema: seq<Field>)
    ensures Validate(e, schema) <==> forall f | f in Leaves(e) :: TypeMatches(f, schema)
  {
    hide Get;
    match e
    case Or(l, r) => ValidIffTyped(l, schema); ValidIffTyped(r, schema);
    case And(l, r) => ValidIffTyped(l, schema); ValidIffTyped(r, schema);
    case Group(inner) => ValidIffTyped(inner, schema);
    case _ => assert e in Leaves(e);
  }

  /** A panic needs a field the schema does not have; an error needs a malformed field. */
  lemma {:induction false} NoPanic(e: Expr, schema: seq<Field>, ctx: Context)
    requires Validate(e, schema)
    ensures !EvalExpr(e, schema, ctx).Panicked?
    ensures EvalExpr(e, schema, ctx).Failed? ==> !NoErrors(e, ctx)
  {
    hide NumHolds, StrHolds;
    match e
    case Or(l, r) => NoPanic(l, schema, ctx); NoPanic(r, schema, ctx);
    case And(l, r) => NoPanic(l, schema, ctx); NoPanic(r, schema, ctx);
    case Group(inner) => NoPanic(inner, schema, ctx);
    case _ =>
  }

  // ----- The contexts of the source

  /** BTreeMap<String, String>: integers are parsed from their text. */
  function MapContext(m: map<seq<byte>, seq<byte>>): Context {
    Context(
      name => if name !in m then Missing else
                match ParseI64LiteralText(m[name])
                case None => Malformed
                case Some(v) => Found(v),
      name => if name in m then Found(m[name]) else Missing)
  }

  /** to_str_bytes: the field's bytes up to the first zero. */
  function ToStrBytes(buf: seq<byte>, offset: nat, length: nat): Lookup<seq<byte>> {
    if offset + length > |buf| then Malformed
    else
      var raw := buf[offset..offset + length];
      Found(raw[..Run(raw, IsNonZero)])
  }

  predicate IsNonZero(c: byte) { c != 0 }

  function BufContext(buf: seq<byte>, schema: seq<Field>): Context {
    Context(
      name =>
        match Get(schema, name)
        case None => Missing
        case Some(f) =>
          if !f.kind.Integer? then Missing
          else if f.kind.width.Some? && f.length != f.kind.width.value then Malformed
          else
            match f.kind.convert(buf, f.offset)
            case None => Malformed
            case Some(v) => Found(v),
      name =>
        match Get(schema, name)
        case None => Missing
        case Some(f) => if !f.kind.BytesField? then Missing else ToStrBytes(buf, f.offset, f.length))
  }

  /** Over a buffer with the schema the filter was compiled with, no field is missing. */
  lemma {:induction false} BufNeverUnknown(e: Expr, schema: seq<Field>, buf: seq<byte>)
    requires Validate(e, schema)
    ensures EvalExpr(e, schema, BufContext(buf, schema)) != Done(Unknown)
    ensures NoErrors(e, BufContext(buf, schema)) ==> AllPresent(e, BufContext(buf, schema))
  {
    hide NumHolds, StrHolds;
    match e
    case Or(l, r) => BufNeverUnknown(l, schema, buf); BufNeverUnknown(r, schema, buf);
    case And(l, r) => BufNeverUnknown(l, schema, buf); BufNeverUnknown(r, schema, buf);
    case Group(inner) => BufNeverUnknown(inner, schema, buf);
    case _ =>
  }

  lemma {:induction false} PruneKeepsAll(e: Expr, ctx: Context)
    requires AllPresent(e, ctx)
    ensures Prune(e, ctx) == Some(e)
  {
    match e
    case Or(l, r) => PruneKeepsAll(l, ctx); PruneKeepsAll(r, ctx);
    case And(l, r) => PruneKeepsAll(l, ctx); PruneKeepsAll(r, ctx);
    case Group(inner) => PruneKeepsAll(inner, ctx);
    case _ =>
  }

  /** End to end over a buffer: a text that compiles decides every event it can read, two-valued. */
  lemma CompiledOverBuffer(input: seq<byte>, schema: seq<Field>, buf: seq<byte>)
    requires Compile(input, schema).Some? && NoErrors(Compile(input, schema).value, BufContext(buf, schema))
    ensures var e, ctx := Compile(input, schema).value, BufContext(buf, schema);
            Parse(input) == Some(e) && AllPresent(e, ctx) && (Evaluate(e, schema, ctx) <==> Holds(e, ctx))
  {
    hide Parse, EvalExpr, Validate, Holds, Prune, BufContext, NoErrors, AllPresent, Evaluate;
    var e := Compile(input, schema).value;
    BufNeverUnknown(e, schema, buf);
    PruneKeepsAll(e, BufContext(buf, schema));
    EvaluateFailsOpen(e, schema, BufContext(buf, schema));
  }

  lemma {:induction false} PrunedAway(e: Expr, ctx: Context)
    ensures Prune(e, ctx).None? <==> forall f | f in Leaves(e) :: !Present(f, ctx)
  {
    match e
    case Or(l, r) => PrunedAway(l, ctx); PrunedAway(r, ctx);
    case And(l, r) => PrunedAway(l, ctx); PrunedAway(r, ctx);
    case Group(inner) => PrunedAway(inner, ctx);
    case _ => assert e in Leaves(e);
  }

  lemma {:induction false} MapErrors(e: Expr, m: map<seq<byte>, seq<byte>>)
    ensures NoErrors(e, MapContext(m)) <==>
              forall f | f in Leaves(e) && f.NumCmp? && f.field in m :: ParseI64LiteralText(m[f.field]).Some?
  {
    hide ParseI64LiteralText;
    match e
    case Or(l, r) => MapErrors(l, m); MapErrors(r, m);
    case And(l, r) => MapErrors(l, m); MapErrors(r, m);
    case Group(inner) => MapErrors(inner, m);
    case _ => assert e in Leaves(e);
  }

  /**
    Over a map of texts a validated filter can be read exactly when every integer it asks for and
    finds is a literal; then it is unknown exactly when the map has none of its fields.
  */
  lemma {:induction false} MapDecides(e: Expr, schema: seq<Field>, m: map<seq<byte>, seq<byte>>)
    requires Validate(e, schema)
    ensures NoErrors(e, MapContext(m)) <==>
              forall f | f in Leaves(e) && f.NumCmp? && f.field in m :: ParseI64LiteralText(m[f.field]).Some?
    ensures NoErrors(e, MapContext(m)) ==>
              (EvalExpr(e, schema, MapContext(m)) == Done(Unknown) <==> forall f | f in Leaves(e) :: f.field !in m)
  {
    hide ParseI64LiteralText, Validate, EvalExpr, NoErrors, Prune, Holds, Leaves;
    MapErrors(e, m);
    if NoErrors(e, MapContext(m)) {
      EvalIsClassical(e, schema, MapContext(m));
      PrunedAway(e, MapContext(m));
      assert forall f | f in Leaves(e) :: Present(f, MapContext(m)) <==> f.field in m;
    }
  }
}
