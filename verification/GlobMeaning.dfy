/**
  Patterns from their parts, written out byte by byte, and what they mean: a reading that
  shares no definition with the matchers (tp-lexer/src/lib.rs, ddebug/src/control.rs).
*/
module GlobMeaning {
  import opened Bytes
  import Glob
  import FilterGlob
  import ControlGlob

  /** A byte of a class, or the bytes from one to another, written with a dash. */
  datatype Atom = Single(b: byte) | Between(first: byte, last: byte)

  /** A class is negated by a caret or by an exclamation mark. */
  datatype Sign = Plain | Caret | Bang

  /** `Open` is a class that the pattern ends in; `dash` says that a dash is its last byte. */
  datatype Part =
    | Literal(b: byte) | AnyByte | AnyText
    | OneOf(sign: Sign, atoms: seq<Atom>)
    | Open(sign: Sign, atoms: seq<Atom>, dash: bool)

  // ----- Writing

  function SpellAtom(a: Atom): seq<byte> {
    if a.Single? then [a.b] else [a.first, 0x2D, a.last]
  }

  function SpellAtoms(atoms: seq<Atom>): seq<byte> {
    if atoms == [] then [] else SpellAtom(atoms[0]) + SpellAtoms(atoms[1..])
  }

  function SpellSign(s: Sign): seq<byte> {
    match s
    case Plain => []
    case Caret => [0x5E]
    case Bang => [0x21]
  }

  function SpellPart(p: Part): seq<byte> {
    match p
    case Literal(b) => [b]
    case AnyByte => [0x3F]
    case AnyText => [0x2A]
    case OneOf(sign, atoms) => [0x5B] + (SpellSign(sign) + (SpellAtoms(atoms) + [0x5D]))
    case Open(sign, atoms, dash) => [0x5B] + (SpellSign(sign) + (SpellAtoms(atoms) + if dash then [0x2D] else []))
  }

  function Spell(parts: seq<Part>): seq<byte> {
    if parts == [] then [] else SpellPart(parts[0]) + Spell(parts[1..])
  }

  /** The first byte of an atom as written. */
  function Leads(a: Atom): byte {
    if a.Single? then a.b else a.first
  }

  /** Written behind a single byte, a dash would make a range; a closing bracket ends the class. */
  predicate AtomsOk(atoms: seq<Atom>, afterSingle: bool) {
    atoms != [] ==>
      && Leads(atoms[0]) != 0x5D && (Leads(atoms[0]) == 0x2D ==> !afterSingle)
      && AtomsOk(atoms[1..], atoms[0].Single?)
  }

  predicate ClassOk(sign: Sign, atoms: seq<Atom>) {
    AtomsOk(atoms, false) && (sign.Plain? && atoms != [] ==> Leads(atoms[0]) != 0x5E && Leads(atoms[0]) != 0x21)
  }

  /** The parts can be told from what is written. */
  predicate PartOk(p: Part) {
    match p
    case Literal(b) => b != 0x3F && b != 0x2A && b != 0x5B
    case AnyByte => true
    case AnyText => true
    case OneOf(sign, atoms) => ClassOk(sign, atoms)
    case Open(sign, atoms, dash) => ClassOk(sign, atoms) && (dash ==> atoms != [] && atoms[|atoms| - 1].Single?)
  }

  predicate PartsOk(parts: seq<Part>) {
    parts != [] ==> PartOk(parts[0]) && PartsOk(parts[1..]) && (parts[0].Open? ==> |parts| == 1)
  }

  // ----- Meaning

  /** A range takes the bytes in its bounds, and its first bound in any case. */
  predicate Covers(a: Atom, c: byte) {
    if a.Single? then c == a.b else c == a.first || a.first <= c <= a.last
  }

  predicate Takes(p: Part, c: byte) {
    match p
    case Literal(b) => c == b
    case AnyByte => true
    case AnyText => false
    case OneOf(sign, atoms) => sign.Plain? <==> exists i | 0 <= i < |atoms| :: Covers(atoms[i], c)
    case Open(_, _, _) => false
  }

  ghost predicate Means(parts: seq<Part>, t: seq<byte>)
    decreases |parts|
  {
    if parts == [] then t == []
    else if parts[0].AnyText? then exists n :: 0 <= n <= |t| && Means(parts[1..], t[n..])
    else t != [] && Takes(parts[0], t[0]) && Means(parts[1..], t[1..])
  }

  // ----- The elements the matchers work on

  function ItemsOf(a: Atom): seq<Glob.Item> {
    if a.Single? then [Glob.One(a.b)] else [Glob.One(a.first), Glob.Range(a.first, a.last)]
  }

  function AllItems(atoms: seq<Atom>): seq<Glob.Item> {
    if atoms == [] then [] else ItemsOf(atoms[0]) + AllItems(atoms[1..])
  }

  function TokOf(p: Part): Glob.Tok {
    match p
    case Literal(b) => Glob.Lit(b)
    case AnyByte => Glob.Any
    case AnyText => Glob.Star
    case OneOf(sign, atoms) => Glob.Class(!sign.Plain?, AllItems(atoms))
    case Open(_, _, _) => Glob.Never
  }

  function Toks(parts: seq<Part>): seq<Glob.Tok> {
    if parts == [] then [] else [TokOf(parts[0])] + Toks(parts[1..])
  }

  lemma AtomCovers(a: Atom, rest: seq<Glob.Item>, c: byte)
    ensures Glob.InItems(ItemsOf(a) + rest, c) <==> Covers(a, c) || Glob.InItems(rest, c)
  {
    hide Glob.InItems;
    if a.Single? {
      FilterGlob.InItemsCons(Glob.One(a.b), rest, c);
    } else {
      FilterGlob.InItemsCons(Glob.Range(a.first, a.last), rest, c);
      FilterGlob.InItemsCons(Glob.One(a.first), [Glob.Range(a.first, a.last)] + rest, c);
      assert ItemsOf(a) + rest == [Glob.One(a.first)] + ([Glob.Range(a.first, a.last)] + rest);
    }
  }

  ghost predicate AnyCovers(atoms: seq<Atom>, c: byte) {
    exists i | 0 <= i < |atoms| :: Covers(atoms[i], c)
  }

  lemma AnyCoversStep(atoms: seq<Atom>, c: byte)
    requires atoms != []
    ensures AnyCovers(atoms, c) <==> Covers(atoms[0], c) || AnyCovers(atoms[1..], c)
  {
    hide Covers;
    if i :| 0 <= i < |atoms| && Covers(atoms[i], c) {
      assert i > 0 ==> Covers(atoms[1..][i - 1], c);
    }
    if i :| 0 <= i < |atoms| - 1 && Covers(atoms[1..][i], c) {
      assert Covers(atoms[i + 1], c);
    }
  }

  lemma {:induction false} ItemsCover(atoms: seq<Atom>, c: byte)
    ensures Glob.InItems(AllItems(atoms), c) <==> AnyCovers(atoms, c)
  {
    if atoms != [] {
      ItemsCover(atoms[1..], c);
      hide Glob.InItems, AnyCovers, Covers, ItemsOf;
      AtomCovers(atoms[0], AllItems(atoms[1..]), c);
      AnyCoversStep(atoms, c);
    }
  }

  lemma TakesSuits(p: Part, c: byte)
    ensures Glob.Suits(TokOf(p), c) <==> Takes(p, c)
  {
    if p.OneOf? {
      ItemsCover(p.atoms, c);
    }
    hide AllItems;
  }

  /** The recursion over the elements decides the meaning of the parts. */
  lemma {:induction false} ToksMean(parts: seq<Part>, t: seq<byte>, j: nat)
    requires j <= |t|
    ensures Glob.M(Toks(parts), t, j) <==> Means(parts, t[j..])
    decreases |parts|
  {
    hide Takes, Glob.Suits;
    if parts != [] {
      var toks, rest := Toks(parts), parts[1..];
      assert toks[1..] == Toks(rest) && toks[0] == TokOf(parts[0]);
      if parts[0].AnyText? {
        Glob.StarSplits(toks, t, j);
        hide Glob.M, Toks;
        forall n | 0 <= n <= |t| - j
          ensures Glob.M(toks[1..], t, j + n) <==> Means(rest, t[j..][n..])
        {
          ToksMean(rest, t, j + n);
          assert t[j..][n..] == t[j + n..];
        }
        StarMeans(toks[1..], rest, t, j);
      } else if j < |t| {
        TakesSuits(parts[0], t[j]);
        ToksMean(rest, t, j + 1);
        assert t[j..][1..] == t[j + 1..];
      }
    }
  }

  lemma StarMeans(toks: seq<Glob.Tok>, rest: seq<Part>, t: seq<byte>, j: nat)
    requires j <= |t|
    requires forall n | 0 <= n <= |t| - j :: Glob.M(toks, t, j + n) <==> Means(rest, t[j..][n..])
    ensures (exists k :: j <= k <= |t| && Glob.M(toks, t, k)) <==>
            (exists n :: 0 <= n <= |t| - j && Means(rest, t[j..][n..]))
  {
    hide Glob.M, Means;
    if k :| j <= k <= |t| && Glob.M(toks, t, k) {
      var n := k - j;
      assert Glob.M(toks, t, j + n) <==> Means(rest, t[j..][n..]);
    }
    if n :| 0 <= n <= |t| - j && Means(rest, t[j..][n..]) {
      assert Glob.M(toks, t, j + n);
    }
  }

  // ----- Reading what was written

  /** What stands in front of a rest. */
  lemma Cut(p: seq<byte>, pi: nat, s: seq<byte>, rest: seq<byte>)
    requires pi <= |p| && p[pi..] == s + rest
    ensures pi + |s| <= |p| && p[pi + |s|..] == rest
    ensures forall i | 0 <= i < |s| :: p[pi + i] == s[i]
  {
    assert p[pi..][|s|..] == rest;
    assert forall i | 0 <= i < |s| :: p[pi..][i] == s[i];
  }

  /** The single byte that stands before the next atom. */
  function Before(a: Atom): Option<byte> {
    if a.Single? then Some(a.b) else None
  }

  lemma AtomRead(p: seq<byte>, pi: nat, prev: Option<byte>, a: Atom, rest: seq<byte>)
    requires pi <= |p| && p[pi..] == SpellAtom(a) + rest
    requires Leads(a) != 0x5D && (Leads(a) == 0x2D ==> prev.None?)
    ensures pi + |SpellAtom(a)| <= |p| && p[pi + |SpellAtom(a)|..] == rest
    ensures FilterGlob.ClassItems(p, pi, prev)
         == match FilterGlob.ClassItems(p, pi + |SpellAtom(a)|, Before(a))
            case None => None
            case Some((items, next)) => Some((ItemsOf(a) + items, next))
  {
    Cut(p, pi, SpellAtom(a), rest);
    if a.Between? {
      assert p[pi + 1] == 0x2D && p[pi + 2] == a.last;
      var r := FilterGlob.ClassItems(p, pi + 3, None);
      if r.Some? {
        assert [Glob.One(a.first)] + ([Glob.Range(a.first, a.last)] + r.value.0) == ItemsOf(a) + r.value.0;
      }
    }
  }

  /** From a position whose rest is written by atoms and a tail, the items are the atoms'. */
  lemma {:induction false} AtomsRead(p: seq<byte>, pi: nat, prev: Option<byte>, atoms: seq<Atom>, tail: seq<byte>)
    requires pi <= |p| && p[pi..] == SpellAtoms(atoms) + tail && AtomsOk(atoms, prev.Some?)
    ensures tail != [] && tail[0] == 0x5D ==>
              FilterGlob.ClassItems(p, pi, prev) == Some((AllItems(atoms), |p| - |tail| + 1))
    ensures tail == [] || (tail == [0x2D] && if atoms == [] then prev.Some? else atoms[|atoms| - 1].Single?) ==>
              FilterGlob.ClassItems(p, pi, prev) == None
    decreases |atoms|
  {
    if atoms == [] {
      assert p[pi..] == tail;
      assert pi + |tail| == |p|;
      assert tail != [] ==> p[pi] == p[pi..][0];
    } else {
      var a, rest := atoms[0], SpellAtoms(atoms[1..]) + tail;
      assert SpellAtoms(atoms) + tail == SpellAtom(a) + rest;
      AtomRead(p, pi, prev, a, rest);
      hide SpellAtoms, SpellAtom, FilterGlob.ClassItems;
      AtomsRead(p, pi + |SpellAtom(a)|, Before(a), atoms[1..], tail);
    }
  }

  /** What stands behind the opening bracket of a class. */
  function Inside(sign: Sign, atoms: seq<Atom>, tail: seq<byte>): seq<byte> {
    SpellSign(sign) + (SpellAtoms(atoms) + tail)
  }

  lemma ClassRead(p: seq<byte>, pi: nat, sign: Sign, atoms: seq<Atom>, tail: seq<byte>)
    requires pi <= |p| && p[pi..] == Inside(sign, atoms, tail) && ClassOk(sign, atoms)
    requires tail == [] || tail[0] == 0x5D || (tail == [0x2D] && atoms != [] && atoms[|atoms| - 1].Single?)
    ensures FilterGlob.ParseClass(p, pi)
         == if tail != [] && tail[0] == 0x5D then Some((Glob.Class(!sign.Plain?, AllItems(atoms)), |p| - |tail| + 1))
            else None
  {
    Cut(p, pi, SpellSign(sign), SpellAtoms(atoms) + tail);
    var from := pi + |SpellSign(sign)|;
    FirstByte(p, from, atoms, tail);
    AtomsRead(p, from, None, atoms, tail);
    hide SpellAtoms, AllItems, FilterGlob.ClassItems, AtomsOk;
    assert sign.Bang? ==> p[pi + 0] == 0x21;
    assert sign.Caret? ==> p[pi + 0] == 0x5E;
  }

  lemma FirstByte(p: seq<byte>, pi: nat, atoms: seq<Atom>, tail: seq<byte>)
    requires pi <= |p| && p[pi..] == SpellAtoms(atoms) + tail
    ensures atoms != [] ==> pi < |p| && p[pi] == Leads(atoms[0])
    ensures atoms == [] ==> p[pi..] == tail && (pi < |p| ==> tail != [] && p[pi] == tail[0])
  {
    if atoms != [] {
      var s := SpellAtom(atoms[0]);
      assert s[0] == Leads(atoms[0]) && SpellAtoms(atoms)[0] == s[0];
    }
    hide SpellAtoms;
    assert pi < |p| ==> p[pi] == p[pi..][0];
  }

  /** The class a part writes ends in this, before what follows the part. */
  function EndOf(part: Part): seq<byte>
    requires part.OneOf? || part.Open?
  {
    if part.OneOf? then [0x5D] else if part.dash then [0x2D] else []
  }

  lemma ClassText(part: Part, rest: seq<byte>)
    requires part.OneOf? || part.Open?
    ensures SpellPart(part) + rest == [0x5B] + Inside(part.sign, part.atoms, EndOf(part) + rest)
  {
    hide SpellAtoms, SpellSign;
    Regroup(SpellSign(part.sign), SpellAtoms(part.atoms), EndOf(part), rest);
  }

  lemma Regroup(a: seq<byte>, b: seq<byte>, c: seq<byte>, d: seq<byte>)
    ensures [0x5B] + (a + (b + c)) + d == [0x5B] + (a + (b + (c + d)))
  {
    assert b + c + d == b + (c + d);
    assert a + (b + c) + d == a + (b + c + d);
    assert [0x5B] + (a + (b + c)) + d == [0x5B] + (a + (b + c) + d);
  }

  lemma ClassPartRead(p: seq<byte>, pi: nat, part: Part, rest: seq<byte>)
    requires pi <= |p| && p[pi..] == SpellPart(part) + rest && PartOk(part)
    requires part.OneOf? || (part.Open? && rest == [])
    ensures pi < |p| && p[pi] == 0x5B
    ensures FilterGlob.ParseClass(p, pi + 1) == if part.OneOf? then Some((TokOf(part), |p| - |rest|)) else None
  {
    hide SpellPart, Inside, AllItems, FilterGlob.ParseClass, ClassOk;
    var tail := EndOf(part) + rest;
    ClassText(part, rest);
    Cut(p, pi, [0x5B], Inside(part.sign, part.atoms, tail));
    assert p[pi + 0] == 0x5B;
    assert part.Open? ==> tail == EndOf(part);
    ClassRead(p, pi + 1, part.sign, part.atoms, tail);
  }

  lemma PartRead(p: seq<byte>, pi: nat, part: Part, rest: seq<byte>)
    requires pi <= |p| && p[pi..] == SpellPart(part) + rest && PartOk(part) && (part.Open? ==> rest == [])
    ensures pi + |SpellPart(part)| <= |p| && p[pi + |SpellPart(part)|..] == rest
    ensures FilterGlob.Elements(p, pi)
         == if part.Open? then [Glob.Never] else [TokOf(part)] + FilterGlob.Elements(p, pi + |SpellPart(part)|)
  {
    hide SpellAtoms, SpellSign, AllItems, FilterGlob.ParseClass, ClassOk;
    Cut(p, pi, SpellPart(part), rest);
    assert SpellPart(part) != [] && p[pi + 0] == SpellPart(part)[0];
    if part.OneOf? || part.Open? {
      ClassPartRead(p, pi, part, rest);
    }
  }

  lemma NoneLeft(p: seq<byte>, pi: nat)
    requires pi <= |p| && p[pi..] == []
    ensures FilterGlob.Elements(p, pi) == []
  {
    assert pi == |p|;
  }

  lemma OpenEnds(part: Part)
    requires part.Open?
    ensures TokOf(part) == Glob.Never && [TokOf(part)] + Toks([]) == [Glob.Never]
  {
  }

  /** The filter's matcher reads the elements of the parts. */
  lemma {:induction false} PartsRead(p: seq<byte>, pi: nat, parts: seq<Part>)
    requires pi <= |p| && p[pi..] == Spell(parts) && PartsOk(parts)
    ensures FilterGlob.Elements(p, pi) == Toks(parts)
    decreases |parts|
  {
    hide SpellPart, PartOk, TokOf, FilterGlob.Elements;
    if parts == [] {
      NoneLeft(p, pi);
    } else {
      var part, rest := parts[0], Spell(parts[1..]);
      assert part.Open? ==> parts[1..] == [];
      PartRead(p, pi, part, rest);
      if part.Open? {
        OpenEnds(part);
      } else {
        PartsRead(p, pi + |SpellPart(part)|, parts[1..]);
      }
    }
  }

  // ----- Every pattern has such parts

  /** Splits the atoms off a text that is inside a class. */
  lemma {:induction false} AtomsSpelled(p: seq<byte>, afterSingle: bool) returns (atoms: seq<Atom>, tail: seq<byte>)
    requires p != [] && p[0] == 0x2D ==> !afterSingle
    ensures p == SpellAtoms(atoms) + tail && AtomsOk(atoms, afterSingle)
    ensures tail == [] || tail[0] == 0x5D || (tail == [0x2D] && atoms != [] && atoms[|atoms| - 1].Single?)
    ensures atoms != [] ==> p != [] && Leads(atoms[0]) == p[0]
    decreases |p|
  {
    if p == [] || p[0] == 0x5D {
      atoms, tail := [], p;
      return;
    }
    var a := if |p| > 2 && p[1] == 0x2D then Between(p[0], p[2]) else Single(p[0]);
    var rest := p[|SpellAtom(a)|..];
    assert p == SpellAtom(a) + rest;
    if a.Single? && rest == [0x2D] {
      atoms, tail := [a], rest;
      assert SpellAtoms(atoms) == SpellAtom(a) + SpellAtoms([]);
    } else {
      var others, end := AtomsSpelled(rest, a.Single?);
      atoms, tail := [a] + others, end;
      assert atoms[1..] == others;
      assert SpellAtom(a) + (SpellAtoms(others) + end) == SpellAtom(a) + SpellAtoms(others) + end;
    }
  }

  /** Every pattern is written by some parts. */
  lemma {:induction false} Spelled(p: seq<byte>) returns (parts: seq<Part>)
    ensures PartsOk(parts) && Spell(parts) == p
    decreases |p|
  {
    if p == [] {
      return [];
    }
    var part, rest := FirstPart(p);
    hide SpellPart, PartOk;
    var others := Spelled(rest);
    parts := [part] + others;
    assert parts[1..] == others;
    assert rest == [] ==> others == [] by {
      if others != [] {
        PartNotEmpty(others[0]);
      }
    }
  }

  lemma PartNotEmpty(part: Part)
    ensures SpellPart(part) != []
  {
    hide SpellAtoms, SpellSign;
  }

  lemma FirstPart(p: seq<byte>) returns (part: Part, rest: seq<byte>)
    requires p != []
    ensures PartOk(part) && p == SpellPart(part) + rest && |rest| < |p| && (part.Open? ==> rest == [])
  {
    rest := p[1..];
    if p[0] != 0x5B {
      part := if p[0] == 0x3F then AnyByte else if p[0] == 0x2A then AnyText else Literal(p[0]);
      return;
    }
    hide SpellPart, AtomsOk, Inside;
    var sign, atoms, tail := ClassSpelled(rest);
    if tail != [] && tail[0] == 0x5D {
      part := OneOf(sign, atoms);
      rest := tail[1..];
      assert [0x5D] + rest == tail;
    } else {
      part := Open(sign, atoms, tail != []);
      rest := [];
      assert EndOf(part) + rest == tail;
    }
    ClassText(part, rest);
    TailShorter(sign, atoms, tail);
    assert p == [0x5B] + p[1..];
  }

  lemma TailShorter(sign: Sign, atoms: seq<Atom>, tail: seq<byte>)
    ensures |tail| <= |Inside(sign, atoms, tail)|
  {
    hide SpellSign, SpellAtoms;
  }

  lemma ClassSpelled(p: seq<byte>) returns (sign: Sign, atoms: seq<Atom>, tail: seq<byte>)
    ensures p == Inside(sign, atoms, tail) && ClassOk(sign, atoms)
    ensures tail == [] || tail[0] == 0x5D || (tail == [0x2D] && atoms != [] && atoms[|atoms| - 1].Single?)
  {
    hide SpellAtoms, AtomsOk;
    sign := if p == [] then Plain else if p[0] == 0x5E then Caret else if p[0] == 0x21 then Bang else Plain;
    atoms, tail := AtomsSpelled(p[|SpellSign(sign)|..], false);
  }

  // ----- The theorems

  /** The answer of the filter's matcher. */
  ghost predicate Accepts(p: seq<byte>, t: seq<byte>) {
    Glob.Matches(FilterGlob.Elements(p, 0), t)
  }

  /**
    The filter's glob accepts exactly the texts that the parts mean, for every pattern: each is
    written by some parts. A class that is not closed means nothing.
  */
  lemma GlobMeans(parts: seq<Part>, t: seq<byte>)
    requires PartsOk(parts)
    ensures Accepts(Spell(parts), t) <==> Means(parts, t)
  {
    hide Glob.M, Glob.Matches, FilterGlob.Elements, Means, Toks, Spell, PartsOk;
    assert Spell(parts)[0..] == Spell(parts) && t[0..] == t;
    PartsRead(Spell(parts), 0, parts);
    ToksMean(parts, t, 0);
    Glob.RecursionDecides(Toks(parts), t);
  }

  function Singles(body: seq<byte>): (atoms: seq<Atom>)
    ensures |atoms| == |body| && forall i | 0 <= i < |body| :: atoms[i] == Single(body[i])
  {
    seq(|body|, i requires 0 <= i < |body| => Single(body[i]))
  }

  lemma {:induction false} SinglesSpelled(body: seq<byte>, afterSingle: bool)
    requires 0x5D !in body && 0x2D !in body
    ensures SpellAtoms(Singles(body)) == body && AtomsOk(Singles(body), afterSingle)
  {
    if body != [] {
      assert Singles(body)[1..] == Singles(body[1..]) && body[0] in body;
      SinglesSpelled(body[1..], true);
      assert [body[0]] + body[1..] == body;
    }
  }

  lemma SinglesCover(body: seq<byte>, c: byte)
    ensures AnyCovers(Singles(body), c) <==> c in body
  {
    if c in body {
      var i :| 0 <= i < |body| && body[i] == c;
      assert Covers(Singles(body)[i], c);
    }
  }

  /** A pattern of a single class takes one byte. */
  lemma ClassMeans(sign: Sign, atoms: seq<Atom>, p: seq<byte>, t: seq<byte>)
    requires ClassOk(sign, atoms) && p == SpellPart(OneOf(sign, atoms))
    ensures Accepts(p, t) <==>
              |t| == 1 && (sign.Plain? <==> AnyCovers(atoms, t[0]))
  {
    var parts := [OneOf(sign, atoms)];
    assert Spell(parts) == p by {
      hide SpellPart;
      assert parts[1..] == [] && p + [] == p;
    }
    assert PartsOk(parts);
    GlobMeans(parts, t);
    hide Accepts, SpellPart, ClassOk, Spell, PartsOk;
    assert Means([], if t == [] then t else t[1..]) <==> |t| <= 1;
  }

  /**
    A set takes the bytes it lists, and behind a caret or an exclamation mark the others. A range
    takes the bytes between its bounds; out of order, the first of them alone.
  */
  lemma BracketsMean(body: seq<byte>, a: byte, b: byte, t: seq<byte>)
    requires 0x5D !in body && 0x2D !in body && a !in {0x5D, 0x5E, 0x21}
    ensures body != [] && body[0] != 0x5E && body[0] != 0x21 ==>
              (Accepts([0x5B] + body + [0x5D], t) <==> |t| == 1 && t[0] in body)
    ensures Accepts([0x5B, 0x5E] + body + [0x5D], t) <==> |t| == 1 && t[0] !in body
    ensures Accepts([0x5B, 0x21] + body + [0x5D], t) <==> |t| == 1 && t[0] !in body
    ensures Accepts([0x5B, a, 0x2D, b, 0x5D], t) <==>
              |t| == 1 && (t[0] == a || a <= t[0] <= b)
  {
    SetMeans(Plain, body, t);
    SetMeans(Caret, body, t);
    SetMeans(Bang, body, t);
    RangeMeans(a, b, t);
    hide Accepts;
    assert [0x5B] + ([] + (body + [0x5D])) == [0x5B] + body + [0x5D];
    assert [0x5B] + ([0x5E] + (body + [0x5D])) == [0x5B, 0x5E] + body + [0x5D];
    assert [0x5B] + ([0x21] + (body + [0x5D])) == [0x5B, 0x21] + body + [0x5D];
  }

  lemma SetMeans(sign: Sign, body: seq<byte>, t: seq<byte>)
    requires 0x5D !in body && 0x2D !in body
    ensures sign.Plain? && body != [] ==> (body[0] != 0x5E && body[0] != 0x21 ==>
              (Accepts([0x5B] + (SpellSign(sign) + (body + [0x5D])), t) <==>
                 |t| == 1 && t[0] in body))
    ensures !sign.Plain? ==>
              (Accepts([0x5B] + (SpellSign(sign) + (body + [0x5D])), t) <==>
                 |t| == 1 && t[0] !in body)
  {
    SinglesSpelled(body, false);
    if t != [] {
      SinglesCover(body, t[0]);
    }
    hide Accepts, AtomsOk, SpellAtoms, AnyCovers;
    if ClassOk(sign, Singles(body)) {
      ClassMeans(sign, Singles(body), [0x5B] + (SpellSign(sign) + (body + [0x5D])), t);
    }
  }

  lemma RangeMeans(a: byte, b: byte, t: seq<byte>)
    requires a !in {0x5D, 0x5E, 0x21}
    ensures Accepts([0x5B, a, 0x2D, b, 0x5D], t) <==>
              |t| == 1 && (t[0] == a || a <= t[0] <= b)
  {
    var atoms := [Between(a, b)];
    assert atoms[1..] == [] && [a, 0x2D, b] + SpellAtoms([]) == [a, 0x2D, b];
    assert SpellAtoms(atoms) == [a, 0x2D, b];
    assert SpellPart(OneOf(Plain, atoms)) == [0x5B, a, 0x2D, b, 0x5D];
    assert AtomsOk([], false) && ClassOk(Plain, atoms);
    ClassMeans(Plain, atoms, [0x5B, a, 0x2D, b, 0x5D], t);
    hide Accepts, ClassOk;
    assert forall c :: AnyCovers(atoms, c) <==> Covers(atoms[0], c);
  }

  lemma ClosedHasBracket(part: Part)
    ensures SpellPart(part) != [] && (part.OneOf? ==> 0x5D in SpellPart(part))
  {
    hide SpellAtoms, SpellSign;
    if part.OneOf? {
      var s := SpellPart(part);
      assert s[|s| - 1] == 0x5D;
    }
  }

  /** Nothing matches a class without a closing bracket. */
  lemma UnclosedMeansNothing(p: seq<byte>, t: seq<byte>)
    requires p != [] && p[0] == 0x5B && 0x5D !in p
    ensures !Accepts(p, t)
  {
    var parts := Spelled(p);
    ClosedHasBracket(parts[0]);
    assert p == SpellPart(parts[0]) + Spell(parts[1..]);
    assert SpellPart(parts[0]) != [] ==> p[0] == SpellPart(parts[0])[0];
    GlobMeans(parts, t);
    hide Accepts, Spell, SpellAtoms, AtomsOk;
  }

  /** ddebug's patterns know no classes. */
  predicate IsSimple(p: Part) {
    p.AnyByte? || p.AnyText? || (p.Literal? && p.b != 0x3F && p.b != 0x2A)
  }

  predicate AllSimple(parts: seq<Part>) {
    forall i | 0 <= i < |parts| :: IsSimple(parts[i])
  }

  lemma {:induction false} SimpleRead(p: seq<byte>, i: nat, parts: seq<Part>)
    requires i <= |p| && p[i..] == Spell(parts) && AllSimple(parts)
    ensures ControlGlob.From(p, i) == Toks(parts)
    decreases |parts|
  {
    ControlGlob.FromStep(p, i);
    if parts != [] {
      assert IsSimple(parts[0]);
      var s := SpellPart(parts[0]);
      Cut(p, i, s, Spell(parts[1..]));
      assert |s| == 1 && p[i + 0] == s[0];
      SimpleRead(p, i + 1, parts[1..]);
      var a := ControlGlob.From(p, i);
      assert a == [a[0]] + a[1..];
    }
  }

  /** ddebug's scan accepts only what the parts mean, and all of it unless pattern and value both have a `*`. */
  lemma ScanMeans(parts: seq<Part>, v: seq<byte>)
    requires AllSimple(parts)
    ensures ControlGlob.Scan(Spell(parts), v, 0, 0, None, 0) ==> Means(parts, v)
    ensures 0x2A !in Spell(parts) || 0x2A !in v ==>
              (ControlGlob.Scan(Spell(parts), v, 0, 0, None, 0) <==> Means(parts, v))
  {
    hide Glob.M, Glob.Matches, ControlGlob.Scan, Means, Toks, Spell;
    var p := Spell(parts);
    assert p[0..] == p && v[0..] == v && ControlGlob.From(p, 0) == ControlGlob.Elements(p);
    SimpleRead(p, 0, parts);
    ToksMean(parts, v, 0);
    Glob.RecursionDecides(Toks(parts), v);
    ControlGlob.ScanDecides(p, v);
  }
}
