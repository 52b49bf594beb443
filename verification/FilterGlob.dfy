/**
  The glob of the tracepoint filter language (tp-lexer/src/lib.rs): `*`, `?`, and bracket
  classes with ranges and negation, decided by a loop that calls itself at each star.
*/
module FilterGlob {
  import opened Bytes
  import opened Chars
  import opened Glob
  import ControlGlob

  /**
    The items of a class from `pi` on, up to its closing bracket, and the position after
    it; None when the class is not closed. A `-` after a single byte makes a range with
    whatever byte follows, even a `]`.
  */
  function ClassItems(p: seq<byte>, pi: nat, prev: Option<byte>): (r: Option<(seq<Item>, nat)>)
    ensures r.Some? ==> pi < r.value.1 <= |p|
    decreases |p| - pi
  {
    if pi >= |p| then None
    else if p[pi] == RBRACKET then Some(([], pi + 1))
    else if p[pi] == DASH && prev.Some? then
      if pi + 1 >= |p| then None else
        match ClassItems(p, pi + 2, None)
        case None => None
        case Some((items, next)) => Some(([Range(prev.value, p[pi + 1])] + items, next))
    else
      match ClassItems(p, pi + 1, Some(p[pi]))
      case None => None
      case Some((items, next)) => Some(([One(p[pi])] + items, next))
  }

  /** The class whose opening bracket is before `pi`. */
  function ParseClass(p: seq<byte>, pi: nat): (r: Option<(Tok, nat)>)
    requires pi <= |p|
    ensures r.Some? ==> r.value.0.Class? && pi < r.value.1 <= |p|
  {
    var negated := pi < |p| && (p[pi] == CARET || p[pi] == BANG);
    match ClassItems(p, if negated then pi + 1 else pi, None)
    case None => None
    case Some((items, next)) => Some((Class(negated, items), next))
  }

  /** The elements of a pattern from `pi` on; an unclosed class ends them with `Never`. */
  function Elements(p: seq<byte>, pi: nat): (toks: seq<Tok>)
    requires pi <= |p|
    decreases |p| - pi
  {
    if pi == |p| then []
    else if p[pi] == QUESTION then [Any] + Elements(p, pi + 1)
    else if p[pi] == STAR then [Star] + Elements(p, pi + 1)
    else if p[pi] == LBRACKET then
      match ParseClass(p, pi + 1)
      case None => [Never]
      case Some((tok, next)) => [tok] + Elements(p, next)
    else [Lit(p[pi])] + Elements(p, pi + 1)
  }

  lemma InItemsCons(item: Item, items: seq<Item>, c: byte)
    ensures InItems([item] + items, c) <==> InItem(item, c) || InItems(items, c)
  {
    var all := [item] + items;
    if InItem(item, c) {
      assert InItem(all[0], c);
    }
    if i :| 0 <= i < |items| && InItem(items[i], c) {
      assert InItem(all[i + 1], c);
    }
    if i :| 0 <= i < |all| && InItem(all[i], c) {
      assert i > 0 ==> InItem(items[i - 1], c);
    }
  }

  /** One scan over the class decides membership without building it. */
  method MatchClass(p: seq<byte>, start: nat, ch: byte) returns (ok: bool, next: nat)
    requires start <= |p|
    ensures match ParseClass(p, start)
            case None => !ok
            case Some((tok, end)) => ok == Suits(tok, ch) && next == end
  {
    var pi := start;
    var matched := false;
    var negated := pi < |p| && (p[pi] == CARET || p[pi] == BANG);
    if negated {
      pi := pi + 1;
    }
    var prev: Option<byte> := None;
    ghost var whole := ClassItems(p, pi, None);
    while pi < |p| && p[pi] != RBRACKET
      invariant pi <= |p|
      invariant SameClass(whole, ClassItems(p, pi, prev), ch, matched)
      decreases |p| - pi
    {
      var c := p[pi];
      ghost var here := ClassItems(p, pi, prev);
      if c == DASH && prev.Some? {
        pi := pi + 1;
        if pi >= |p| {
          return false, pi;
        }
        var startC, endC := prev.value, p[pi];
        ClassStep(whole, here, ClassItems(p, pi + 1, None), Range(startC, endC), ch, matched);
        if startC <= ch <= endC {
          matched := true;
        }
        prev := None;
        pi := pi + 1;
        continue;
      }
      ClassStep(whole, here, ClassItems(p, pi + 1, Some(c)), One(c), ch, matched);
      if ch == c {
        matched := true;
      }
      prev := Some(c);
      pi := pi + 1;
    }
    if pi >= |p| {
      return false, |p|;
    }
    pi := pi + 1;
    ok := if negated then !matched else matched;
    next := pi;
  }

  /** What is left of the class, and whether a match was seen, determine the whole class. */
  ghost predicate SameClass(whole: Option<(seq<Item>, nat)>, left: Option<(seq<Item>, nat)>, ch: byte, matched: bool) {
    && (whole.Some? <==> left.Some?)
    && (whole.Some? ==> whole.value.1 == left.value.1 &&
                        (InItems(whole.value.0, ch) <==> matched || InItems(left.value.0, ch)))
  }

  lemma ClassStep(whole: Option<(seq<Item>, nat)>, here: Option<(seq<Item>, nat)>, left: Option<(seq<Item>, nat)>,
                  item: Item, ch: byte, matched: bool)
    requires SameClass(whole, here, ch, matched)
    requires here == if left.None? then None else Some(([item] + left.value.0, left.value.1))
    ensures SameClass(whole, left, ch, matched || InItem(item, ch))
  {
    if left.Some? {
      InItemsCons(item, left.value.0, ch);
    }
  }

  /** glob_match_impl: decides the meaning of the pattern's rest for the text's rest. */
  method GlobMatchImpl(p: seq<byte>, startPi: nat, t: seq<byte>, startTi: nat) returns (r: bool)
    requires startPi <= |p| && startTi <= |t|
    ensures r == M(Elements(p, startPi), t, startTi)
    decreases |p| - startPi
  {
    hide Elements, ParseClass, M;
    var pi: nat, ti: nat := startPi, startTi;
    while pi < |p|
      invariant startPi <= pi <= |p| && ti <= |t|
      invariant M(Elements(p, pi), t, ti) == M(Elements(p, startPi), t, startTi)
      decreases |p| - pi
    {
      ElementsStep(p, pi);
      MStep(Elements(p, pi), t, ti);
      if p[pi] == QUESTION {
        if ti >= |t| {
          return false;
        }
        pi, ti := pi + 1, ti + 1;
      } else if p[pi] == STAR {
        var star := pi;
        pi := pi + 1;
        while pi < |p| && p[pi] == STAR
          invariant star < pi <= |p|
          invariant M([Star] + Elements(p, pi), t, ti) == M(Elements(p, star), t, ti)
        {
          ElementsStep(p, pi);
          TwoStars([Star] + Elements(p, pi), t, ti);
          pi := pi + 1;
        }
        ghost var toks := [Star] + Elements(p, pi);
        assert toks[1..] == Elements(p, pi);
        if pi == |p| {
          NoElements(p, t, |t|);
          StarReaches(toks, t, ti, |t|);
          return true;
        }
        StarSplits(toks, t, ti);
        var k: nat := ti;
        while k <= |t|
          invariant ti <= k <= |t| + 1
          invariant forall j | ti <= j < k && j <= |t| :: !M(Elements(p, pi), t, j)
          decreases |t| + 1 - k
        {
          var found := GlobMatchImpl(p, pi, t, k);
          if found {
            return true;
          }
          if k == |t| {
            break;
          }
          k := k + 1;
        }
        return false;
      } else if p[pi] == LBRACKET {
        if ti >= |t| {
          return false;
        }
        var ok, newPi := MatchClass(p, pi + 1, t[ti]);
        if !ok {
          return false;
        }
        pi, ti := newPi, ti + 1;
      } else {
        if ti >= |t| || t[ti] != p[pi] {
          return false;
        }
        pi, ti := pi + 1, ti + 1;
      }
    }
    NoElements(p, t, ti);
    r := ti == |t|;
  }

  lemma NoElements(p: seq<byte>, t: seq<byte>, ti: nat)
    requires ti <= |t|
    ensures M(Elements(p, |p|), t, ti) <==> ti == |t|
  {
  }

  /** An element other than a star takes one byte. */
  lemma MStep(toks: seq<Tok>, t: seq<byte>, ti: nat)
    requires toks != [] && ti <= |t|
    ensures !toks[0].Star? ==>
              (M(toks, t, ti) <==> ti < |t| && Suits(toks[0], t[ti]) && M(toks[1..], t, ti + 1))
  {
  }

  lemma ElementsStep(p: seq<byte>, pi: nat)
    requires pi < |p|
    ensures Elements(p, pi) != []
    ensures p[pi] == QUESTION ==> Elements(p, pi)[0] == Any && Elements(p, pi)[1..] == Elements(p, pi + 1)
    ensures p[pi] == STAR ==> Elements(p, pi)[0] == Star && Elements(p, pi)[1..] == Elements(p, pi + 1)
                              && Elements(p, pi) == [Star] + Elements(p, pi + 1)
    ensures p[pi] == LBRACKET ==>
              match ParseClass(p, pi + 1)
              case None => Elements(p, pi) == [Never]
              case Some((tok, next)) => Elements(p, pi)[0] == tok && Elements(p, pi)[1..] == Elements(p, next)
    ensures p[pi] != QUESTION && p[pi] != STAR && p[pi] != LBRACKET ==>
              Elements(p, pi)[0] == Lit(p[pi]) && Elements(p, pi)[1..] == Elements(p, pi + 1)
  {
  }

  /** glob_match_bytes decides exactly the declared relation, for every pattern and text. */
  method GlobMatchBytes(p: seq<byte>, t: seq<byte>) returns (r: bool)
    ensures r <==> Matches(Elements(p, 0), t)
  {
    RecursionDecides(Elements(p, 0), t);
    r := GlobMatchImpl(p, 0, t, 0);
  }

  // ----- The two matchers of the repository

  lemma {:induction false} SameElements(p: seq<byte>, pi: nat)
    requires pi <= |p| && LBRACKET !in p
    ensures Elements(p, pi) == ControlGlob.From(p, pi)
    decreases |p| - pi
  {
    ControlGlob.FromStep(p, pi);
    if pi < |p| {
      assert p[pi] in p;
      ElementsStep(p, pi);
      SameElements(p, pi + 1);
      var a, b := Elements(p, pi), ControlGlob.From(p, pi);
      assert a == [a[0]] + a[1..] && b == [b[0]] + b[1..];
    }
  }

  /**
    Without brackets the pattern means the same to both: ddebug's scan accepts no more than
    the filter's glob, and the same when no `*` byte can be taken literally.
  */
  lemma MatchersAgree(p: seq<byte>, t: seq<byte>)
    requires LBRACKET !in p
    ensures ControlGlob.Scan(p, t, 0, 0, None, 0) ==> Matches(Elements(p, 0), t)
    ensures ControlGlob.NoLiteralStar(p, t) ==>
              (ControlGlob.Scan(p, t, 0, 0, None, 0) <==> Matches(Elements(p, 0), t))
  {
    SameElements(p, 0);
    assert ControlGlob.From(p, 0) == ControlGlob.Elements(p);
    ControlGlob.ScanDecides(p, t);
  }
}
