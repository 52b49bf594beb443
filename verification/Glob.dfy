/**
  What a wildcard pattern means, independently of any matcher: the text is a concatenation
  of pieces, one per pattern element, so that every piece suits its element.
*/
module Glob {
  import opened Bytes
  import opened Chars

  datatype Item = One(c: byte) | Range(lo: byte, hi: byte)

  /** `Never` stands for an unclosed class: no piece suits it. */
  datatype Tok = Star | Any | Lit(c: byte) | Class(negated: bool, items: seq<Item>) | Never

  predicate InItem(item: Item, c: byte) {
    match item
    case One(d) => c == d
    case Range(lo, hi) => lo <= c <= hi
  }

  predicate InItems(items: seq<Item>, c: byte) {
    exists i | 0 <= i < |items| :: InItem(items[i], c)
  }

  /** Whether a one-byte piece suits the element. */
  predicate Suits(tok: Tok, c: byte) {
    match tok
    case Any => true
    case Lit(d) => c == d
    case Class(negated, items) => negated != InItems(items, c)
    case Star => false
    case Never => false
  }

  predicate PieceSuits(tok: Tok, piece: seq<byte>) {
    tok.Star? || (|piece| == 1 && Suits(tok, piece[0]))
  }

  function Concat(pieces: seq<seq<byte>>): seq<byte> {
    if pieces == [] then [] else pieces[0] + Concat(pieces[1..])
  }

  ghost predicate AllSuit(toks: seq<Tok>, pieces: seq<seq<byte>>) {
    |pieces| == |toks| && forall i | 0 <= i < |toks| :: PieceSuits(toks[i], pieces[i])
  }

  ghost predicate Matches(toks: seq<Tok>, text: seq<byte>) {
    exists pieces :: AllSuit(toks, pieces) && Concat(pieces) == text
  }

  /** The same relation by recursion, for the rest of the text from `j` on. */
  predicate M(toks: seq<Tok>, text: seq<byte>, j: nat)
    requires j <= |text|
    decreases |toks|, |text| - j
  {
    if toks == [] then j == |text|
    else if toks[0].Star? then M(toks[1..], text, j) || (j < |text| && M(toks, text, j + 1))
    else j < |text| && Suits(toks[0], text[j]) && M(toks[1..], text, j + 1)
  }

  lemma {:induction false} MGivesPieces(toks: seq<Tok>, text: seq<byte>, j: nat) returns (pieces: seq<seq<byte>>)
    requires j <= |text| && M(toks, text, j)
    ensures AllSuit(toks, pieces) && Concat(pieces) == text[j..]
    decreases |toks|, |text| - j
  {
    if toks == [] {
      pieces := [];
    } else if toks[0].Star? {
      if M(toks[1..], text, j) {
        var rest := MGivesPieces(toks[1..], text, j);
        pieces := [[]] + rest;
        assert pieces[1..] == rest;
        assert [] + text[j..] == text[j..];
      } else {
        var rest := MGivesPieces(toks, text, j + 1);
        pieces := [[text[j]] + rest[0]] + rest[1..];
        assert pieces[1..] == rest[1..];
        assert ([text[j]] + rest[0]) + Concat(rest[1..]) == [text[j]] + Concat(rest);
      }
    } else {
      var rest := MGivesPieces(toks[1..], text, j + 1);
      pieces := [[text[j]]] + rest;
      assert pieces[1..] == rest;
    }
  }

  lemma {:induction false} PiecesGiveM(toks: seq<Tok>, text: seq<byte>, j: nat, pieces: seq<seq<byte>>)
    requires j <= |text| && AllSuit(toks, pieces) && Concat(pieces) == text[j..]
    ensures M(toks, text, j)
    decreases |toks|
  {
    if toks != [] {
      var k := j + |pieces[0]|;
      assert |Concat(pieces)| == |pieces[0]| + |Concat(pieces[1..])|;
      assert Concat(pieces[1..]) == text[j..][|pieces[0]|..] == text[k..];
      PiecesGiveM(toks[1..], text, k, pieces[1..]);
      if toks[0].Star? {
        StarReaches(toks, text, j, k);
      } else {
        assert text[j..][0] == Concat(pieces)[0] == pieces[0][0];
      }
    }
  }

  /** The recursion decides exactly the declared relation. */
  lemma RecursionDecides(toks: seq<Tok>, text: seq<byte>)
    ensures M(toks, text, 0) <==> Matches(toks, text)
  {
    assert text[0..] == text;
    if M(toks, text, 0) {
      var pieces := MGivesPieces(toks, text, 0);
    }
    if Matches(toks, text) {
      var pieces :| AllSuit(toks, pieces) && Concat(pieces) == text;
      PiecesGiveM(toks, text, 0, pieces);
    }
  }

  // ----- Stars

  lemma {:induction false} StarReaches(toks: seq<Tok>, text: seq<byte>, j: nat, k: nat)
    requires toks != [] && toks[0].Star? && j <= k <= |text| && M(toks[1..], text, k)
    ensures M(toks, text, j)
    decreases k - j
  {
    if j < k {
      StarReaches(toks, text, j + 1, k);
    }
  }

  lemma {:induction false} StarSplits(toks: seq<Tok>, text: seq<byte>, j: nat)
    requires toks != [] && toks[0].Star? && j <= |text|
    ensures M(toks, text, j) <==> exists k :: j <= k <= |text| && M(toks[1..], text, k)
    decreases |text| - j
  {
    if M(toks, text, j) {
      if !M(toks[1..], text, j) {
        StarSplits(toks, text, j + 1);
        var k :| j + 1 <= k <= |text| && M(toks[1..], text, k);
      }
      assert exists k :: j <= k <= |text| && M(toks[1..], text, k);
    }
    forall k | j <= k <= |text| && M(toks[1..], text, k)
      ensures M(toks, text, j)
    {
      StarReaches(toks, text, j, k);
    }
  }

  /** The elements match the text's rest at some position beyond `after`. */
  ghost predicate Beyond(toks: seq<Tok>, text: seq<byte>, after: nat) {
    exists k :: after < k <= |text| && M(toks, text, k)
  }

  lemma StarHereOrBeyond(toks: seq<Tok>, text: seq<byte>, j: nat)
    requires toks != [] && toks[0].Star? && j <= |text|
    ensures M(toks, text, j) <==> M(toks[1..], text, j) || Beyond(toks[1..], text, j)
  {
    StarSplits(toks, text, j);
    if M(toks, text, j) {
      var k :| j <= k <= |text| && M(toks[1..], text, k);
      assert k == j || j < k;
    }
    if Beyond(toks[1..], text, j) {
      var k :| j < k <= |text| && M(toks[1..], text, k);
      StarReaches(toks, text, j, k);
    }
  }

  lemma BeyondSteps(toks: seq<Tok>, text: seq<byte>, after: nat)
    requires after < |text|
    ensures Beyond(toks, text, after) <==> M(toks, text, after + 1) || Beyond(toks, text, after + 1)
  {
    if Beyond(toks, text, after) {
      var k :| after < k <= |text| && M(toks, text, k);
      assert k == after + 1 || after + 1 < k;
    }
  }

  /** A star that matches later matches earlier. */
  lemma StarMonotone(toks: seq<Tok>, text: seq<byte>, j: nat, k: nat)
    requires toks != [] && toks[0].Star? && j <= k <= |text| && M(toks, text, k)
    ensures M(toks, text, j)
  {
    StarSplits(toks, text, k);
    var l :| k <= l <= |text| && M(toks[1..], text, l);
    StarReaches(toks, text, j, l);
  }

  lemma TwoStars(toks: seq<Tok>, text: seq<byte>, j: nat)
    requires |toks| >= 2 && toks[0].Star? && toks[1].Star? && j <= |text|
    ensures M(toks, text, j) == M(toks[1..], text, j)
  {
    if M(toks, text, j) {
      StarSplits(toks, text, j);
      var k :| j <= k <= |text| && M(toks[1..], text, k);
      StarMonotone(toks[1..], text, j, k);
    }
  }

  /** Elements without a star take one byte each. */
  lemma {:induction false} SegmentTakes(toks: seq<Tok>, text: seq<byte>, j: nat, n: nat)
    requires j <= |text| && n <= |toks| && (forall i | 0 <= i < n :: !toks[i].Star?)
    requires M(toks, text, j)
    ensures j + n <= |text| && M(toks[n..], text, j + n)
    decreases n
  {
    if n > 0 {
      SegmentTakes(toks[1..], text, j + 1, n - 1);
      assert toks[1..][n - 1..] == toks[n..];
    } else {
      assert toks[0..] == toks;
    }
  }
}
