/**
  The iterative matcher of ddebug's control file (ddebug/src/control.rs): one scan of the
  value that remembers a single star to go back to. A `*` byte in the value is compared
  with the pattern before the pattern's star is recognised.
*/
module ControlGlob {
  import opened Bytes
  import opened Chars
  import opened Glob

  function Element(b: byte): Tok {
    if b == STAR then Star else if b == QUESTION then Any else Lit(b)
  }

  function Elements(pattern: seq<byte>): (toks: seq<Tok>)
    ensures |toks| == |pattern|
  {
    seq(|pattern|, i requires 0 <= i < |pattern| => Element(pattern[i]))
  }

  /** The elements from position `i` on. */
  function From(pattern: seq<byte>, i: nat): seq<Tok>
    requires i <= |pattern|
  {
    Elements(pattern)[i..]
  }

  lemma FromStep(pattern: seq<byte>, i: nat)
    requires i <= |pattern|
    ensures i == |pattern| ==> From(pattern, i) == []
    ensures i < |pattern| ==> From(pattern, i) != [] && From(pattern, i)[0] == Element(pattern[i])
                              && From(pattern, i)[1..] == From(pattern, i + 1)
  {
  }

  function SkipStars(pattern: seq<byte>, i: nat): (r: nat)
    requires i <= |pattern|
    ensures i <= r <= |pattern|
    decreases |pattern| - i
  {
    if i < |pattern| && pattern[i] == STAR then SkipStars(pattern, i + 1) else i
  }

  predicate ScanState(pattern: seq<byte>, value: seq<byte>, pat: nat, val: nat, star: Option<nat>, starMatch: nat) {
    pat <= |pattern| && starMatch <= val <= |value| && (star.Some? ==> star.value < pat && pattern[star.value] == STAR)
  }

  /**
    The scan from a given state on. It terminates because going back moves the star's match
    on, meeting a star moves it no less far, and every other step moves along the value.
  */
  predicate Scan(pattern: seq<byte>, value: seq<byte>, pat: nat, val: nat, star: Option<nat>, starMatch: nat)
    requires ScanState(pattern, value, pat, val, star, starMatch)
    decreases |value| - starMatch, |value| - val, |pattern| - pat
  {
    if val >= |value| then SkipStars(pattern, pat) == |pattern|
    else if pat < |pattern| && (pattern[pat] == QUESTION || pattern[pat] == value[val]) then
      Scan(pattern, value, pat + 1, val + 1, star, starMatch)
    else if pat < |pattern| && pattern[pat] == STAR then
      Scan(pattern, value, pat + 1, val, Some(pat), val)
    else if star.Some? then
      Scan(pattern, value, star.value + 1, starMatch + 1, star, starMatch + 1)
    else false
  }

  /** glob_match as the code runs it; its result is what the scan decides. */
  method GlobMatch(pattern: seq<byte>, value: seq<byte>) returns (r: bool)
    ensures r == Scan(pattern, value, 0, 0, None, 0)
    ensures r ==> Matches(Elements(pattern), value)
    ensures STAR !in pattern || STAR !in value ==> (r <==> Matches(Elements(pattern), value))
  {
    ScanDecides(pattern, value);
    var pat: nat, val: nat, starMatch: nat := 0, 0, 0;
    var star: Option<nat> := None;
    while val < |value|
      invariant ScanState(pattern, value, pat, val, star, starMatch)
      invariant Scan(pattern, value, pat, val, star, starMatch) == Scan(pattern, value, 0, 0, None, 0)
      decreases |value| - starMatch, |value| - val, |pattern| - pat
    {
      if pat < |pattern| && (pattern[pat] == QUESTION || pattern[pat] == value[val]) {
        pat, val := pat + 1, val + 1;
      } else if pat < |pattern| && pattern[pat] == STAR {
        star := Some(pat);
        pat := pat + 1;
        starMatch := val;
      } else if star.Some? {
        pat := star.value + 1;
        starMatch := starMatch + 1;
        val := starMatch;
      } else {
        return false;
      }
    }
    ghost var end := SkipStars(pattern, pat);
    while pat < |pattern| && pattern[pat] == STAR
      invariant pat <= |pattern| && SkipStars(pattern, pat) == end
    {
      pat := pat + 1;
    }
    r := pat == |pattern|;
  }

  // ----- What the scan decides

  lemma {:induction false} EndOfValue(pattern: seq<byte>, value: seq<byte>, pat: nat)
    requires pat <= |pattern|
    ensures M(From(pattern, pat), value, |value|) <==> SkipStars(pattern, pat) == |pattern|
    decreases |pattern| - pat
  {
    FromStep(pattern, pat);
    if pat < |pattern| && pattern[pat] == STAR {
      EndOfValue(pattern, value, pat + 1);
    }
  }

  /** One element that is not a star, against one byte. */
  lemma OneByte(pattern: seq<byte>, value: seq<byte>, pat: nat, val: nat)
    requires pat <= |pattern| && val < |value|
    ensures pat == |pattern| ==> !M(From(pattern, pat), value, val)
    ensures pat < |pattern| && pattern[pat] != STAR ==>
              (M(From(pattern, pat), value, val) <==>
                 (pattern[pat] == QUESTION || pattern[pat] == value[val]) && M(From(pattern, pat + 1), value, val + 1))
  {
    FromStep(pattern, pat);
  }

  lemma OneStar(pattern: seq<byte>, value: seq<byte>, pat: nat, val: nat)
    requires pat < |pattern| && val < |value| && pattern[pat] == STAR
    ensures M(From(pattern, pat), value, val)
            <==> M(From(pattern, pat + 1), value, val) || Beyond(From(pattern, pat + 1), value, val)
    ensures M(From(pattern, pat + 1), value, val + 1) ==> M(From(pattern, pat), value, val)
  {
    FromStep(pattern, pat);
    StarHereOrBeyond(From(pattern, pat), value, val);
    BeyondSteps(From(pattern, pat + 1), value, val);
  }

  /** The remembered star can still match further on. */
  ghost predicate Later(pattern: seq<byte>, value: seq<byte>, star: Option<nat>, starMatch: nat)
    requires star.Some? ==> star.value < |pattern|
  {
    star.Some? && Beyond(From(pattern, star.value + 1), value, starMatch)
  }

  /** No byte of the value is taken for a star of the pattern. */
  predicate NoLiteralStar(pattern: seq<byte>, value: seq<byte>) {
    STAR !in pattern || STAR !in value
  }

  /** Between the remembered star and the scan's position lies a star-free, matched segment. */
  ghost predicate Segment(pattern: seq<byte>, pat: nat, val: nat, star: Option<nat>, starMatch: nat)
    requires pat <= |pattern|
  {
    star.Some? ==>
      && star.value < pat && pat - (star.value + 1) == val - starMatch
      && forall i | star.value < i < pat :: pattern[i] != STAR
  }

  lemma LaterAfterSegment(pattern: seq<byte>, value: seq<byte>, pat: nat, star: nat, k: nat)
    requires star < pat <= |pattern| && k <= |value| && M(From(pattern, star + 1), value, k)
    requires forall i | star < i < pat :: pattern[i] != STAR
    ensures k + (pat - (star + 1)) <= |value| && M(From(pattern, pat), value, k + (pat - (star + 1)))
  {
    hide M;
    var n := pat - (star + 1);
    var toks := From(pattern, star + 1);
    assert forall i | 0 <= i < n :: toks[i] == Element(pattern[star + 1 + i]);
    SegmentTakes(toks, value, k, n);
    assert toks[n..] == From(pattern, pat);
  }

  lemma BeyondAfterSegment(pattern: seq<byte>, value: seq<byte>, pat: nat, val: nat, star: nat, starMatch: nat)
    returns (k: nat)
    requires pat <= |pattern| && starMatch <= val && star < pat
    requires Segment(pattern, pat, val, Some(star), starMatch)
    requires Beyond(From(pattern, star + 1), value, starMatch)
    ensures val < k <= |value| && M(From(pattern, pat), value, k)
  {
    hide M, From;
    var toks := From(pattern, star + 1);
    var l :| starMatch < l <= |value| && M(toks, value, l);
    LaterAfterSegment(pattern, value, pat, star, l);
    k := l + (pat - (star + 1));
  }

  /** A scan that succeeds has found a match. */
  lemma {:induction false} ScanSound(pattern: seq<byte>, value: seq<byte>, pat: nat, val: nat,
                                     star: Option<nat>, starMatch: nat)
    requires ScanState(pattern, value, pat, val, star, starMatch)
    requires Scan(pattern, value, pat, val, star, starMatch)
    ensures M(From(pattern, pat), value, val) || Later(pattern, value, star, starMatch)
    decreases |value| - starMatch, |value| - val, |pattern| - pat
  {
    hide M, From, Beyond;
    if val >= |value| {
      EndOfValue(pattern, value, pat);
    } else if pat < |pattern| && (pattern[pat] == QUESTION || pattern[pat] == value[val]) {
      ScanSound(pattern, value, pat + 1, val + 1, star, starMatch);
      if pattern[pat] == STAR {
        OneStar(pattern, value, pat, val);
      } else {
        OneByte(pattern, value, pat, val);
      }
    } else if pat < |pattern| && pattern[pat] == STAR {
      ScanSound(pattern, value, pat + 1, val, Some(pat), val);
      OneStar(pattern, value, pat, val);
    } else {
      ScanSound(pattern, value, star.value + 1, starMatch + 1, star, starMatch + 1);
      BeyondSteps(From(pattern, star.value + 1), value, starMatch);
    }
  }

  /**
    Forgetting every star but the last is harmless: a match through an earlier star gives
    one through the last star too.
  */
  lemma {:induction false} ScanComplete(pattern: seq<byte>, value: seq<byte>, pat: nat, val: nat,
                                        star: Option<nat>, starMatch: nat)
    requires ScanState(pattern, value, pat, val, star, starMatch)
    requires NoLiteralStar(pattern, value) && Segment(pattern, pat, val, star, starMatch)
    requires M(From(pattern, pat), value, val) || Later(pattern, value, star, starMatch)
    ensures Scan(pattern, value, pat, val, star, starMatch)
    decreases |value| - starMatch, |value| - val, |pattern| - pat
  {
    hide M, From, Beyond;
    if val >= |value| {
      EndOfValue(pattern, value, pat);
      if Later(pattern, value, star, starMatch) {
        var k := BeyondAfterSegment(pattern, value, pat, val, star.value, starMatch);
        assert false;
      }
    } else if pat < |pattern| && (pattern[pat] == QUESTION || pattern[pat] == value[val]) {
      assert pattern[pat] in pattern && value[val] in value;
      OneByte(pattern, value, pat, val);
      ScanComplete(pattern, value, pat + 1, val + 1, star, starMatch);
    } else if pat < |pattern| && pattern[pat] == STAR {
      if Later(pattern, value, star, starMatch) {
        var k := BeyondAfterSegment(pattern, value, pat, val, star.value, starMatch);
        FromStep(pattern, pat);
        StarMonotone(From(pattern, pat), value, val, k);
      }
      OneStar(pattern, value, pat, val);
      ScanComplete(pattern, value, pat + 1, val, Some(pat), val);
    } else {
      OneByte(pattern, value, pat, val);
      BeyondSteps(From(pattern, star.value + 1), value, starMatch);
      ScanComplete(pattern, value, star.value + 1, starMatch + 1, star, starMatch + 1);
    }
  }

  lemma ScanDecides(pattern: seq<byte>, value: seq<byte>)
    ensures Scan(pattern, value, 0, 0, None, 0) ==> Matches(Elements(pattern), value)
    ensures NoLiteralStar(pattern, value) ==>
              (Scan(pattern, value, 0, 0, None, 0) <==> Matches(Elements(pattern), value))
  {
    assert From(pattern, 0) == Elements(pattern);
    RecursionDecides(Elements(pattern), value);
    if Scan(pattern, value, 0, 0, None, 0) {
      ScanSound(pattern, value, 0, 0, None, 0);
    } else if NoLiteralStar(pattern, value) && M(Elements(pattern), value, 0) {
      ScanComplete(pattern, value, 0, 0, None, 0);
    }
  }

  // ----- Exactly when a literal `*` does harm

  lemma {:induction false} SamePrefix(pattern: seq<byte>, value: seq<byte>, n: nat, k: nat)
    requires k <= n <= |pattern| && n <= |value| && pattern[..n] == value[..n]
    ensures Scan(pattern, value, k, k, None, 0) == Scan(pattern, value, n, n, None, 0)
    decreases n - k
  {
    if k < n {
      assert pattern[..n][k] == value[..n][k];
      SamePrefix(pattern, value, n, k + 1);
    }
  }

  /** A pattern matches from `k` on a value that agrees with it there and then goes on matching. */
  lemma {:induction false} SamePrefixMatches(pattern: seq<byte>, value: seq<byte>, from: nat, n: nat, shift: nat)
    requires from <= n <= |pattern| && n + shift <= |value|
    requires forall i | from <= i < n :: pattern[i] == value[i + shift]
    requires M(From(pattern, n), value, n + shift)
    ensures M(From(pattern, from), value, from + shift)
    decreases n - from
  {
    if from < n {
      SamePrefixMatches(pattern, value, from + 1, n, shift);
      if pattern[from] == STAR {
        OneStar(pattern, value, from, from + shift);
      } else {
        OneByte(pattern, value, from, from + shift);
      }
    }
  }

  /** Without a star ahead or behind, a value longer than the pattern's rest is rejected. */
  lemma {:induction false} TooLong(pattern: seq<byte>, value: seq<byte>, pat: nat, val: nat)
    requires pat <= |pattern| && val <= |value| && |value| - val > |pattern| - pat
    requires forall i | pat <= i < |pattern| :: pattern[i] != STAR
    ensures !Scan(pattern, value, pat, val, None, 0)
    decreases |pattern| - pat
  {
    if pat < |pattern| && (pattern[pat] == QUESTION || pattern[pat] == value[val]) {
      TooLong(pattern, value, pat + 1, val + 1);
    }
  }

  lemma StarTakesOne(pattern: seq<byte>, value: seq<byte>, pat: nat, val: nat)
    requires pat < |pattern| && pattern[pat] == STAR && val <= |value|
    requires M(From(pattern, pat), value, val)
    ensures val > 0 ==> M(From(pattern, pat), value, val - 1)
  {
    FromStep(pattern, pat);
  }

  /** For every pattern with a star there is a value the scan wrongly rejects. */
  lemma PatternStarFails(pattern: seq<byte>) returns (value: seq<byte>)
    requires STAR in pattern
    ensures Matches(Elements(pattern), value) && !Scan(pattern, value, 0, 0, None, 0)
  {
    var l := LastStar(pattern);
    value := pattern[..l + 1] + [STAR] + pattern[l + 1..];
    assert pattern[..l + 1] == value[..l + 1];
    SamePrefix(pattern, value, l + 1, 0);
    TooLong(pattern, value, l + 1, l + 1);
    EndOfValue(pattern, value, |pattern|);
    SamePrefixMatches(pattern, value, l, |pattern|, 1);
    StarTakesOne(pattern, value, l, l + 1);
    SamePrefixMatches(pattern, value, 0, l, 0);
    assert From(pattern, 0) == Elements(pattern);
    RecursionDecides(Elements(pattern), value);
  }

  lemma {:induction false} LastStar(pattern: seq<byte>) returns (l: nat)
    requires STAR in pattern
    ensures l < |pattern| && pattern[l] == STAR && forall i | l < i < |pattern| :: pattern[i] != STAR
  {
    l := |pattern| - 1;
    while pattern[l] != STAR
      invariant l < |pattern| && forall i | l < i < |pattern| :: pattern[i] != STAR
      decreases l
    {
      var i :| 0 <= i < |pattern| && pattern[i] == STAR;
      l := l - 1;
    }
  }

  /** For every value with a `*` byte there is a pattern the scan wrongly rejects. */
  lemma ValueStarFails(value: seq<byte>) returns (pattern: seq<byte>)
    requires STAR in value
    ensures Matches(Elements(pattern), value) && !Scan(pattern, value, 0, 0, None, 0)
  {
    var i :| 0 <= i < |value| && value[i] == STAR;
    var last := i + 1 == |value|;
    pattern := value[..i + 1] + (if last then [QUESTION] else []);
    assert pattern[..i + 1] == value[..i + 1];
    SamePrefix(pattern, value, i + 1, 0);
    FromStep(pattern, |pattern|);
    if last {
      OneByte(pattern, value, i + 1, i);
      OneStar(pattern, value, i, i);
    } else {
      StarHolds(pattern, value, i);
    }
    SamePrefixMatches(pattern, value, 0, i, 0);
    assert From(pattern, 0) == Elements(pattern);
    RecursionDecides(Elements(pattern), value);
  }

  lemma StarHolds(pattern: seq<byte>, value: seq<byte>, i: nat)
    requires i + 1 == |pattern| && pattern[i] == STAR && i <= |value|
    ensures M(From(pattern, i), value, i)
  {
    FromStep(pattern, i);
    FromStep(pattern, i + 1);
    StarReaches(From(pattern, i), value, i, |value|);
  }

  /**
    The scan agrees with the meaning of the pattern for every value exactly when the pattern
    has no star, and for every pattern exactly when the value has no `*` byte.
  */
  lemma ExactlyNoLiteralStar(pattern: seq<byte>, value: seq<byte>)
    ensures (forall v :: Scan(pattern, v, 0, 0, None, 0) <==> Matches(Elements(pattern), v)) <==> STAR !in pattern
    ensures (forall p :: Scan(p, value, 0, 0, None, 0) <==> Matches(Elements(p), value)) <==> STAR !in value
  {
    forall p, v | NoLiteralStar(p, v)
      ensures Scan(p, v, 0, 0, None, 0) <==> Matches(Elements(p), v)
    {
      ScanDecides(p, v);
    }
    if STAR in pattern {
      var v := PatternStarFails(pattern);
    }
    if STAR in value {
      var p := ValueStarFails(value);
    }
  }
}
