/** Symbols, the byte order of their names, and the two stable orders of the generator. */
module KsymOrder {
  import opened Bytes

  type Name = seq<byte>

  datatype Symbol = Symbol(name: Name, addr: nat, ty: byte)

  /** The order of strings: by the first byte that differs, a prefix before the longer. */
  predicate NameLess(a: Name, b: Name) {
    b != [] && (a == [] || a[0] < b[0] || (a[0] == b[0] && NameLess(a[1..], b[1..])))
  }

  /** `a` is a proper prefix of `b`, or at the first place where they differ it has the smaller byte. */
  ghost predicate Lexically(a: Name, b: Name) {
    a < b || exists k: nat :: DiffersAt(a, b, k)
  }

  lemma {:induction false} NameLessIsLexical(a: Name, b: Name)
    ensures NameLess(a, b) <==> Lexically(a, b)
    decreases |a|
  {
    if a != [] && b != [] && a[0] == b[0] {
      NameLessIsLexical(a[1..], b[1..]);
      LexicalTail(a, b);
    } else if a != [] && b != [] {
      assert a[0] < b[0] ==> DiffersAt(a, b, 0);
      if Lexically(a, b) {
        FirstDecides(a, b);
      }
    }
  }

  lemma FirstDecides(a: Name, b: Name)
    requires a != [] && b != [] && a[0] != b[0] && Lexically(a, b)
    ensures a[0] < b[0]
  {
    if !(a < b) {
      var k: nat :| DiffersAt(a, b, k);
      if k > 0 {
        assert a[..k][0] == b[..k][0];
      }
    }
  }

  /** At place `k` the names differ for the first time, and `a` has the smaller byte. */
  predicate DiffersAt(a: Name, b: Name, k: nat) {
    k < |a| && k < |b| && a[..k] == b[..k] && a[k] < b[k]
  }

  lemma DiffersInTail(a: Name, b: Name, k: nat)
    requires a != [] && b != [] && a[0] == b[0]
    ensures DiffersAt(a[1..], b[1..], k) <==> DiffersAt(a, b, k + 1)
  {
    if k < |a| - 1 && k < |b| - 1 {
      assert a[..k + 1] == [a[0]] + a[1..][..k] && b[..k + 1] == [b[0]] + b[1..][..k];
      assert a[..k + 1][1..] == a[1..][..k] && b[..k + 1][1..] == b[1..][..k];
    }
  }

  lemma LexicalTail(a: Name, b: Name)
    requires a != [] && b != [] && a[0] == b[0]
    ensures Lexically(a[1..], b[1..]) <==> Lexically(a, b)
  {
    var c, d := a[1..], b[1..];
    assert c < d <==> a < b by {
      assert a == [a[0]] + c && b == [b[0]] + d;
    }
    hide DiffersAt;
    if k: nat :| DiffersAt(c, d, k) {
      DiffersInTail(a, b, k);
    }
    if k: nat :| DiffersAt(a, b, k) {
      NotAtFirst(a, b, k);
      DiffersInTail(a, b, k - 1);
    }
  }

  lemma NotAtFirst(a: Name, b: Name, k: nat)
    requires a != [] && b != [] && a[0] == b[0] && DiffersAt(a, b, k)
    ensures k > 0
  {
  }

  lemma {:induction false} NameTrichotomy(a: Name, b: Name)
    ensures NameLess(a, b) || a == b || NameLess(b, a)
    ensures !(NameLess(a, b) && NameLess(b, a))
    ensures !NameLess(a, a)
    decreases |a| + |b|
  {
    NameIrreflexive(a);
    if a != [] && b != [] {
      NameTrichotomy(a[1..], b[1..]);
      if a[0] == b[0] && a[1..] == b[1..] {
        assert a == [a[0]] + a[1..] == b;
      }
    }
  }

  lemma {:induction false} NameIrreflexive(a: Name)
    ensures !NameLess(a, a)
  {
    if a != [] {
      NameIrreflexive(a[1..]);
    }
  }

  lemma {:induction false} NameTransitive(a: Name, b: Name, c: Name)
    requires NameLess(a, b) && NameLess(b, c)
    ensures NameLess(a, c)
    decreases |b|
  {
    if a != [] && a[0] == b[0] == c[0] {
      NameTransitive(a[1..], b[1..], c[1..]);
    }
  }

  datatype Key = ByAddr | ByName

  /** Whether a stable sort by the key puts the i-th input symbol before the j-th. */
  predicate Before(symbols: seq<Symbol>, key: Key, i: nat, j: nat)
    requires i < |symbols| && j < |symbols|
  {
    match key
    case ByAddr => symbols[i].addr < symbols[j].addr || (symbols[i].addr == symbols[j].addr && i < j)
    case ByName => NameLess(symbols[i].name, symbols[j].name) || (symbols[i].name == symbols[j].name && i < j)
  }

  lemma BeforeTotal(symbols: seq<Symbol>, key: Key, i: nat, j: nat)
    requires i < |symbols| && j < |symbols|
    ensures i == j || Before(symbols, key, i, j) || Before(symbols, key, j, i)
    ensures !(Before(symbols, key, i, j) && Before(symbols, key, j, i))
    ensures !Before(symbols, key, i, i)
  {
    NameTrichotomy(symbols[i].name, symbols[j].name);
    NameTrichotomy(symbols[i].name, symbols[i].name);
  }

  lemma BeforeTransitive(symbols: seq<Symbol>, key: Key, i: nat, j: nat, k: nat)
    requires i < |symbols| && j < |symbols| && k < |symbols|
    requires Before(symbols, key, i, j) && Before(symbols, key, j, k)
    ensures Before(symbols, key, i, k)
  {
    if NameLess(symbols[i].name, symbols[j].name) && NameLess(symbols[j].name, symbols[k].name) {
      NameTransitive(symbols[i].name, symbols[j].name, symbols[k].name);
    }
  }

  predicate Indices(symbols: seq<Symbol>, s: seq<nat>) {
    forall a | 0 <= a < |s| :: s[a] < |symbols|
  }

  predicate Ordered(symbols: seq<Symbol>, key: Key, s: seq<nat>) {
    Indices(symbols, s) && forall a, b | 0 <= a < b < |s| :: Before(symbols, key, s[a], s[b])
  }

  function Insert(symbols: seq<Symbol>, key: Key, s: seq<nat>, x: nat): (r: seq<nat>)
    requires Indices(symbols, s) && x < |symbols|
    ensures Indices(symbols, r) && |r| == |s| + 1
  {
    if s == [] then [x]
    else if Before(symbols, key, x, s[0]) then [x] + s
    else [s[0]] + Insert(symbols, key, s[1..], x)
  }

  lemma {:induction false} InsertHolds(symbols: seq<Symbol>, key: Key, s: seq<nat>, x: nat)
    requires Indices(symbols, s) && x < |symbols|
    ensures forall i: nat :: i in Insert(symbols, key, s, x) <==> i == x || i in s
  {
    hide Before;
    if s != [] {
      InsertHolds(symbols, key, s[1..], x);
      assert s == [s[0]] + s[1..];
    }
  }

  lemma {:induction false} InsertOrdered(symbols: seq<Symbol>, key: Key, s: seq<nat>, x: nat)
    requires Ordered(symbols, key, s) && x < |symbols| && x !in s
    ensures Ordered(symbols, key, Insert(symbols, key, s, x))
  {
    hide Before;
    if s != [] {
      BeforeTotal(symbols, key, x, s[0]);
      if Before(symbols, key, x, s[0]) {
        forall b | 0 <= b < |s|
          ensures Before(symbols, key, x, s[b])
        {
          if b > 0 {
            BeforeTransitive(symbols, key, x, s[0], s[b]);
          }
        }
        OrderedCons(symbols, key, x, s);
      } else {
        InsertOrdered(symbols, key, s[1..], x);
        var rest := Insert(symbols, key, s[1..], x);
        InsertHolds(symbols, key, s[1..], x);
        forall b | 0 <= b < |rest|
          ensures Before(symbols, key, s[0], rest[b])
        {
          assert rest[b] in rest;
          if rest[b] != x {
            var a :| 0 <= a < |s[1..]| && s[1..][a] == rest[b];
            assert s[a + 1] == rest[b];
          }
        }
        OrderedCons(symbols, key, s[0], rest);
      }
    }
  }

  lemma OrderedCons(symbols: seq<Symbol>, key: Key, x: nat, s: seq<nat>)
    requires Ordered(symbols, key, s) && x < |symbols| && forall b | 0 <= b < |s| :: Before(symbols, key, x, s[b])
    ensures Ordered(symbols, key, [x] + s)
  {
    hide Before;
  }

  /** The stable order of the first `n` symbols. */
  function Order(symbols: seq<Symbol>, key: Key, n: nat): (s: seq<nat>)
    requires n <= |symbols|
    ensures Indices(symbols, s) && |s| == n
  {
    if n == 0 then [] else Insert(symbols, key, Order(symbols, key, n - 1), n - 1)
  }

  lemma {:induction false} OrderHolds(symbols: seq<Symbol>, key: Key, n: nat)
    requires n <= |symbols|
    ensures forall i: nat :: i in Order(symbols, key, n) <==> i < n
  {
    if n > 0 {
      OrderHolds(symbols, key, n - 1);
      hide Insert, Before;
      InsertHolds(symbols, key, Order(symbols, key, n - 1), n - 1);
    }
  }

  /** It is strictly ordered and holds every index exactly once. */
  lemma {:induction false} OrderCorrect(symbols: seq<Symbol>, key: Key, n: nat)
    requires n <= |symbols|
    ensures Ordered(symbols, key, Order(symbols, key, n))
    ensures forall i: nat :: i in Order(symbols, key, n) <==> i < n
  {
    if n > 0 {
      hide Insert, Ordered, Indices;
      OrderCorrect(symbols, key, n - 1);
      InsertOrdered(symbols, key, Order(symbols, key, n - 1), n - 1);
    }
    OrderHolds(symbols, key, n);
  }

  /**
    The two orders, by addresses and bytes alone: addresses grow, names grow as byte strings, and
    symbols that are equal in the key stand as they do in the input.
  */
  lemma OrdersAre(symbols: seq<Symbol>, a: nat, b: nat)
    requires a < b < |symbols|
    ensures var i, j := Order(symbols, ByAddr, |symbols|)[a], Order(symbols, ByAddr, |symbols|)[b];
            symbols[i].addr < symbols[j].addr || (symbols[i].addr == symbols[j].addr && i < j)
    ensures var i, j := Order(symbols, ByName, |symbols|)[a], Order(symbols, ByName, |symbols|)[b];
            Lexically(symbols[i].name, symbols[j].name) || (symbols[i].name == symbols[j].name && i < j)
  {
    OrderCorrect(symbols, ByAddr, |symbols|);
    OrderCorrect(symbols, ByName, |symbols|);
    var byAddr, byName := Order(symbols, ByAddr, |symbols|), Order(symbols, ByName, |symbols|);
    assert Before(symbols, ByAddr, byAddr[a], byAddr[b]) && Before(symbols, ByName, byName[a], byName[b]);
    NameLessIsLexical(symbols[byName[a]].name, symbols[byName[b]].name);
  }

  /** The position of input symbol `i` in the order. */
  function Position(s: seq<nat>, i: nat): (p: nat)
    requires i in s
    ensures p < |s| && s[p] == i
  {
    if s[0] == i then 0 else 1 + Position(s[1..], i)
  }
}
