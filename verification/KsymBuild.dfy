/**
  The generator (ksym/src/bin/gen_ksym.rs): it orders the symbols by address and by name,
  numbers the tokens, writes the records, and serializes the table.
*/
module KsymBuild {
  import opened Bytes
  import opened Chars
  import opened KsymOrder
  import opened KsymRecord
  import opened KsymBlob
  import Modular

  // ----- The table as a value

  /** The records of the symbols in the given order, one after the other. */
  function Records(symbols: seq<Symbol>, order: seq<nat>, ids: map<Name, nat>): seq<byte>
    requires Indices(symbols, order)
  {
    if order == [] then [] else
      Records(symbols, order[..|order| - 1], ids) + Record(symbols[order[|order| - 1]], ids)
  }

  lemma RecordsSnoc(symbols: seq<Symbol>, order: seq<nat>, ids: map<Name, nat>, i: nat)
    requires Indices(symbols, order) && i < |order|
    ensures Records(symbols, order[..i + 1], ids) == Records(symbols, order[..i], ids) + Record(symbols[order[i]], ids)
  {
    hide Record;
    assert order[..i + 1][..i] == order[..i];
  }

  function Offsets(symbols: seq<Symbol>, order: seq<nat>, ids: map<Name, nat>): (r: seq<nat>)
    requires Indices(symbols, order)
    ensures |r| == |order|
  {
    seq(|order|, i requires 0 <= i < |order| => |Records(symbols, order[..i], ids)| % TWO32)
  }

  function Addresses(symbols: seq<Symbol>, order: seq<nat>): (r: seq<nat>)
    requires Indices(symbols, order)
    ensures |r| == |order|
  {
    seq(|order|, i requires 0 <= i < |order| => symbols[order[i]].addr)
  }

  /** For each symbol in name order, its place in address order. */
  function Seqs(addrOrder: seq<nat>, nameOrder: seq<nat>): (r: seq<nat>)
    requires forall a | 0 <= a < |nameOrder| :: nameOrder[a] in addrOrder
    ensures |r| == |nameOrder|
  {
    seq(|nameOrder|, j requires 0 <= j < |nameOrder| => Position(addrOrder, nameOrder[j]) % TWO32)
  }

  function AddrOrder(symbols: seq<Symbol>): seq<nat> { Order(symbols, ByAddr, |symbols|) }
  function NameOrder(symbols: seq<Symbol>): seq<nat> { Order(symbols, ByName, |symbols|) }

  lemma OrdersMeet(symbols: seq<Symbol>)
    ensures |AddrOrder(symbols)| == |NameOrder(symbols)| == |symbols|
    ensures Indices(symbols, AddrOrder(symbols)) && Indices(symbols, NameOrder(symbols))
    ensures forall a | 0 <= a < |symbols| :: NameOrder(symbols)[a] in AddrOrder(symbols)
  {
    OrderCorrect(symbols, ByAddr, |symbols|);
    OrderCorrect(symbols, ByName, |symbols|);
  }

  function Compressed(symbols: seq<Symbol>, tokens: seq<Name>, ids: map<Name, nat>): Table {
    OrdersMeet(symbols);
    Table(Concat(tokens), TokenIndex(tokens), Records(symbols, AddrOrder(symbols), ids),
          Offsets(symbols, AddrOrder(symbols), ids), Seqs(AddrOrder(symbols), NameOrder(symbols)),
          Addresses(symbols, AddrOrder(symbols)), |symbols|)
  }

  lemma CompressedIs(symbols: seq<Symbol>, tokens: seq<Name>, ids: map<Name, nat>, t: Table)
    requires Indices(symbols, AddrOrder(symbols))
    requires forall a | 0 <= a < |NameOrder(symbols)| :: NameOrder(symbols)[a] in AddrOrder(symbols)
    requires t.tokenTable == Concat(tokens) && t.tokenIndex == TokenIndex(tokens)
    requires t.names == Records(symbols, AddrOrder(symbols), ids)
    requires t.offsets == Offsets(symbols, AddrOrder(symbols), ids)
    requires t.seqs == Seqs(AddrOrder(symbols), NameOrder(symbols))
    requires t.addresses == Addresses(symbols, AddrOrder(symbols)) && t.numSyms == |symbols|
    ensures t == Compressed(symbols, tokens, ids)
  {
  }

  lemma EmptyTable(symbols: seq<Symbol>, candidates: seq<Name>)
    requires symbols == [] && forall c :: c in candidates ==> Candidate(symbols, c)
    ensures SelectedFrom(candidates, [])
    ensures Compressed(symbols, [], map[]) == EMPTY && Selection(symbols, []) && MapOf([], map[])
  {
    OrdersMeet(symbols);
  }

  const EMPTY: Table := Table([], [], [], [], [], [], 0)

  /** A string the frequency count of the generator can hold. */
  predicate Candidate(symbols: seq<Symbol>, c: Name) {
    exists i | 0 <= i < |symbols| :: CandidateOf(symbols[i].name, c)
  }

  predicate CandidateOf(name: Name, c: Name) {
    c <= name && c != [] && (|c| in CANDIDATE_LENS || (c == name && |c| < CANDIDATE_LENS[0]))
  }

  /**
    What the generator can select for the symbols: candidates of theirs, none of them the
    beginning of one before it.
  */
  predicate Selection(symbols: seq<Symbol>, tokens: seq<Name>) {
    && TokenList(tokens)
    && (forall t | t in tokens :: Candidate(symbols, t))
    && (forall i, j | 0 <= i < j < |tokens| :: !(tokens[j] <= tokens[i]))
  }

  lemma ConcatBound(tokens: seq<Name>)
    requires forall i | 0 <= i < |tokens| :: |tokens[i]| <= MAX_TOKEN_LEN
    ensures |Concat(tokens)| <= MAX_TOKEN_LEN * |tokens|
  {
  }

  /** The tokens before the `i`-th fit a 32-bit index and do not hold it. */
  lemma TableFits(tokens: seq<Name>, i: nat)
    requires TokenList(tokens) && i < |tokens|
    ensures |Concat(tokens[..i])| < TWO32 && tokens[i] !in tokens[..i]
  {
    ConcatBound(tokens[..i]);
  }

  lemma MapOfKeys(tokens: seq<Name>, ids: map<Name, nat>, token: Name)
    requires MapOf(tokens, ids)
    ensures token in ids <==> token in tokens
  {
    if token in ids {
      assert tokens[ids[token]] == token;
    }
  }

  lemma MapOfSnoc(tokens: seq<Name>, ids: map<Name, nat>, token: Name)
    requires MapOf(tokens, ids) && token !in ids && |ids| == |tokens|
    ensures MapOf(tokens + [token], ids[token := |tokens|]) && |ids[token := |tokens|]| == |tokens| + 1
  {
  }

  lemma TokenIndexSnoc(tokens: seq<Name>, token: Name)
    ensures Concat(tokens + [token]) == Concat(tokens) + token
    ensures TokenIndex(tokens + [token]) == TokenIndex(tokens) + [|Concat(tokens)|]
  {
    var more := tokens + [token];
    ConcatSnoc(tokens, token);
    hide Concat;
    assert more[..|tokens|] == tokens;
    assert forall i | 0 <= i < |tokens| :: more[..i] == tokens[..i];
  }

  lemma NoRecords(symbols: seq<Symbol>, ids: map<Name, nat>)
    ensures Records(symbols, [], ids) == []
  {
  }

  // ----- The generator's object

  class KallsymsBlob {
    var tokenTable: seq<byte>
    var tokenIndex: seq<nat>
    var tokenMap: map<Name, nat>
    var names: seq<byte>
    var offsets: seq<nat>
    var seqs: seq<nat>
    var addresses: seq<nat>
    var numSyms: nat

    ghost function Value(): Table
      reads this
    {
      Table(tokenTable, tokenIndex, names, offsets, seqs, addresses, numSyms)
    }

    /** The token fields hold exactly these tokens, numbered in order. */
    ghost predicate HasTokens(tokens: seq<Name>)
      reads this
    {
      tokenTable == Concat(tokens) && tokenIndex == TokenIndex(tokens) && MapOf(tokens, tokenMap)
        && |tokenMap| == |tokens|
    }

    constructor ()
      ensures Value() == EMPTY && tokenMap == map[] && HasTokens([])
    {
      tokenTable, tokenIndex, tokenMap := [], [], map[];
      names, offsets, seqs, addresses, numSyms := [], [], [], [], 0;
    }

    method AddToken(token: Name, ghost tokens: seq<Name>) returns (id: nat)
      requires HasTokens(tokens) && |tokenTable| < TWO32 && |tokens| < TWO16
      modifies `tokenTable, `tokenIndex, `tokenMap
      ensures token in tokenMap && tokenMap[token] == id
      ensures HasTokens(if token in tokens then tokens else tokens + [token])
    {
      MapOfKeys(tokens, tokenMap, token);
      if token in tokenMap {
        return tokenMap[token];
      }
      MapOfSnoc(tokens, tokenMap, token);
      TokenIndexSnoc(tokens, token);
      hide MapOf, Concat, TokenIndex;
      Modular.Small(|tokenMap|, TWO16);
      Modular.Small(|tokenTable|, TWO32);
      id := |tokenMap| % TWO16;
      tokenIndex := tokenIndex + [|tokenTable| % TWO32];
      tokenTable := tokenTable + token;
      tokenMap := tokenMap[token := id];
    }

    /** Finds the longest candidate prefix that is a token, trying the long ones first. */
    method FindToken(name: Name) returns (l: nat)
      ensures l == TokenPrefix(name, tokenMap) <= |name| && (l > 0 ==> name[..l] in tokenMap && l in CANDIDATE_LENS)
      ensures forall c | c in CANDIDATE_LENS && c <= |name| && name[..c] in tokenMap :: c <= l
    {
      hide CANDIDATE_LENS;
      NoLonger(name, tokenMap);
      l := 0;
      var k := |CANDIDATE_LENS|;
      while k > 0
        invariant 0 <= k <= |CANDIDATE_LENS|
        invariant TokenLen(name, tokenMap, k) == TokenLen(name, tokenMap, |CANDIDATE_LENS|)
      {
        k := k - 1;
        var len := CANDIDATE_LENS[k];
        if len > |name| {
          continue;
        }
        if name[..len] in tokenMap {
          return len;
        }
      }
    }

    /** Appends one record: type, length, marked token id if there is one, remaining bytes. */
    method EmitRecord(s: Symbol)
      requires |s.name| <= KSYM_NAME_LEN
      requires forall t | t in tokenMap :: tokenMap[t] < MAX_TOKEN
      modifies `names
      ensures names == old(names) + Record(s, tokenMap)
    {
      hide TokenPrefix, IdBytes, LeBytes;
      ghost var before := names;
      var rem := |s.name|;
      var consumed := FindToken(s.name);
      if consumed != 0 {
        var id := tokenMap[s.name[..consumed]];
        IdLength(id);
        var length := (if id < 256 then 3 else 4) + (rem - consumed);
        PushHeader(s.ty, length);
        PushId(id);
        names := names + s.name[consumed..];
        assert names == before + ([s.ty] + LeBytes(length, 2) + (IdBytes(id) + s.name[consumed..]));
      } else {
        PushHeader(s.ty, rem);
        names := names + s.name[consumed..];
        assert names == before + ([s.ty] + LeBytes(rem, 2) + s.name);
      }
    }

    /** The type and the length of what follows. */
    method PushHeader(ty: byte, length: nat)
      requires length < TWO16
      modifies `names
      ensures names == old(names) + ([ty] + LeBytes(length, 2))
    {
      TwoBytes(length);
      names := names + [ty];
      names := names + [length % 256, length / 256];
    }

    /** The token id between its markers, in one byte or in two. */
    method PushId(id: nat)
      modifies `names
      ensures names == old(names) + IdBytes(id)
    {
      names := names + [TOKEN_MARKER];
      if id < 256 {
        names := names + [id];
      } else {
        names := names + [id / 256 % 256, id % 256];
      }
      names := names + [TOKEN_MARKER];
    }

    method CompressSymbols(symbols: seq<Symbol>, candidates: seq<Name>) returns (ghost tokens: seq<Name>)
      requires Value() == EMPTY && HasTokens([])
      requires forall i | 0 <= i < |symbols| :: GoodName(symbols[i].name)
      requires forall c :: c in candidates ==> Candidate(symbols, c)
      modifies this
      ensures Selection(symbols, tokens) && SelectedFrom(candidates, tokens) && MapOf(tokens, tokenMap)
      ensures Value() == Compressed(symbols, tokens, tokenMap)
    {
      hide Compressed, Ordered, Order, Selection, MapOf, Concat, TokenIndex, Records, Offsets, Addresses, Seqs,
        GoodName, Candidate, SelectedFrom;
      var n := |symbols|;
      if n == 0 {
        EmptyTable(symbols, candidates);
        tokens := [];
        return;
      }
      OrdersMeet(symbols);
      var idxByAddr := AddrOrder(symbols);
      var idxByName := NameOrder(symbols);
      OrderCorrect(symbols, ByAddr, n);
      var origToAddr := InvertOrder(symbols, idxByAddr);
      NamesFit(symbols);
      tokens := NumberTokens(symbols, candidates);
      EmitRecords(symbols, idxByAddr);
      PushSeqs(idxByAddr, idxByName, origToAddr);
      numSyms := n;
      CompressedIs(symbols, tokens, tokenMap, Value());
    }

    /** Selects the tokens and numbers them in the order of their selection. */
    method NumberTokens(symbols: seq<Symbol>, candidates: seq<Name>) returns (ghost tokens: seq<Name>)
      requires HasTokens([])
      requires forall i | 0 <= i < |symbols| :: GoodName(symbols[i].name)
      requires forall c :: c in candidates ==> Candidate(symbols, c)
      modifies `tokenTable, `tokenIndex, `tokenMap
      ensures Selection(symbols, tokens) && SelectedFrom(candidates, tokens) && HasTokens(tokens)
      ensures forall t | t in tokenMap :: tokenMap[t] < MAX_TOKEN
    {
      CandidatesGood(symbols, candidates);
      var finalTokens := SelectTokens(candidates);
      assert Selection(symbols, finalTokens);
      hide Selection, SelectedFrom, GoodName, Candidate;
      AddTokens(finalTokens);
      tokens := finalTokens;
    }

    /** Writes the records in address order, noting where each begins. */
    method EmitRecords(symbols: seq<Symbol>, order: seq<nat>)
      requires Indices(symbols, order) && names == [] && offsets == [] && addresses == []
      requires forall i | 0 <= i < |symbols| :: |symbols[i].name| <= KSYM_NAME_LEN
      requires forall t | t in tokenMap :: tokenMap[t] < MAX_TOKEN
      modifies `names, `offsets, `addresses
      ensures names == Records(symbols, order, tokenMap)
      ensures offsets == Offsets(symbols, order, tokenMap)
      ensures addresses == Addresses(symbols, order)
    {
      hide Record, Records;
      var i := 0;
      assert order[..0] == [];
      NoRecords(symbols, tokenMap);
      while i < |order|
        invariant 0 <= i <= |order|
        invariant names == Records(symbols, order[..i], tokenMap)
        invariant |offsets| == i && forall k | 0 <= k < i :: offsets[k] == Offsets(symbols, order, tokenMap)[k]
        invariant |addresses| == i && forall k | 0 <= k < i :: addresses[k] == Addresses(symbols, order)[k]
      {
        var s := symbols[order[i]];
        offsets := offsets + [|names| % TWO32];
        addresses := addresses + [s.addr];
        EmitRecord(s);
        RecordsSnoc(symbols, order, tokenMap, i);
        i := i + 1;
      }
      assert order[..i] == order;
    }

    method PushSeqs(addrOrder: seq<nat>, nameOrder: seq<nat>, origToAddr: array<nat>)
      requires seqs == []
      requires forall j | 0 <= j < |nameOrder| :: nameOrder[j] in addrOrder && nameOrder[j] < origToAddr.Length
      requires forall j | 0 <= j < |nameOrder| :: origToAddr[nameOrder[j]] == Position(addrOrder, nameOrder[j])
      modifies `seqs
      ensures seqs == Seqs(addrOrder, nameOrder)
    {
      var i := 0;
      while i < |nameOrder|
        invariant 0 <= i <= |nameOrder|
        invariant |seqs| == i && forall k | 0 <= k < i :: seqs[k] == Seqs(addrOrder, nameOrder)[k]
      {
        seqs := seqs + [origToAddr[nameOrder[i]] % TWO32];
        i := i + 1;
      }
    }

    method AddTokens(finalTokens: seq<Name>)
      requires HasTokens([]) && TokenList(finalTokens)
      modifies `tokenTable, `tokenIndex, `tokenMap
      ensures HasTokens(finalTokens)
    {
      hide Concat, TokenIndex, MapOf;
      var i := 0;
      assert finalTokens[..0] == [];
      while i < |finalTokens|
        invariant 0 <= i <= |finalTokens|
        invariant HasTokens(finalTokens[..i])
      {
        ghost var done := finalTokens[..i];
        TableFits(finalTokens, i);
        var id := AddToken(finalTokens[i], done);
        assert done + [finalTokens[i]] == finalTokens[..i + 1];
        i := i + 1;
      }
      assert finalTokens[..i] == finalTokens;
    }

    /** to_blob: grows the byte vector segment by segment, then patches the length in. */
    method ToBlob() returns (blob: seq<byte>)
      ensures blob == BlobBytes(Value())
    {
      ghost var t := Value();
      blob := LeBytes(0, 8);
      blob := blob + LeBytes(numSyms, 8);
      assert blob == Start(t);
      blob := Pad(blob, 8);
      blob := PushWords(blob, addresses, 8);
      assert blob == UpToAddresses(t);
      blob := Pad(blob, 4);
      blob := PushWords(blob, offsets, 4);
      assert blob == UpToOffsets(t);
      blob := Pad(blob, 4);
      blob := PushWords(blob, seqs, 4);
      assert blob == UpToSeqs(t);
      blob := Pad(blob, 8);
      blob := blob + LeBytes(|names|, 8) + names;
      assert blob == UpToNames(t);
      blob := Pad(blob, 8);
      blob := blob + LeBytes(|tokenTable|, 8) + tokenTable;
      assert blob == UpToTokens(t);
      blob := Pad(blob, 8);
      blob := blob + LeBytes(|tokenIndex|, 8);
      blob := Pad(blob, 4);
      blob := PushWords(blob, tokenIndex, 4);
      assert blob == UpToIndex(t);
      var totalLen := |blob|;
      blob := LeBytes(totalLen, 8) + blob[8..];
    }
  }

  lemma WordsSnoc(ws: seq<nat>, width: nat, i: nat)
    requires i < |ws|
    ensures Words(ws[..i + 1], width) == Words(ws[..i], width) + LeBytes(ws[i], width)
  {
    hide LeBytes;
    assert ws[..i + 1][..i] == ws[..i];
  }

  method PushWords(s: seq<byte>, ws: seq<nat>, width: nat) returns (r: seq<byte>)
    ensures r == s + Words(ws, width)
  {
    hide LeBytes;
    r := s;
    var i := 0;
    assert ws[..0] == [];
    while i < |ws|
      invariant 0 <= i <= |ws| && r == s + Words(ws[..i], width)
    {
      WordsSnoc(ws, width, i);
      r := r + LeBytes(ws[i], width);
      i := i + 1;
    }
    assert ws[..i] == ws;
  }

  /** Maps every input index to its place in address order. */
  method InvertOrder(symbols: seq<Symbol>, order: seq<nat>) returns (inverse: array<nat>)
    requires Ordered(symbols, ByAddr, order) && |order| == |symbols| && forall i: nat :: i in order <==> i < |symbols|
    ensures fresh(inverse) && inverse.Length == |symbols|
    ensures forall i: nat | i < |symbols| :: inverse[i] == Position(order, i)
  {
    inverse := new nat[|symbols|](i => 0);
    var p := 0;
    while p < |order|
      invariant 0 <= p <= |order|
      invariant forall q | 0 <= q < p :: inverse[order[q]] == q
    {
      forall q | 0 <= q < p
        ensures order[q] != order[p]
      {
        BeforeTotal(symbols, ByAddr, order[p], order[p]);
      }
      inverse[order[p]] := p;
      p := p + 1;
    }
    forall i: nat | i < |symbols|
      ensures inverse[i] == Position(order, i)
    {
      assert i in order;
      assert inverse[order[Position(order, i)]] == Position(order, i);
    }
  }

  lemma TwoBytes(n: nat)
    requires n < TWO16
    ensures n / 256 < 256 && LeBytes(n, 2) == [n % 256, n / 256]
  {
    assert LeBytes(n, 2) == [n % 256] + LeBytes(n / 256, 1);
  }

  lemma CandidatesGood(symbols: seq<Symbol>, candidates: seq<Name>)
    requires forall i | 0 <= i < |symbols| :: GoodName(symbols[i].name)
    requires forall c :: c in candidates ==> Candidate(symbols, c)
    ensures forall i | 0 <= i < |candidates| :: IsAscii(candidates[i]) && |candidates[i]| <= MAX_TOKEN_LEN
  {
    hide IsAscii, Candidate, GoodName;
    forall i | 0 <= i < |candidates|
      ensures IsAscii(candidates[i]) && |candidates[i]| <= MAX_TOKEN_LEN
    {
      CandidateGood(symbols, candidates[i]);
    }
  }

  lemma NamesFit(symbols: seq<Symbol>)
    requires forall i | 0 <= i < |symbols| :: GoodName(symbols[i].name)
    ensures forall i | 0 <= i < |symbols| :: |symbols[i].name| <= KSYM_NAME_LEN
  {
  }

  lemma CandidateGood(symbols: seq<Symbol>, c: Name)
    requires forall i | 0 <= i < |symbols| :: GoodName(symbols[i].name)
    requires Candidate(symbols, c)
    ensures IsAscii(c) && |c| <= MAX_TOKEN_LEN
  {
    var k :| 0 <= k < |symbols| && CandidateOf(symbols[k].name, c);
    assert forall j | 0 <= j < |c| :: c[j] == symbols[k].name[j];
    LensBounded(|c|);
    hide CANDIDATE_LENS;
  }

  lemma LensBounded(l: nat)
    ensures l in CANDIDATE_LENS ==> l <= MAX_TOKEN_LEN
    ensures CANDIDATE_LENS != [] && CANDIDATE_LENS[0] <= MAX_TOKEN_LEN
  {
  }
}
