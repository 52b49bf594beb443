/**
  From the symbol list to the answers: building, serializing, parsing, decoding and searching
  agree with a scan of the input.
*/
module KsymEndToEnd {
  import opened Bytes
  import opened Chars
  import opened KsymOrder
  import opened KsymRecord
  import opened KsymBlob
  import opened KsymBuild
  import opened KsymLookup
  import Modular

  /** The symbols the format can carry. */
  predicate GoodSymbols(symbols: seq<Symbol>) {
    forall i | 0 <= i < |symbols| :: GoodName(symbols[i].name) && symbols[i].addr < TWO64
  }

  /** No name is written with the last of MAX_TOKEN token ids. */
  predicate NoLastToken(symbols: seq<Symbol>, ids: map<Name, nat>) {
    forall i | 0 <= i < |symbols| :: UsedId(symbols[i].name, ids) != Some(511)
  }

  /** What the reader makes of a name: nothing of one written with the last id. */
  function ReadAs(name: Name, ids: map<Name, nat>): Name {
    if UsedId(name, ids) == Some(511) then [] else name
  }

  /** The address of the first input symbol with the name. */
  function FirstMatch(symbols: seq<Symbol>, name: Name): Option<nat> {
    if symbols == [] then None
    else if symbols[0].name == name then Some(symbols[0].addr)
    else FirstMatch(symbols[1..], name)
  }

  lemma {:induction false} FirstMatchIs(symbols: seq<Symbol>, name: Name, i: nat)
    requires i < |symbols| && symbols[i].name == name && forall k | 0 <= k < i :: symbols[k].name != name
    ensures FirstMatch(symbols, name) == Some(symbols[i].addr)
  {
    if i > 0 {
      FirstMatchIs(symbols[1..], name, i - 1);
    }
  }

  lemma {:induction false} NoMatch(symbols: seq<Symbol>, name: Name)
    requires forall k | 0 <= k < |symbols| :: symbols[k].name != name
    ensures FirstMatch(symbols, name) == None
  {
    if symbols != [] {
      NoMatch(symbols[1..], name);
    }
  }

  // ----- The records partition the names

  lemma {:induction false} RecordsPrefix(symbols: seq<Symbol>, order: seq<nat>, ids: map<Name, nat>, i: nat)
    requires Indices(symbols, order) && i <= |order|
    ensures Records(symbols, order[..i], ids) <= Records(symbols, order, ids)
    decreases |order| - i
  {
    hide Records, Record;
    if i < |order| {
      RecordsSnoc(symbols, order, ids, i);
      RecordsPrefix(symbols, order, ids, i + 1);
    } else {
      assert order[..i] == order;
    }
  }

  lemma RecordAt(symbols: seq<Symbol>, order: seq<nat>, ids: map<Name, nat>, i: nat)
    requires Indices(symbols, order) && i < |order|
    ensures var off := |Records(symbols, order[..i], ids)|;
            var rec := Record(symbols[order[i]], ids);
            && off + |rec| == |Records(symbols, order[..i + 1], ids)| <= |Records(symbols, order, ids)|
            && Records(symbols, order, ids)[off..off + |rec|] == rec
  {
    hide Records, Record;
    RecordsSnoc(symbols, order, ids, i);
    RecordsPrefix(symbols, order, ids, i + 1);
  }

  /** Whoever reads at the record's offset finds its type, its length and its payload. */
  lemma ReadRecord(names: seq<byte>, off: nat, s: Symbol, ids: map<Name, nat>)
    requires |Payload(s.name, ids)| < TWO16
    requires off + |Record(s, ids)| <= |names| && names[off..off + |Record(s, ids)|] == Record(s, ids)
    ensures ReadLenAndType(names[off..]) == (|Payload(s.name, ids)|, s.ty)
    ensures |Record(s, ids)| == PREFIX_LEN + |Payload(s.name, ids)|
    ensures names[off + PREFIX_LEN..off + PREFIX_LEN + |Payload(s.name, ids)|] == Payload(s.name, ids)
  {
    hide Payload;
    var payload := Payload(s.name, ids);
    var rec, len := Record(s, ids), LeBytes(|payload|, 2);
    TwoBytes(|payload|);
    hide LeBytes;
    assert rec == [s.ty] + len + payload;
    var tail := names[off..];
    assert names[off..off + |rec|] == tail[..|rec|];
    assert tail[0] == rec[0] == s.ty;
    assert tail[1] == rec[1] == len[0];
    assert tail[2] == rec[2] == len[1];
    assert tail[PREFIX_LEN..|rec|] == rec[PREFIX_LEN..] == payload;
  }

  lemma {:induction false} RecordsLong(symbols: seq<Symbol>, order: seq<nat>, ids: map<Name, nat>)
    requires Indices(symbols, order)
    ensures |Records(symbols, order, ids)| >= |order|
  {
    if order != [] {
      RecordsLong(symbols, order[..|order| - 1], ids);
    }
  }

  // ----- The table of a symbol list

  /** What the build leaves: a token list, its map, and 32-bit room for the records. */
  predicate Built(symbols: seq<Symbol>, tokens: seq<Name>, ids: map<Name, nat>) {
    && GoodSymbols(symbols) && TokenList(tokens) && MapOf(tokens, ids)
    && (OrdersMeet(symbols); |Records(symbols, AddrOrder(symbols), ids)| < TWO32)
  }

  /** The record of the i-th symbol in address order, as the reader's offset finds it. */
  predicate RecordHolds(t: Table, i: nat, s: Symbol, ids: map<Name, nat>)
    requires i < |t.offsets|
  {
    var n := |Payload(s.name, ids)|;
    var start := t.offsets[i];
    && 1 <= n && start + PREFIX_LEN + n <= |t.names|
    && ReadLenAndType(t.names[start..]) == (n, s.ty)
    && t.names[start + PREFIX_LEN..start + PREFIX_LEN + n] == Payload(s.name, ids)
  }

  lemma OneRecord(symbols: seq<Symbol>, order: seq<nat>, ids: map<Name, nat>, t: Table, i: nat)
    requires Indices(symbols, order) && i < |order| && |Records(symbols, order, ids)| < TWO32
    requires t.names == Records(symbols, order, ids) && t.offsets == Offsets(symbols, order, ids)
    requires 1 <= |Payload(symbols[order[i]].name, ids)| <= KSYM_NAME_LEN
    ensures RecordHolds(t, i, symbols[order[i]], ids)
  {
    hide Records, Record, Payload, ReadLenAndType;
    var s := symbols[order[i]];
    RecordAt(symbols, order, ids, i);
    var off := |Records(symbols, order[..i], ids)|;
    assert t.offsets[i] == off by {
      Modular.Small(off, TWO32);
    }
    hide Offsets;
    ReadRecord(t.names, off, s, ids);
  }

  lemma NameOfRecord(t: Table, i: nat, s: Symbol, tokens: seq<Name>, ids: map<Name, nat>)
    requires WellFormed(t) && i < t.numSyms && RecordHolds(t, i, s, ids)
    requires t.tokenTable == Concat(tokens) && t.tokenIndex == TokenIndex(tokens)
    requires GoodName(s.name) && TokenList(tokens) && MapOf(tokens, ids)
    ensures NameAt(t, i) == ReadAs(s.name, ids)
    ensures TypeAt(t, i) == s.ty
  {
    PayloadRoundTrip(s.name, tokens, ids);
    hide WellFormed, GoodName, TokenList, MapOf, Payload, UsedId, Expand, Concat, TokenIndex;
    assert PayloadAt(t, i) == Payload(s.name, ids);
  }

  /** Every record is in place and decodes to its symbol's type and to what the reader makes of its name. */
  lemma TableHolds(symbols: seq<Symbol>, tokens: seq<Name>, ids: map<Name, nat>, order: seq<nat>, t: Table)
    requires Built(symbols, tokens, ids) && order == AddrOrder(symbols) && t == Compressed(symbols, tokens, ids)
    ensures WellFormed(t) && |order| == |symbols| == t.numSyms && Indices(symbols, order)
    ensures forall i | 0 <= i < |symbols| ::
              && NameAt(t, i) == ReadAs(symbols[order[i]].name, ids)
              && TypeAt(t, i) == symbols[order[i]].ty
  {
    OrdersMeet(symbols);
    TableIsGood(tokens);
    SeqsInRange(symbols);
    forall i | 0 <= i < |symbols|
      ensures RecordHolds(t, i, symbols[order[i]], ids)
    {
      PayloadRoundTrip(symbols[order[i]].name, tokens, ids);
      OneRecord(symbols, order, ids, t, i);
    }
    hide Records, Offsets, Payload, Concat, TokenIndex, GoodTable, UsedId, Order, Seqs, GoodName;
    WellFormedFrom(t, symbols, order, ids);
    forall i | 0 <= i < |symbols|
      ensures NameAt(t, i) == ReadAs(symbols[order[i]].name, ids)
      ensures TypeAt(t, i) == symbols[order[i]].ty
    {
      hide NameAt, TypeAt, WellFormed;
      NameOfRecord(t, i, symbols[order[i]], tokens, ids);
    }
  }

  lemma WellFormedFrom(t: Table, symbols: seq<Symbol>, order: seq<nat>, ids: map<Name, nat>)
    requires |t.addresses| == |t.offsets| == |t.seqs| == t.numSyms == |symbols| == |order|
    requires Indices(symbols, order) && GoodTable(t.tokenTable, t.tokenIndex)
    requires forall i | 0 <= i < t.numSyms :: t.seqs[i] < t.numSyms
    requires forall i | 0 <= i < t.numSyms :: RecordHolds(t, i, symbols[order[i]], ids)
    ensures WellFormed(t)
  {
    hide GoodTable, Payload;
    forall i | 0 <= i < t.numSyms
      ensures RecordInside(t, i)
    {
      assert RecordHolds(t, i, symbols[order[i]], ids);
    }
  }

  lemma SeqsInRange(symbols: seq<Symbol>)
    ensures |AddrOrder(symbols)| == |symbols|
    ensures forall a | 0 <= a < |NameOrder(symbols)| :: NameOrder(symbols)[a] in AddrOrder(symbols)
    ensures forall j | 0 <= j < |Seqs(AddrOrder(symbols), NameOrder(symbols))| ::
              Seqs(AddrOrder(symbols), NameOrder(symbols))[j] < |symbols|
  {
    OrdersMeet(symbols);
  }

  lemma FewSymbols(symbols: seq<Symbol>, tokens: seq<Name>, ids: map<Name, nat>)
    requires Built(symbols, tokens, ids)
    ensures |symbols| < TWO32
  {
    OrdersMeet(symbols);
    RecordsLong(symbols, AddrOrder(symbols), ids);
  }

  lemma TokenBytes(tokens: seq<Name>)
    requires TokenList(tokens)
    ensures |Concat(tokens)| < TWO32 && AllBelow(TokenIndex(tokens), TWO32)
  {
    ConcatBound(tokens);
    forall i | 0 <= i < |tokens|
      ensures TokenIndex(tokens)[i] < TWO32
    {
      ConcatPart(tokens, i);
    }
  }

  lemma SegmentLengths(t: Table)
    ensures |UpToIndex(t)| <= 100 + |t.addresses| * 8 + |t.offsets| * 4 + |t.seqs| * 4 + |t.names| + |t.tokenTable|
                              + |t.tokenIndex| * 4
  {
    hide Words, LeBytes, Pad;
    assert |UpToAddresses(t)| <= 16 + 8 + |t.addresses| * 8;
    assert |UpToOffsets(t)| <= |UpToAddresses(t)| + 4 + |t.offsets| * 4;
    assert |UpToSeqs(t)| <= |UpToOffsets(t)| + 4 + |t.seqs| * 4;
    assert |UpToNames(t)| <= |UpToSeqs(t)| + 16 + |t.names|;
    assert |UpToTokens(t)| <= |UpToNames(t)| + 16 + |t.tokenTable|;
    assert |UpToIndexLen(t)| <= |UpToTokens(t)| + 16;
  }

  lemma WordsInRange(symbols: seq<Symbol>, ids: map<Name, nat>)
    requires GoodSymbols(symbols)
    ensures |AddrOrder(symbols)| == |NameOrder(symbols)| == |symbols| && Indices(symbols, AddrOrder(symbols))
    ensures forall a | 0 <= a < |NameOrder(symbols)| :: NameOrder(symbols)[a] in AddrOrder(symbols)
    ensures AllBelow(Addresses(symbols, AddrOrder(symbols)), TWO64)
    ensures AllBelow(Offsets(symbols, AddrOrder(symbols), ids), TWO32)
    ensures AllBelow(Seqs(AddrOrder(symbols), NameOrder(symbols)), TWO32)
  {
    OrdersMeet(symbols);
    hide Order, Records;
  }

  lemma TableStorable(symbols: seq<Symbol>, tokens: seq<Name>, ids: map<Name, nat>)
    requires Built(symbols, tokens, ids)
    ensures Storable(Compressed(symbols, tokens, ids))
  {
    FewSymbols(symbols, tokens, ids);
    TokenBytes(tokens);
    WordsInRange(symbols, ids);
    var t := Compressed(symbols, tokens, ids);
    SegmentLengths(t);
    hide Records, Order, UpToIndex, Concat, TokenIndex, MapOf, Position, AllBelow, Addresses, Offsets, Seqs,
      GoodSymbols;
  }

  /** Looking the place of the j-th name up in address order leads back to the same symbol. */
  lemma SeqLeadsBack(symbols: seq<Symbol>, j: nat)
    requires j < |symbols| < TWO32
    ensures |AddrOrder(symbols)| == |NameOrder(symbols)| == |symbols|
    ensures forall a | 0 <= a < |NameOrder(symbols)| :: NameOrder(symbols)[a] in AddrOrder(symbols)
    ensures var q := Seqs(AddrOrder(symbols), NameOrder(symbols))[j];
            q < |symbols| && AddrOrder(symbols)[q] == NameOrder(symbols)[j]
  {
    OrdersMeet(symbols);
    Modular.Small(Position(AddrOrder(symbols), NameOrder(symbols)[j]), TWO32);
  }

  /** The j-th name of the table is read from the j-th input name in order. */
  lemma NamesInOrder(symbols: seq<Symbol>, tokens: seq<Name>, ids: map<Name, nat>, t: Table)
    requires Built(symbols, tokens, ids) && t == Compressed(symbols, tokens, ids)
    ensures WellFormed(t) && |NameOrder(symbols)| == |symbols| == t.numSyms && Indices(symbols, NameOrder(symbols))
    ensures forall j | 0 <= j < |symbols| ::
              && Nth(t, j) == ReadAs(symbols[NameOrder(symbols)[j]].name, ids)
              && t.addresses[t.seqs[j]] == symbols[NameOrder(symbols)[j]].addr
  {
    hide Built;
    OrdersMeet(symbols);
    FewSymbols(symbols, tokens, ids);
    var order := AddrOrder(symbols);
    TableHolds(symbols, tokens, ids, order, t);
    forall j | 0 <= j < |symbols|
      ensures Nth(t, j) == ReadAs(symbols[NameOrder(symbols)[j]].name, ids)
      ensures t.addresses[t.seqs[j]] == symbols[NameOrder(symbols)[j]].addr
    {
      hide NameAt, Records, Offsets, Order, ReadAs, Concat, TokenIndex, Position, WellFormed;
      SeqLeadsBack(symbols, j);
    }
  }

  /** Without the last id every name is read as it is, and the names are sorted. */
  lemma NamesAreSorted(symbols: seq<Symbol>, tokens: seq<Name>, ids: map<Name, nat>, t: Table)
    requires Built(symbols, tokens, ids) && NoLastToken(symbols, ids) && t == Compressed(symbols, tokens, ids)
    ensures WellFormed(t) && |NameOrder(symbols)| == |symbols| == t.numSyms && Indices(symbols, NameOrder(symbols))
    ensures forall j | 0 <= j < |symbols| :: Nth(t, j) == symbols[NameOrder(symbols)[j]].name
    ensures NamesSorted(t)
    ensures forall i, j | 0 <= i < j < t.numSyms :: Nth(t, i) == Nth(t, j) || Lexically(Nth(t, i), Nth(t, j))
  {
    hide Built, NameAt, Nth, WellFormed, Order, Compressed, UsedId, NameLess, Lexically;
    NamesInOrder(symbols, tokens, ids, t);
    OrderCorrect(symbols, ByName, |symbols|);
    forall i, j | 0 <= i < j < t.numSyms
      ensures !NameLess(Nth(t, j), Nth(t, i))
      ensures Nth(t, i) == Nth(t, j) || Lexically(Nth(t, i), Nth(t, j))
    {
      assert Before(symbols, ByName, NameOrder(symbols)[i], NameOrder(symbols)[j]);
      NameTrichotomy(Nth(t, i), Nth(t, j));
      NameLessIsLexical(Nth(t, i), Nth(t, j));
    }
  }

  lemma AddressesAreSorted(symbols: seq<Symbol>, tokens: seq<Name>, ids: map<Name, nat>)
    ensures AddressesSorted(Compressed(symbols, tokens, ids))
  {
    OrdersMeet(symbols);
    OrderCorrect(symbols, ByAddr, |symbols|);
    var order := AddrOrder(symbols);
    forall i, j | 0 <= i < j < |order|
      ensures symbols[order[i]].addr <= symbols[order[j]].addr
    {
      assert Before(symbols, ByAddr, order[i], order[j]);
    }
  }

  /** The first place of a name in name order is its first occurrence in the input. */
  lemma FirstPlaceIsFirstInput(symbols: seq<Symbol>, order: seq<nat>, name: Name, j: nat)
    requires Ordered(symbols, ByName, order) && |order| == |symbols| && forall i: nat :: i in order <==> i < |symbols|
    requires j < |order| && symbols[order[j]].name == name
    requires forall i | 0 <= i < j :: symbols[order[i]].name != name
    ensures FirstMatch(symbols, name) == Some(symbols[order[j]].addr)
  {
    var first := order[j];
    forall k | 0 <= k < first
      ensures symbols[k].name != name
    {
      if symbols[k].name == name {
        assert k in order;
        var p := Position(order, k);
        if j < p {
          assert Before(symbols, ByName, order[j], order[p]);
          NameIrreflexive(name);
        }
        assert false;
      }
    }
    FirstMatchIs(symbols, name, first);
  }

  lemma NoPlaceNoInput(symbols: seq<Symbol>, order: seq<nat>, name: Name)
    requires Indices(symbols, order) && |order| == |symbols| && forall i: nat :: i in order <==> i < |symbols|
    requires forall j | 0 <= j < |order| :: symbols[order[j]].name != name
    ensures FirstMatch(symbols, name) == None
  {
    forall k | 0 <= k < |symbols|
      ensures symbols[k].name != name
    {
      assert k in order;
      assert symbols[order[Position(order, k)]].name != name;
    }
    NoMatch(symbols, name);
  }

  // ----- End to end

  /** Generates the blob of a symbol list, whatever order the token candidates come in. */
  method Generate(symbols: seq<Symbol>, candidates: seq<Name>) returns (blob: seq<byte>, ghost tokens: seq<Name>,
                                                                        ghost ids: map<Name, nat>)
    requires forall i | 0 <= i < |symbols| :: GoodName(symbols[i].name)
    requires forall c :: c in candidates ==> Candidate(symbols, c)
    ensures Selection(symbols, tokens) && SelectedFrom(candidates, tokens) && MapOf(tokens, ids)
    ensures blob == BlobBytes(Compressed(symbols, tokens, ids))
  {
    var b := new KallsymsBlob();
    tokens := b.CompressSymbols(symbols, candidates);
    ids := b.tokenMap;
    blob := b.ToBlob();
  }

  /** Parses the blob of a symbol list. */
  method OpenBlob(blob: seq<byte>, base: nat, stext: nat, etext: nat, ghost symbols: seq<Symbol>,
                  ghost tokens: seq<Name>, ghost ids: map<Name, nat>) returns (m: Mapped)
    requires Built(symbols, tokens, ids) && base % 8 == 0
    requires blob == BlobBytes(Compressed(symbols, tokens, ids))
    ensures m == Mapped(Compressed(symbols, tokens, ids), stext, etext)
  {
    hide Built, BlobBytes, Compressed, Storable, Parse;
    TableStorable(symbols, tokens, ids);
    BlobRoundTrip(Compressed(symbols, tokens, ids), base, stext, etext);
    var parsed := Parse(blob, base, stext, etext);
    return parsed.value;
  }

  /** A name written with the last id is read nowhere: its own records are read as no text. */
  lemma LostNameNowhere(symbols: seq<Symbol>, tokens: seq<Name>, ids: map<Name, nat>, t: Table, name: Name, j: nat)
    requires Built(symbols, tokens, ids) && t == Compressed(symbols, tokens, ids) && WellFormed(t) && j < t.numSyms
    requires UsedId(name, ids) == Some(511)
    ensures Nth(t, j) != name
  {
    hide Built, WellFormed, Nth;
    NamesInOrder(symbols, tokens, ids, t);
  }

  /**
    Parsing the blob and looking a name up. What is found is an address of a symbol with that
    name. When no name was written with the last id, the result is the address of the first
    symbol with the name, and nothing exactly when there is none; a name that was is never found.
  */
  method Resolve(blob: seq<byte>, base: nat, stext: nat, etext: nat, name: Name, ghost symbols: seq<Symbol>,
                 ghost tokens: seq<Name>, ghost ids: map<Name, nat>) returns (r: Option<nat>)
    requires Built(symbols, tokens, ids)
    requires blob == BlobBytes(Compressed(symbols, tokens, ids)) && base % 8 == 0
    ensures NoLastToken(symbols, ids) ==> r == FirstMatch(symbols, name)
    ensures UsedId(name, ids) == Some(511) ==> r == None
    ensures r.Some? && name != [] ==>
              exists k :: 0 <= k < |symbols| && symbols[k].name == name && symbols[k].addr == r.value
  {
    hide Built, BlobBytes, Compressed, WellFormed, NamesSorted, NameAt, Nth, Order, UsedId, NoLastToken, FirstMatch;
    var m := OpenBlob(blob, base, stext, etext, symbols, tokens, ids);
    NamesInOrder(symbols, tokens, ids, m.table);
    var found, first := LookupName(m.table, name);
    if found.Some? && UsedId(name, ids) == Some(511) {
      LostNameNowhere(symbols, tokens, ids, m.table, name, first);
    }
    if NoLastToken(symbols, ids) {
      NamesAreSorted(symbols, tokens, ids, m.table);
      OrderCorrect(symbols, ByName, |symbols|);
      if found.None? {
        NoPlaceNoInput(symbols, NameOrder(symbols), name);
      } else {
        FirstPlaceIsFirstInput(symbols, NameOrder(symbols), name, first);
      }
    }
    return found;
  }

  /** A run of places in name order, taken back to the input, is every symbol with the name. */
  lemma RunIsAllNamed(symbols: seq<Symbol>, order: seq<nat>, name: Name, low: nat, high: nat, i: nat)
    requires Indices(symbols, order) && |order| == |symbols| && forall k: nat :: k in order <==> k < |symbols|
    requires forall j | 0 <= j < |order| :: symbols[order[j]].name == name <==> low <= j <= high
    requires i < |symbols|
    ensures symbols[i].name == name <==> low <= Position(order, i) <= high
  {
    assert symbols[order[Position(order, i)]].name == symbols[i].name;
  }

  /** lookup_names on the blob: the run it returns holds exactly the symbols with the name. */
  method ResolveAll(blob: seq<byte>, base: nat, stext: nat, etext: nat, name: Name, ghost symbols: seq<Symbol>,
                    ghost tokens: seq<Name>, ghost ids: map<Name, nat>) returns (r: Option<(nat, nat)>)
    requires Built(symbols, tokens, ids) && NoLastToken(symbols, ids)
    requires blob == BlobBytes(Compressed(symbols, tokens, ids)) && base % 8 == 0
    ensures r.None? <==> forall i | 0 <= i < |symbols| :: symbols[i].name != name
    ensures forall i: nat :: i in NameOrder(symbols) <==> i < |symbols|
    ensures r.Some? ==> forall i: nat | i < |symbols| ::
              symbols[i].name == name <==> r.value.0 <= Position(NameOrder(symbols), i) <= r.value.1
  {
    hide Built, BlobBytes, Compressed, WellFormed, NamesSorted, NameAt, Nth, Order, Position, Ordered, NoLastToken;
    ghost var order := NameOrder(symbols);
    var m := OpenBlob(blob, base, stext, etext, symbols, tokens, ids);
    NamesAreSorted(symbols, tokens, ids, m.table);
    OrderCorrect(symbols, ByName, |symbols|);
    r := LookupNames(m.table, name, true);
    forall i: nat | i < |symbols|
      ensures r.None? ==> symbols[i].name != name
      ensures r.Some? ==> (symbols[i].name == name <==> r.value.0 <= Position(order, i) <= r.value.1)
    {
      assert symbols[order[Position(order, i)]].name == symbols[i].name;
      if r.Some? {
        RunIsAllNamed(symbols, order, name, r.value.0, r.value.1, i);
      }
    }
    if r.Some? {
      assert symbols[order[r.value.0]].name == name;
    }
  }

  /**
    lookup_address on the blob. `i` is the input symbol it answers with: one at the greatest
    address not above; on an exact hit the first in the input at that address, else the last, as
    the step back to the first alias compares with `addr`. The offset underflows exactly when an
    address of the text lies below every symbol.
  */
  method ResolveAddress(blob: seq<byte>, base: nat, stext: nat, etext: nat, addr: nat, ghost symbols: seq<Symbol>,
                        ghost tokens: seq<Name>, ghost ids: map<Name, nat>) returns (r: Answer, ghost i: nat)
    requires Built(symbols, tokens, ids)
    requires blob == BlobBytes(Compressed(symbols, tokens, ids)) && base % 8 == 0
    ensures r.Absent? <==> !(stext <= addr < etext && symbols != [])
    ensures r.Underflow? <==>
              stext <= addr < etext && symbols != [] && forall k | 0 <= k < |symbols| :: addr < symbols[k].addr
    ensures r.Found? ==>
              && i < |symbols| && symbols[i].addr <= addr
              && (forall k | 0 <= k < |symbols| && symbols[k].addr <= addr :: symbols[k].addr <= symbols[i].addr)
              && (forall k | 0 <= k < |symbols| && symbols[k].addr == addr :: i <= k)
              && (symbols[i].addr != addr ==>
                    forall k | 0 <= k < |symbols| && symbols[k].addr == symbols[i].addr :: k <= i)
              && r.name == ReadAs(symbols[i].name, ids) && r.ty == symbols[i].ty
              && r.offset == addr - symbols[i].addr && r.offset < r.size
              && EndsAt(symbols, etext, symbols[i].addr, symbols[i].addr + r.size)
  {
    hide Built, BlobBytes, Compressed, WellFormed, AddressesSorted, NameAt, TypeAt, Order, Position, ReadAs, IsEnd,
      EndsAt, Before;
    ghost var order := AddrOrder(symbols);
    var m := OpenBlob(blob, base, stext, etext, symbols, tokens, ids);
    ghost var t := m.table;
    AddressesAreSorted(symbols, tokens, ids);
    TableHolds(symbols, tokens, ids, order, t);
    OrderCorrect(symbols, ByAddr, |symbols|);
    AddressesByOrder(symbols, tokens, ids, order, t, addr);
    ghost var low, end;
    r, low, end := LookupAddress(m, addr);
    i := 0;
    if r.Found? {
      i := order[low];
      AnswerInInput(symbols, order, t, addr, low);
      EndInInput(symbols, order, m, symbols[i].addr, end);
      assert r.name == ReadAs(symbols[i].name, ids);
    }
  }

  /** Where a symbol at `start` ends: the next greater address in the input, or the text's end. */
  ghost predicate EndsAt(symbols: seq<Symbol>, etext: nat, start: nat, end: nat) {
    if forall k | 0 <= k < |symbols| :: symbols[k].addr <= start then end == etext
    else start < end && (exists k :: 0 <= k < |symbols| && symbols[k].addr == end)
         && forall k | 0 <= k < |symbols| && symbols[k].addr > start :: end <= symbols[k].addr
  }

  lemma AddressesByOrder(symbols: seq<Symbol>, tokens: seq<Name>, ids: map<Name, nat>, order: seq<nat>, t: Table,
         addr: nat)
    requires order == AddrOrder(symbols) && t == Compressed(symbols, tokens, ids)
    ensures |t.addresses| == |order| == |symbols| && Indices(symbols, order)
    ensures forall j | 0 <= j < |symbols| :: t.addresses[j] == symbols[order[j]].addr
    ensures (exists k :: 0 <= k < |symbols| && symbols[k].addr <= addr) ==> t.addresses[0] <= addr
    ensures symbols != [] ==> t.addresses[0] == symbols[order[0]].addr
  {
    OrdersMeet(symbols);
    OrderCorrect(symbols, ByAddr, |symbols|);
    if k :| 0 <= k < |symbols| && symbols[k].addr <= addr {
      assert k in order;
      var p := Position(order, k);
      if p > 0 {
        assert Before(symbols, ByAddr, order[0], order[p]);
      }
    }
  }

  lemma AnswerInInput(symbols: seq<Symbol>, order: seq<nat>, t: Table, addr: nat, low: nat)
    requires Ordered(symbols, ByAddr, order) && |t.addresses| == |order| == |symbols|
    requires forall k: nat :: k in order <==> k < |symbols|
    requires forall j | 0 <= j < |symbols| :: t.addresses[j] == symbols[order[j]].addr
    requires low < |symbols| && t.addresses[low] <= addr
    requires forall j | 0 <= j < |symbols| && t.addresses[j] <= addr :: t.addresses[j] <= t.addresses[low]
    requires forall j | 0 <= j < |symbols| && t.addresses[j] == addr :: low <= j
    requires t.addresses[low] != addr ==> forall j | low < j < |symbols| :: t.addresses[j] > addr
    ensures forall k | 0 <= k < |symbols| && symbols[k].addr <= addr :: symbols[k].addr <= symbols[order[low]].addr
    ensures forall k | 0 <= k < |symbols| && symbols[k].addr == addr :: order[low] <= k
    ensures var i := order[low];
            symbols[i].addr != addr ==> forall k | 0 <= k < |symbols| && symbols[k].addr == symbols[i].addr :: k <= i
  {
    hide Before;
    forall k | 0 <= k < |symbols|
      ensures symbols[k].addr <= addr ==> symbols[k].addr <= symbols[order[low]].addr
      ensures symbols[k].addr == addr ==> order[low] <= k
      ensures symbols[k].addr == symbols[order[low]].addr != addr ==> k <= order[low]
    {
      assert k in order;
      var p := Position(order, k);
      assert t.addresses[p] == symbols[k].addr;
      if symbols[k].addr == symbols[order[low]].addr {
        SameAddress(symbols, order, low, p);
      }
    }
  }

  /** Symbols at one address lie in address order as they do in the input. */
  lemma SameAddress(symbols: seq<Symbol>, order: seq<nat>, a: nat, b: nat)
    requires Ordered(symbols, ByAddr, order) && a < |order| && b < |order|
    requires symbols[order[a]].addr == symbols[order[b]].addr
    ensures a < b ==> order[a] < order[b]
    ensures b < a ==> order[b] < order[a]
  {
    if a < b {
      assert Before(symbols, ByAddr, order[a], order[b]);
    } else if b < a {
      assert Before(symbols, ByAddr, order[b], order[a]);
    }
  }

  lemma EndInInput(symbols: seq<Symbol>, order: seq<nat>, m: Mapped, start: nat, end: nat)
    requires Indices(symbols, order) && |m.table.addresses| == |order| == |symbols|
    requires forall k: nat :: k in order <==> k < |symbols|
    requires forall j | 0 <= j < |symbols| :: m.table.addresses[j] == symbols[order[j]].addr
    requires IsEnd(m, start, end)
    ensures EndsAt(symbols, m.etext, start, end)
  {
    var a := m.table.addresses;
    forall k | 0 <= k < |symbols|
      ensures a[Position(order, (assert k in order; k))] == symbols[k].addr
    {
    }
    if forall j | 0 <= j < |a| :: a[j] <= start {
      forall k | 0 <= k < |symbols|
        ensures symbols[k].addr <= start
      {
        assert a[Position(order, (assert k in order; k))] == symbols[k].addr;
      }
    } else {
      var j :| 0 <= j < |a| && a[j] > start;
      assert symbols[order[j]].addr > start;
      var e :| 0 <= e < |a| && a[e] == end;
      assert symbols[order[e]].addr == end;
    }
  }

  // ----- From the symbols to the answer

  /** What the records of the symbols take when no name is shortened. */
  function PlainSize(symbols: seq<Symbol>): nat {
    if symbols == [] then 0 else PlainSize(symbols[..|symbols| - 1]) + PREFIX_LEN + |symbols[|symbols| - 1].name|
  }

  /** The same for the symbols in some order. */
  function OrderSize(symbols: seq<Symbol>, order: seq<nat>): nat
    requires Indices(symbols, order)
  {
    if order == [] then 0 else PREFIX_LEN + |symbols[order[0]].name| + OrderSize(symbols, order[1..])
  }

  lemma {:induction false} InsertSize(symbols: seq<Symbol>, key: Key, s: seq<nat>, x: nat)
    requires Indices(symbols, s) && x < |symbols|
    ensures OrderSize(symbols, Insert(symbols, key, s, x)) == OrderSize(symbols, s) + PREFIX_LEN + |symbols[x].name|
  {
    hide Before;
    if s != [] && !Before(symbols, key, x, s[0]) {
      InsertSize(symbols, key, s[1..], x);
      assert Insert(symbols, key, s, x)[1..] == Insert(symbols, key, s[1..], x);
    } else {
      assert Insert(symbols, key, s, x)[1..] == s;
    }
  }

  /** An order takes as much as the input. */
  lemma {:induction false} OrderSizeIsPlain(symbols: seq<Symbol>, key: Key, n: nat)
    requires n <= |symbols|
    ensures OrderSize(symbols, Order(symbols, key, n)) == PlainSize(symbols[..n])
  {
    hide Insert, OrderSize;
    if n > 0 {
      OrderSizeIsPlain(symbols, key, n - 1);
      InsertSize(symbols, key, Order(symbols, key, n - 1), n - 1);
      assert symbols[..n][..n - 1] == symbols[..n - 1];
    } else {
      NothingOrdered(symbols);
    }
  }

  lemma NothingOrdered(symbols: seq<Symbol>)
    ensures OrderSize(symbols, []) == 0
  {
  }

  lemma {:induction false} OrderSizeSnoc(symbols: seq<Symbol>, order: seq<nat>, x: nat)
    requires Indices(symbols, order) && x < |symbols|
    ensures OrderSize(symbols, order + [x]) == OrderSize(symbols, order) + PREFIX_LEN + |symbols[x].name|
  {
    if order != [] {
      OrderSizeSnoc(symbols, order[1..], x);
      assert (order + [x])[1..] == order[1..] + [x] && (order + [x])[0] == order[0];
    } else {
      assert (order + [x])[1..] == [];
    }
  }

  lemma {:induction false} RecordsShort(symbols: seq<Symbol>, order: seq<nat>, ids: map<Name, nat>)
    requires Indices(symbols, order)
    ensures |Records(symbols, order, ids)| <= OrderSize(symbols, order)
  {
    hide Payload, OrderSize, LeBytes;
    if order != [] {
      var n := |order| - 1;
      RecordsShort(symbols, order[..n], ids);
      ShortPayload(symbols[order[n]].name, ids);
      OrderSizeSnoc(symbols, order[..n], order[n]);
      assert order[..n] + [order[n]] == order;
    } else {
      NothingOrdered(symbols);
    }
  }

  /** The table has fewer tokens than MAX_TOKEN, or its last is too short ever to be looked for. */
  predicate LastTokenUnused(tokens: seq<Name>) {
    |tokens| < MAX_TOKEN || |tokens[MAX_TOKEN - 1]| < CANDIDATE_LENS[0]
  }

  /** As a table shows it: the last index is missing, or less than ten bytes from the end of the tokens. */
  predicate LastIdUnused(t: Table) {
    |t.tokenIndex| < MAX_TOKEN || |t.tokenTable| - t.tokenIndex[MAX_TOKEN - 1] < CANDIDATE_LENS[0]
  }

  lemma LastTokenInTable(symbols: seq<Symbol>, tokens: seq<Name>, ids: map<Name, nat>)
    requires TokenList(tokens)
    ensures LastIdUnused(Compressed(symbols, tokens, ids)) <==> LastTokenUnused(tokens)
  {
    hide CANDIDATE_LENS, Concat, TokenIndex, IsAscii, Records, Offsets, Seqs, Addresses, Order;
    if |tokens| == MAX_TOKEN {
      TableGivesToken(tokens, MAX_TOKEN - 1);
    }
  }

  /**
    Some name is written with the last id exactly when there is a last id with a token that is
    long enough: the symbol it was taken from is, as no longer token begins that symbol's name.
  */
  lemma LastTokenExact(symbols: seq<Symbol>, tokens: seq<Name>, ids: map<Name, nat>)
    requires Selection(symbols, tokens) && MapOf(tokens, ids)
    ensures NoLastToken(symbols, ids) <==> LastTokenUnused(tokens)
  {
    hide TokenPrefix, CANDIDATE_LENS, IsAscii;
    if LastTokenUnused(tokens) {
      forall i | 0 <= i < |symbols|
        ensures UsedId(symbols[i].name, ids) != Some(511)
      {
        var l := TokenPrefix(symbols[i].name, ids);
        assert l > 0 ==> symbols[i].name[..l] in ids;
        LenAtLeast(symbols[i].name, ids);
      }
    } else {
      var last := tokens[511];
      assert Candidate(symbols, last);
      var k :| 0 <= k < |symbols| && CandidateOf(symbols[k].name, last);
      LastTokenIsUsed(symbols[k].name, tokens, ids);
    }
  }

  lemma LenAtLeast(name: Name, ids: map<Name, nat>)
    ensures TokenPrefix(name, ids) == 0 || TokenPrefix(name, ids) >= CANDIDATE_LENS[0]
  {
  }

  lemma LastTokenIsUsed(name: Name, tokens: seq<Name>, ids: map<Name, nat>)
    requires MapOf(tokens, ids) && |tokens| == MAX_TOKEN && CandidateOf(name, tokens[511])
    requires |tokens[511]| >= CANDIDATE_LENS[0]
    requires forall i, j | 0 <= i < j < |tokens| :: !(tokens[j] <= tokens[i])
    ensures UsedId(name, ids) == Some(511)
  {
    hide TokenPrefix, CANDIDATE_LENS;
    var last := tokens[511];
    assert name[..|last|] == last;
    NoLonger(name, ids);
    var l := TokenPrefix(name, ids);
    var used := name[..l];
    assert used in ids && last <= used;
    assert forall i | 0 <= i < 511 :: tokens[i] != used;
  }

  /** The `i`-th of 512 names of ten bytes, none the beginning of another. */
  function TenBytes(i: nat): (name: Name)
    requires i < MAX_TOKEN
    ensures |name| == 10 && GoodName(name)
  {
    [i / 128, i % 128] + seq(8, _ => 0)
  }

  lemma TenBytesApart(i: nat, j: nat)
    requires i < j < MAX_TOKEN
    ensures TenBytes(i) != TenBytes(j)
  {
    var a, b := TenBytes(i), TenBytes(j);
    assert a[0] != b[0] || a[1] != b[1];
  }

  lemma SizeFits(symbols: seq<Symbol>, ids: map<Name, nat>)
    ensures Indices(symbols, AddrOrder(symbols))
    ensures |Records(symbols, AddrOrder(symbols), ids)| <= PlainSize(symbols)
  {
    hide Records, Order, OrderSize, PlainSize;
    OrdersMeet(symbols);
    OrderSizeIsPlain(symbols, ByAddr, |symbols|);
    assert symbols[..|symbols|] == symbols;
    RecordsShort(symbols, AddrOrder(symbols), ids);
  }

  /**
    Generator and reader together, for any symbols the format can carry and token candidates in
    any order. When the blob's table shows the last id unused, looking a name up in the blob gives
    the address of the first symbol with that name, and nothing exactly when there is none. Else
    some symbol's name was written with that id, and such a name is not found.
  */
  method GenerateAndResolve(symbols: seq<Symbol>, candidates: seq<Name>, base: nat, stext: nat, etext: nat, name: Name)
    returns (blob: seq<byte>, r: Option<nat>, ghost tokens: seq<Name>, ghost ids: map<Name, nat>)
    requires GoodSymbols(symbols) && PlainSize(symbols) < TWO32 && base % 8 == 0
    requires forall c :: c in candidates ==> Candidate(symbols, c)
    ensures Selection(symbols, tokens) && MapOf(tokens, ids) && blob == BlobBytes(Compressed(symbols, tokens, ids))
    ensures Parse(blob, base, stext, etext).Ok?
    ensures LastIdUnused(Parse(blob, base, stext, etext).value.table) ==> r == FirstMatch(symbols, name)
    ensures !LastIdUnused(Parse(blob, base, stext, etext).value.table) ==>
              exists k :: 0 <= k < |symbols| && UsedId(symbols[k].name, ids) == Some(511)
    ensures UsedId(name, ids) == Some(511) ==> r == None
  {
    hide Candidate, BlobBytes, Compressed, Order, FirstMatch, TokenList, MapOf, Records, UsedId, LastTokenUnused, Parse,
      LastIdUnused, Storable, SelectedFrom, PlainSize;
    blob, tokens, ids := Generate(symbols, candidates);
    OrdersMeet(symbols);
    SizeFits(symbols, ids);
    LastTokenExact(symbols, tokens, ids);
    LastTokenInTable(symbols, tokens, ids);
    TableStorable(symbols, tokens, ids);
    BlobRoundTrip(Compressed(symbols, tokens, ids), base, stext, etext);
    r := Resolve(blob, base, stext, etext, name, symbols, tokens, ids);
  }

  // ----- The last id is used

  /** The symbols have the 512 names of ten bytes. */
  predicate TenByteNames(symbols: seq<Symbol>) {
    |symbols| == MAX_TOKEN && forall i | 0 <= i < MAX_TOKEN :: symbols[i].name == TenBytes(i)
  }

  /** Their only candidates are the names themselves. */
  lemma TenByteCandidate(symbols: seq<Symbol>, c: Name)
    requires TenByteNames(symbols)
    ensures Candidate(symbols, c) <==> exists i :: 0 <= i < MAX_TOKEN && c == TenBytes(i)
  {
    hide TenBytes;
    Shortest();
    if i :| 0 <= i < MAX_TOKEN && c == TenBytes(i) {
      assert CandidateOf(symbols[i].name, c);
    }
    if i :| 0 <= i < |symbols| && CandidateOf(symbols[i].name, c) {
      assert c == TenBytes(i);
    }
  }

  /** No candidate length is below ten, and ten is one. */
  lemma Shortest()
    ensures CANDIDATE_LENS != [] && CANDIDATE_LENS[0] == 10 && 10 in CANDIDATE_LENS
    ensures forall l | l in CANDIDATE_LENS :: l >= 10
  {
  }

  /** The first `n` of the names. */
  function TenByteSet(n: nat): set<Name>
    requires n <= MAX_TOKEN
  {
    if n == 0 then {} else TenByteSet(n - 1) + {TenBytes(n - 1)}
  }

  lemma {:induction false} WhichTenBytes(n: nat, name: Name) returns (i: nat)
    requires n <= MAX_TOKEN && name in TenByteSet(n)
    ensures i < n && name == TenBytes(i)
  {
    hide TenBytes;
    if name == TenBytes(n - 1) {
      i := n - 1;
    } else {
      i := WhichTenBytes(n - 1, name);
    }
  }

  lemma {:induction false} TenByteCount(n: nat)
    requires n <= MAX_TOKEN
    ensures |TenByteSet(n)| == n
  {
    hide TenBytes;
    if n > 0 {
      TenByteCount(n - 1);
      if TenBytes(n - 1) in TenByteSet(n - 1) {
        var i := WhichTenBytes(n - 1, TenBytes(n - 1));
        TenBytesApart(i, n - 1);
        assert false;
      }
    }
  }

  function Members<T(!new)>(s: seq<T>): (r: set<T>)
    ensures |r| <= |s|
    ensures forall x :: x in r <==> x in s
  {
    if s == [] then {} else Members(s[1..]) + {s[0]}
  }

  /** Whatever the order of the candidates, all 512 names are selected, and the last id with them. */
  lemma AllTenBytesSelected(symbols: seq<Symbol>, candidates: seq<Name>, tokens: seq<Name>, ids: map<Name, nat>)
    requires TenByteNames(symbols) && forall c :: c in candidates <==> Candidate(symbols, c)
    requires Selection(symbols, tokens) && SelectedFrom(candidates, tokens) && MapOf(tokens, ids)
    ensures |tokens| == MAX_TOKEN && !NoLastToken(symbols, ids)
    ensures exists i :: 0 <= i < MAX_TOKEN && tokens[511] == TenBytes(i)
  {
    hide TenBytes, Candidate, TenByteNames, MapOf, CANDIDATE_LENS;
    forall t | t in tokens
      ensures exists i :: 0 <= i < MAX_TOKEN && t == TenBytes(i)
    {
      TenByteCandidate(symbols, t);
    }
    if |tokens| < MAX_TOKEN {
      forall name | name in TenByteSet(MAX_TOKEN)
        ensures name in Members(tokens)
      {
        var k := WhichTenBytes(MAX_TOKEN, name);
        TenByteCandidate(symbols, name);
        assert IsStart(name, tokens);
        var i :| 0 <= i < |tokens| && name <= tokens[i];
        assert tokens[i] in tokens && name == tokens[i];
      }
      TenByteCount(MAX_TOKEN);
      Subset(TenByteSet(MAX_TOKEN), Members(tokens));
      assert false;
    }
    Shortest();
    assert tokens[MAX_TOKEN - 1] in tokens;
    LastTokenExact(symbols, tokens, ids);
  }

  lemma {:induction false} Subset<T>(a: set<T>, b: set<T>)
    requires a <= b
    ensures |a| <= |b|
  {
    assert b == a + (b - a);
  }

  /** The name of the last token is the one that is written with its id, and no place is read as it. */
  lemma LastNameLost(symbols: seq<Symbol>, tokens: seq<Name>, ids: map<Name, nat>, t: Table, name: Name)
    requires Built(symbols, tokens, ids) && Selection(symbols, tokens) && t == Compressed(symbols, tokens, ids)
    requires |tokens| == MAX_TOKEN && name == tokens[511] && |name| == 10
    ensures WellFormed(t) && t.numSyms == |symbols| && UsedId(name, ids) == Some(511)
    ensures forall j | 0 <= j < t.numSyms :: Nth(t, j) != name
  {
    Shortest();
    hide CANDIDATE_LENS, Candidate, WellFormed, Nth, UsedId, Compressed, Order;
    NamesInOrder(symbols, tokens, ids, t);
    LastTokenIsUsed(name, tokens, ids);
    forall j | 0 <= j < t.numSyms
      ensures Nth(t, j) != name
    {
      LostNameNowhere(symbols, tokens, ids, t, name, j);
    }
  }

  /** The token with the last id, as a table holds it. */
  lemma LastTokenOf(symbols: seq<Symbol>, tokens: seq<Name>, ids: map<Name, nat>, t: Table)
    requires |tokens| == MAX_TOKEN && t == Compressed(symbols, tokens, ids)
    ensures |t.tokenIndex| == MAX_TOKEN && t.tokenIndex[511] <= |t.tokenTable|
    ensures t.tokenTable[t.tokenIndex[511]..] == tokens[511]
  {
    hide Concat, TokenIndex, Records, Offsets, Seqs, Addresses, Order;
    TableGivesToken(tokens, 511);
    assert t.tokenTable[t.tokenIndex[511]..|t.tokenTable|] == t.tokenTable[t.tokenIndex[511]..];
  }

  lemma TenBytesBuilt(symbols: seq<Symbol>, tokens: seq<Name>, ids: map<Name, nat>)
    requires TenByteNames(symbols) && (forall i | 0 <= i < |symbols| :: symbols[i].addr < TWO64)
    requires Selection(symbols, tokens) && MapOf(tokens, ids)
    ensures Built(symbols, tokens, ids)
  {
    hide Records, Order, MapOf, TenBytes, Candidate, PlainSize;
    SizeFits(symbols, ids);
    TenBytesSize(symbols, |symbols|);
    assert symbols[..|symbols|] == symbols;
  }

  lemma {:induction false} TenBytesSize(symbols: seq<Symbol>, n: nat)
    requires TenByteNames(symbols) && n <= |symbols|
    ensures PlainSize(symbols[..n]) == 13 * n
  {
    hide TenBytes;
    if n > 0 {
      TenBytesSize(symbols, n - 1);
      assert symbols[..n][..n - 1] == symbols[..n - 1];
    }
  }

  /**
    It does happen. From symbols with the 512 names the generator, given all their candidates in
    any order, makes a blob that a reader opens and in which no place is read as `lost`, the name
    of one of them: looking it up finds nothing.
  */
  method LastTokenHappens(symbols: seq<Symbol>, candidates: seq<Name>, base: nat, stext: nat, etext: nat)
    returns (blob: seq<byte>, lost: Name, r: Option<nat>)
    requires TenByteNames(symbols) && (forall i | 0 <= i < |symbols| :: symbols[i].addr < TWO64) && base % 8 == 0
    requires forall c :: c in candidates <==> Candidate(symbols, c)
    ensures exists i :: 0 <= i < |symbols| && symbols[i].name == lost
    ensures Parse(blob, base, stext, etext).Ok?
    ensures var t := Parse(blob, base, stext, etext).value.table;
            WellFormed(t) && t.numSyms == |symbols| && forall j | 0 <= j < t.numSyms :: Nth(t, j) != lost
    ensures r == None
  {
    hide Candidate, BlobBytes, Compressed, Order, Selection, SelectedFrom, MapOf, Records, UsedId, Parse, Storable,
      WellFormed, Nth, Built, TenBytes, NoLastToken;
    ghost var tokens, ids;
    blob, tokens, ids := Generate(symbols, candidates);
    AllTenBytesSelected(symbols, candidates, tokens, ids);
    TenBytesBuilt(symbols, tokens, ids);
    TableStorable(symbols, tokens, ids);
    BlobRoundTrip(Compressed(symbols, tokens, ids), base, stext, etext);
    var t := Parse(blob, base, stext, etext).value.table;
    LastTokenOf(symbols, tokens, ids, t);
    lost := t.tokenTable[t.tokenIndex[511]..];
    LastNameLost(symbols, tokens, ids, t, lost);
    r := Resolve(blob, base, stext, etext, lost, symbols, tokens, ids);
  }
}
