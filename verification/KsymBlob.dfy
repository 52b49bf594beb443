/**
  The binary form of the symbol table: written by to_blob with padding by length, read by
  from_blob with alignment by address (ksym/src/bin/gen_ksym.rs, ksym/src/lib.rs).
*/
module KsymBlob {
  import opened Bytes
  import Modular

  /** The arrays of the table, as the generator fills them and as the reader sees them. */
  datatype Table = Table(tokenTable: seq<byte>, tokenIndex: seq<nat>, names: seq<byte>, offsets: seq<nat>,
                         seqs: seq<nat>, addresses: seq<nat>, numSyms: nat)

  /** The reader's view: the table and the bounds of the text section. */
  datatype Mapped = Mapped(table: Table, stext: nat, etext: nat)

  datatype ParseError = TooSmall | LengthMismatch | NumSymsMissing | AddressesMissing | OffsetsMissing | SeqsMissing
    | NamesLenMissing | NamesMissing | TokensLenMissing | TokensMissing | IndexLenMissing | IndexMissing

  // ----- Words

  function Words(ws: seq<nat>, width: nat): (s: seq<byte>)
    ensures |s| == |ws| * width
  {
    if ws == [] then [] else Words(ws[..|ws| - 1], width) + LeBytes(ws[|ws| - 1], width)
  }

  /** The words of an array segment, by the same steps from its end. */
  function ReadWords(s: seq<byte>, width: nat): seq<nat>
    requires width > 0
  {
    if |s| < width then [] else ReadWords(s[..|s| - width], width) + [LeNat(s[|s| - width..])]
  }

  lemma {:induction false} WordsRoundTrip(ws: seq<nat>, width: nat)
    requires width in {1, 2, 4, 8} && forall i | 0 <= i < |ws| :: ws[i] < Values(width)
    ensures ReadWords(Words(ws, width), width) == ws
  {
    hide LeBytes, LeNat, Values;
    if ws != [] {
      var n := |ws| - 1;
      var s, init := Words(ws, width), Words(ws[..n], width);
      assert s[..|s| - width] == init;
      assert s[|s| - width..] == LeBytes(ws[n], width);
      WordsRoundTrip(ws[..n], width);
      LeExact(ws[n], width);
      assert ReadWords(s, width) == ws[..n] + [ws[n]];
    } else {
      assert Words(ws, width) == [];
    }
  }

  // ----- Padding and alignment

  function PadLen(len: nat, align: nat): (n: nat)
    requires align > 0
    ensures n < align
  {
    if len % align == 0 then 0 else align - len % align
  }

  function Pad(s: seq<byte>, align: nat): (r: seq<byte>)
    requires align > 0
    ensures s <= r && |r| == |s| + PadLen(|s|, align)
  {
    s + seq(PadLen(|s|, align), i => 0)
  }

  /** `(base + off + align - 1) & !(align - 1) - base`, for an align that is a power of two. */
  function AlignOff(base: nat, align: nat, off: nat): int
    requires align > 0
  {
    (base + off + align - 1) / align * align - base
  }

  /** At an aligned base the reader skips exactly the writer's padding. */
  lemma AlignSkipsPadding(base: nat, align: nat, off: nat)
    requires align in {4, 8} && base % 8 == 0
    ensures AlignOff(base, align, off) == off + PadLen(off, align)
  {
    var k := if align == 8 then base / 8 else 2 * (base / 8);
    assert base == align * k;
    var x, q, r := base + off + align - 1, off / align, off % align;
    assert off == align * q + r;
    if r == 0 {
      assert x == align * (k + q) + (align - 1);
      DivModUnique(x, align, k + q, align - 1);
    } else {
      assert x == align * (k + q + 1) + (r - 1);
      DivModUnique(x, align, k + q + 1, r - 1);
    }
  }

  // ----- Writing

  function Section(s: seq<byte>, align: nat, data: seq<byte>): (r: seq<byte>)
    requires align > 0
    ensures s <= r && |r| == |s| + PadLen(|s|, align) + |data|
  {
    Pad(s, align) + data
  }

  function Counted(data: seq<byte>): seq<byte> {
    LeBytes(|data|, 8) + data
  }

  function Start(t: Table): seq<byte> { LeBytes(0, 8) + LeBytes(t.numSyms, 8) }
  function UpToAddresses(t: Table): seq<byte> { Section(Start(t), 8, Words(t.addresses, 8)) }
  function UpToOffsets(t: Table): seq<byte> { Section(UpToAddresses(t), 4, Words(t.offsets, 4)) }
  function UpToSeqs(t: Table): seq<byte> { Section(UpToOffsets(t), 4, Words(t.seqs, 4)) }
  function UpToNames(t: Table): seq<byte> { Section(UpToSeqs(t), 8, Counted(t.names)) }
  function UpToTokens(t: Table): seq<byte> { Section(UpToNames(t), 8, Counted(t.tokenTable)) }
  function UpToIndexLen(t: Table): seq<byte> { Section(UpToTokens(t), 8, LeBytes(|t.tokenIndex|, 8)) }
  function UpToIndex(t: Table): seq<byte> { Section(UpToIndexLen(t), 4, Words(t.tokenIndex, 4)) }

  /** The whole blob: the length patched over the first eight bytes. */
  function BlobBytes(t: Table): seq<byte> {
    LeBytes(|UpToIndex(t)|, 8) + UpToIndex(t)[8..]
  }

  // ----- Reading

  function Parse(blob: seq<byte>, base: nat, stext: nat, etext: nat): Result<Mapped, ParseError> {
    if |blob| < 8 then Err(TooSmall)
    else if LeNat(blob[0..8]) != |blob| then Err(LengthMismatch)
    else if 16 > |blob| then Err(NumSymsMissing)
    else
      var num := LeNat(blob[8..16]);
      var addrOff := AlignOff(base, 8, 16);
      if addrOff + num * 8 > |blob| then Err(AddressesMissing) else
      var offOff := AlignOff(base, 4, addrOff + num * 8);
      if offOff + num * 4 > |blob| then Err(OffsetsMissing) else
      var seqOff := AlignOff(base, 4, offOff + num * 4);
      if seqOff + num * 4 > |blob| then Err(SeqsMissing) else
      var namesLenOff := AlignOff(base, 8, seqOff + num * 4);
      if namesLenOff + 8 > |blob| then Err(NamesLenMissing) else
      var namesLen := LeNat(blob[namesLenOff..namesLenOff + 8]);
      var namesOff := namesLenOff + 8;
      if namesOff + namesLen > |blob| then Err(NamesMissing) else
      var tokLenOff := AlignOff(base, 8, namesOff + namesLen);
      if tokLenOff + 8 > |blob| then Err(TokensLenMissing) else
      var tokLen := LeNat(blob[tokLenOff..tokLenOff + 8]);
      var tokOff := tokLenOff + 8;
      if tokOff + tokLen > |blob| then Err(TokensMissing) else
      var idxLenOff := AlignOff(base, 8, tokOff + tokLen);
      if idxLenOff + 8 > |blob| then Err(IndexLenMissing) else
      var idxLen := LeNat(blob[idxLenOff..idxLenOff + 8]);
      var idxOff := AlignOff(base, 4, idxLenOff + 8);
      if idxOff + idxLen * 4 > |blob| then Err(IndexMissing) else
      Ok(Mapped(Table(blob[tokOff..tokOff + tokLen], ReadWords(blob[idxOff..idxOff + idxLen * 4], 4),
                      blob[namesOff..namesOff + namesLen], ReadWords(blob[offOff..offOff + num * 4], 4),
                      ReadWords(blob[seqOff..seqOff + num * 4], 4), ReadWords(blob[addrOff..addrOff + num * 8], 8),
                        num), stext, etext))
  }

  // ----- Round trip

  /** The blob continues `s`, whose first eight bytes the length has replaced. */
  predicate Continues(blob: seq<byte>, s: seq<byte>) {
    8 <= |s| <= |blob| && blob[8..|s|] == s[8..]
  }

  /** `data` is where a reader that has come to `before` looks next, and it ends at `after`. */
  predicate Segment(blob: seq<byte>, base: nat, before: nat, align: nat, data: seq<byte>, after: nat)
    requires align > 0
  {
    var off := AlignOff(base, align, before);
    off >= 8 && off + |data| == after <= |blob| && blob[off..after] == data
  }

  lemma SectionRead(blob: seq<byte>, base: nat, s: seq<byte>, align: nat, data: seq<byte>)
    requires align in {4, 8} && base % 8 == 0 && |s| >= 8
    requires Continues(blob, Section(s, align, data))
    ensures Segment(blob, base, |s|, align, data, |Section(s, align, data)|)
    ensures Continues(blob, s)
  {
    hide AlignOff;
    AlignSkipsPadding(base, align, |s|);
    var whole := Section(s, align, data);
    var off := |Pad(s, align)|;
    assert whole[8..][off - 8..off - 8 + |data|] == data;
    assert blob[8..|whole|][off - 8..off - 8 + |data|] == blob[off..off + |data|];
    assert blob[8..|s|] == blob[8..|whole|][..|s| - 8];
    assert whole[8..][..|s| - 8] == s[8..];
  }

  lemma CountedLong(data: seq<byte>)
    ensures |Counted(data)| == 8 + |data|
  {
  }

  lemma CountedRead(blob: seq<byte>, off: nat, data: seq<byte>)
    requires off + 8 + |data| <= |blob| && |data| < TWO64
    requires blob[off..off + 8 + |data|] == Counted(data)
    ensures LeNat(blob[off..off + 8]) == |data| && blob[off + 8..off + 8 + |data|] == data
  {
    hide LeNat, LeBytes;
    var c := Counted(data);
    assert blob[off..off + 8] == c[..8] == LeBytes(|data|, 8);
    assert blob[off + 8..off + 8 + |data|] == c[8..];
    WordSizes();
    LeExact(|data|, 8);
  }

  predicate AllBelow(ws: seq<nat>, bound: nat) {
    forall i | 0 <= i < |ws| :: ws[i] < bound
  }

  /** One address, offset and sequence number per symbol, every word in range. */
  predicate Storable(t: Table) {
    && |t.addresses| == |t.offsets| == |t.seqs| == t.numSyms
    && AllBelow(t.addresses, TWO64) && AllBelow(t.offsets, TWO32) && AllBelow(t.seqs, TWO32)
    && AllBelow(t.tokenIndex, TWO32)
    && |UpToIndex(t)| < TWO64
  }

  lemma WordsBack(ws: seq<nat>, width: nat)
    requires width in {4, 8} && AllBelow(ws, if width == 4 then TWO32 else TWO64)
    ensures ReadWords(Words(ws, width), width) == ws
  {
    WordSizes();
    WordsRoundTrip(ws, width);
  }

  lemma StartRead(t: Table)
    requires t.numSyms < TWO64 && |UpToIndex(t)| < TWO64
    requires |UpToIndex(t)| >= 16 && UpToIndex(t)[..16] == Start(t)
    ensures var blob := BlobBytes(t);
            && |blob| == |UpToIndex(t)|
            && LeNat(blob[0..8]) == |blob| && LeNat(blob[8..16]) == t.numSyms
  {
    hide LeNat, LeBytes, UpToIndex;
    var u := UpToIndex(t);
    var blob := BlobBytes(t);
    WordSizes();
    LeExact(|u|, 8);
    LeExact(t.numSyms, 8);
    assert blob[0..8] == LeBytes(|u|, 8);
    assert blob[8..16] == u[8..16] == u[..16][8..16];
    assert Start(t)[8..16] == LeBytes(t.numSyms, 8);
  }

  lemma Prefixes(t: Table)
    ensures Start(t) <= UpToIndex(t) && |Start(t)| == 16
    ensures Continues(BlobBytes(t), UpToIndex(t))
  {
    hide Section, Words, LeBytes, Counted;
    assert Start(t) <= UpToAddresses(t) <= UpToOffsets(t) <= UpToSeqs(t) <= UpToNames(t);
    assert UpToNames(t) <= UpToTokens(t) <= UpToIndexLen(t) <= UpToIndex(t);
  }

  /** Every segment of the blob is where the reader's alignment looks for it. */
  ghost predicate SegmentsInPlace(t: Table, base: nat, blob: seq<byte>) {
    && Segment(blob, base, 16, 8, Words(t.addresses, 8), |UpToAddresses(t)|)
    && Segment(blob, base, |UpToAddresses(t)|, 4, Words(t.offsets, 4), |UpToOffsets(t)|)
    && Segment(blob, base, |UpToOffsets(t)|, 4, Words(t.seqs, 4), |UpToSeqs(t)|)
    && Segment(blob, base, |UpToSeqs(t)|, 8, Counted(t.names), |UpToNames(t)|)
    && Segment(blob, base, |UpToNames(t)|, 8, Counted(t.tokenTable), |UpToTokens(t)|)
    && Segment(blob, base, |UpToTokens(t)|, 8, LeBytes(|t.tokenIndex|, 8), |UpToIndexLen(t)|)
    && Segment(blob, base, |UpToIndexLen(t)|, 4, Words(t.tokenIndex, 4), |UpToIndex(t)|)
  }

  lemma SegmentsRead(t: Table, base: nat, blob: seq<byte>)
    requires base % 8 == 0 && Continues(blob, UpToIndex(t)) && |Start(t)| == 16
    ensures SegmentsInPlace(t, base, blob)
  {
    hide AlignOff, Section, Words, LeBytes, Start, Segment, Continues, Counted;
    SectionRead(blob, base, UpToIndexLen(t), 4, Words(t.tokenIndex, 4));
    SectionRead(blob, base, UpToTokens(t), 8, LeBytes(|t.tokenIndex|, 8));
    SectionRead(blob, base, UpToNames(t), 8, Counted(t.tokenTable));
    SectionRead(blob, base, UpToSeqs(t), 8, Counted(t.names));
    SectionRead(blob, base, UpToOffsets(t), 4, Words(t.seqs, 4));
    SectionRead(blob, base, UpToAddresses(t), 4, Words(t.offsets, 4));
    SectionRead(blob, base, Start(t), 8, Words(t.addresses, 8));
  }

  /** What the parser computes when every segment it looks for is there. */
  lemma ParseSegments(blob: seq<byte>, base: nat, stext: nat, etext: nat, t: Table, a: nat, o: nat, q: nat, n: nat,
                      k: nat, x: nat, i: nat)
    requires |blob| >= 16 && LeNat(blob[0..8]) == |blob| && LeNat(blob[8..16]) == t.numSyms
    requires |t.addresses| == |t.offsets| == |t.seqs| == t.numSyms
    requires Segment(blob, base, 16, 8, Words(t.addresses, 8), a) && ReadWords(Words(t.addresses, 8), 8) == t.addresses
    requires Segment(blob, base, a, 4, Words(t.offsets, 4), o) && ReadWords(Words(t.offsets, 4), 4) == t.offsets
    requires Segment(blob, base, o, 4, Words(t.seqs, 4), q) && ReadWords(Words(t.seqs, 4), 4) == t.seqs
    requires Segment(blob, base, q, 8, Counted(t.names), n) && |t.names| < TWO64
    requires Segment(blob, base, n, 8, Counted(t.tokenTable), k) && |t.tokenTable| < TWO64
    requires Segment(blob, base, k, 8, LeBytes(|t.tokenIndex|, 8), x) && |t.tokenIndex| < TWO64
    requires Segment(blob, base, x, 4, Words(t.tokenIndex, 4), i)
    requires ReadWords(Words(t.tokenIndex, 4), 4) == t.tokenIndex
    ensures Parse(blob, base, stext, etext) == Ok(Mapped(t, stext, etext))
  {
    hide AlignOff, Words, ReadWords, LeBytes, LeNat, Values, Counted;
    assert |Counted(t.names)| == 8 + |t.names| && |Counted(t.tokenTable)| == 8 + |t.tokenTable| by {
      CountedLong(t.names);
      CountedLong(t.tokenTable);
    }
    CountedRead(blob, AlignOff(base, 8, q), t.names);
    CountedRead(blob, AlignOff(base, 8, n), t.tokenTable);
    WordSizes();
    LeExact(|t.tokenIndex|, 8);
  }

  lemma AllWordsBack(t: Table)
    requires Storable(t)
    ensures ReadWords(Words(t.addresses, 8), 8) == t.addresses && ReadWords(Words(t.offsets, 4), 4) == t.offsets
    ensures ReadWords(Words(t.seqs, 4), 4) == t.seqs && ReadWords(Words(t.tokenIndex, 4), 4) == t.tokenIndex
  {
    hide Words, ReadWords, AllBelow, UpToIndex;
    WordsBack(t.addresses, 8);
    WordsBack(t.offsets, 4);
    WordsBack(t.seqs, 4);
    WordsBack(t.tokenIndex, 4);
  }

  /** Parsing what was written, at an 8-aligned base, succeeds and gives back every array. */
  lemma BlobRoundTrip(t: Table, base: nat, stext: nat, etext: nat)
    requires Storable(t) && base % 8 == 0
    ensures Parse(BlobBytes(t), base, stext, etext) == Ok(Mapped(t, stext, etext))
  {
    hide Segment, Words, ReadWords, BlobBytes, UpToIndex, UpToIndexLen, UpToTokens, UpToNames, UpToSeqs, UpToOffsets,
      UpToAddresses, Parse, LeNat, LeBytes, AllBelow, Start, Counted;
    var blob := BlobBytes(t);
    LengthsFit(t);
    Prefixes(t);
    StartRead(t);
    SegmentsRead(t, base, blob);
    AllWordsBack(t);
    hide Continues;
    ParseSegments(blob, base, stext, etext, t, |UpToAddresses(t)|, |UpToOffsets(t)|, |UpToSeqs(t)|, |UpToNames(t)|,
                  |UpToTokens(t)|, |UpToIndexLen(t)|, |UpToIndex(t)|);
  }

  lemma LengthsFit(t: Table)
    requires |UpToIndex(t)| < TWO64
    ensures t.numSyms < TWO64 || |t.addresses| != t.numSyms
    ensures |t.names| < TWO64 && |t.tokenTable| < TWO64 && |t.tokenIndex| < TWO64
  {
    hide Words, LeBytes, Pad;
    assert |UpToIndex(t)| >= |UpToIndexLen(t)| + |t.tokenIndex| * 4;
    assert |UpToIndexLen(t)| >= |UpToTokens(t)| >= |UpToNames(t)| + |t.tokenTable|;
    assert |UpToNames(t)| >= |UpToSeqs(t)| + |t.names|;
    assert |UpToSeqs(t)| >= |UpToOffsets(t)| >= |UpToAddresses(t)| >= |t.addresses| * 8;
  }

  // ----- The layout, byte for byte

  function Words32(ws: seq<nat>): seq<byte> {
    if ws == [] then [] else Words32(ws[..|ws| - 1]) + Word32(ws[|ws| - 1])
  }

  function Words64(ws: seq<nat>): seq<byte> {
    if ws == [] then [] else Words64(ws[..|ws| - 1]) + Word64(ws[|ws| - 1])
  }

  lemma {:induction false} WordsAre(ws: seq<nat>)
    ensures Words(ws, 4) == Words32(ws) && Words(ws, 8) == Words64(ws)
  {
    hide LeBytes, Word32, Word64, Word16;
    if ws != [] {
      WordsAre(ws[..|ws| - 1]);
      StoresWords(ws[|ws| - 1]);
    }
  }

  function Zeros(n: nat): (s: seq<byte>)
    ensures |s| == n
  {
    seq(n, i => 0)
  }

  /** Zero bytes that bring a length up to a multiple of eight. */
  function UpToEight(len: nat): (s: seq<byte>)
    ensures (len + |s|) % 8 == 0 && |s| < 8
  {
    Zeros((8 - len % 8) % 8)
  }

  lemma SectionIs(s: seq<byte>, align: nat, data: seq<byte>)
    requires align in {4, 8}
    ensures |s| % align == 0 ==> Section(s, align, data) == s + data
    ensures align == 8 ==> Section(s, align, data) == s + UpToEight(|s|) + data
  {
    assert |s| % align == 0 ==> s + seq(0, i => 0) == s;
  }

  lemma SameEight(len: nat, more: nat)
    requires len % 8 == 0
    ensures UpToEight(len + more) == UpToEight(more)
  {
    assert (len + more) % 8 == more % 8;
  }

  /** `s` with its first eight bytes replaced. */
  function Patch(w: seq<byte>, s: seq<byte>): seq<byte>
    requires |s| >= 8
  {
    w + s[8..]
  }

  lemma PatchSnoc(w: seq<byte>, s: seq<byte>, data: seq<byte>)
    requires |s| >= 8
    ensures Patch(w, s + data) == Patch(w, s) + data
  {
  }

  lemma PatchCounted(w: seq<byte>, s: seq<byte>, data: seq<byte>)
    requires |s| >= 8
    ensures Patch(w, s + Counted(data)) == Patch(w, s) + Word64(|data|) + data
  {
    hide LeBytes, Word64, Patch;
    StoresWords(|data|);
    PatchSnoc(w, s, Counted(data));
    assert Patch(w, s) + (Word64(|data|) + data) == Patch(w, s) + Word64(|data|) + data;
  }

  /** The length, the number of symbols and the three arrays, which need no padding. */
  function Arrays(w: seq<byte>, t: Table): seq<byte> {
    w + Word64(t.numSyms) + Words64(t.addresses) + Words32(t.offsets) + Words32(t.seqs)
  }

  /** The names after their length, and zeros. */
  function ThenNames(w: seq<byte>, t: Table): seq<byte> {
    Arrays(w, t) + Word64(|t.names|) + t.names + UpToEight(|t.names|)
  }

  /** The tokens after their length, and zeros. */
  function ThenTokens(w: seq<byte>, t: Table): seq<byte> {
    ThenNames(w, t) + Word64(|t.tokenTable|) + t.tokenTable + UpToEight(|t.tokenTable|)
  }

  /** The number of token starts, and the starts. */
  function Layout(w: seq<byte>, t: Table): seq<byte> {
    ThenTokens(w, t) + Word64(|t.tokenIndex|) + Words32(t.tokenIndex)
  }

  lemma ArraysLaid(w: seq<byte>, t: Table)
    requires |t.addresses| == |t.offsets| == |t.seqs| == t.numSyms
    ensures |UpToSeqs(t)| == 16 + 16 * t.numSyms && Patch(w, UpToSeqs(t)) == Arrays(w, t)
  {
    hide LeBytes, Words, Section, Word64, Words64, Words32, Patch;
    WordsAre(t.addresses);
    WordsAre(t.offsets);
    WordsAre(t.seqs);
    SectionIs(Start(t), 8, Words(t.addresses, 8));
    SectionIs(UpToAddresses(t), 4, Words(t.offsets, 4));
    SectionIs(UpToOffsets(t), 4, Words(t.seqs, 4));
    PatchStart(w, t);
    PatchSnoc(w, Start(t), Words(t.addresses, 8));
    PatchSnoc(w, UpToAddresses(t), Words(t.offsets, 4));
    PatchSnoc(w, UpToOffsets(t), Words(t.seqs, 4));
  }

  lemma PatchStart(w: seq<byte>, t: Table)
    ensures |Start(t)| == 16 && Patch(w, Start(t)) == w + Word64(t.numSyms)
  {
    hide LeBytes, Word64;
    StoresWords(t.numSyms);
  }

  lemma NamesLaid(w: seq<byte>, t: Table)
    requires |UpToSeqs(t)| % 8 == 0 && |UpToSeqs(t)| >= 16 && Patch(w, UpToSeqs(t)) == Arrays(w, t)
    ensures |UpToNames(t)| == |UpToSeqs(t)| + 8 + |t.names|
    ensures Patch(w, UpToNames(t)) + UpToEight(|UpToNames(t)|) == ThenNames(w, t)
  {
    hide LeBytes, Section, Word64, UpToSeqs, Patch, Arrays, UpToEight;
    SectionIs(UpToSeqs(t), 8, Counted(t.names));
    PatchCounted(w, UpToSeqs(t), t.names);
    SameEight(|UpToSeqs(t)| + 8, |t.names|);
  }

  lemma TokensLaid(w: seq<byte>, t: Table)
    requires |UpToNames(t)| >= 16 && Patch(w, UpToNames(t)) + UpToEight(|UpToNames(t)|) == ThenNames(w, t)
    ensures |UpToTokens(t)| >= 16
    ensures Patch(w, UpToTokens(t)) + UpToEight(|UpToTokens(t)|) == ThenTokens(w, t)
  {
    hide LeBytes, Section, Word64, UpToNames, Patch, ThenNames, UpToEight;
    var s := UpToNames(t) + UpToEight(|UpToNames(t)|);
    SectionIs(UpToNames(t), 8, Counted(t.tokenTable));
    PatchSnoc(w, UpToNames(t), UpToEight(|UpToNames(t)|));
    PatchCounted(w, s, t.tokenTable);
    SameEight(|s| + 8, |t.tokenTable|);
  }

  /**
    A blob is, in this order: its length, the number of symbols, the addresses, the offsets and the
    sequence numbers, then the names and the tokens, each after its length and padded with zeros,
    and the number of token starts before the starts.
  */
  lemma BlobLayout(t: Table)
    requires |t.addresses| == |t.offsets| == |t.seqs| == t.numSyms
    ensures BlobBytes(t) == Layout(Word64(|BlobBytes(t)|), t)
  {
    hide BlobBytes, Word64, UpToEight, UpToIndex, UpToNames, UpToSeqs, UpToTokens, ThenTokens, ThenNames, Arrays, Patch,
      Layout;
    var w := Word64(|UpToIndex(t)|);
    PatchIsBlob(t);
    ArraysLaid(w, t);
    NamesLaid(w, t);
    TokensLaid(w, t);
    IndexLaid(w, t);
  }

  lemma IndexLaid(w: seq<byte>, t: Table)
    requires |UpToTokens(t)| >= 16 && Patch(w, UpToTokens(t)) + UpToEight(|UpToTokens(t)|) == ThenTokens(w, t)
    ensures |UpToIndex(t)| >= 8 && Patch(w, UpToIndex(t)) == Layout(w, t)
  {
    hide LeBytes, Words, Word64, Words32, UpToEight, UpToTokens, Section, ThenTokens, Patch;
    StoresWords(|t.tokenIndex|);
    WordsAre(t.tokenIndex);
    var s := UpToTokens(t) + UpToEight(|UpToTokens(t)|);
    SectionIs(UpToTokens(t), 8, LeBytes(|t.tokenIndex|, 8));
    SectionIs(UpToIndexLen(t), 4, Words(t.tokenIndex, 4));
    PatchSnoc(w, UpToTokens(t), UpToEight(|UpToTokens(t)|));
    PatchSnoc(w, s, LeBytes(|t.tokenIndex|, 8));
    PatchSnoc(w, UpToIndexLen(t), Words(t.tokenIndex, 4));
  }

  lemma PatchIsBlob(t: Table)
    ensures |UpToIndex(t)| >= 8 && BlobBytes(t) == Patch(Word64(|UpToIndex(t)|), UpToIndex(t))
    ensures |BlobBytes(t)| == |UpToIndex(t)|
  {
    hide LeBytes, Word64, UpToIndex;
    StoresWords(|UpToIndex(t)|);
    Prefixes(t);
  }

  // ----- What the reader refuses

  /** A blob whose first word is not its length, and so any cut or prolonged one, is refused. */
  lemma WrongLengthRefused(t: Table, blob: seq<byte>, base: nat, stext: nat, etext: nat)
    requires |BlobBytes(t)| < 0x1_0000_0000_0000_0000
    requires blob < BlobBytes(t) || BlobBytes(t) < blob
    ensures Parse(blob, base, stext, etext) == Err(if |blob| < 8 then TooSmall else LengthMismatch)
  {
    hide LeBytes, LeNat, UpToIndex;
    WordSizes();
    LeExact(|UpToIndex(t)|, 8);
    var whole := BlobBytes(t);
    assert whole[0..8] == LeBytes(|UpToIndex(t)|, 8);
    if |blob| >= 8 {
      assert blob[0..8] == whole[0..8];
    }
  }

  /** For a blob of eight bytes or more: its length is refused exactly when the first word is another. */
  lemma LengthDecides(blob: seq<byte>, base: nat, stext: nat, etext: nat)
    requires |blob| >= 8
    ensures Parse(blob, base, stext, etext) == Err(LengthMismatch) <==> LeNat(blob[..8]) != |blob|
    ensures Parse(blob, base, stext, etext).Ok? ==> |blob| >= 16 && LeNat(blob[..8]) == |blob|
  {
    hide LeNat, AlignOff, ReadWords;
    assert blob[0..8] == blob[..8];
  }
}
