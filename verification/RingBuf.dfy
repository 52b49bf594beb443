/**
  The BPF ring buffer (bpf-basic/src/map/stream/ringbuf.rs): records with an 8-byte header in
  a power-of-two area that is mapped twice, reserved in order and committed in any order.
*/
module RingBuf {
  import opened Bytes
  import opened Slots
  import Modular

  const HDR_SIZE: nat := 8
  const PAGE_SIZE: nat := 4096
  const BUSY_BIT: nat := 0x8000_0000
  const DISCARD_BIT: nat := 0x4000_0000
  const MAX_RECORD: nat := 0x3FFF_FFFF
  /** The data area begins three pages into the mapping: meta, consumer and producer pages. */
  const NR_META_PAGES: nat := 3
  const DATA_OFFSET: nat := 12288

  // ----- Sizes and header words

  /** `(size + 8) & !7` unless it is aligned already, for the record with its header. */
  function Aligned(size: nat): (n: nat)
    ensures n % 8 == 0 && size + HDR_SIZE <= n < size + HDR_SIZE + 8
  {
    var total := size + HDR_SIZE;
    if total % 8 != 0 then (total + 8) / 8 * 8 else total
  }

  datatype Status = Busy | Committed | Discarded

  function LenWord(size: nat, status: Status): nat {
    match status
    case Busy => size + BUSY_BIT
    case Committed => size
    case Discarded => size + DISCARD_BIT
  }

  predicate IsBusy(word: nat) { word / BUSY_BIT % 2 == 1 }
  predicate IsDiscarded(word: nat) { word / DISCARD_BIT % 2 == 1 }
  function SizeOf(word: nat): nat { word % DISCARD_BIT }

  /** `len & !BUSY`, then `| DISCARD` when asked for. */
  function FinalLen(word: nat, discard: bool): nat {
    var free := if IsBusy(word) then word - BUSY_BIT else word;
    if discard && !IsDiscarded(free) then free + DISCARD_BIT else free
  }

  lemma WordBits(size: nat, status: Status)
    requires size <= MAX_RECORD
    ensures LenWord(size, status) < TWO32
    ensures IsBusy(LenWord(size, status)) <==> status == Busy
    ensures IsDiscarded(LenWord(size, status)) <==> status == Discarded
    ensures SizeOf(LenWord(size, status)) == size
    ensures FinalLen(LenWord(size, Busy), false) == LenWord(size, Committed)
    ensures FinalLen(LenWord(size, Busy), true) == LenWord(size, Discarded)
  {
  }

  // ----- Finding the ring from a record

  /** The page of the mapping the header at data offset `idx` lies in (rec_pg_off). */
  function PgOff(idx: nat): nat {
    (DATA_OFFSET + idx) / PAGE_SIZE
  }

  /** restore_from_rec: the header's page, that many pages back. */
  function RestoreBase(hdrAddr: nat, pgOff: nat): int {
    hdrAddr / PAGE_SIZE * PAGE_SIZE - pgOff * PAGE_SIZE
  }

  /** From any record's address and stored page offset, the ring it belongs to. */
  lemma RestoreFindsRing(base: nat, idx: nat)
    requires base % PAGE_SIZE == 0
    ensures RestoreBase(base + DATA_OFFSET + idx, PgOff(idx)) == base
  {
    assert (base + (DATA_OFFSET + idx)) / PAGE_SIZE == base / PAGE_SIZE + (DATA_OFFSET + idx) / PAGE_SIZE;
  }

  // ----- The double mapping

  /**
    new: page `i` of the mapping; data pages appear a second time after the first run. The
    pages allocated are `pages`, in order.
  */
  method MapPages(pages: seq<nat>, nrDataPages: nat) returns (phyAddrs: array<nat>)
    requires |pages| == NR_META_PAGES + nrDataPages
    ensures fresh(phyAddrs) && phyAddrs.Length == NR_META_PAGES + 2 * nrDataPages
    ensures phyAddrs[..] == pages + pages[NR_META_PAGES..]
  {
    phyAddrs := new nat[NR_META_PAGES + 2 * nrDataPages](i => 0);
    var i := 0;
    while i < |pages|
      invariant 0 <= i <= |pages|
      invariant forall k | 0 <= k < i :: phyAddrs[k] == pages[k]
      invariant forall k | NR_META_PAGES <= k < i :: phyAddrs[nrDataPages + k] == pages[k]
    {
      phyAddrs[i] := pages[i];
      if i >= NR_META_PAGES {
        phyAddrs[nrDataPages + i] := pages[i];
      }
      i := i + 1;
    }
  }

  /** The physical byte behind data offset `off` of the mapping. */
  function Physical(mapping: seq<nat>, off: nat): (nat, nat)
    requires NR_META_PAGES + off / PAGE_SIZE < |mapping|
  {
    (mapping[NR_META_PAGES + off / PAGE_SIZE], off % PAGE_SIZE)
  }

  /**
    Two offsets of the doubled area name the same byte exactly when they agree modulo the
    ring size: a record may run over the end of the first copy.
  */
  lemma DoubleMapped(pages: seq<nat>, nrDataPages: nat, off1: nat, off2: nat)
    requires |pages| == NR_META_PAGES + nrDataPages && nrDataPages > 0
    requires forall i, j | 0 <= i < j < |pages| :: pages[i] != pages[j]
    requires off1 < 2 * nrDataPages * PAGE_SIZE && off2 < 2 * nrDataPages * PAGE_SIZE
    ensures var mapping := pages + pages[NR_META_PAGES..];
            Physical(mapping, off1) == Physical(mapping, off2)
            <==> off1 % (nrDataPages * PAGE_SIZE) == off2 % (nrDataPages * PAGE_SIZE)
  {
    PageOf(nrDataPages, off1);
    PageOf(nrDataPages, off2);
    var p1, p2 := off1 / PAGE_SIZE % nrDataPages, off2 / PAGE_SIZE % nrDataPages;
    var mapping := pages + pages[NR_META_PAGES..];
    assert mapping[NR_META_PAGES + off1 / PAGE_SIZE] == pages[NR_META_PAGES + p1];
    assert mapping[NR_META_PAGES + off2 / PAGE_SIZE] == pages[NR_META_PAGES + p2];
  }

  lemma PageOf(n: nat, off: nat)
    requires n > 0 && off < 2 * n * PAGE_SIZE
    ensures off / PAGE_SIZE < 2 * n
    ensures off / PAGE_SIZE % n == if off / PAGE_SIZE < n then off / PAGE_SIZE else off / PAGE_SIZE - n
    ensures off % (n * PAGE_SIZE) == off / PAGE_SIZE % n * PAGE_SIZE + off % PAGE_SIZE
  {
    var page := off / PAGE_SIZE;
    if page < n {
      Modular.Small(page, n);
      Modular.Small(off, n * PAGE_SIZE);
    } else {
      Modular.AddMultiple(page, -1, n);
      Modular.Small(page - n, n);
      Modular.AddMultiple(off, -1, n * PAGE_SIZE);
      Modular.Small(off - n * PAGE_SIZE, n * PAGE_SIZE);
    }
  }

  // ----- Words in memory

  function HdrLen(mem: seq<byte>, pos: nat): nat
    requires |mem| > 0
  {
    LeNat(Window(mem, pos, 4))
  }

  function HdrPgOff(mem: seq<byte>, pos: nat): nat
    requires |mem| > 0
  {
    LeNat(Window(mem, pos + 4, 4))
  }

  function HdrBytes(size: nat, idx: nat): (s: seq<byte>)
    ensures |s| == HDR_SIZE
  {
    LeBytes(LenWord(size, Busy), 4) + LeBytes(PgOff(idx), 4)
  }

  /** The header a reservation writes: busy bit and length, then the page of the mapping it lies in. */
  lemma HeaderWords(size: nat, idx: nat)
    requires size < 0x4000_0000
    ensures HdrBytes(size, idx) == Word32(0x8000_0000 + size) + Word32(3 + idx / 4096)
  {
    StoresWords(0x8000_0000 + size);
    StoresWords(3 + idx / 4096);
    hide LeBytes, Word32, Word16, Word64;
    assert PgOff(idx) == 3 + idx / 4096;
  }

  /** The word a commit leaves: the length alone, or the length and the discard bit. */
  lemma CommitWord(size: nat, discard: bool)
    requires size < 0x4000_0000
    ensures LeBytes(FinalLen(LenWord(size, Busy), discard), 4)
         == Word32(if discard then size + 0x4000_0000 else size)
  {
    WordBits(size, Busy);
    StoresWords(if discard then size + 0x4000_0000 else size);
    hide LeBytes, Word32, Word16, Word64;
  }

  /** The record with its header, rounded up to a multiple of eight. */
  lemma AlignedIs(size: nat)
    ensures Aligned(size) == (size + 15) / 8 * 8
  {
  }

  /** A window away from the store, within a ring of it, is as before. */
  lemma PutKeepsWindow(mem: seq<byte>, at: nat, data: seq<byte>, pos: nat, len: nat)
    requires |mem| > 0
    requires (pos + len <= at && at + |data| <= pos + |mem|) || (at + |data| <= pos && pos + len <= at + |mem|)
    ensures Window(Put(mem, at, data), pos, len) == Window(mem, pos, len)
  {
    var before, after := Window(mem, pos, len), Window(Put(mem, at, data), pos, len);
    forall i | 0 <= i < len
      ensures after[i] == before[i]
    {
      PutKeepsSlot(mem, at, data, pos + i);
    }
  }

  lemma HeaderReads(mem: seq<byte>, pos: nat, size: nat, idx: nat)
    requires |mem| >= HDR_SIZE && size <= MAX_RECORD && PgOff(idx) < TWO32
    ensures HdrLen(Put(mem, pos, HdrBytes(size, idx)), pos) == LenWord(size, Busy)
    ensures HdrPgOff(Put(mem, pos, HdrBytes(size, idx)), pos) == PgOff(idx)
  {
    hide Put, Window, LeNat, LeBytes, PgOff;
    var b := HdrBytes(size, idx);
    WordSizes();
    WordBits(size, Busy);
    PutWindow(mem, pos, b, 0, 4);
    PutWindow(mem, pos, b, 4, 4);
    assert pos + 0 == pos;
    assert b[0..0 + 4] == LeBytes(LenWord(size, Busy), 4);
    assert b[4..4 + 4] == LeBytes(PgOff(idx), 4);
    LeExact(LenWord(size, Busy), 4);
    LeExact(PgOff(idx), 4);
  }

  lemma LenReads(mem: seq<byte>, pos: nat, word: nat)
    requires |mem| >= HDR_SIZE && word < TWO32
    ensures HdrLen(Put(mem, pos, LeBytes(word, 4)), pos) == word
  {
    hide Put, Window, LeNat, LeBytes;
    PutReads(mem, pos, LeBytes(word, 4));
    WordSizes();
    LeExact(word, 4);
  }
}
