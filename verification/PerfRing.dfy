/**
  The perf event byte ring (bpf-basic/src/perf/bpf.rs): variable-length records in a
  memory-mapped region, positions that are never reduced, padding at the end of the
  region, and a counter of events that found no room.

  `Page` is the abstract value of the mapped pages; `RingPage`, in PerfRingPage.dfy, is
  the object that updates them in place.
*/
module PerfRing {
  import opened Bytes
  import opened Slots
  import Modular

  const HEADER_SIZE: nat := 8
  const SAMPLE_HEADER_SIZE: nat := 12
  const LOST_SIZE: nat := 24
  const RECORD_LOST: nat := 2
  const RECORD_SAMPLE: nat := 9
  const PAGE_SIZE: nat := 4096

  datatype Record = Sample(payload: seq<byte>) | Lost(count: nat)

  /** The data region, the two positions of the control page, and the lost counter. */
  datatype Page = Page(region: seq<byte>, head: nat, tail: nat, lost: nat) {
    function Size(): nat { |region| }
    function Free(): int { Size() - (head - tail) }
  }

  // ----- Records

  /** A record header: type, misc and size, 8 bytes (`perf_event_header`). */
  function HeaderBytes(kind: nat, size: nat): (s: seq<byte>)
    ensures |s| == HEADER_SIZE
  {
    LeBytes(kind, 4) + LeBytes(0, 2) + LeBytes(size, 2)
  }

  function SampleHeaderBytes(payload: nat, fill: nat): (s: seq<byte>)
    ensures |s| == SAMPLE_HEADER_SIZE
  {
    HeaderBytes(RECORD_SAMPLE, SAMPLE_HEADER_SIZE + payload + fill) + LeBytes(payload, 4)
  }

  function LostBytes(count: nat, fill: nat): (s: seq<byte>)
    ensures |s| == LOST_SIZE
  {
    HeaderBytes(RECORD_LOST, LOST_SIZE + fill) + LeBytes(0, 8) + LeBytes(count, 8)
  }

  function RecordBytes(r: Record, fill: nat): (s: seq<byte>)
    ensures |s| == RecordSize(r)
  {
    match r
    case Sample(payload) => SampleHeaderBytes(|payload|, fill) + payload
    case Lost(count) => LostBytes(count, fill)
  }

  function RecordSize(r: Record): nat {
    match r
    case Sample(payload) => SAMPLE_HEADER_SIZE + |payload|
    case Lost(_) => LOST_SIZE
  }

  // ----- The reader in user space

  /** A reader maps the 8-byte header as one struct, so the wrap must not split it. */
  predicate HeaderFits(pos: nat, size: nat)
    requires size > 0
  {
    size - pos % size >= HEADER_SIZE
  }

  /** The record a reader finds at `pos`, and the position its header's size leads to. */
  function ReadAt(region: seq<byte>, pos: nat): Option<(Record, nat)>
    requires |region| > 0
  {
    if !HeaderFits(pos, |region|) then None else
      var kind := LeNat(Window(region, pos, 4));
      var size := LeNat(Window(region, pos + 6, 2));
      if kind == RECORD_SAMPLE then
        var len := LeNat(Window(region, pos + 8, 4));
        Some((Sample(Window(region, pos + 12, len)), pos + size))
      else if kind == RECORD_LOST then
        Some((Lost(LeNat(Window(region, pos + 16, 8))), pos + size))
      else None
  }

  /** The records from `tail` to `head`, or None when the bytes are not a record list. */
  function Decode(region: seq<byte>, tail: nat, head: nat): Option<seq<Record>>
    requires |region| > 0
    decreases head - tail
  {
    if tail == head then Some([]) else
      match ReadAt(region, tail)
      case None => None
      case Some((r, next)) =>
        if !(tail + RecordSize(r) <= next <= head) then None else
          match Decode(region, next, head)
          case None => None
          case Some(rs) => Some([r] + rs)
  }

  /** The ring holds exactly the records `rs` between the two positions. */
  predicate Holds(region: seq<byte>, tail: nat, head: nat, rs: seq<Record>)
    requires |region| > 0
  {
    Decode(region, tail, head) == Some(rs)
  }

  /** Bytes below `head` decide what a reader sees below `head`. */
  lemma ReadFrame(r1: seq<byte>, r2: seq<byte>, pos: nat, head: nat)
    requires |r1| == |r2| > 0
    requires SameBytes(r1, r2, pos, head)
    requires ReadAt(r1, pos).Some?
    requires var (r, next) := ReadAt(r1, pos).value; pos + RecordSize(r) <= head
    ensures ReadAt(r2, pos) == ReadAt(r1, pos)
  {
    hide Window, SameBytes, LeNat, HeaderFits;
    var (r, next) := ReadAt(r1, pos).value;
    WindowFrame(r1, r2, pos, head, 0, 4);
    WindowFrame(r1, r2, pos, head, 6, 2);
    if r.Sample? {
      WindowFrame(r1, r2, pos, head, 8, 4);
      WindowFrame(r1, r2, pos, head, 12, |r.payload|);
    } else {
      WindowFrame(r1, r2, pos, head, 16, 8);
    }
  }

  lemma {:induction false} DecodeFrame(r1: seq<byte>, r2: seq<byte>, tail: nat, head: nat)
    requires |r1| == |r2| > 0 && tail <= head
    requires SameBytes(r1, r2, tail, head)
    requires Decode(r1, tail, head).Some?
    ensures Decode(r2, tail, head) == Decode(r1, tail, head)
    decreases head - tail
  {
    if tail != head {
      var (r, next) := ReadAt(r1, tail).value;
      ReadFrame(r1, r2, tail, head);
      DecodeFrame(r1, r2, next, head);
    }
  }

  lemma {:induction false} DecodeAppend(region: seq<byte>, tail: nat, head: nat, next: nat, r: Record)
    requires |region| > 0 && tail <= head
    requires Decode(region, tail, head).Some?
    requires ReadAt(region, head) == Some((r, next)) && head + RecordSize(r) <= next
    ensures Decode(region, tail, next) == Some(Decode(region, tail, head).value + [r])
    decreases head - tail
  {
    if tail == head {
      assert Decode(region, next, next) == Some([]);
      assert [r] + [] == [] + [r];
    } else {
      var (first, mid) := ReadAt(region, tail).value;
      DecodeAppend(region, mid, head, next, r);
      var rest := Decode(region, mid, head).value;
      assert [first] + (rest + [r]) == ([first] + rest) + [r];
    }
  }

  // ----- The writer

  /** `data_region_size - data_head + data_tail` in wrapping 64-bit arithmetic. */
  function Capacity(size: nat, tail: nat, head: nat): nat {
    ((size - head) % TWO64 + tail) % TWO64
  }

  predicate CanWrite(p: Page, dataSize: nat) {
    dataSize <= Capacity(p.Size(), p.tail, p.head)
  }

  /** The padding that keeps the next record's header in one piece. */
  function FillSize(size: nat, headMod: nat): (fill: nat)
    requires headMod < size
  {
    if size - headMod < HEADER_SIZE then size - headMod else 0
  }

  function Fill(p: Page, recordSize: nat): nat
    requires p.Size() > 0
  {
    FillSize(p.Size(), (p.head + recordSize) % p.Size())
  }

  function WriteSample(p: Page, data: seq<byte>): Page
    requires p.Size() > 0
  {
    var fill := Fill(p, SAMPLE_HEADER_SIZE + |data|);
    var r1 := Put(p.region, p.head, SampleHeaderBytes(|data|, fill));
    var r2 := Put(r1, p.head + SAMPLE_HEADER_SIZE, data);
    p.(region := r2, head := p.head + SAMPLE_HEADER_SIZE + |data| + fill)
  }

  function WriteLost(p: Page): Page
    requires p.Size() > 0
  {
    var fill := Fill(p, LOST_SIZE);
    p.(region := Put(p.region, p.head, LostBytes(p.lost, fill)),
       head := p.head + LOST_SIZE + fill, lost := 0)
  }

  function WriteEvent(p: Page, data: seq<byte>): Page
    requires p.Size() > 0
    decreases p.lost
  {
    if !CanWrite(p, HEADER_SIZE) then p.(lost := p.lost + 1)
    else if p.lost > 0 && CanWrite(p, LOST_SIZE) then WriteEvent(WriteLost(p), data)
    else if CanWrite(p, SAMPLE_HEADER_SIZE + |data|) then WriteSample(p, data)
    else p.(lost := p.lost + 1)
  }

  /** A reader takes one record: tail advances by the size field of its header. */
  function ReadRecord(p: Page): Page
    requires p.Size() > 0
  {
    if p.tail == p.head then p else
      match ReadAt(p.region, p.tail)
      case None => p
      case Some((_, next)) => p.(tail := next)
  }

  // ----- The invariant, and what one record appended does to it

  /** The positions are record boundaries no further apart than the region is long. */
  predicate Shape(p: Page) {
    && p.Size() >= PAGE_SIZE
    && p.tail <= p.head <= p.tail + p.Size()
    && HeaderFits(p.tail, p.Size())
    && HeaderFits(p.head, p.Size())
  }

  /** A well-shaped page whose unread bytes are exactly the records `rs`, oldest first. */
  predicate Queued(p: Page, rs: seq<Record>) {
    Shape(p) && Holds(p.region, p.tail, p.head, rs)
  }

  /** What a header's 16-bit size field and the words beside it can carry. */
  predicate Representable(r: Record, fill: nat) {
    && RecordSize(r) + fill < TWO16
    && (r.Lost? ==> r.count < TWO64)
  }

  /** In an invariant state the wrapping computation is the number of free bytes. */
  lemma CapacityIsFree(p: Page)
    requires Shape(p) && p.head < TWO64 && p.Size() < TWO64
    ensures Capacity(p.Size(), p.tail, p.head) == p.Free()
  {
    hide HeaderFits;
    var tail: int := p.tail;
    Modular.SlotDistance(p.Size() - p.head, -tail, TWO64);
    Modular.Small(p.Free(), TWO64);
  }

  /**
    The check ignores the padding, yet the padded record never passes the reader: the
    padding ends where the region does, and no record boundary lies inside it.
  */
  lemma PaddingNeverOverruns(size: nat, tail: nat, end: nat)
    requires size >= HEADER_SIZE && HeaderFits(tail, size)
    requires end <= tail + size
    ensures var next := end + FillSize(size, end % size);
            next <= tail + size && HeaderFits(next, size)
  {
    var q, m := end / size, end % size;
    assert end == size * q + m;
    if size - m < HEADER_SIZE {
      var next := size * q + size;
      assert next == size * (q + 1) + 0;
      DivModUnique(next, size, q + 1, 0);
      var limit := tail + size;
      Modular.AddMultiple(tail, 1, size);
      if limit < next {
        DivModUnique(limit, size, q, limit - size * q);
        assert false;
      }
    }
  }

  /** A stored record byte for byte: type, misc, size with the padding, then length and data or id and count. */
  lemma StoredBytes(r: Record, fill: nat)
    ensures RecordBytes(r, fill) ==
            match r
            case Sample(data) => Word32(9) + Word16(0) + Word16(12 + |data| + fill) + Word32(|data|) + data
            case Lost(count) => Word32(2) + Word16(0) + Word16(24 + fill) + Word64(0) + Word64(count)
  {
    hide LeBytes, Word16, Word32, Word64;
    StoresWords(RecordSize(r) + fill);
    StoresWords(9);
    StoresWords(2);
    StoresWords(0);
    match r {
      case Sample(data) =>
        StoresWords(|data|);
      case Lost(count) =>
        StoresWords(count);
        JoinedRight(Word32(2) + Word16(0) + Word16(24 + fill), Word64(0), Word64(count));
    }
  }

  lemma JoinedRight(a: seq<byte>, b: seq<byte>, c: seq<byte>)
    ensures a + b + c == (a + b) + c
  {
  }

  /** The words of a stored record, by their offsets. */
  lemma Fields(r: Record, fill: nat)
    requires Representable(r, fill)
    ensures var b := RecordBytes(r, fill);
            && LeNat(b[0..4]) == (if r.Sample? then RECORD_SAMPLE else RECORD_LOST)
            && LeNat(b[6..8]) == RecordSize(r) + fill
            && (r.Sample? ==> LeNat(b[8..12]) == |r.payload| && b[12..12 + |r.payload|] == r.payload)
            && (r.Lost? ==> LeNat(b[16..24]) == r.count)
  {
    hide HeaderBytes, LeNat, LeBytes;
    var b, size := RecordBytes(r, fill), RecordSize(r) + fill;
    Modular.Small(size, TWO16);
    WordSizes();
    if r.Sample? {
      var len := LeBytes(|r.payload|, 4);
      LeExact(|r.payload|, 4);
      var header := HeaderBytes(RECORD_SAMPLE, size);
      HeaderWords(RECORD_SAMPLE, size, len + r.payload);
      assert b == header + (len + r.payload);
      SliceRight(header, len + r.payload, 8, 12);
      SliceLeft(len, r.payload, 0, 4);
      assert len[0..4] == len;
      SliceRight(header + len, r.payload, 12, 12 + |r.payload|);
      assert r.payload[0..|r.payload|] == r.payload;
    } else {
      var zero, count := LeBytes(0, 8), LeBytes(r.count, 8);
      LeExact(r.count, 8);
      var header := HeaderBytes(RECORD_LOST, size);
      HeaderWords(RECORD_LOST, size, zero + count);
      assert b == header + (zero + count);
      SliceRight(header + zero, count, 16, 24);
      assert count[0..8] == count;
    }
  }

  lemma SliceLeft(a: seq<byte>, b: seq<byte>, from: nat, to: nat)
    requires from <= to <= |a|
    ensures (a + b)[from..to] == a[from..to]
  {
  }

  lemma SliceRight(a: seq<byte>, b: seq<byte>, from: nat, to: nat)
    requires |a| <= from <= to <= |a| + |b|
    ensures (a + b)[from..to] == b[from - |a|..to - |a|]
  {
  }

  /** The words of a header in front of anything; the size is cut to 16 bits. */
  lemma HeaderWords(kind: nat, size: nat, rest: seq<byte>)
    requires kind < TWO32
    ensures var b := HeaderBytes(kind, size) + rest;
            LeNat(b[0..4]) == kind && LeNat(b[6..8]) == size % TWO16
  {
    hide LeNat, LeBytes;
    var first, second, third := LeBytes(kind, 4), LeBytes(0, 2), LeBytes(size, 2);
    WordSizes();
    LeExact(kind, 4);
    LeRoundTrip(size, 2);
    var header := first + second + third;
    SliceLeft(header, rest, 0, 4);
    SliceLeft(header, rest, 6, 8);
    SliceLeft(first + second, third, 0, 4);
    SliceLeft(first, second, 0, 4);
    SliceRight(first + second, third, 6, 8);
  }

  /** A record whose bytes are in the ring is the record a reader finds there. */
  lemma ReadBack(region: seq<byte>, pos: nat, r: Record, fill: nat)
    requires |region| > 0 && HeaderFits(pos, |region|) && Representable(r, fill)
    requires Window(region, pos, RecordSize(r)) == RecordBytes(r, fill)
    ensures ReadAt(region, pos) == Some((r, pos + RecordSize(r) + fill))
  {
    hide ReadAt, RecordBytes, LeNat, LeBytes, Representable, Window, HeaderFits;
    Fields(r, fill);
    var size := RecordSize(r);
    assert LeNat(Window(region, pos, 4)) == if r.Sample? then RECORD_SAMPLE else RECORD_LOST by {
      SubWindow(region, pos, size, 0, 4);
      assert pos + 0 == pos;
    }
    assert LeNat(Window(region, pos + 6, 2)) == size + fill by {
      SubWindow(region, pos, size, 6, 2);
    }
    if r.Sample? {
      SubWindow(region, pos, size, 8, 4);
      SubWindow(region, pos, size, 12, |r.payload|);
    } else {
      SubWindow(region, pos, size, 16, 8);
    }
    ReadsAs(region, pos, r, size + fill);
  }

  lemma ReadsAs(region: seq<byte>, pos: nat, r: Record, size: nat)
    requires |region| > 0 && HeaderFits(pos, |region|)
    requires LeNat(Window(region, pos, 4)) == if r.Sample? then RECORD_SAMPLE else RECORD_LOST
    requires LeNat(Window(region, pos + 6, 2)) == size
    requires r.Sample? ==>
               LeNat(Window(region, pos + 8, 4)) == |r.payload| && Window(region, pos + 12, |r.payload|) == r.payload
    requires r.Lost? ==> LeNat(Window(region, pos + 16, 8)) == r.count
    ensures ReadAt(region, pos) == Some((r, pos + size))
  {
    hide LeNat, Window, HeaderFits;
  }

  function Append(p: Page, r: Record): Page
    requires p.Size() > 0
  {
    var fill := Fill(p, RecordSize(r));
    p.(region := Put(p.region, p.head, RecordBytes(r, fill)), head := p.head + RecordSize(r) + fill)
  }

  lemma StoredRecordDecodes(r1: seq<byte>, r2: seq<byte>, tail: nat, head: nat, rs: seq<Record>,
                            r: Record, fill: nat)
    requires |r1| == |r2| > 0 && tail <= head
    requires Holds(r1, tail, head, rs) && SameBytes(r1, r2, tail, head)
    requires HeaderFits(head, |r2|) && Representable(r, fill)
    requires Window(r2, head, RecordSize(r)) == RecordBytes(r, fill)
    ensures Holds(r2, tail, head + RecordSize(r) + fill, rs + [r])
  {
    hide ReadAt, RecordBytes, RecordSize, Window, Representable, HeaderFits, SameBytes;
    DecodeFrame(r1, r2, tail, head);
    ReadBack(r2, head, r, fill);
    DecodeAppend(r2, tail, head, head + RecordSize(r) + fill, r);
  }

  lemma AppendPadded(p: Page, r: Record, rs: seq<Record>, fill: nat, q: Page)
    requires Queued(p, rs) && RecordSize(r) <= p.Free() && Representable(r, fill)
    requires q == p.(region := Put(p.region, p.head, RecordBytes(r, fill)), head := p.head + RecordSize(r) + fill)
    requires HeaderFits(q.head, p.Size()) && q.Free() >= 0
    ensures Queued(q, rs + [r])
  {
    hide Decode, HeaderFits, RecordSize, RecordBytes, Representable;
    var bytes := RecordBytes(r, fill);
    AppendKeepsBytes(p, bytes);
    PutReads(p.region, p.head, bytes);
    StoredRecordDecodes(p.region, q.region, p.tail, p.head, rs, r, fill);
  }

  /** A record that fits joins the unread ones; every byte they own is left alone. */
  lemma AppendQueues(p: Page, r: Record, rs: seq<Record>)
    requires Queued(p, rs) && RecordSize(r) <= p.Free()
    requires Representable(r, Fill(p, RecordSize(r)))
    ensures Queued(Append(p, r), rs + [r])
  {
    hide Holds, HeaderFits, RecordBytes, Representable, Put, FillSize;
    PaddingNeverOverruns(p.Size(), p.tail, p.head + RecordSize(r));
    AppendPadded(p, r, rs, Fill(p, RecordSize(r)), Append(p, r));
  }

  lemma AppendKeepsBytes(p: Page, bytes: seq<byte>)
    requires p.Size() > 0 && |bytes| <= p.Free()
    ensures SameBytes(p.region, Put(p.region, p.head, bytes), p.tail, p.head)
  {
    var region := Put(p.region, p.head, bytes);
    forall pos: nat | p.tail <= pos < p.head
      ensures p.region[pos % p.Size()] == region[pos % p.Size()]
    {
      PutKeepsSlot(p.region, p.head, bytes, pos);
    }
  }

  // ----- write_event on the queue of records

  /** Whether the pending lost record goes out before the event. */
  predicate LostFirst(p: Page) {
    p.lost > 0 && LOST_SIZE <= p.Free()
  }

  /** The room left for the event itself. */
  function RoomForEvent(p: Page): int
    requires p.Size() > 0
  {
    p.Free() - (if LostFirst(p) then LOST_SIZE + Fill(p, LOST_SIZE) else 0)
  }

  predicate Accepts(p: Page, data: seq<byte>)
    requires p.Size() > 0
  {
    SAMPLE_HEADER_SIZE + |data| <= RoomForEvent(p)
  }

  /** The records one offered event adds to the queue. */
  function Appended(p: Page, data: seq<byte>): seq<Record>
    requires p.Size() > 0
  {
    (if LostFirst(p) then [Lost(p.lost)] else []) + (if Accepts(p, data) then [Sample(data)] else [])
  }

  function PendingLost(p: Page, data: seq<byte>): nat
    requires p.Size() > 0
  {
    (if LostFirst(p) then 0 else p.lost) + (if Accepts(p, data) then 0 else 1)
  }

  /** Where the event itself goes, and the padding after it. */
  function EventHead(p: Page): nat
    requires p.Size() > 0
  {
    p.head + (if LostFirst(p) then LOST_SIZE + Fill(p, LOST_SIZE) else 0)
  }

  function EventFill(p: Page, data: seq<byte>): nat
    requires p.Size() > 0
  {
    FillSize(p.Size(), (EventHead(p) + SAMPLE_HEADER_SIZE + |data|) % p.Size())
  }

  /**
    An event that is written is not empty and its record fits the 16-bit size field; nothing is
    asked of one that is only counted. Positions and counter are not about to wrap.
  */
  predicate Admissible(p: Page, data: seq<byte>)
    requires p.Size() > 0
  {
    && (Accepts(p, data) ==> 1 <= |data| && SAMPLE_HEADER_SIZE + |data| + EventFill(p, data) < TWO16)
    && p.tail + p.Size() < TWO64 && p.lost + 1 < TWO64
  }

  lemma WriteSampleAppends(p: Page, data: seq<byte>)
    requires p.Size() > 0 && SAMPLE_HEADER_SIZE + |data| <= p.Size()
    ensures WriteSample(p, data) == Append(p, Sample(data))
  {
    hide SampleHeaderBytes, Put;
    PutPut(p.region, p.head, SampleHeaderBytes(|data|, Fill(p, SAMPLE_HEADER_SIZE + |data|)), data);
  }

  lemma SampleQueues(p: Page, data: seq<byte>, rs: seq<Record>)
    requires Queued(p, rs) && p.tail + p.Size() < TWO64 && CanWrite(p, SAMPLE_HEADER_SIZE + |data|)
    requires SAMPLE_HEADER_SIZE + |data| + Fill(p, SAMPLE_HEADER_SIZE + |data|) < TWO16
    ensures WriteSample(p, data) == Append(p, Sample(data))
    ensures Queued(WriteSample(p, data), rs + [Sample(data)])
  {
    hide Holds, HeaderFits, Put, SampleHeaderBytes, Fill;
    CapacityOf(p, rs);
    WriteSampleAppends(p, data);
    AppendQueues(p, Sample(data), rs);
  }

  lemma LostQueues(p: Page, rs: seq<Record>)
    requires Queued(p, rs) && p.tail + p.Size() < TWO64 && p.lost < TWO64 && CanWrite(p, LOST_SIZE)
    ensures Queued(WriteLost(p), rs + [Lost(p.lost)])
  {
    hide Holds, HeaderFits, Put, LostBytes;
    CapacityOf(p, rs);
    AppendQueues(p, Lost(p.lost), rs);
    QueueIgnoresLost(Append(p, Lost(p.lost)), WriteLost(p), rs + [Lost(p.lost)]);
  }

  lemma QueueIgnoresLost(p: Page, q: Page, rs: seq<Record>)
    requires Queued(p, rs) && q == p.(lost := q.lost)
    ensures Queued(q, rs)
  {
    hide Holds, HeaderFits;
  }

  /**
    write_event appends exactly these records to the unread ones, whatever was in the ring,
    and loses none of them.
  */
  lemma WriteEventQueues(p: Page, data: seq<byte>, rs: seq<Record>)
    requires Queued(p, rs) && p.Size() > 0 && Admissible(p, data)
    ensures Queued(WriteEvent(p, data), rs + Appended(p, data))
    ensures WriteEvent(p, data).lost == PendingLost(p, data)
    ensures WriteEvent(p, data).tail == p.tail
    decreases p.lost
  {
    hide Queued, Put, Capacity, FillSize;
    CapacityOf(p, rs);
    assert rs + [] == rs;
    if p.lost > 0 && CanWrite(p, LOST_SIZE) {
      var q := WriteLost(p);
      LostQueues(p, rs);
      assert q.Size() == p.Size() && q.lost == 0 && q.head == EventHead(p);
      assert Accepts(q, data) <==> Accepts(p, data);
      WriteEventQueues(q, data, rs + [Lost(p.lost)]);
      assert rs + [Lost(p.lost)] + Appended(q, data) == rs + Appended(p, data);
    } else if CanWrite(p, SAMPLE_HEADER_SIZE + |data|) {
      SampleQueues(p, data, rs);
      assert Appended(p, data) == [Sample(data)];
    } else {
      assert Appended(p, data) == [];
      QueueIgnoresLost(p, p.(lost := p.lost + 1), rs);
    }
  }

  /** The next place at or after `end` where 8 bytes are left before the region ends. */
  function NextHeader(end: nat, size: nat): nat
    requires size > 0
  {
    if size - end % size < 8 then end + (size - end % size) else end
  }

  /** 24 bytes are free for the pending lost record. */
  predicate PendingGoes(p: Page) {
    p.lost > 0 && 24 <= |p.region| - (p.head - p.tail)
  }

  /** Where the event would go. */
  function EventStart(p: Page): nat
    requires |p.region| > 0
  {
    if PendingGoes(p) then NextHeader(p.head + 24, |p.region|) else p.head
  }

  /** 12 bytes and the data are free from there. */
  predicate EventFits(p: Page, data: seq<byte>)
    requires |p.region| > 0
  {
    12 + |data| <= |p.region| - (EventStart(p) - p.tail)
  }

  /** The lost record and the event, as far as they go out. */
  function EventRecords(p: Page, data: seq<byte>): seq<Record>
    requires |p.region| > 0
  {
    (if PendingGoes(p) then [Lost(p.lost)] else []) + if EventFits(p, data) then [Sample(data)] else []
  }

  /**
    What one call does, by lengths and positions alone: the pending lost record goes first if it
    fits, the event follows if it then fits, each with padding up to the next whole header.
  */
  lemma WriteEventExactly(p: Page, data: seq<byte>, rs: seq<Record>)
    requires Queued(p, rs) && p.Size() > 0 && Admissible(p, data)
    ensures var q := WriteEvent(p, data);
            && q.tail == p.tail
            && q.head == (if EventFits(p, data) then NextHeader(EventStart(p) + 12 + |data|, |p.region|)
                          else EventStart(p))
            && q.lost == (if PendingGoes(p) then 0 else p.lost) + (if EventFits(p, data) then 0 else 1)
            && Queued(q, rs + EventRecords(p, data))
  {
    hide Queued, WriteEvent, Admissible, FillSize, NextHeader, EventHead, EventStart, EventFits, Accepts, LostFirst,
      PendingGoes, EventRecords, Appended, PendingLost, RoomForEvent, Fill;
    SameTerms(p, data);
    WriteEventQueues(p, data, rs);
    HeadAfter(p, data, rs);
  }

  lemma SameTerms(p: Page, data: seq<byte>)
    requires p.Size() > 0
    ensures PendingGoes(p) == LostFirst(p) && EventStart(p) == EventHead(p) && EventFits(p, data) == Accepts(p, data)
    ensures EventRecords(p, data) == Appended(p, data)
    ensures PendingLost(p, data) == (if PendingGoes(p) then 0 else p.lost) + (if EventFits(p, data) then 0 else 1)
  {
    hide FillSize, NextHeader;
    PaddedTo(p.head + 24, p.Size());
  }

  lemma PaddedTo(end: nat, size: nat)
    requires size > 0
    ensures end + FillSize(size, end % size) == NextHeader(end, size)
  {
  }

  lemma HeadAfter(p: Page, data: seq<byte>, rs: seq<Record>)
    requires Queued(p, rs) && p.Size() > 0 && Admissible(p, data)
    ensures WriteEvent(p, data).head
         == if Accepts(p, data) then NextHeader(EventHead(p) + 12 + |data|, p.Size()) else EventHead(p)
    decreases p.lost
  {
    hide Queued, Put, Capacity, FillSize, NextHeader;
    PaddedTo(EventHead(p) + 12 + |data|, p.Size());
    CapacityOf(p, rs);
    if p.lost > 0 && CanWrite(p, LOST_SIZE) {
      var q := WriteLost(p);
      LostQueues(p, rs);
      assert q.Size() == p.Size() && q.lost == 0 && q.head == EventHead(p);
      assert Accepts(q, data) <==> Accepts(p, data);
      HeadAfter(q, data, rs + [Lost(p.lost)]);
    }
  }

  lemma CapacityOf(p: Page, rs: seq<Record>)
    requires Queued(p, rs) && p.tail + p.Size() < TWO64
    ensures p.Size() > 0 && Capacity(p.Size(), p.tail, p.head) == p.Free() <= p.Size()
  {
    hide Holds, Capacity;
    CapacityIsFree(p);
  }

  /** Reading takes the oldest record and leaves the others. */
  lemma ReadTakesOldest(p: Page, rs: seq<Record>)
    requires Queued(p, rs)
    ensures rs == [] <==> p.tail == p.head
    ensures rs != [] ==> ReadAt(p.region, p.tail).Some? && ReadAt(p.region, p.tail).value.0 == rs[0]
                         && Queued(ReadRecord(p), rs[1..])
    ensures rs == [] ==> ReadRecord(p) == p
  {
    hide ReadAt;
    if p.tail != p.head {
      var (r, next) := ReadAt(p.region, p.tail).value;
      assert Decode(p.region, next, p.head) == Some(rs[1..]);
      assert next != p.head ==> HeaderFits(next, p.Size()) by {
        DecodableFits(p.region, next, p.head);
      }
    }
  }

  lemma DecodableFits(region: seq<byte>, tail: nat, head: nat)
    requires |region| > 0 && Decode(region, tail, head).Some?
    ensures tail != head ==> HeaderFits(tail, |region|)
  {
  }

  // ----- Edges of the writer

  /** The size field leads the reader to the writer's head exactly when it did not wrap. */
  lemma SizeFieldExact(p: Page, data: seq<byte>)
    requires p.Size() > 0 && HeaderFits(p.head, p.Size())
    requires SAMPLE_HEADER_SIZE + |data| <= p.Size() && |data| < TWO32
    ensures var q := WriteSample(p, data);
            && ReadAt(q.region, p.head).Some?
            && (ReadAt(q.region, p.head).value.1 == q.head
                <==> SAMPLE_HEADER_SIZE + |data| + Fill(p, SAMPLE_HEADER_SIZE + |data|) < TWO16)
  {
    var fill := Fill(p, SAMPLE_HEADER_SIZE + |data|);
    var q := WriteSample(p, data);
    var size := SAMPLE_HEADER_SIZE + |data| + fill;
    assert LeNat(Window(q.region, p.head, 4)) == RECORD_SAMPLE
        && LeNat(Window(q.region, p.head + 6, 2)) == size % TWO16 by {
      SampleWords(p, data, fill, q.region);
    }
    hide Window, LeNat, WriteSample;
    assert q.head == p.head + size;
    if size < TWO16 {
      Modular.Small(size, TWO16);
    }
  }

  lemma SampleWords(p: Page, data: seq<byte>, fill: nat, region: seq<byte>)
    requires p.Size() > 0 && SAMPLE_HEADER_SIZE + |data| <= p.Size()
    requires fill == Fill(p, SAMPLE_HEADER_SIZE + |data|) && region == WriteSample(p, data).region
    ensures LeNat(Window(region, p.head, 4)) == RECORD_SAMPLE
    ensures LeNat(Window(region, p.head + 6, 2)) == (SAMPLE_HEADER_SIZE + |data| + fill) % TWO16
  {
    hide Fill, Window, Put, LeNat, LeBytes, HeaderBytes;
    var b := SampleHeaderBytes(|data|, fill) + data;
    assert region == Put(p.region, p.head, b) by {
      PutPut(p.region, p.head, SampleHeaderBytes(|data|, fill), data);
    }
    assert b == HeaderBytes(RECORD_SAMPLE, |b| + fill) + (LeBytes(|data|, 4) + data);
    HeaderWords(RECORD_SAMPLE, |b| + fill, LeBytes(|data|, 4) + data);
    PutWindow(p.region, p.head, b, 0, 4);
    assert p.head + 0 == p.head;
    PutWindow(p.region, p.head, b, 6, 2);
  }

  /** The two slices write_any cuts have the lengths of the bytes copied into them. */
  predicate SlicesMatch(start: nat, end: nat, size: nat, len: nat) {
    if start < end then end - start == len else size - start <= len && len - (size - start) == end
  }

  /** write_any stays inside its slices exactly for 1 up to a region's worth of bytes. */
  lemma SlicesMatchExactly(size: nat, head: nat, len: nat)
    requires size > 0
    ensures SlicesMatch(head % size, (head + len) % size, size, len) <==> 1 <= len <= size
  {
    var start := head % size;
    assert (head + len) % size == (start + len) % size by {
      assert head + len == start + len + head / size * size;
      Modular.AddMultiple(start + len, head / size, size);
    }
    if start + len < size {
      Modular.Small(start + len, size);
    } else if start + len < 2 * size {
      Modular.AddMultiple(start + len, -1, size);
      Modular.Small(start + len - size, size);
    }
  }
}
