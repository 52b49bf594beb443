/**
  The ring buffer under concurrency: every interleaving of one reservation at a time, commits
  in any order, producers filling their records, and a consumer that obeys the header bits and
  sleeps when there is nothing for it. Steps are sequentially consistent.
*/
module RingSteps {
  import opened Bytes
  import opened Slots
  import opened RingBuf
  import Modular

  datatype Flags = Adaptive | NoWakeup | ForceWakeup

  /** A record ever reserved: where, how long, its state, and the bytes put into it so far. */
  datatype Rec = Rec(pos: nat, size: nat, status: Status, payload: seq<byte>, flags: Flags)

  function End(r: Rec): nat { r.pos + Aligned(r.size) }

  /** The reservation in progress, between its atomic accesses. */
  datatype Lock = Idle | Loaded(size: nat, cons: nat) | Written(size: nat)

  /** A commit in progress: the length is stored, then the consumer position is read. */
  datatype Flight = Stored(recPos: int, flags: Flags) | WillWake

  datatype Phase = Running | Registered | Asleep

  /** `pending` is a wake-up delivered and not yet taken. */
  datatype Sys = Sys(base: nat, mem: seq<byte>, cons: nat, prod: nat, lock: Lock, flights: map<nat, Flight>,
                     phase: Phase, pending: bool, recs: seq<Rec>, taken: nat, seen: seq<seq<byte>>) {
    function Size(): nat { |mem| }
    function Mask(): int { |mem| - 1 }
  }

  datatype Action =
    | ReserveLoad(size: nat)
    | ReserveWrite
    | ReservePublish
    | Fill(i: nat, off: nat, data: seq<byte>)
    | CommitStore(i: nat, discard: bool, flags: Flags)
    | CommitLoad(i: nat)
    | CommitNotify(i: nat)
    | Consume
    | Prepare
    | Recheck
    | Wake

  // ----- What each step does

  /** The record the consumer position points at is there and no longer busy. */
  predicate Ready(s: Sys)
    requires s.Size() > 0
  {
    s.cons != s.prod && !IsBusy(HdrLen(s.mem, s.cons))
  }

  predicate Enabled(s: Sys, a: Action)
    requires s.Size() > 0
  {
    match a
    case ReserveLoad(size) => s.lock.Idle?
    case ReserveWrite => s.lock.Loaded?
    case ReservePublish => s.lock.Written?
    case Fill(i, off, data) => i < |s.recs| && s.recs[i].status == Busy && off + |data| <= s.recs[i].size
    case CommitStore(i, discard, flags) => i < |s.recs| && s.recs[i].status == Busy
    case CommitLoad(i) => i in s.flights && s.flights[i].Stored?
    case CommitNotify(i) => i in s.flights && s.flights[i].WillWake?
    case Consume => s.phase == Running && Ready(s)
    case Prepare => s.phase == Running
    case Recheck => s.phase == Registered
    case Wake => s.phase == Asleep && s.pending
  }

  function DoReserveLoad(s: Sys, size: nat): Sys {
    if size > MAX_RECORD || Aligned(size) > s.Size() then s else s.(lock := Loaded(size, s.cons))
  }

  function DoReserveWrite(s: Sys): Sys
    requires s.Size() > 0 && s.lock.Loaded?
  {
    if s.prod + Aligned(s.lock.size) - s.lock.cons > s.Mask() then s.(lock := Idle)
    else s.(mem := Put(s.mem, s.prod, HdrBytes(s.lock.size, s.prod % s.Size())), lock := Written(s.lock.size))
  }

  function DoReservePublish(s: Sys): Sys
    requires s.Size() > 0 && s.lock.Written?
  {
    var r := Rec(s.prod, s.lock.size, Busy, Window(s.mem, s.prod + HDR_SIZE, s.lock.size), Adaptive);
    s.(prod := s.prod + Aligned(s.lock.size), recs := s.recs + [r], lock := Idle)
  }

  /** `bytes` with `data` from offset `off` on. */
  function Overwrite(bytes: seq<byte>, off: nat, data: seq<byte>): seq<byte>
    requires off + |data| <= |bytes|
  {
    bytes[..off] + data + bytes[off + |data|..]
  }

  function DoFill(s: Sys, i: nat, off: nat, data: seq<byte>): Sys
    requires s.Size() > 0 && i < |s.recs| && off + |data| <= |s.recs[i].payload|
  {
    var r := s.recs[i];
    s.(mem := Put(s.mem, r.pos + HDR_SIZE + off, data),
       recs := s.recs[i := r.(payload := Overwrite(r.payload, off, data))])
  }

  /** Works from the address of the sample alone: ring and record are recovered from the header. */
  function DoCommitStore(s: Sys, i: nat, discard: bool, flags: Flags): Sys
    requires s.Size() > 0 && i < |s.recs|
  {
    var r := s.recs[i];
    var hdrAddr := s.base + DATA_OFFSET + r.pos % s.Size();
    var ringBase := RestoreBase(hdrAddr, HdrPgOff(s.mem, r.pos));
    var newLen := FinalLen(HdrLen(s.mem, r.pos), discard);
    s.(mem := Put(s.mem, r.pos, LeBytes(newLen, 4)),
       recs := s.recs[i := r.(status := if discard then Discarded else Committed, flags := flags)],
       flights := s.flights[i := Stored(hdrAddr - (ringBase + DATA_OFFSET), flags)])
  }

  function DoCommitLoad(s: Sys, i: nat): Sys
    requires s.Size() > 0 && i in s.flights && s.flights[i].Stored?
  {
    var f := s.flights[i];
    var wake := f.flags == ForceWakeup || (s.cons % s.Size() == f.recPos && f.flags != NoWakeup);
    s.(flights := if wake then s.flights[i := WillWake] else s.flights - {i})
  }

  function DoCommitNotify(s: Sys, i: nat): Sys {
    s.(flights := s.flights - {i}, pending := true)
  }

  /** The consumer reads the header it finds, takes or skips the record, and moves on. */
  function DoConsume(s: Sys): Sys
    requires s.Size() > 0
  {
    var word := HdrLen(s.mem, s.cons);
    var size := SizeOf(word);
    s.(cons := s.cons + Aligned(size), taken := s.taken + 1,
       seen := s.seen + if IsDiscarded(word) then [] else [Window(s.mem, s.cons + HDR_SIZE, size)])
  }

  function Next(s: Sys, a: Action): Sys
    requires s.Size() > 0 && Enabled(s, a)
    requires forall i | 0 <= i < |s.recs| :: |s.recs[i].payload| == s.recs[i].size
  {
    match a
    case ReserveLoad(size) => DoReserveLoad(s, size)
    case ReserveWrite => DoReserveWrite(s)
    case ReservePublish => DoReservePublish(s)
    case Fill(i, off, data) => DoFill(s, i, off, data)
    case CommitStore(i, discard, flags) => DoCommitStore(s, i, discard, flags)
    case CommitLoad(i) => DoCommitLoad(s, i)
    case CommitNotify(i) => DoCommitNotify(s, i)
    case Consume => DoConsume(s)
    case Prepare => s.(phase := Registered, pending := false)
    case Recheck => s.(phase := if Ready(s) then Running else Asleep)
    case Wake => s.(phase := Running, pending := false)
  }

  // ----- The invariant

  /** Where the first `n` records end; they lie one after the other from position 0. */
  function EndOf(recs: seq<Rec>, n: nat): nat
    requires n <= |recs|
  {
    if n == 0 then 0 else End(recs[n - 1])
  }

  predicate WellSized(r: Rec) {
    r.pos % 8 == 0 && r.size <= MAX_RECORD && |r.payload| == r.size
  }

  /** Every record begins where the one before it ends. */
  predicate Tiled(recs: seq<Rec>) {
    && (forall i | 0 <= i < |recs| :: WellSized(recs[i]))
    && (recs != [] ==> recs[0].pos == 0)
    && (forall i, j | 0 <= i < |recs| && 0 <= j < |recs| && j == i + 1 :: recs[j].pos == End(recs[i]))
  }

  predicate Placed(s: Sys) {
    && s.Size() >= PAGE_SIZE && s.Size() % PAGE_SIZE == 0 && s.Size() < TWO32 && s.base % PAGE_SIZE == 0
    && Tiled(s.recs) && s.taken <= |s.recs|
    && s.cons == EndOf(s.recs, s.taken) && s.prod == EndOf(s.recs, |s.recs|)
    && s.cons <= s.prod <= s.cons + s.Mask()
    && (forall i | 0 <= i < s.taken :: s.recs[i].status != Busy)
  }

  /** The memory holds the record: header words and payload. */
  predicate InMemory(mem: seq<byte>, r: Rec)
    requires |mem| > 0
  {
    && HdrLen(mem, r.pos) == LenWord(r.size, r.status)
    && HdrPgOff(mem, r.pos) == PgOff(r.pos % |mem|)
    && Window(mem, r.pos + HDR_SIZE, r.size) == r.payload
  }

  predicate MemoryHolds(s: Sys)
    requires s.Size() > 0
  {
    forall i | s.taken <= i < |s.recs| :: InMemory(s.mem, s.recs[i])
  }

  predicate LockHolds(s: Sys)
    requires s.Size() > 0
  {
    match s.lock
    case Idle => true
    case Loaded(size, cons) => size <= MAX_RECORD && Aligned(size) <= s.Size() && cons <= s.cons
    case Written(size) =>
      && size <= MAX_RECORD && s.prod + Aligned(size) - s.cons <= s.Mask()
      && HdrLen(s.mem, s.prod) == LenWord(size, Busy) && HdrPgOff(s.mem, s.prod) == PgOff(s.prod % s.Size())
  }

  /** A commit in progress is about a record no longer busy, found at its place in the ring. */
  predicate FlightsHold(s: Sys)
    requires s.Size() > 0
  {
    forall i | i in s.flights ::
      && i < |s.recs| && s.recs[i].status != Busy
      && (s.flights[i].Stored? ==>
                s.flights[i].recPos == s.recs[i].pos % s.Size() && s.flights[i].flags == s.recs[i].flags)
  }

  function Kept(recs: seq<Rec>): seq<seq<byte>> {
    if recs == [] then [] else
      Kept(recs[..|recs| - 1]) +
      if recs[|recs| - 1].status == Discarded then [] else [recs[|recs| - 1].payload]
  }

  predicate SeenHolds(s: Sys)
    requires s.taken <= |s.recs|
  {
    s.seen == Kept(s.recs[..s.taken])
  }

  /**
    A sleeper with no wake-up pending while its record is ready is owed one: that record's
    commit has stored the length but not yet finished, or it asked for no wake-up.
  */
  predicate WakeHolds(s: Sys)
    requires s.taken <= |s.recs|
  {
    s.phase == Asleep && !s.pending && s.taken < |s.recs| && s.recs[s.taken].status != Busy ==>
      s.taken in s.flights || s.recs[s.taken].flags == NoWakeup
  }

  predicate Inv(s: Sys) {
    && Placed(s) && MemoryHolds(s) && LockHolds(s) && FlightsHold(s) && SeenHolds(s) && WakeHolds(s)
  }

  // ----- Geometry

  lemma {:induction false} EndGrows(recs: seq<Rec>, i: nat, j: nat)
    requires Tiled(recs) && i <= j <= |recs|
    ensures EndOf(recs, i) <= EndOf(recs, j)
    ensures i < |recs| ==> recs[i].pos == EndOf(recs, i)
    decreases j - i
  {
    hide Aligned, WellSized;
    if i < j {
      EndGrows(recs, i, j - 1);
      if j > 1 {
        assert recs[j - 1].pos == End(recs[j - 2]);
      }
    } else if 0 < i < |recs| {
      assert recs[i].pos == End(recs[i - 1]);
    }
  }

  /** Unread records lie between the two positions, in order and apart. */
  lemma Apart(s: Sys, i: nat, j: nat)
    requires Placed(s) && s.taken <= i < |s.recs| && s.taken <= j < |s.recs|
    ensures s.cons <= s.recs[i].pos && End(s.recs[i]) <= s.prod
    ensures i < j ==> End(s.recs[i]) <= s.recs[j].pos
    ensures j < i ==> End(s.recs[j]) <= s.recs[i].pos
  {
    hide Aligned, WellSized, Tiled;
    EndGrows(s.recs, i, i);
    EndGrows(s.recs, j, j);
    EndGrows(s.recs, s.taken, i);
    EndGrows(s.recs, i + 1, |s.recs|);
    if i < j {
      EndGrows(s.recs, i + 1, j);
    } else if j < i {
      EndGrows(s.recs, j + 1, i);
    }
  }

  /** The slots of two outstanding records, headers and payloads, are disjoint. */
  lemma OutstandingDisjoint(s: Sys, i: nat, j: nat, p: nat, q: nat)
    requires Placed(s) && s.taken <= i < |s.recs| && s.taken <= j < |s.recs| && i != j
    requires s.recs[i].pos <= p < End(s.recs[i]) && s.recs[j].pos <= q < End(s.recs[j])
    ensures p % s.Size() != q % s.Size()
  {
    Apart(s, i, j);
    Apart(s, j, i);
    if p % s.Size() == q % s.Size() {
      Modular.SameSlot(p, q, s.Size());
    }
  }

  lemma AlignedCovers(size: nat)
    ensures HDR_SIZE + size <= Aligned(size)
  {
  }

  lemma KeepsRecord(mem: seq<byte>, at: nat, data: seq<byte>, r: Rec)
    requires |mem| > 0 && InMemory(mem, r)
    requires (r.pos + HDR_SIZE + r.size <= at && at + |data| <= r.pos + |mem|)
             || (at + |data| <= r.pos && r.pos + HDR_SIZE + r.size <= at + |mem|)
    ensures InMemory(Put(mem, at, data), r)
  {
    hide Put, Window, LeNat, LenWord, PgOff;
    PutKeepsWindow(mem, at, data, r.pos, 4);
    PutKeepsWindow(mem, at, data, r.pos + 4, 4);
    PutKeepsWindow(mem, at, data, r.pos + HDR_SIZE, r.size);
  }

  /** A store inside record `i` leaves the other unread records alone. */
  lemma KeepsOthers(s: Sys, i: nat, at: nat, data: seq<byte>, j: nat)
    requires Placed(s) && MemoryHolds(s) && s.taken <= i < |s.recs| && s.taken <= j < |s.recs| && i != j
    requires s.recs[i].pos <= at && at + |data| <= End(s.recs[i])
    ensures InMemory(Put(s.mem, at, data), s.recs[j])
  {
    hide InMemory, Tiled, Aligned;
    Apart(s, i, j);
    Apart(s, j, i);
    AlignedCovers(s.recs[j].size);
    AlignedCovers(s.recs[i].size);
    KeepsRecord(s.mem, at, data, s.recs[j]);
  }

  /** A store beyond the last record, short of a ring from the consumer, leaves all alone. */
  lemma KeepsAll(s: Sys, at: nat, data: seq<byte>, j: nat)
    requires Placed(s) && MemoryHolds(s) && s.taken <= j < |s.recs|
    requires s.prod <= at && at + |data| <= s.cons + s.Size()
    ensures InMemory(Put(s.mem, at, data), s.recs[j])
  {
    hide InMemory, Tiled, Aligned;
    Apart(s, j, j);
    AlignedCovers(s.recs[j].size);
    KeepsRecord(s.mem, at, data, s.recs[j]);
  }

  // ----- Each step keeps the invariant

  lemma ReserveWriteKeeps(s: Sys)
    requires Inv(s) && s.lock.Loaded?
    ensures Inv(DoReserveWrite(s))
  {
    hide Placed, MemoryHolds, Put, HdrLen, HdrPgOff, HdrBytes, Kept, Aligned, LenWord, PgOff;
    PlacedSize(s);
    var t := DoReserveWrite(s);
    PlacedFrame(s, t);
    if t.lock.Written? {
      WriteHolds(s, t);
    } else {
      MemoryFrame(s, t);
    }
  }

  lemma MemoryFrame(s: Sys, t: Sys)
    requires s.Size() > 0 && MemoryHolds(s) && t.mem == s.mem && t.recs == s.recs && t.taken == s.taken
    ensures t.Size() > 0 && MemoryHolds(t)
  {
    hide InMemory;
  }

  lemma PlacedFrame(s: Sys, t: Sys)
    requires Placed(s) && t.Size() == s.Size() && t.base == s.base
    requires t.recs == s.recs && t.taken == s.taken && t.cons == s.cons && t.prod == s.prod
    ensures Placed(t)
  {
    hide Tiled, EndOf;
  }

  /** The header goes in front of nothing unread, and is found there. */
  lemma WriteHolds(s: Sys, t: Sys)
    requires Inv(s) && s.lock.Loaded? && s.Size() > 0 && t == DoReserveWrite(s) && t.lock.Written?
    ensures t.Size() > 0 && MemoryHolds(t) && LockHolds(t)
  {
    hide Tiled, Put, HdrLen, HdrPgOff, HdrBytes, Kept, Aligned, LenWord, PgOff, Window, EndOf, FlightsHold, SeenHolds,
      WakeHolds, InMemory;
    var size, idx := s.lock.size, s.prod % s.Size();
    var bytes := HdrBytes(size, idx);
    forall j | s.taken <= j < |s.recs|
      ensures InMemory(t.mem, s.recs[j])
    {
      KeepsAll(s, s.prod, bytes, j);
    }
    PgOffFits(idx, s.Size());
    HeaderReads(s.mem, s.prod, size, idx);
  }

  lemma PgOffFits(idx: nat, size: nat)
    requires idx < size < TWO32
    ensures PgOff(idx) < TWO32
  {
  }

  lemma TilesOneMore(recs: seq<Rec>, r: Rec)
    requires Tiled(recs) && WellSized(r) && r.pos == EndOf(recs, |recs|)
    ensures Tiled(recs + [r]) && EndOf(recs + [r], |recs| + 1) == End(r)
    ensures forall n | 0 <= n <= |recs| :: EndOf(recs + [r], n) == EndOf(recs, n)
  {
    hide WellSized, Aligned;
    var more := recs + [r];
    assert forall i | 0 <= i < |recs| :: more[i] == recs[i];
    assert more[|recs|] == r;
  }

  lemma ReservePublishKeeps(s: Sys)
    requires Inv(s) && s.lock.Written?
    ensures Inv(DoReservePublish(s))
  {
    hide Placed, MemoryHolds, Kept, Window, Aligned;
    PlacedSize(s);
    var t := DoReservePublish(s);
    PublishPlaces(s, t);
    PublishHolds(s, t);
    assert t.recs[..s.taken] == s.recs[..s.taken];
    assert FlightsHold(t) && WakeHolds(t);
  }

  /** The new record begins at the producer position, which moves to its end. */
  lemma PublishPlaces(s: Sys, t: Sys)
    requires Inv(s) && s.lock.Written? && t == DoReservePublish(s)
    ensures s.taken <= |s.recs| && Placed(t)
  {
    hide MemoryHolds, FlightsHold, SeenHolds, WakeHolds, HdrLen, HdrPgOff, Window, LenWord, PgOff;
    var n := |s.recs|;
    assert WellSized(t.recs[n]) by {
      EndAligned(s.recs, n);
    }
    hide Aligned, WellSized;
    TilesOneMore(s.recs, t.recs[n]);
    hide Tiled, EndOf;
    assert forall i | 0 <= i < n :: t.recs[i] == s.recs[i];
  }

  /** Its header is the one written before, its bytes are what the ring held. */
  lemma PublishHolds(s: Sys, t: Sys)
    requires Inv(s) && s.lock.Written? && t == DoReservePublish(s)
    ensures t.Size() > 0 && MemoryHolds(t)
  {
    hide Placed, FlightsHold, SeenHolds, WakeHolds, HdrLen, HdrPgOff, Window, LenWord, PgOff, Aligned;
    assert s.Size() > 0 && s.taken <= |s.recs| by {
      PlacedSize(s);
    }
    assert InMemory(s.mem, t.recs[|s.recs|]);
    hide InMemory;
  }

  lemma PlacedSize(s: Sys)
    requires Placed(s)
    ensures s.Size() > 0 && s.taken <= |s.recs|
  {
    hide Tiled, EndOf;
  }

  lemma EndAligned(recs: seq<Rec>, n: nat)
    requires Tiled(recs) && n <= |recs|
    ensures EndOf(recs, n) % 8 == 0
  {
    if n > 0 {
      assert WellSized(recs[n - 1]);
    }
  }

  lemma OverwriteReads(mem: seq<byte>, pos: nat, payload: seq<byte>, off: nat, data: seq<byte>)
    requires |mem| > 0 && off + |data| <= |payload| <= |mem|
    requires Window(mem, pos, |payload|) == payload
    ensures Window(Put(mem, pos + off, data), pos, |payload|) == Overwrite(payload, off, data)
  {
    hide Put, Window;
    var after := Put(mem, pos + off, data);
    var w := Window(after, pos, |payload|);
    PutKeepsWindow(mem, pos + off, data, pos, off);
    PutReads(mem, pos + off, data);
    var rest := off + |data|;
    PutKeepsWindow(mem, pos + off, data, pos + rest, |payload| - rest);
    assert pos + 0 == pos;
    SubWindow(after, pos, |payload|, 0, off);
    SubWindow(after, pos, |payload|, off, |data|);
    SubWindow(after, pos, |payload|, rest, |payload| - rest);
    SubWindow(mem, pos, |payload|, 0, off);
    SubWindow(mem, pos, |payload|, rest, |payload| - rest);
    assert w == w[0..0 + off] + w[off..off + |data|] + w[rest..rest + (|payload| - rest)];
  }

  lemma FillsRecord(mem: seq<byte>, r: Rec, off: nat, data: seq<byte>)
    requires |mem| > 0 && InMemory(mem, r) && |r.payload| == r.size && off + |data| <= r.size
    requires HDR_SIZE + r.size <= |mem|
    ensures InMemory(Put(mem, r.pos + HDR_SIZE + off, data), r.(payload := Overwrite(r.payload, off, data)))
  {
    hide Put, Window, LeNat, LenWord, PgOff;
    var at := r.pos + HDR_SIZE + off;
    PutKeepsWindow(mem, at, data, r.pos, 4);
    PutKeepsWindow(mem, at, data, r.pos + 4, 4);
    OverwriteReads(mem, r.pos + HDR_SIZE, r.payload, off, data);
  }

  lemma SameTiles(recs: seq<Rec>, i: nat, r: Rec)
    requires Tiled(recs) && i < |recs| && WellSized(r) && r.pos == recs[i].pos && r.size == recs[i].size
    ensures Tiled(recs[i := r])
    ensures forall n | 0 <= n <= |recs| :: EndOf(recs[i := r], n) == EndOf(recs, n)
  {
    hide WellSized, Aligned;
  }

  /** A store inside an unread record leaves a header that waits to be published alone. */
  lemma KeepsLock(s: Sys, i: nat, at: nat, data: seq<byte>)
    requires Inv(s) && s.taken <= i < |s.recs| && s.lock.Written?
    requires s.recs[i].pos <= at && at + |data| <= End(s.recs[i])
    ensures HdrLen(Put(s.mem, at, data), s.prod) == HdrLen(s.mem, s.prod)
    ensures HdrPgOff(Put(s.mem, at, data), s.prod) == HdrPgOff(s.mem, s.prod)
  {
    hide Put, Window, LeNat, Aligned, MemoryHolds, Tiled, EndOf, LockHolds, FlightsHold, SeenHolds, WakeHolds;
    Apart(s, i, i);
    assert s.prod + HDR_SIZE <= at + s.Size() by {
      LockRoom(s);
    }
    PutKeepsWindow(s.mem, at, data, s.prod, 4);
    PutKeepsWindow(s.mem, at, data, s.prod + 4, 4);
  }

  lemma LockRoom(s: Sys)
    requires Inv(s) && s.lock.Written?
    ensures s.prod + HDR_SIZE <= s.cons + s.Size()
  {
    hide Placed, MemoryHolds;
    AlignedCovers(s.lock.size);
  }

  /** What a store inside busy record `i` and its new description keep of the invariant. */
  lemma StoreKeeps(s: Sys, i: nat, at: nat, data: seq<byte>, r: Rec, t: Sys)
    requires Inv(s) && i < |s.recs| && s.recs[i].status == Busy
    requires s.recs[i].pos <= at && at + |data| <= End(s.recs[i])
    requires WellSized(r) && r.pos == s.recs[i].pos && r.size == s.recs[i].size
    requires InMemory(Put(s.mem, at, data), r)
    requires t == s.(mem := Put(s.mem, at, data), recs := s.recs[i := r], flights := t.flights)
    ensures s.taken <= i
    ensures Placed(t) && MemoryHolds(t) && LockHolds(t) && SeenHolds(t)
  {
    hide HdrLen, HdrPgOff, Window, LenWord, PgOff, Kept, Aligned, WellSized, Put;
    assert s.taken <= i;
    SameTiles(s.recs, i, r);
    forall j | s.taken <= j < |t.recs|
      ensures InMemory(t.mem, t.recs[j])
    {
      if j != i {
        KeepsOthers(s, i, at, data, j);
      }
    }
    hide InMemory, Tiled, EndOf;
    if s.lock.Written? {
      KeepsLock(s, i, at, data);
    }
    assert t.recs[..s.taken] == s.recs[..s.taken];
  }

  lemma FillKeeps(s: Sys, i: nat, off: nat, data: seq<byte>)
    requires Inv(s) && i < |s.recs| && s.recs[i].status == Busy && off + |data| <= s.recs[i].size == |s.recs[i].payload|
    ensures Inv(DoFill(s, i, off, data))
  {
    hide Placed, MemoryHolds, SeenHolds, LockHolds, FlightsHold, WakeHolds, InMemory, Put, Overwrite, Aligned;
    var r := s.recs[i];
    FillStores(s, i, off, data);
    var t := DoFill(s, i, off, data);
    StoreKeeps(s, i, r.pos + HDR_SIZE + off, data, t.recs[i], t);
    StoreWakes(s, i, t.recs[i], t);
  }

  lemma FillStores(s: Sys, i: nat, off: nat, data: seq<byte>)
    requires Inv(s) && i < |s.recs| && s.recs[i].status == Busy && off + |data| <= s.recs[i].size == |s.recs[i].payload|
    ensures var r := s.recs[i];
            var q := r.(payload := Overwrite(r.payload, off, data));
            && s.Size() > 0 && r.pos + HDR_SIZE + off + |data| <= End(r) && WellSized(q)
            && InMemory(Put(s.mem, r.pos + HDR_SIZE + off, data), q)
  {
    hide Inv, InMemory, Put, Aligned;
    BusyFacts(s, i);
    AlignedCovers(s.recs[i].size);
    FillsRecord(s.mem, s.recs[i], off, data);
  }

  /** A store to a busy record that stays busy, or whose commit is now in progress, owes no new wake-up. */
  lemma StoreWakes(s: Sys, i: nat, r: Rec, t: Sys)
    requires s.Size() > 0 && FlightsHold(s) && s.taken <= |s.recs| && WakeHolds(s)
    requires i < |s.recs| && s.recs[i].status == Busy && r.pos == s.recs[i].pos
    requires t == s.(mem := t.mem, recs := s.recs[i := r], flights := t.flights) && t.Size() == s.Size()
    requires if r.status == Busy then t.flights == s.flights
             else t.flights == s.flights[i := Stored(r.pos % s.Size(), r.flags)]
    ensures FlightsHold(t) && WakeHolds(t)
  {
  }

  lemma BusyIsUnread(s: Sys, i: nat)
    requires Placed(s) && i < |s.recs| && s.recs[i].status == Busy
    ensures s.taken <= i && i < |s.recs|
  {
    hide Tiled, EndOf;
  }

  lemma BusyFacts(s: Sys, i: nat)
    requires Inv(s) && i < |s.recs| && s.recs[i].status == Busy
    ensures s.Size() >= PAGE_SIZE && s.base % PAGE_SIZE == 0 && InMemory(s.mem, s.recs[i]) && WellSized(s.recs[i])
    ensures HDR_SIZE + s.recs[i].size <= Aligned(s.recs[i].size) <= s.Size()
  {
    hide HdrLen, HdrPgOff, Window, LenWord, PgOff, Kept, Aligned, InMemory, EndOf, SeenHolds, LockHolds, FlightsHold,
      WakeHolds;
    BusyIsUnread(s, i);
    Apart(s, i, i);
    AlignedCovers(s.recs[i].size);
  }

  /** The stored length, the record found, and the ring found: what a commit leaves. */
  lemma CommitsRecord(base: nat, mem: seq<byte>, r: Rec, discard: bool)
    requires |mem| >= PAGE_SIZE && base % PAGE_SIZE == 0 && r.size <= MAX_RECORD && HDR_SIZE + r.size <= |mem|
    requires InMemory(mem, r) && r.status == Busy
    ensures var word := FinalLen(HdrLen(mem, r.pos), discard);
            InMemory(Put(mem, r.pos, LeBytes(word, 4)), r.(status := if discard then Discarded else Committed))
    ensures RestoreBase(base + DATA_OFFSET + r.pos % |mem|, HdrPgOff(mem, r.pos)) == base
  {
    WordBits(r.size, Busy);
    WordBits(r.size, if discard then Discarded else Committed);
    RestoreFindsRing(base, r.pos % |mem|);
    hide Put, Window, LeNat, LeBytes, PgOff, RestoreBase, LenWord, IsBusy, IsDiscarded, SizeOf, FinalLen;
    var word := FinalLen(HdrLen(mem, r.pos), discard);
    LenReads(mem, r.pos, word);
    PutKeepsWindow(mem, r.pos, LeBytes(word, 4), r.pos + 4, 4);
    PutKeepsWindow(mem, r.pos, LeBytes(word, 4), r.pos + HDR_SIZE, r.size);
  }

  lemma CommitStoreKeeps(s: Sys, i: nat, discard: bool, flags: Flags)
    requires Inv(s) && i < |s.recs| && s.recs[i].status == Busy
    ensures Inv(DoCommitStore(s, i, discard, flags))
  {
    hide DoCommitStore, Placed, MemoryHolds, SeenHolds, LockHolds, FlightsHold, WakeHolds, InMemory, Put, FinalLen,
      HdrLen, LeBytes, Aligned;
    PlacedSize(s);
    var r := s.recs[i];
    CommitStores(s, i, discard, flags);
    var t := DoCommitStore(s, i, discard, flags);
    StoreKeeps(s, i, r.pos, LeBytes(FinalLen(HdrLen(s.mem, r.pos), discard), 4), t.recs[i], t);
    StoreWakes(s, i, t.recs[i], t);
  }

  lemma CommitStores(s: Sys, i: nat, discard: bool, flags: Flags)
    requires Inv(s) && i < |s.recs| && s.recs[i].status == Busy
    ensures var t, r := DoCommitStore(s, i, discard, flags), s.recs[i];
            var data := LeBytes(FinalLen(HdrLen(s.mem, r.pos), discard), 4);
            var q := r.(status := if discard then Discarded else Committed, flags := flags);
            && t == s.(mem := Put(s.mem, r.pos, data), recs := s.recs[i := q],
                       flights := s.flights[i := Stored(r.pos % s.Size(), flags)])
            && r.pos + 4 <= End(r) && WellSized(q) && InMemory(t.mem, q)
  {
    hide HdrLen, HdrPgOff, Window, LenWord, PgOff, Kept, Aligned, Put, InMemory, EndOf, SeenHolds, LockHolds,
      FlightsHold, WakeHolds,
      FinalLen, RestoreBase;
    var r := s.recs[i];
    BusyFacts(s, i);
    hide Tiled, MemoryHolds, Placed, Inv;
    CommitsRecord(s.base, s.mem, r, discard);
    var word := FinalLen(HdrLen(s.mem, r.pos), discard);
    FlagsIgnored(Put(s.mem, r.pos, LeBytes(word, 4)), r.(status := if discard then Discarded else Committed),
                 r.(status := if discard then Discarded else Committed, flags := flags));
  }

  lemma FlagsIgnored(mem: seq<byte>, r: Rec, q: Rec)
    requires |mem| > 0 && InMemory(mem, r) && q == r.(flags := q.flags)
    ensures InMemory(mem, q)
  {
  }

  lemma CommitLoadKeeps(s: Sys, i: nat)
    requires Inv(s) && i in s.flights && s.flights[i].Stored?
    ensures Inv(DoCommitLoad(s, i))
  {
    hide Placed, MemoryHolds, LockHolds, SeenHolds, WakeHolds;
    PlacedSize(s);
    assert i < |s.recs|;
    if s.taken <= i {
      OldestAlone(s, i);
    }
    var t := DoCommitLoad(s, i);
    OnlyFlights(s, t);
    LoadWakes(s, i, t);
  }

  /** Only a commit that finds the consumer elsewhere, or was told so, ends without a wake-up. */
  lemma LoadWakes(s: Sys, i: nat, t: Sys)
    requires s.Size() > 0 && s.taken <= |s.recs| && FlightsHold(s) && WakeHolds(s)
    requires i in s.flights && s.flights[i].Stored? && t == DoCommitLoad(s, i)
    requires i == s.taken ==> s.cons % s.Size() == s.recs[i].pos % s.Size()
    ensures FlightsHold(t) && WakeHolds(t)
  {
  }

  lemma OnlyFlights(s: Sys, t: Sys)
    requires Inv(s) && t == s.(flights := t.flights, pending := t.pending, phase := t.phase)
    ensures Placed(t) && MemoryHolds(t) && LockHolds(t) && SeenHolds(t)
  {
    hide FlightsHold, WakeHolds, InMemory, Aligned;
    PlacedFrame(s, t);
  }

  lemma CommitNotifyKeeps(s: Sys, i: nat)
    requires Inv(s) && i in s.flights
    ensures Inv(DoCommitNotify(s, i))
  {
    hide Placed, MemoryHolds, LockHolds, SeenHolds;
    PlacedSize(s);
    OnlyFlights(s, DoCommitNotify(s, i));
  }

  /** What the consumer reads at its position is the oldest unread record. */
  lemma HeadIsOldest(s: Sys)
    requires Inv(s)
    ensures s.cons == s.prod <==> s.taken == |s.recs|
    ensures s.taken < |s.recs| ==>
              var r := s.recs[s.taken];
              && s.cons == r.pos && HdrLen(s.mem, s.cons) == LenWord(r.size, r.status)
              && Window(s.mem, s.cons + HDR_SIZE, r.size) == r.payload && r.size <= MAX_RECORD
  {
    hide Kept, Tiled;
    if s.taken < |s.recs| {
      EndGrows(s.recs, s.taken, s.taken);
      Apart(s, s.taken, s.taken);
      AlignedCovers(s.recs[s.taken].size);
      assert WellSized(s.recs[s.taken]) by {
        TiledSizes(s.recs, s.taken);
      }
      assert InMemory(s.mem, s.recs[s.taken]);
    }
  }

  lemma TiledSizes(recs: seq<Rec>, i: nat)
    requires Tiled(recs) && i < |recs|
    ensures WellSized(recs[i])
  {
  }

  lemma KeptOneMore(recs: seq<Rec>, n: nat)
    requires n < |recs|
    ensures Kept(recs[..n + 1]) == Kept(recs[..n]) + if recs[n].status == Discarded then [] else [recs[n].payload]
  {
    assert recs[..n + 1][..n] == recs[..n];
  }

  lemma ConsumeKeeps(s: Sys)
    requires Inv(s) && s.phase == Running && Ready(s)
    ensures Inv(DoConsume(s))
    ensures s.taken < |s.recs| && DoConsume(s).taken == s.taken + 1
    ensures DoConsume(s).seen
            == s.seen + if s.recs[s.taken].status == Discarded then [] else [s.recs[s.taken].payload]
  {
    hide Kept, Tiled, HdrLen, HdrPgOff, Window, LenWord, IsBusy, IsDiscarded, SizeOf, Aligned, InMemory, PgOff;
    ConsumeReads(s);
    var t, r := DoConsume(s), s.recs[s.taken];
    KeptOneMore(s.recs, s.taken);
    Apart(s, s.taken, s.taken);
    hide DoConsume, Ready, Kept;
    assert Placed(t) && MemoryHolds(t);
    hide Placed, MemoryHolds;
    assert LockHolds(t) && FlightsHold(t) && WakeHolds(t);
  }

  /** The consumer takes the oldest record as it was committed, or skips it. */
  lemma ConsumeReads(s: Sys)
    requires Inv(s) && s.phase == Running && Ready(s)
    ensures s.taken < |s.recs| && s.recs[s.taken].status != Busy
    ensures var r := s.recs[s.taken];
            DoConsume(s) == s.(cons := End(r), taken := s.taken + 1,
                               seen := s.seen + if r.status == Discarded then [] else [r.payload])
  {
    hide Kept, Tiled, HdrLen, HdrPgOff, Window, LenWord, IsBusy, IsDiscarded, SizeOf, Aligned, InMemory, PgOff,
      EndOf, MemoryHolds,
      LockHolds, FlightsHold, SeenHolds, WakeHolds;
    HeadIsOldest(s);
    if s.taken < |s.recs| {
      WordBits(s.recs[s.taken].size, s.recs[s.taken].status);
    }
  }

  lemma WaitingKeeps(s: Sys, a: Action)
    requires Inv(s) && a in {Prepare, Recheck, Wake} && Enabled(s, a)
    ensures Inv(Next(s, a))
  {
    hide Placed, MemoryHolds, LockHolds, SeenHolds, HdrLen, Window, LenWord, IsBusy;
    PayloadSizes(s);
    PlacedSize(s);
    HeadIsOldest(s);
    if s.taken < |s.recs| {
      WordBits(s.recs[s.taken].size, s.recs[s.taken].status);
    }
    OnlyFlights(s, Next(s, a));
  }

  // ----- Every run

  lemma PayloadSizes(s: Sys)
    requires Inv(s)
    ensures s.Size() > 0 && forall i | 0 <= i < |s.recs| :: |s.recs[i].payload| == s.recs[i].size
  {
    hide MemoryHolds, Kept, LockHolds, EndOf, Aligned;
  }

  lemma NextKeeps(s: Sys, a: Action)
    requires Inv(s) && s.Size() > 0 && Enabled(s, a)
    requires forall i | 0 <= i < |s.recs| :: |s.recs[i].payload| == s.recs[i].size
    ensures Inv(Next(s, a))
  {
    match a
    case ReserveLoad(size) => ReserveLoadKeeps(s, size);
    case ReserveWrite => ReserveWriteKeeps(s);
    case ReservePublish => ReservePublishKeeps(s);
    case Fill(i, off, data) => FillKeeps(s, i, off, data);
    case CommitStore(i, discard, flags) => CommitStoreKeeps(s, i, discard, flags);
    case CommitLoad(i) => CommitLoadKeeps(s, i);
    case CommitNotify(i) => CommitNotifyKeeps(s, i);
    case Consume => ConsumeKeeps(s);
    case Prepare => WaitingKeeps(s, a);
    case Recheck => WaitingKeeps(s, a);
    case Wake => WaitingKeeps(s, a);
  }

  /**
    Which reservations go on: those below 2^30 bytes whose record is no longer than the ring, and
    then those that leave a byte between the new producer position and the consumer position read.
  */
  lemma ReserveDecides(s: Sys, size: nat)
    requires s.Size() > 0
    ensures s.lock.Idle? ==>
              (DoReserveLoad(s, size).lock.Loaded? <==> size < 0x4000_0000 && (size + 15) / 8 * 8 <= |s.mem|)
    ensures s.lock.Loaded? && s.lock.size == size ==>
              (DoReserveWrite(s).lock.Written? <==> s.prod + (size + 15) / 8 * 8 - s.lock.cons < |s.mem|)
  {
    AlignedIs(size);
    hide Put, HdrBytes, Aligned;
  }

  lemma ReserveLoadKeeps(s: Sys, size: nat)
    requires Inv(s) && s.lock.Idle?
    ensures Inv(DoReserveLoad(s, size))
  {
    hide InMemory, Tiled, EndOf, Kept;
  }

  function Start(base: nat, mem: seq<byte>): Sys {
    Sys(base, mem, 0, 0, Idle, map[], Running, false, [], 0, [])
  }

  predicate GoodArea(base: nat, mem: seq<byte>) {
    |mem| >= PAGE_SIZE && |mem| % PAGE_SIZE == 0 && |mem| < TWO32 && base % PAGE_SIZE == 0
  }

  lemma StartHolds(base: nat, mem: seq<byte>)
    requires GoodArea(base, mem)
    ensures Inv(Start(base, mem))
  {
  }

  /** `trace` is a run: it starts with an empty ring and every state follows by an enabled step. */
  ghost predicate IsRun(trace: seq<Sys>, actions: seq<Action>) {
    && |trace| == |actions| + 1
    && GoodArea(trace[0].base, trace[0].mem) && trace[0] == Start(trace[0].base, trace[0].mem)
    && forall n | 0 <= n < |actions| :: Steps(trace[n], actions[n], trace[n + 1])
  }

  ghost predicate Steps(s: Sys, a: Action, t: Sys) {
    && s.Size() > 0 && (forall i | 0 <= i < |s.recs| :: |s.recs[i].payload| == s.recs[i].size)
    && Enabled(s, a) && t == Next(s, a)
  }

  lemma {:induction false} RunKeepsInv(trace: seq<Sys>, actions: seq<Action>, n: nat)
    requires IsRun(trace, actions) && n < |trace|
    ensures Inv(trace[n])
    decreases n
  {
    if n == 0 {
      StartHolds(trace[0].base, trace[0].mem);
    } else {
      RunKeepsInv(trace, actions, n - 1);
      assert Steps(trace[n - 1], actions[n - 1], trace[n - 1 + 1]);
      hide Inv, Next, Enabled;
      NextKeeps(trace[n - 1], actions[n - 1]);
    }
  }

  /** Once committed or discarded a record never changes; none disappears or moves. */
  lemma StepFreezes(s: Sys, a: Action, t: Sys, i: nat)
    requires Inv(s) && Steps(s, a, t) && i < |s.recs|
    ensures i < |t.recs| && t.recs[i].pos == s.recs[i].pos && t.recs[i].size == s.recs[i].size
    ensures s.recs[i].status != Busy ==> t.recs[i] == s.recs[i]
  {
    hide Inv, Put, HdrLen, HdrPgOff, HdrBytes, Aligned, Window, FinalLen, RestoreBase, Ready;
  }

  lemma StepAt(trace: seq<Sys>, actions: seq<Action>, n: nat)
    requires IsRun(trace, actions) && 0 < n < |trace|
    ensures |trace| == |actions| + 1 && Steps(trace[n - 1], actions[n - 1], trace[n])
  {
    assert Steps(trace[n - 1], actions[n - 1], trace[n - 1 + 1]);
  }

  /** Record `i` is still there, and unchanged if it was committed or discarded. */
  predicate KeepsRec(s: Sys, t: Sys, i: nat) {
    i < |s.recs| ==> i < |t.recs| && (s.recs[i].status != Busy ==> t.recs[i] == s.recs[i])
  }

  lemma KeepsRecOn(s: Sys, t: Sys, u: Sys, i: nat)
    requires KeepsRec(s, t, i) && KeepsRec(t, u, i)
    ensures KeepsRec(s, u, i)
  {
  }

  lemma {:induction false} RunKeepsRec(trace: seq<Sys>, actions: seq<Action>, m: nat, n: nat, i: nat)
    requires IsRun(trace, actions) && m <= n < |trace|
    ensures KeepsRec(trace[m], trace[n], i)
    decreases n - m
  {
    if m < n {
      StepAt(trace, actions, n);
      RunKeepsInv(trace, actions, n - 1);
      hide Inv, Steps, IsRun;
      RunKeepsRec(trace, actions, m, n - 1, i);
      if i < |trace[n - 1].recs| {
        StepFreezes(trace[n - 1], actions[n - 1], trace[n], i);
      }
      assert KeepsRec(trace[n - 1], trace[n], i);
      hide KeepsRec;
      KeepsRecOn(trace[m], trace[n - 1], trace[n], i);
    }
  }

  lemma RunFreezes(trace: seq<Sys>, actions: seq<Action>, m: nat, n: nat, i: nat)
    requires IsRun(trace, actions) && m <= n < |trace| && i < |trace[m].recs|
    ensures i < |trace[n].recs|
    ensures trace[m].recs[i].status != Busy ==> trace[n].recs[i] == trace[m].recs[i]
  {
    hide IsRun;
    RunKeepsRec(trace, actions, m, n, i);
  }

  /**
    In every state of every run: the reserved records tile the bytes from the consumer to the
    producer position, which are never a whole ring apart; and the consumer has seen exactly
    the records not discarded, in reservation order, each with the bytes it had when committed.
  */
  lemma ConsumerSeesCommitted(trace: seq<Sys>, actions: seq<Action>, n: nat)
    requires IsRun(trace, actions) && n < |trace|
    ensures var s := trace[n];
            && s.taken <= |s.recs| && s.seen == Kept(s.recs[..s.taken])
            && Tiled(s.recs) && s.cons == EndOf(s.recs, s.taken) && s.prod == EndOf(s.recs, |s.recs|)
            && s.cons <= s.prod <= s.cons + s.Mask()
            && (forall i | 0 <= i < s.taken :: s.recs[i].status != Busy)
    ensures forall m, i | 0 <= m <= n && 0 <= i < trace[n].taken && i < |trace[m].recs| &&
                          trace[m].recs[i].status != Busy :: trace[n].recs[i] == trace[m].recs[i]
  {
    RunKeepsInv(trace, actions, n);
    hide Tiled, MemoryHolds, LockHolds, Kept, EndOf;
    forall m, i | 0 <= m <= n && 0 <= i < trace[n].taken && i < |trace[m].recs| && trace[m].recs[i].status != Busy
      ensures trace[n].recs[i] == trace[m].recs[i]
    {
      RunFreezes(trace, actions, m, n, i);
    }
  }

  /**
    No lost wake-up. In no reachable state does the consumer sleep, with no wake-up pending and
    the commit of its record not in progress, at a record that is ready, unless that commit asked
    for no wake-up.
  */
  lemma NoLostWakeup(trace: seq<Sys>, actions: seq<Action>, n: nat)
    requires IsRun(trace, actions) && n < |trace|
    ensures var s := trace[n];
            s.phase == Asleep && !s.pending && s.taken !in s.flights && s.Size() > 0 && Ready(s) ==>
              s.taken < |s.recs| && s.recs[s.taken].flags == NoWakeup
  {
    var s := trace[n];
    RunKeepsInv(trace, actions, n);
    HeadIsOldest(s);
    if s.taken < |s.recs| {
      WordBits(s.recs[s.taken].size, s.recs[s.taken].status);
    }
    hide Tiled, MemoryHolds, LockHolds, Kept, EndOf, HdrLen, LenWord, IsBusy;
  }

  /**
    A commit of an unread record wakes the consumer always when forced to, never when forbidden
    to, and else exactly when the consumer has come to the record.
  */
  lemma AdaptiveWakesExactly(s: Sys, i: nat)
    requires Inv(s) && i in s.flights && s.flights[i].Stored? && s.taken <= i < |s.recs|
    ensures i in DoCommitLoad(s, i).flights <==>
              match s.recs[i].flags
              case ForceWakeup => true
              case NoWakeup => false
              case Adaptive => s.taken == i
  {
    hide MemoryHolds, LockHolds, SeenHolds, WakeHolds;
    OldestAlone(s, i);
    hide Placed;
  }

  /** Of the unread records only the oldest lies in the consumer's slot. */
  lemma OldestAlone(s: Sys, i: nat)
    requires Placed(s) && s.taken <= i < |s.recs|
    ensures s.Size() > 0 && (s.cons % s.Size() == s.recs[i].pos % s.Size() <==> s.taken == i)
  {
    hide Tiled, Aligned;
    Apart(s, i, s.taken);
    EndGrows(s.recs, s.taken, s.taken);
    hide EndOf;
    AlignedCovers(s.recs[s.taken].size);
    AlignedCovers(s.recs[i].size);
    if s.cons % s.Size() == s.recs[i].pos % s.Size() {
      Modular.SameSlot(s.cons, s.recs[i].pos, s.Size());
    }
  }

  /** The slice handed out for a record stays inside the doubled area. */
  lemma SliceInDoubledArea(s: Sys, i: nat)
    requires Inv(s) && s.taken <= i < |s.recs|
    ensures s.recs[i].pos % s.Size() + HDR_SIZE <= s.Size()
    ensures s.recs[i].pos % s.Size() + HDR_SIZE + s.recs[i].size <= 2 * s.Size()
  {
    Apart(s, i, i);
    AlignedCovers(s.recs[i].size);
    assert WellSized(s.recs[i]);
    hide Tiled, MemoryHolds, LockHolds, Kept, Aligned, EndOf;
    HeaderWhole(s.recs[i].pos, s.Size());
  }

  /** An 8-aligned header never crosses the end of a ring of whole pages. */
  lemma HeaderWhole(pos: nat, size: nat)
    requires size > 0 && size % PAGE_SIZE == 0 && pos % 8 == 0
    ensures pos % size + HDR_SIZE <= size
  {
    var k, a := size / 8, pos / 8;
    var q, r := pos / size, pos % size;
    MultipleOf8(pos, size, k, a, q, r);
  }

  lemma MultipleOf8(pos: nat, size: nat, k: nat, a: nat, q: nat, r: nat)
    requires size == 8 * k && pos == 8 * a && pos == size * q + r && r < size
    ensures r + HDR_SIZE <= size
  {
    var kq := k * q;
    assert (8 * k) * q == 8 * kq;
    assert r == 8 * (a - kq);
  }
}
