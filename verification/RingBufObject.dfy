/**
  The ring buffer as the code keeps it: positions and a memory area updated in place, with the
  helpers that reserve, copy and commit in one call (bpf-basic/src/helper/ringbuf.rs).
*/
module RingBufObject {
  import opened Bytes
  import opened Slots
  import opened RingBuf
  import opened RingSteps
  import Modular

  datatype BpfError = EINVAL | ENOMEM | EAGAIN

  /** from_bits: the two known flag bits, or None for any other. */
  function FlagsFromBits(bits: nat): Option<(bool, bool)> {
    if bits < 4 then Some((bits % 2 == 1, bits / 2 == 1)) else None
  }

  /** Forcing a wake-up wins over forbidding it. */
  function FlagsOf(noWakeup: bool, forceWakeup: bool): Flags {
    if forceWakeup then ForceWakeup else if noWakeup then NoWakeup else Adaptive
  }

  // ----- Calls as steps with nothing in between

  function ReserveSteps(s: Sys, size: nat): Sys
    requires s.Size() > 0 && s.lock.Idle?
  {
    var loaded := DoReserveLoad(s, size);
    if !loaded.lock.Loaded? then loaded
    else
      var written := DoReserveWrite(loaded);
      if !written.lock.Written? then written else DoReservePublish(written)
  }

  function CommitSteps(s: Sys, i: nat, discard: bool, flags: Flags): Sys
    requires s.Size() > 0 && i < |s.recs|
  {
    var stored := DoCommitStore(s, i, discard, flags);
    var loaded := DoCommitLoad(stored, i);
    if i in loaded.flights then DoCommitNotify(loaded, i) else loaded
  }

  /** Why a reservation is refused. */
  function Refusal(s: Sys, size: nat): Option<BpfError> {
    if size > MAX_RECORD || Aligned(size) > s.Size() then Some(EINVAL)
    else if s.prod + Aligned(size) - s.cons > s.Mask() then Some(ENOMEM)
    else None
  }

  /** When a reservation must succeed, and how it is refused else. */
  lemma RefusalExactly(s: Sys, size: nat)
    requires s.Size() > 0
    ensures var total := (size + 15) / 8 * 8;
            Refusal(s, size) ==
            if size >= 0x4000_0000 || total > |s.mem| then Some(EINVAL)
            else if s.prod + total - s.cons >= |s.mem| then Some(ENOMEM)
            else None
  {
    AlignedIs(size);
  }

  /** The length of a record in the ring: header and data, rounded up to a multiple of eight. */
  function RoundedUp(size: nat): nat { (size + 15) / 8 * 8 }

  /** What reserve answers, by sizes and positions alone. */
  function ReserveAnswer(s: Sys, size: nat): Result<nat, BpfError> {
    if size >= 0x4000_0000 || RoundedUp(size) > |s.mem| then Err(EINVAL)
    else if s.prod + RoundedUp(size) - s.cons >= |s.mem| then Err(ENOMEM)
    else Ok(s.prod)
  }

  /** The data area afterwards: a busy record of that length, with the page its header lies in. */
  function AfterReserve(s: Sys, size: nat): seq<byte>
    requires |s.mem| > 0
  {
    if ReserveAnswer(s, size).Err? then s.mem
    else Put(s.mem, s.prod, Word32(0x8000_0000 + size) + Word32(3 + s.prod % |s.mem| / 4096))
  }

  lemma ReserveExactly(s: Sys, size: nat)
    requires Inv(s) && s.lock.Idle?
    ensures s.Size() > 0 && Aligned(size) == RoundedUp(size)
    ensures ReserveAnswer(s, size) == match Refusal(s, size) case Some(e) => Err(e) case None => Ok(s.prod)
    ensures AfterReserve(s, size)
         == if Refusal(s, size).Some? then s.mem else Put(s.mem, s.prod, HdrBytes(size, s.prod % s.Size()))
  {
    hide Inv, Put, HdrBytes, Aligned, Word32;
    SizeIsPositive(s);
    AlignedIs(size);
    RefusalExactly(s, size);
    hide Refusal;
    if size < 0x4000_0000 {
      HeaderWords(size, s.prod % s.Size());
    }
  }

  /** An empty ring takes every record that is shorter than the ring, header and padding included. */
  lemma EmptyRingTakes(s: Sys, size: nat)
    requires s.Size() > 0 && s.prod == s.cons && size < 0x4000_0000 && (size + 15) / 8 * 8 < |s.mem|
    ensures Refusal(s, size) == None
  {
    RefusalExactly(s, size);
  }

  /** The record a reservation adds. */
  function Reserved(s: Sys, size: nat): Rec
    requires s.Size() > 0
  {
    var mem := Put(s.mem, s.prod, HdrBytes(size, s.prod % s.Size()));
    Rec(s.prod, size, Busy, Window(mem, s.prod + HDR_SIZE, size), Adaptive)
  }

  /** A refused reservation is no step at all; any other adds a busy record at the producer position. */
  lemma ReserveStepsAdd(s: Sys, size: nat)
    requires s.Size() > 0 && s.lock.Idle?
    ensures Refusal(s, size).Some? ==> ReserveSteps(s, size) == s
    ensures Refusal(s, size).None? ==>
              ReserveSteps(s, size) == s.(mem := Put(s.mem, s.prod, HdrBytes(size, s.prod % s.Size())),
                                          prod := s.prod + Aligned(size), recs := s.recs + [Reserved(s, size)])
  {
    hide Put, HdrBytes, Window, Aligned;
  }

  lemma ReserveStepsKeep(s: Sys, size: nat)
    requires Inv(s) && s.lock.Idle?
    ensures s.Size() > 0 && Inv(ReserveSteps(s, size))
  {
    hide Inv, Put, HdrBytes, Window, Aligned, LenWord;
    SizeIsPositive(s);
    ReserveLoadKeeps(s, size);
    var loaded := DoReserveLoad(s, size);
    if loaded.lock.Loaded? {
      hide DoReserveLoad;
      ReserveWriteKeeps(loaded);
      var written := DoReserveWrite(loaded);
      if written.lock.Written? {
        hide DoReserveWrite;
        ReservePublishKeeps(written);
      }
    }
  }

  lemma SizeIsPositive(s: Sys)
    requires Inv(s)
    ensures s.Size() >= PAGE_SIZE && s.Size() % PAGE_SIZE == 0 && s.base % PAGE_SIZE == 0
    ensures s.cons <= s.prod <= s.cons + s.Mask()
  {
    hide MemoryHolds, LockHolds, FlightsHold, SeenHolds, WakeHolds, Tiled, EndOf;
  }

  /** The consumer position lies in the slot of position `pos`. */
  predicate ConsumerAt(s: Sys, pos: nat)
    requires |s.mem| > 0
  {
    s.cons % |s.mem| == pos % |s.mem|
  }

  lemma SameConsumer(s: Sys, t: Sys, pos: nat)
    requires |s.mem| == |t.mem| > 0 && s.cons == t.cons
    ensures ConsumerAt(t, pos) == ConsumerAt(s, pos)
  {
  }

  predicate Wakes(s: Sys, i: nat, flags: Flags)
    requires s.Size() > 0 && i < |s.recs|
  {
    flags == ForceWakeup || (s.cons % s.Size() == s.recs[i].pos % s.Size() && flags != NoWakeup)
  }

  /** A commit stores the final length, leaves no commit in progress behind, and wakes in these cases. */
  lemma CommitStepsStore(s: Sys, i: nat, discard: bool, flags: Flags)
    requires Inv(s) && i < |s.recs| && s.recs[i].status == Busy && s.Size() > 0
    ensures CommitSteps(s, i, discard, flags)
         == s.(mem := Put(s.mem, s.recs[i].pos, LeBytes(FinalLen(HdrLen(s.mem, s.recs[i].pos), discard), 4)),
               recs := s.recs[i := s.recs[i].(status := if discard then Discarded else Committed, flags := flags)],
               flights := s.flights - {i}, pending := s.pending || Wakes(s, i, flags))
  {
    hide Inv, HdrLen, FinalLen, Put, LeBytes, InMemory, WellSized, Aligned, DoCommitStore;
    CommitStores(s, i, discard, flags);
    var stored := DoCommitStore(s, i, discard, flags);
    assert stored.flights - {i} == s.flights - {i};
    assert stored.flights[i := WillWake] - {i} == s.flights - {i};
  }

  lemma StoreStarts(s: Sys, i: nat, discard: bool, flags: Flags)
    requires s.Size() > 0 && i < |s.recs|
    ensures var stored := DoCommitStore(s, i, discard, flags);
            stored.Size() > 0 && i in stored.flights && stored.flights[i].Stored?
  {
    hide HdrLen, HdrPgOff, FinalLen, Put, LeBytes, RestoreBase;
  }

  lemma CommitStepsKeep(s: Sys, i: nat, discard: bool, flags: Flags)
    requires Inv(s) && i < |s.recs| && s.recs[i].status == Busy
    ensures s.Size() > 0 && Inv(CommitSteps(s, i, discard, flags))
  {
    hide Inv, HdrLen, FinalLen, Put, LeBytes, DoCommitStore;
    SizeIsPositive(s);
    CommitStoreKeeps(s, i, discard, flags);
    StoreStarts(s, i, discard, flags);
    var stored := DoCommitStore(s, i, discard, flags);
    CommitLoadKeeps(stored, i);
    var loaded := DoCommitLoad(stored, i);
    if i in loaded.flights {
      CommitNotifyKeeps(loaded, i);
    }
  }

  /** The data area after a commit: the length word is free of the busy bit, with bit 30 for a discarded record. */
  function AfterCommit(s: Sys, i: nat, discard: bool): seq<byte>
    requires |s.mem| > 0 && i < |s.recs|
  {
    Put(s.mem, s.recs[i].pos, Word32(if discard then s.recs[i].size + 0x4000_0000 else s.recs[i].size))
  }

  /** The word that replaces the length of a busy record. */
  lemma BusyLength(s: Sys, i: nat, discard: bool)
    requires Inv(s) && i < |s.recs| && s.recs[i].status == Busy
    ensures s.Size() > 0
    ensures Put(s.mem, s.recs[i].pos, LeBytes(FinalLen(HdrLen(s.mem, s.recs[i].pos), discard), 4))
         == AfterCommit(s, i, discard)
  {
    BusyFacts(s, i);
    CommitWord(s.recs[i].size, discard);
    hide Inv, HdrLen, HdrPgOff, Window, LenWord, PgOff, FinalLen, LeBytes, Word32, Put;
  }

  /** What the committer recovers from the header of a busy record. */
  lemma BusyHeader(s: Sys, i: nat)
    requires Inv(s) && i < |s.recs| && s.recs[i].status == Busy
    ensures s.Size() > 0 && HdrPgOff(s.mem, s.recs[i].pos) == PgOff(s.recs[i].pos % s.Size())
    ensures HdrLen(s.mem, s.recs[i].pos) < TWO32
  {
    BusyFacts(s, i);
    WordBits(s.recs[i].size, Busy);
    hide Inv, HdrLen, HdrPgOff, Window, LenWord, PgOff;
  }

  class RingBuffer {
    /** Address of the mapping; page aligned. */
    const base: nat
    /** The physical data area; the mapping shows it twice. */
    const area: array<byte>
    var consumerPos: nat
    var producerPos: nat
    /** How often the waker has been called. */
    var wakeups: nat

    /** The object is what the state of the interleaving model says of memory and positions. */
    ghost predicate Shows(s: Sys)
      reads this, area
    {
      s.base == base && s.mem == area[..] && s.cons == consumerPos && s.prod == producerPos
    }

    constructor (base: nat, area: array<byte>)
      requires area.Length >= PAGE_SIZE && area.Length % PAGE_SIZE == 0 && area.Length < TWO32 && base % PAGE_SIZE == 0
      ensures this.base == base && this.area == area && wakeups == 0
      ensures Shows(Start(base, area[..])) && Inv(Start(base, area[..]))
    {
      this.base, this.area := base, area;
      consumerPos, producerPos, wakeups := 0, 0, 0;
      StartHolds(base, area[..]);
    }

    /** The bytes of the records reserved and not yet taken. */
    method AvailDataSize(ghost s: Sys) returns (n: nat)
      requires Inv(s) && Shows(s)
      ensures s.taken <= |s.recs| && n == EndOf(s.recs, |s.recs|) - EndOf(s.recs, s.taken) < area.Length
    {
      hide MemoryHolds, LockHolds, FlightsHold, SeenHolds, WakeHolds, Tiled, EndOf;
      n := producerPos - consumerPos;
    }

    /** Stores through the doubled mapping from the slot of position `at` on. */
    method Store(at: nat, data: seq<byte>)
      requires area.Length > 0 && |data| <= area.Length
      modifies area
      ensures area[..] == Put(old(area[..]), at, data)
    {
      hide Put;
      var n := area.Length;
      ghost var before := area[..];
      PutNothing(before, at);
      var i := 0;
      while i < |data|
        invariant 0 <= i <= |data| && area.Length == n == |before|
        invariant area[..] == Put(before, at, data[..i])
      {
        area[(at + i) % n] := data[i];
        PutOneMore(before, area[..], at, data, i);
        i := i + 1;
      }
      assert data[..|data|] == data;
    }

    /**
      Reserves room for `size` bytes and returns the position of its header: a record of 2^30 bytes
      or more, or longer than the ring, is never taken; any other exactly when the producer stays
      less than a ring ahead. The object ends where the reserve steps lead from the state it shows.
    */
    method Reserve(size: nat, ghost s: Sys) returns (r: Result<nat, BpfError>)
      requires Inv(s) && Shows(s) && s.lock.Idle?
      modifies this`producerPos, area
      ensures s.Size() > 0 && Inv(ReserveSteps(s, size)) && Shows(ReserveSteps(s, size))
      ensures r == ReserveAnswer(s, size) && area[..] == AfterReserve(s, size)
      ensures producerPos == old(producerPos) + (if r.Ok? then RoundedUp(size) else 0)
      ensures r == match Refusal(s, size) case Some(e) => Err(e) case None => Ok(s.prod)
    {
      hide Inv, Put, HdrBytes, Aligned, ReserveSteps, Reserved, ReserveAnswer, AfterReserve, RoundedUp;
      ReserveExactly(s, size);
      SizeIsPositive(s);
      ReserveStepsKeep(s, size);
      ReserveStepsAdd(s, size);
      if size > MAX_RECORD {
        return Err(EINVAL);
      }
      var alignedSize := Aligned(size);
      if alignedSize > area.Length {
        return Err(EINVAL);
      }
      var newProd := producerPos + alignedSize;
      if newProd - consumerPos > area.Length - 1 {
        return Err(ENOMEM);
      }
      var pos := producerPos;
      Store(pos, HdrBytes(size, pos % area.Length));
      producerPos := newProd;
      return Ok(pos);
    }

    /**
      Commits or discards the record whose sample lies at `sampleAddr`, an address in the first
      copy of the data area. Ring and record are recovered from the page offset in the header;
      which record `i` of the state `s` it is, the code does not know. The object ends where the
      commit steps lead, and the waker is called when they deliver a wake-up.
    */
    method Commit(sampleAddr: nat, noWakeup: bool, forceWakeup: bool, discard: bool, ghost s: Sys, ghost i: nat)
      requires Inv(s) && Shows(s) && i < |s.recs| && s.recs[i].status == Busy && s.Size() > 0
      requires sampleAddr == base + DATA_OFFSET + s.recs[i].pos % area.Length + HDR_SIZE
      modifies this`wakeups, area
      ensures var flags := FlagsOf(noWakeup, forceWakeup);
              && Inv(CommitSteps(s, i, discard, flags)) && Shows(CommitSteps(s, i, discard, flags))
              && wakeups == old(wakeups) + if Wakes(s, i, flags) then 1 else 0
      ensures wakeups == old(wakeups) + if forceWakeup || (ConsumerAt(s, s.recs[i].pos) && !noWakeup) then 1 else 0
      ensures area[..] == AfterCommit(s, i, discard)
    {
      hide Inv, Put, LeBytes, HdrLen, HdrPgOff, FinalLen, PgOff, CommitSteps, RestoreBase, AfterCommit;
      BusyLength(s, i, discard);
      SizeIsPositive(s);
      BusyHeader(s, i);
      CommitStepsKeep(s, i, discard, FlagsOf(noWakeup, forceWakeup));
      CommitStepsStore(s, i, discard, FlagsOf(noWakeup, forceWakeup));
      ghost var pos := s.recs[i].pos;
      var hdrAddr := sampleAddr - HDR_SIZE;
      var idx := hdrAddr - base - DATA_OFFSET;
      SameSlotWindows(area[..], pos, idx);
      var pgOff := HdrPgOff(area[..], idx);
      var ringBase := RestoreBase(hdrAddr, pgOff);
      RestoreFindsRing(base, idx);
      assert ringBase == base;
      var newLen := FinalLen(HdrLen(area[..], idx), discard);
      PutAtSlot(area[..], pos, LeBytes(newLen, 4));
      Store(idx, LeBytes(newLen, 4));
      var recPos := hdrAddr - (ringBase + DATA_OFFSET);
      var consPos := consumerPos % area.Length;
      if forceWakeup {
        wakeups := wakeups + 1;
        return;
      }
      if consPos == recPos && !noWakeup {
        wakeups := wakeups + 1;
      }
    }

    /** Reserves a record and copies the data into it. */
    method ReserveAndCopy(data: seq<byte>, ghost s: Sys) returns (r: Result<nat, BpfError>, ghost v: Sys)
      requires Inv(s) && Shows(s) && s.lock.Idle?
      modifies this`producerPos, area
      ensures Inv(v) && Shows(v) && r == ReserveAnswer(s, |data|)
      ensures r.Err? ==> v == s
      ensures r.Ok? ==>
                && v.recs == s.recs + [Rec(s.prod, |data|, Busy, data, Adaptive)]
                && v == s.(mem := v.mem, prod := s.prod + RoundedUp(|data|), recs := v.recs) && |v.mem| == |s.mem|
    {
      hide Inv, Put, Window, HdrBytes, Aligned, ReserveSteps, ReserveAnswer, RoundedUp, AfterReserve;
      ReserveExactly(s, |data|);
      ReserveStepsKeep(s, |data|);
      ReserveStepsAdd(s, |data|);
      r := Reserve(|data|, s);
      if r.Err? {
        return r, s;
      }
      ghost var u, n := ReserveSteps(s, |data|), |s.recs|;
      AlignedCovers(|data|);
      FillWhole(u, n, data);
      v := DoFill(u, n, 0, data);
      Store(r.value + HDR_SIZE, data);
    }

    /**
      bpf_ringbuf_output: reserve, copy, commit; a refused reservation reads as EAGAIN. The new
      record is committed with the data, every other record is as it was. Bit 0 of the flags
      forbids a wake-up, bit 1 forces one, other bits are refused.
    */
    method Output(data: seq<byte>, flagBits: nat, ghost s: Sys) returns (r: Result<(), BpfError>, ghost t: Sys)
      requires Inv(s) && Shows(s) && s.lock.Idle?
      modifies this`producerPos, this`wakeups, area
      ensures Inv(t) && Shows(t)
      ensures r == if flagBits >= 4 then Err(EINVAL) else if ReserveAnswer(s, |data|).Err? then Err(EAGAIN) else Ok(())
      ensures r.Err? ==> t == s && wakeups == old(wakeups)
      ensures r.Ok? ==>
                var flags := if flagBits >= 2 then ForceWakeup else if flagBits == 1 then NoWakeup else Adaptive;
                && t.recs == s.recs + [Rec(s.prod, |data|, Committed, data, flags)]
                && t.prod == s.prod + RoundedUp(|data|) && t.taken == s.taken && t.seen == s.seen
                && |s.mem| > 0
                && wakeups == old(wakeups) + if flagBits >= 2 || (flagBits == 0 && ConsumerAt(s, s.prod)) then 1 else 0
    {
      hide Inv, CommitSteps, ReserveAnswer, RoundedUp, Wakes, ConsumerAt, LeBytes, HdrLen, FinalLen, Put, Word32;
      var flags := FlagsFromBits(flagBits);
      if flags.None? {
        return Err(EINVAL), s;
      }
      SizeIsPositive(s);
      var reserved;
      ghost var v;
      reserved, v := ReserveAndCopy(data, s);
      if reserved.Err? {
        return Err(EAGAIN), s;
      }
      ghost var n := |s.recs|;
      var pos := reserved.value;
      AnswerIsPosition(s, |data|);
      var (noWakeup, forceWakeup) := flags.value;
      CommitStepsStore(v, n, false, FlagsOf(noWakeup, forceWakeup));
      SameConsumer(s, v, s.prod);
      Commit(base + DATA_OFFSET + pos % area.Length + HDR_SIZE, noWakeup, forceWakeup, false, v, n);
      t := CommitSteps(v, n, false, FlagsOf(noWakeup, forceWakeup));
      return Ok(()), t;
    }
  }

  lemma AnswerIsPosition(s: Sys, size: nat)
    ensures ReserveAnswer(s, size).Ok? ==> ReserveAnswer(s, size).value == s.prod
  {
  }

  /** Filling a record from its beginning to its end leaves the data as its payload. */
  lemma FillWhole(u: Sys, n: nat, data: seq<byte>)
    requires Inv(u) && n < |u.recs| && u.recs[n].status == Busy && |data| == u.recs[n].size == |u.recs[n].payload|
    ensures u.Size() > 0 && Inv(DoFill(u, n, 0, data))
    ensures DoFill(u, n, 0, data) == u.(mem := Put(u.mem, u.recs[n].pos + HDR_SIZE, data),
                                        recs := u.recs[n := u.recs[n].(payload := data)])
  {
    hide Inv, Put;
    SizeIsPositive(u);
    FillKeeps(u, n, 0, data);
    assert Overwrite(u.recs[n].payload, 0, data) == data;
    assert u.recs[n].pos + HDR_SIZE + 0 == u.recs[n].pos + HDR_SIZE;
  }

  lemma PutNothing(mem: seq<byte>, at: nat)
    requires |mem| > 0
    ensures Put(mem, at, []) == mem
  {
  }

  lemma PutOneMore(before: seq<byte>, after: seq<byte>, at: nat, data: seq<byte>, i: nat)
    requires |after| == |before| > 0 && i < |data| <= |before|
    requires after == Put(before, at, data[..i])[(at + i) % |before| := data[i]]
    ensures after == Put(before, at, data[..i + 1])
  {
    var n := |before|;
    var put := Put(before, at, data[..i + 1]);
    forall k | 0 <= k < n
      ensures after[k] == put[k]
    {
      Modular.SlotDistance(at + i, at, n);
      Modular.Small(i, n);
      if (k - at) % n == i {
        SlotOf(k, at, n);
      }
    }
  }

  lemma SlotOf(k: nat, at: nat, n: nat)
    requires k < n
    ensures (at + (k - at) % n) % n == k
  {
    var d := (k - at) % n;
    assert at + d == k + (-((k - at) / n)) * n;
    Modular.AddMultiple(k, -((k - at) / n), n);
    Modular.Small(k, n);
  }

  lemma SlotShift(pos: nat, k: int, n: nat)
    requires n > 0
    ensures (pos % n + k) % n == (pos + k) % n
  {
    assert pos % n + k == pos + k + (-(pos / n)) * n;
    Modular.AddMultiple(pos + k, -(pos / n), n);
  }

  lemma WindowAtSlot(mem: seq<byte>, pos: nat, off: nat, len: nat)
    requires |mem| > 0
    ensures Window(mem, pos % |mem| + off, len) == Window(mem, pos + off, len)
  {
    var a, b := Window(mem, pos % |mem| + off, len), Window(mem, pos + off, len);
    forall i | 0 <= i < len
      ensures a[i] == b[i]
    {
      SlotShift(pos, off + i, |mem|);
    }
  }

  /** A position and its slot show the same bytes and take the same stores. */
  lemma SameSlotWindows(mem: seq<byte>, pos: nat, idx: nat)
    requires |mem| > 0 && idx == pos % |mem|
    ensures HdrPgOff(mem, idx) == HdrPgOff(mem, pos) && HdrLen(mem, idx) == HdrLen(mem, pos)
  {
    WindowAtSlot(mem, pos, 0, 4);
    WindowAtSlot(mem, pos, 4, 4);
    assert pos + 0 == pos && idx + 0 == idx;
  }

  lemma PutAtSlot(mem: seq<byte>, pos: nat, data: seq<byte>)
    requires |mem| > 0
    ensures Put(mem, pos % |mem|, data) == Put(mem, pos, data)
  {
    var a, b := Put(mem, pos % |mem|, data), Put(mem, pos, data);
    forall i | 0 <= i < |mem|
      ensures a[i] == b[i]
    {
      assert i - pos % |mem| == i - pos + pos / |mem| * |mem|;
      Modular.AddMultiple(i - pos, pos / |mem|, |mem|);
    }
  }
}
