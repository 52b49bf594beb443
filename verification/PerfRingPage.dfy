/** The perf ring as the code keeps it: mapped bytes updated in place. */
module PerfRingPage {
  import opened Bytes
  import opened PerfRing
  import opened Slots
  import Modular

  class RingPage {
    /** The mapped data pages, after the control page. */
    const region: array<byte>
    /** `data_head` and `data_tail` of the control page; user space moves the tail. */
    var dataHead: nat
    var dataTail: nat
    var lost: nat

    ghost predicate Valid()
      reads this, region
    {
      region.Length >= PAGE_SIZE
    }

    ghost function Value(): Page
      reads this, region
    {
      Page(region[..], dataHead, dataTail, lost)
    }

    constructor (mapped: array<byte>)
      requires mapped.Length % PAGE_SIZE == 0 && mapped.Length / PAGE_SIZE >= 1
      ensures Valid() && region == mapped && Value() == Page(mapped[..], 0, 0, 0)
    {
      region := mapped;
      dataHead, dataTail, lost := 0, 0, 0;
    }

    method CanWrite(dataSize: nat, tail: nat, head: nat) returns (ok: bool)
      requires Valid()
      ensures ok <==> dataSize <= Capacity(region.Length, tail, head)
    {
      var capacity := ((region.Length - head) % TWO64 + tail) % TWO64;
      ok := dataSize <= capacity;
    }

    /** Copies in one piece, or in two around the end of the region. */
    method WriteAny(data: seq<byte>, at: nat)
      requires Valid() && 1 <= |data| <= region.Length
      modifies region
      ensures region[..] == Put(old(region[..]), at, data)
    {
      var size := region.Length;
      var start, end := at % size, (at + |data|) % size;
      SlicesMatchExactly(size, at, |data|);
      ghost var before := region[..];
      if start < end {
        forall i | 0 <= i < |data| {
          region[start + i] := data[i];
        }
        OneSlice(before, region[..], at, data);
      } else {
        var firstLen := size - start;
        forall i | 0 <= i < firstLen {
          region[start + i] := data[i];
        }
        forall i | 0 <= i < end {
          region[i] := data[firstLen + i];
        }
        TwoSlices(before, region[..], at, data);
      }
    }

    /** Returns the new data head; publishing it is left to the caller. */
    method WriteSample(data: seq<byte>, head: nat) returns (newHead: nat)
      requires Valid() && head == dataHead
      requires 1 <= |data| && SAMPLE_HEADER_SIZE + |data| <= region.Length
      modifies region
      ensures Page(region[..], newHead, dataTail, lost) == PerfRing.WriteSample(old(Value()), data)
    {
      hide Put, SampleHeaderBytes, FillSize;
      var sampleSize := SAMPLE_HEADER_SIZE + |data|;
      var maybeEnd := (head + sampleSize) % region.Length;
      var fill := FillSize(region.Length, maybeEnd);
      WriteAny(SampleHeaderBytes(|data|, fill), head);
      WriteAny(data, head + SAMPLE_HEADER_SIZE);
      newHead := head + sampleSize + fill;
    }

    method WriteLost(head: nat) returns (newHead: nat)
      requires Valid() && head == dataHead
      modifies region
      ensures Page(region[..], newHead, dataTail, 0) == PerfRing.WriteLost(old(Value()))
    {
      var maybeEnd := (head + LOST_SIZE) % region.Length;
      var fill := FillSize(region.Length, maybeEnd);
      WriteAny(LostBytes(lost, fill), head);
      newHead := head + LOST_SIZE + fill;
    }

    /** Offers one event: a sample, possibly after a lost record, or one more loss. */
    method WriteEvent(data: seq<byte>, ghost unread: seq<Record>)
      requires Valid() && Queued(Value(), unread) && Value().Size() > 0 && Admissible(Value(), data)
      modifies this, region
      ensures Valid() && Value() == PerfRing.WriteEvent(old(Value()), data)
      ensures Queued(Value(), unread + Appended(old(Value()), data))
      decreases lost
    {
      hide Queued, Capacity, Put, FillSize, Appended, SampleHeaderBytes, LostBytes;
      ghost var before := Value();
      WriteEventQueues(before, data, unread);
      CapacityOf(before, unread);
      var canWriteHeader := CanWrite(HEADER_SIZE, dataTail, dataHead);
      if canWriteHeader {
        var canWriteLost := CanWrite(LOST_SIZE, dataTail, dataHead);
        if lost > 0 && canWriteLost {
          var newHead := WriteLost(dataHead);
          dataHead := newHead;
          LostQueues(before, unread);
          lost := 0;
          WriteEvent(data, unread + [Lost(before.lost)]);
          return;
        }
        var canWriteSample := CanWrite(SAMPLE_HEADER_SIZE + |data|, dataTail, dataHead);
        if canWriteSample {
          var newHead := WriteSample(data, dataHead);
          dataHead := newHead;
        } else {
          lost := lost + 1;
        }
      } else {
        lost := lost + 1;
      }
    }

    /** There is something to read exactly when a record has not been taken. */
    method Readable(ghost unread: seq<Record>) returns (r: bool)
      requires Queued(Value(), unread)
      ensures r <==> unread != []
    {
      hide Queued;
      ReadTakesOldest(Value(), unread);
      r := dataTail != dataHead;
    }
  }

  lemma OneSlice(before: seq<byte>, after: seq<byte>, at: nat, data: seq<byte>)
    requires |after| == |before| > 0
    requires var start := at % |before|;
             && start + |data| <= |before|
             && forall i | 0 <= i < |before| ::
                  after[i] == if start <= i < start + |data| then data[i - start] else before[i]
    ensures after == Put(before, at, data)
  {
    var size, start := |before|, at % |before|;
    var put := Put(before, at, data);
    forall i | 0 <= i < size
      ensures after[i] == put[i]
    {
      SlotOffset(at, i, size);
    }
  }

  lemma TwoSlices(before: seq<byte>, after: seq<byte>, at: nat, data: seq<byte>)
    requires |after| == |before| > 0 && |data| <= |before|
    requires var start := at % |before|;
             var firstLen := |before| - start;
             && firstLen <= |data|
             && forall i | 0 <= i < |before| ::
                  after[i] == if start <= i then data[i - start]
                              else if i < |data| - firstLen then data[firstLen + i] else before[i]
    ensures after == Put(before, at, data)
  {
    var size := |before|;
    var put := Put(before, at, data);
    forall i | 0 <= i < size
      ensures after[i] == put[i]
    {
      SlotOffset(at, i, size);
    }
  }

  /** How far slot `i` lies behind the slot of position `at`, going round. */
  lemma SlotOffset(at: nat, i: nat, size: nat)
    requires i < size
    ensures (i - at) % size == if at % size <= i then i - at % size else size - at % size + i
  {
    var start := at % size;
    assert i - at == i - start + (-(at / size)) * size;
    Modular.AddMultiple(i - start, -(at / size), size);
    if start <= i {
      Modular.Small(i - start, size);
    } else {
      Modular.AddMultiple(i - start, 1, size);
      Modular.Small(size - start + i, size);
    }
  }
}
