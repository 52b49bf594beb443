/**
  A region of bytes used as a ring: positions grow without bound, and position `p` names the
  slot `p % size`. Windows and stores that pass the end of the region go on at its start.
*/
module Slots {
  import opened Bytes
  import Modular

  /** The `len` bytes from position `from` on, wrapping at the end of the region. */
  function Window(region: seq<byte>, from: nat, len: nat): (w: seq<byte>)
    requires |region| > 0
    ensures |w| == len
  {
    seq(len, i requires 0 <= i < len => region[(from + i) % |region|])
  }

  /** The region after `data` has been stored from position `at` on, wrapping. */
  function Put(region: seq<byte>, at: nat, data: seq<byte>): (r: seq<byte>)
    requires |region| > 0
    ensures |r| == |region|
  {
    seq(|region|, i requires 0 <= i < |region| =>
      var k := (i - at) % |region|;
      if k < |data| then data[k] else region[i])
  }

  lemma PutWindow(region: seq<byte>, at: nat, data: seq<byte>, off: nat, len: nat)
    requires |region| > 0 && off + len <= |data| <= |region|
    ensures Window(Put(region, at, data), at + off, len) == data[off..off + len]
  {
    var n := |region|;
    var w := Window(Put(region, at, data), at + off, len);
    forall i | 0 <= i < len
      ensures w[i] == data[off + i]
    {
      Modular.SlotDistance(at + off + i, at, n);
      Modular.Small(off + i, n);
    }
  }

  /** A store puts byte `k` into the slot of position `at + k`, and a window reads the slots in turn. */
  lemma StoreExactly(region: seq<byte>, at: nat, data: seq<byte>, k: nat)
    requires 0 < |data| <= |region| && k < |data|
    ensures Put(region, at, data)[(at + k) % |region|] == data[k]
    ensures Window(region, at, |data|)[k] == region[(at + k) % |region|]
  {
    var n := |region|;
    Modular.SlotDistance(at + k, at, n);
    Modular.Small(k, n);
  }

  /** A store leaves alone every position outside it that is less than a ring away. */
  lemma PutKeepsSlot(region: seq<byte>, at: nat, data: seq<byte>, pos: nat)
    requires |region| > 0
    requires (pos < at && at + |data| <= pos + |region|) || at + |data| <= pos < at + |region|
    ensures Put(region, at, data)[pos % |region|] == region[pos % |region|]
  {
    var n := |region|;
    Modular.SlotDistance(pos, at, n);
    if pos < at {
      Modular.AddMultiple(pos - at, 1, n);
      Modular.Small(pos - at + n, n);
    } else {
      Modular.Small(pos - at, n);
    }
  }

  lemma PutReads(region: seq<byte>, at: nat, data: seq<byte>)
    requires |region| > 0 && |data| <= |region|
    ensures Window(Put(region, at, data), at, |data|) == data
  {
    PutWindow(region, at, data, 0, |data|);
    assert at + 0 == at && data[0..0 + |data|] == data;
  }

  /** Two stores in a row are one store of the joined bytes. */
  lemma PutPut(region: seq<byte>, at: nat, a: seq<byte>, b: seq<byte>)
    requires |region| > 0 && |a| + |b| <= |region|
    ensures Put(Put(region, at, a), at + |a|, b) == Put(region, at, a + b)
  {
    var n := |region|;
    var x, y := Put(Put(region, at, a), at + |a|, b), Put(region, at, a + b);
    forall i | 0 <= i < n
      ensures x[i] == y[i]
    {
      var k := (i - at) % n;
      assert i - at - |a| == k - |a| + ((i - at) / n) * n;
      Modular.AddMultiple(k - |a|, (i - at) / n, n);
      if k >= |a| {
        Modular.Small(k - |a|, n);
      } else {
        Modular.AddMultiple(k - |a|, 1, n);
        Modular.Small(k - |a| + n, n);
      }
    }
  }

  ghost predicate SameBytes(r1: seq<byte>, r2: seq<byte>, from: nat, to: nat)
    requires |r1| == |r2| > 0
  {
    forall p: nat | from <= p < to :: r1[p % |r1|] == r2[p % |r1|]
  }

  lemma WindowFrame(r1: seq<byte>, r2: seq<byte>, pos: nat, head: nat, off: nat, len: nat)
    requires |r1| == |r2| > 0
    requires SameBytes(r1, r2, pos, head)
    requires pos + off + len <= head
    ensures Window(r1, pos + off, len) == Window(r2, pos + off, len)
  {
  }

  lemma SubWindow(region: seq<byte>, pos: nat, total: nat, off: nat, len: nat)
    requires |region| > 0 && off + len <= total
    ensures Window(region, pos + off, len) == Window(region, pos, total)[off..off + len]
  {
  }
}
