/**
  Whole runs of the perf ring: any interleaving of write_event calls with reader steps.
  A trace keeps, next to the pages, what was offered and what became of it.
*/
module PerfRuns {
  import opened Bytes
  import opened PerfRing
  import opened Slots
  import Modular

  datatype Op = Offer(data: seq<byte>) | Take

  /**
    `fate[i]` is what became of the i-th offered event: written as a sample, or lost.
    `written` are all records ever appended, `taken` those the reader has decoded.
  */
  datatype Trace = Trace(page: Page, offered: seq<seq<byte>>, fate: seq<Option<seq<byte>>>,
                         written: seq<Record>, taken: seq<Record>)

  function Step(t: Trace, op: Op): Trace
    requires t.page.Size() > 0
  {
    match op
    case Offer(data) =>
      t.(page := WriteEvent(t.page, data),
         offered := t.offered + [data],
         fate := t.fate + [if Accepts(t.page, data) then Some(data) else None],
         written := t.written + Appended(t.page, data))
    case Take =>
      if t.page.tail == t.page.head then t else
        match ReadAt(t.page.region, t.page.tail)
        case None => t
        case Some((r, _)) => t.(page := ReadRecord(t.page), taken := t.taken + [r])
  }

  lemma StepKeepsSize(t: Trace, op: Op)
    requires t.page.Size() > 0
    ensures Step(t, op).page.Size() == t.page.Size()
  {
    hide Put, ReadAt;
    if op.Offer? {
      WriteKeepsSize(t.page, op.data);
    }
  }

  lemma {:induction false} WriteKeepsSize(p: Page, data: seq<byte>)
    requires p.Size() > 0
    ensures WriteEvent(p, data).Size() == p.Size()
    decreases p.lost
  {
    hide Put, CanWrite;
    if p.lost > 0 && CanWrite(p, LOST_SIZE) {
      WriteKeepsSize(WriteLost(p), data);
    }
  }

  predicate Possible(t: Trace, op: Op)
    requires t.page.Size() > 0
  {
    op.Offer? ==> Admissible(t.page, op.data)
  }

  function Run(t: Trace, ops: seq<Op>): Trace
    requires t.page.Size() > 0
    decreases |ops|
  {
    if ops == [] then t else
      StepKeepsSize(t, ops[0]);
      Run(Step(t, ops[0]), ops[1..])
  }

  predicate PossibleRun(t: Trace, ops: seq<Op>)
    requires t.page.Size() > 0
    decreases |ops|
  {
    ops == [] ||
    (Possible(t, ops[0]) &&
     (StepKeepsSize(t, ops[0]); PossibleRun(Step(t, ops[0]), ops[1..])))
  }

  // ----- Accounting

  function Payloads(rs: seq<Record>): seq<seq<byte>> {
    if rs == [] then [] else (if rs[0].Sample? then [rs[0].payload] else []) + Payloads(rs[1..])
  }

  function LostSum(rs: seq<Record>): nat {
    if rs == [] then 0 else (if rs[0].Lost? then rs[0].count else 0) + LostSum(rs[1..])
  }

  function Kept(fate: seq<Option<seq<byte>>>): seq<seq<byte>> {
    if fate == [] then [] else (if fate[0].Some? then [fate[0].value] else []) + Kept(fate[1..])
  }

  function LostCount(fate: seq<Option<seq<byte>>>): nat {
    if fate == [] then 0 else (if fate[0].None? then 1 else 0) + LostCount(fate[1..])
  }

  lemma {:induction false} PayloadsAppend(a: seq<Record>, b: seq<Record>)
    ensures Payloads(a + b) == Payloads(a) + Payloads(b)
  {
    if a == [] {
      assert a + b == b;
    } else {
      PayloadsAppend(a[1..], b);
      assert (a + b)[1..] == a[1..] + b && (a + b)[0] == a[0];
      var head := if a[0].Sample? then [a[0].payload] else [];
      assert head + (Payloads(a[1..]) + Payloads(b)) == (head + Payloads(a[1..])) + Payloads(b);
    }
  }

  lemma {:induction false} LostSumAppend(a: seq<Record>, b: seq<Record>)
    ensures LostSum(a + b) == LostSum(a) + LostSum(b)
  {
    if a == [] {
      assert a + b == b;
    } else {
      LostSumAppend(a[1..], b);
      assert (a + b)[1..] == a[1..] + b && (a + b)[0] == a[0];
    }
  }

  lemma {:induction false} KeptAppend(a: seq<Option<seq<byte>>>, b: seq<Option<seq<byte>>>)
    ensures Kept(a + b) == Kept(a) + Kept(b)
  {
    if a == [] {
      assert a + b == b;
    } else {
      KeptAppend(a[1..], b);
      assert (a + b)[1..] == a[1..] + b && (a + b)[0] == a[0];
      var head := if a[0].Some? then [a[0].value] else [];
      assert head + (Kept(a[1..]) + Kept(b)) == (head + Kept(a[1..])) + Kept(b);
    }
  }

  lemma {:induction false} LostCountAppend(a: seq<Option<seq<byte>>>, b: seq<Option<seq<byte>>>)
    ensures LostCount(a + b) == LostCount(a) + LostCount(b)
  {
    if a == [] {
      assert a + b == b;
    } else {
      LostCountAppend(a[1..], b);
      assert (a + b)[1..] == a[1..] + b && (a + b)[0] == a[0];
    }
  }

  lemma {:induction false} FateSplits(fate: seq<Option<seq<byte>>>)
    ensures |fate| == |Kept(fate)| + LostCount(fate)
  {
    if fate != [] {
      FateSplits(fate[1..]);
    }
  }

  // ----- The invariant of every run

  /** The ring is a queue: what is unread is exactly what was written and not yet taken. */
  predicate Fifo(t: Trace) {
    t.taken <= t.written && Queued(t.page, t.written[|t.taken|..])
  }

  /** Every offered event is a sample, in order, or counted by a lost record or the counter. */
  predicate Accounted(t: Trace) {
    && |t.fate| == |t.offered|
    && (forall i | 0 <= i < |t.fate| && t.fate[i].Some? :: t.fate[i].value == t.offered[i])
    && Payloads(t.written) == Kept(t.fate)
    && LostSum(t.written) + t.page.lost == LostCount(t.fate)
  }

  lemma OfferKeepsFifo(t: Trace, data: seq<byte>)
    requires Fifo(t) && t.page.Size() > 0 && Admissible(t.page, data)
    ensures Fifo(Step(t, Offer(data)))
    ensures Step(t, Offer(data)).page.lost == PendingLost(t.page, data)
  {
    hide Queued, WriteEvent, Appended, Accepts;
    var unread := t.written[|t.taken|..];
    WriteEventQueues(t.page, data, unread);
    assert (t.written + Appended(t.page, data))[|t.taken|..] == unread + Appended(t.page, data);
  }

  lemma TakeKeepsFifo(t: Trace)
    requires Fifo(t) && t.page.Size() > 0
    ensures Fifo(Step(t, Take))
    ensures Step(t, Take) == t <==> t.taken == t.written
  {
    hide Queued, ReadAt, ReadRecord;
    var unread := t.written[|t.taken|..];
    ReadTakesOldest(t.page, unread);
    if unread != [] {
      assert t.written[|t.taken|] == unread[0];
      assert t.written[|t.taken| + 1..] == unread[1..];
    }
  }

  lemma OfferKeepsAccount(t: Trace, data: seq<byte>)
    requires Accounted(t) && t.page.Size() > 0
    requires Step(t, Offer(data)).page.lost == PendingLost(t.page, data)
    ensures Accounted(Step(t, Offer(data)))
  {
    hide WriteEvent, Payloads, LostSum, Kept, LostCount, Appended, PendingLost, Accepts;
    var added, fate := Appended(t.page, data), [if Accepts(t.page, data) then Some(data) else None];
    AddedAccount(t.page, data);
    KeptAppend(t.fate, fate);
    LostCountAppend(t.fate, fate);
    PayloadsAppend(t.written, added);
    LostSumAppend(t.written, added);
  }

  lemma AddedAccount(p: Page, data: seq<byte>)
    requires p.Size() > 0
    ensures var fate := [if Accepts(p, data) then Some(data) else None];
            && Payloads(Appended(p, data)) == Kept(fate)
            && LostSum(Appended(p, data)) + PendingLost(p, data) == p.lost + LostCount(fate)
  {
    hide RoomForEvent;
    var first := if LostFirst(p) then [Lost(p.lost)] else [];
    var second := if Accepts(p, data) then [Sample(data)] else [];
    PayloadsAppend(first, second);
    LostSumAppend(first, second);
  }

  lemma StepKeepsInv(t: Trace, op: Op)
    requires t.page.Size() > 0 && Fifo(t) && Accounted(t) && Possible(t, op)
    ensures Fifo(Step(t, op)) && Accounted(Step(t, op))
  {
    hide Fifo, Queued, WriteEvent;
    match op {
      case Offer(data) =>
        OfferKeepsFifo(t, data);
        OfferKeepsAccount(t, data);
      case Take =>
        TakeKeepsFifo(t);
    }
  }

  lemma {:induction false} RunKeepsInv(t: Trace, ops: seq<Op>)
    requires t.page.Size() > 0 && Fifo(t) && Accounted(t) && PossibleRun(t, ops)
    ensures Fifo(Run(t, ops)) && Accounted(Run(t, ops))
    decreases |ops|
  {
    hide Fifo, Accounted, Step, Possible;
    if ops != [] {
      StepKeepsInv(t, ops[0]);
      StepKeepsSize(t, ops[0]);
      RunKeepsInv(Step(t, ops[0]), ops[1..]);
    }
  }

  function Start(region: seq<byte>): Trace {
    Trace(Page(region, 0, 0, 0), [], [], [], [])
  }

  /**
    The ring refines a queue over every run: what the reader has taken, followed by what it
    would decode from the bytes still in the ring, is everything ever written, in order; the
    samples are the accepted events, each what was offered at its place; and every offered event is accounted.
  */
  lemma RunRefinesQueue(region: seq<byte>, ops: seq<Op>)
    requires |region| >= PAGE_SIZE && PossibleRun(Start(region), ops)
    ensures var t := Run(Start(region), ops);
            && t.page.Size() > 0
            && t.page.head - t.page.tail <= t.page.Size()
            && Decode(t.page.region, t.page.tail, t.page.head).Some?
            && t.taken + Decode(t.page.region, t.page.tail, t.page.head).value == t.written
            && |t.fate| == |t.offered|
            && (forall i | 0 <= i < |t.fate| && t.fate[i].Some? :: t.fate[i].value == t.offered[i])
            && Payloads(t.written) == Kept(t.fate)
            && |t.offered| == |Payloads(t.written)| + LostSum(t.written) + t.page.lost
  {
    hide Run, PossibleRun, ReadAt, Payloads, LostSum, Kept, LostCount;
    StartKeeps(region);
    RunKeepsInv(Start(region), ops);
    FateSplits(Run(Start(region), ops).fate);
  }

  lemma StartKeeps(region: seq<byte>)
    requires |region| >= PAGE_SIZE
    ensures Fifo(Start(region)) && Accounted(Start(region))
  {
    Modular.Small(0, |region|);
  }

  // ----- Where the losses show up

  /** What a reader of `rs` believes became of the events, in order. */
  function Reported(rs: seq<Record>): seq<Option<seq<byte>>> {
    if rs == [] then [] else
      (if rs[0].Sample? then [Some(rs[0].payload)] else Losses(rs[0].count)) + Reported(rs[1..])
  }

  function Losses(n: nat): (s: seq<Option<seq<byte>>>) {
    seq(n, i => None)
  }

  lemma {:induction false} ReportedAppend(a: seq<Record>, b: seq<Record>)
    ensures Reported(a + b) == Reported(a) + Reported(b)
  {
    hide Losses;
    if a == [] {
      assert a + b == b;
    } else {
      ReportedAppend(a[1..], b);
      assert (a + b)[1..] == a[1..] + b && (a + b)[0] == a[0];
      var head := if a[0].Sample? then [Some(a[0].payload)] else Losses(a[0].count);
      assert head + (Reported(a[1..]) + Reported(b)) == (head + Reported(a[1..])) + Reported(b);
    }
  }

  /** The records plus the counter tell the losses at the places where they happened. */
  predicate LossesInPlace(t: Trace) {
    Reported(t.written) + Losses(t.page.lost) == t.fate
  }

  /** A small sample squeezes in where the pending lost record does not fit. */
  predicate Overtakes(p: Page, data: seq<byte>) {
    p.lost > 0 && SAMPLE_HEADER_SIZE + |data| <= p.Free() < LOST_SIZE
  }

  /** The records already tell something else than what happened. */
  ghost predicate Misreported(t: Trace) {
    exists k :: 0 <= k < |Reported(t.written)| && k < |t.fate| && Reported(t.written)[k] != t.fate[k]
  }

  /** Some event of the run overtakes a pending lost record. */
  predicate SomeOvertakes(t: Trace, ops: seq<Op>)
    requires t.page.Size() > 0
    decreases |ops|
  {
    ops != [] &&
    ((ops[0].Offer? && Overtakes(t.page, ops[0].data)) ||
     (StepKeepsSize(t, ops[0]); SomeOvertakes(Step(t, ops[0]), ops[1..])))
  }

  /** One event keeps the losses in place exactly when it does not overtake a pending lost record. */
  lemma OfferInPlace(t: Trace, data: seq<byte>)
    requires Fifo(t) && LossesInPlace(t) && t.page.Size() > 0 && Admissible(t.page, data)
    ensures LossesInPlace(Step(t, Offer(data))) <==> !Overtakes(t.page, data)
    ensures Overtakes(t.page, data) ==> Misreported(Step(t, Offer(data)))
  {
    hide Fifo, Queued, WriteEvent, Admissible, Reported, Appended, Accepts, PendingLost;
    var p, u := t.page, Step(t, Offer(data));
    OfferKeepsFifo(t, data);
    ReportedAppend(t.written, Appended(p, data));
    ToldByAppended(p, data);
    var before, told := Reported(t.written), Reported(Appended(p, data));
    var outcome := if Accepts(p, data) then Some(data) else None;
    if Overtakes(p, data) {
      FirstDiffers(before, told, Losses(p.lost), outcome);
      assert Reported(u.written)[|before|] != u.fate[|before|];
      MisreportedOutOfPlace(u);
    } else {
      SamePlaces(before, told, Losses(u.page.lost), Losses(p.lost), [outcome]);
    }
  }

  /** A report `told` that begins with a sample contradicts a fate that begins with a loss. */
  lemma FirstDiffers(before: seq<Option<seq<byte>>>, told: seq<Option<seq<byte>>>, losses: seq<Option<seq<byte>>>,
                     outcome: Option<seq<byte>>)
    requires told != [] && told[0].Some? && losses != [] && losses[0].None?
    ensures var reported, fate := before + told, before + losses + [outcome];
            |before| < |reported| && |before| < |fate| && reported[|before|] != fate[|before|]
  {
  }

  lemma SamePlaces<T>(before: seq<T>, told: seq<T>, pending: seq<T>, losses: seq<T>, outcome: seq<T>)
    requires told + pending == losses + outcome
    ensures before + told + pending == before + losses + outcome
  {
    assert before + told + pending == before + (told + pending);
    assert before + losses + outcome == before + (losses + outcome);
  }

  lemma ToldByAppended(p: Page, data: seq<byte>)
    requires p.Size() > 0
    ensures var outcome := if Accepts(p, data) then Some(data) else None;
            if Overtakes(p, data) then Reported(Appended(p, data)) == [Some(data)]
            else Reported(Appended(p, data)) + Losses(PendingLost(p, data)) == Losses(p.lost) + [outcome]
  {
    var first := if LostFirst(p) then [Lost(p.lost)] else [];
    var second := if Accepts(p, data) then [Sample(data)] else [];
    ReportedAppend(first, second);
    assert Reported(first) == if LostFirst(p) then Losses(p.lost) else [];
    assert Reported(second) == if Accepts(p, data) then [Some(data)] else [];
    assert Losses(1) == [None];
    assert Losses(p.lost + 1) == Losses(p.lost) + [None];
    assert Losses(0) == [];
  }

  /** A wrong report never heals: records are only added. */
  lemma StepKeepsMisreport(t: Trace, op: Op)
    requires t.page.Size() > 0 && Misreported(t)
    ensures Misreported(Step(t, op))
  {
    hide Reported, Appended, Accepts, WriteEvent, ReadAt, ReadRecord;
    if op.Offer? {
      ReportedAppend(t.written, Appended(t.page, op.data));
      var k :| 0 <= k < |Reported(t.written)| && k < |t.fate| && Reported(t.written)[k] != t.fate[k];
      assert Reported(Step(t, op).written)[k] == Reported(t.written)[k] && Step(t, op).fate[k] == t.fate[k];
    }
  }

  lemma {:induction false} RunKeepsMisreport(t: Trace, ops: seq<Op>)
    requires t.page.Size() > 0 && Misreported(t)
    ensures Misreported(Run(t, ops))
    decreases |ops|
  {
    hide Misreported, Step;
    if ops != [] {
      StepKeepsMisreport(t, ops[0]);
      StepKeepsSize(t, ops[0]);
      RunKeepsMisreport(Step(t, ops[0]), ops[1..]);
    }
  }

  lemma MisreportedOutOfPlace(t: Trace)
    requires Misreported(t)
    ensures !LossesInPlace(t)
  {
    hide Reported;
  }

  lemma {:induction false} RunInPlace(t: Trace, ops: seq<Op>)
    requires t.page.Size() > 0 && Fifo(t) && Accounted(t) && LossesInPlace(t) && PossibleRun(t, ops)
    ensures LossesInPlace(Run(t, ops)) <==> !SomeOvertakes(t, ops)
    decreases |ops|
  {
    hide Fifo, Accounted, LossesInPlace, Misreported, Overtakes, Admissible;
    if ops != [] {
      var u := Step(t, ops[0]);
      StepKeepsInv(t, ops[0]);
      StepKeepsSize(t, ops[0]);
      StepInPlace(t, ops[0]);
      hide Step;
      if ops[0].Offer? && Overtakes(t.page, ops[0].data) {
        RunKeepsMisreport(u, ops[1..]);
        MisreportedOutOfPlace(Run(u, ops[1..]));
      } else {
        RunInPlace(u, ops[1..]);
      }
    }
  }

  lemma StepInPlace(t: Trace, op: Op)
    requires t.page.Size() > 0 && Fifo(t) && LossesInPlace(t) && Possible(t, op)
    ensures if op.Offer? && Overtakes(t.page, op.data) then Misreported(Step(t, op)) else LossesInPlace(Step(t, op))
  {
    hide Fifo, Overtakes, Misreported, Admissible, Reported, WriteEvent, ReadAt;
    if op.Offer? {
      OfferInPlace(t, op.data);
    }
  }

  /**
    The code counts every loss, but a lost record may come after later samples. The records and
    the counter of a whole run tell every loss at its place exactly when no event of the run
    overtook a pending lost record; a loss told at a wrong place stays so.
  */
  lemma LossesStayInPlace(region: seq<byte>, ops: seq<Op>)
    requires |region| >= PAGE_SIZE && PossibleRun(Start(region), ops)
    ensures LossesInPlace(Run(Start(region), ops)) <==> !SomeOvertakes(Start(region), ops)
  {
    hide Run, PossibleRun, SomeOvertakes, Fifo, Accounted;
    StartKeeps(region);
    RunInPlace(Start(region), ops);
  }

  /** It does happen: on one page, a sample leaves 20 bytes, the next event is lost, a small one follows. */
  lemma OvertakingHappens(region: seq<byte>, large: seq<byte>, medium: seq<byte>, small: seq<byte>)
    requires |region| == PAGE_SIZE && |large| == 4064 && |medium| == 100 && |small| == 1
    ensures var ops := [Offer(large), Offer(medium), Offer(small)];
            PossibleRun(Start(region), ops) && !LossesInPlace(Run(Start(region), ops))
  {
    var ops := [Offer(large), Offer(medium), Offer(small)];
    var s := Start(region);
    var t := Step(s, ops[0]);
    FirstFills(s, large);
    var u := Step(t, ops[1]);
    NextIsLost(t, medium);
    SmallPasses(u, small);
    hide Step, Admissible, Overtakes;
    StepKeepsSize(s, ops[0]);
    StepKeepsSize(t, ops[1]);
    StepKeepsSize(u, ops[2]);
    assert ops[1..] == [ops[1], ops[2]] && ops[1..][1..] == [ops[2]] && ops[1..][1..][1..] == [];
    assert PossibleRun(u, [ops[2]]) && SomeOvertakes(u, [ops[2]]);
    assert PossibleRun(t, ops[1..]) && SomeOvertakes(t, ops[1..]);
    assert PossibleRun(s, ops) && SomeOvertakes(s, ops);
    LossesStayInPlace(region, ops);
  }

  lemma FirstFills(s: Trace, large: seq<byte>)
    requires s.page.Size() == PAGE_SIZE && s.page.head == s.page.tail == s.page.lost == 0 && |large| == 4064
    ensures Admissible(s.page, large)
    ensures var p := Step(s, Offer(large)).page; p.Size() == PAGE_SIZE && p.tail == 0 && p.head == 4076 && p.lost == 0
  {
    hide Put;
  }

  lemma NextIsLost(t: Trace, medium: seq<byte>)
    requires t.page.Size() == PAGE_SIZE && t.page.tail == 0 && t.page.head == 4076 && t.page.lost == 0
    requires |medium| == 100
    ensures Admissible(t.page, medium)
    ensures Step(t, Offer(medium)).page == t.page.(lost := 1)
  {
    hide Put;
  }

  lemma SmallPasses(u: Trace, small: seq<byte>)
    requires u.page.Size() == PAGE_SIZE && u.page.tail == 0 && u.page.head == 4076 && u.page.lost == 1 && |small| == 1
    ensures Admissible(u.page, small) && Overtakes(u.page, small)
  {
  }
}
