/**
  Patched text and instruction slots: what installing, copying and dropping a probe point does
  to memory (kprobe/src/arch/aarch64/mod.rs).
*/
module ProbeMemory {
  import opened Bytes
  import opened ProbeTypes

  /** An instruction slot: the instruction to step and the breakpoint after it. */
  const SLOT_LEN: nat := 2 * INST_LEN

  /**
    The first two words of an executable page: the instruction to step and the breakpoint
    after it. `owner` is the point the page was allocated for.
  */
  datatype Page = Page(inst: word, next: word, owner: nat)

  /**
    `code` is the text, one word per address; `pages` are the executable pages in use, by
    their base address; `points` are the live point objects.
  */
  datatype Memory = Memory(code: map<nat, word>, pages: map<nat, Page>, points: map<nat, Point>)

  /** An aligned page base whose first two words do not lie over the text. */
  predicate IsPageOff(text: set<nat>, at: nat) {
    at != 0 && at % SLOT_LEN == 0 && at !in text && at + INST_LEN !in text
  }

  /** What the page allocator may return: a page not in use that does not lie over the text. */
  predicate IsFreePage(m: Memory, at: nat) {
    IsPageOff(m.code.Keys, at) && at !in m.pages
  }

  // ----- Operations

  /** replace_inst: checks the address and the instruction, patches, and fills the slot. */
  function ReplaceInst(m: Memory, addr: nat, slot: nat, pid: Option<int>, id: nat): Result<Memory, InstallError>
    requires addr in m.code
  {
    if addr % INST_LEN != 0 then Err(InvalidAddress) else
      match ValidateInstruction(m.code[addr])
      case Err(e) => Err(e)
      case Ok(_) => Ok(Install(m, m.code[addr], Point(addr, slot, pid, 0), id))
  }

  function Install(m: Memory, inst: word, p: Point, id: nat): Memory {
    Memory(m.code[p.addr := BRK_KPROBES], m.pages[p.slot := Page(inst, BRK_KPROBES_SS, id)], m.points[id := p])
  }

  predicate Droppable(m: Memory, id: nat) {
    id in m.points && m.points[id].slot in m.pages && m.points[id].addr in m.code
  }

  /** The drop of a point: the original instruction goes back, its pages are freed. */
  function DropPoint(m: Memory, id: nat): Memory
    requires Droppable(m, id)
  {
    var p := m.points[id];
    Memory(m.code[p.addr := m.pages[p.slot].inst], m.pages - {p.slot, p.dynamic}, m.points - {id})
  }

  /** The first break of a uprobe point: its slot is copied to a page of the process. */
  function CopySlot(m: Memory, id: nat, user: nat): Memory
    requires Droppable(m, id)
  {
    m.(pages := m.pages[user := m.pages[m.points[id].slot]], points := m.points[id := m.points[id].(dynamic := user)])
  }

  // ----- The invariant

  /** A live point lies at the address. */
  ghost predicate IsProbed(m: Memory, a: nat) {
    exists i | i in m.points :: m.points[i].addr == a
  }

  ghost predicate PointsApart(m: Memory) {
    forall i, j | i in m.points && j in m.points && m.points[i].addr == m.points[j].addr :: i == j
  }

  /** At the address lies a breakpoint, over a word that the check accepts. */
  ghost predicate BreaksAt(text: map<nat, word>, m: Memory, a: nat) {
    a in text && a in m.code && m.code[a] == BRK_KPROBES && Accepted(text[a])
  }

  /** The text holds the breakpoint exactly at the live points, the original word elsewhere. */
  ghost predicate TextPatched(text: map<nat, word>, m: Memory) {
    && m.code.Keys == text.Keys
    && (forall i | i in m.points :: BreaksAt(text, m, m.points[i].addr))
    && (forall a | a in text && !IsProbed(m, a) :: m.code[a] == text[a])
  }

  /** A page in use belongs to a live point: it is its slot or the copy of it. */
  ghost predicate PageOwned(m: Memory, a: nat)
    requires a in m.pages
  {
    var id := m.pages[a].owner;
    id in m.points && (a == m.points[id].slot || a == m.points[id].dynamic)
  }

  /** The point's slot, and the copy once there is one, hold its original instruction. */
  ghost predicate SlotsHold(text: map<nat, word>, m: Memory, i: nat)
    requires i in m.points && m.points[i].addr in text
  {
    var p := m.points[i];
    var page := Page(text[p.addr], BRK_KPROBES_SS, i);
    && p.slot in m.pages && m.pages[p.slot] == page
    && (p.dynamic != 0 ==> p.dynamic != p.slot && p.dynamic in m.pages && m.pages[p.dynamic] == page)
  }

  ghost predicate PagesOwned(text: set<nat>, m: Memory) {
    forall a | a in m.pages :: IsPageOff(text, a) && PageOwned(m, a)
  }

  ghost predicate AllSlotsHold(text: map<nat, word>, m: Memory) {
    forall i | i in m.points :: m.points[i].addr in text && SlotsHold(text, m, i)
  }

  ghost predicate MemoryOk(text: map<nat, word>, m: Memory) {
    PointsApart(m) && TextPatched(text, m) && PagesOwned(text.Keys, m) && AllSlotsHold(text, m)
  }

  lemma UnpatchedOk(text: map<nat, word>, m: Memory)
    requires m.code == text && m.points.Keys == {} && m.pages.Keys == {}
    ensures MemoryOk(text, m)
  {
    hide Accepted, IsPageOff, PageOwned, SlotsHold;
  }

  // ----- Installing

  /** An accepted address has no live point: the check would have met the breakpoint. */
  lemma AcceptedIsUnprobed(text: map<nat, word>, m: Memory, addr: nat)
    requires TextPatched(text, m) && addr in text && ValidateInstruction(m.code[addr]).Ok?
    ensures !IsProbed(m, addr) && m.code[addr] == text[addr] && Accepted(text[addr])
  {
  }

  lemma InstallApart(m: Memory, inst: word, p: Point, id: nat)
    requires PointsApart(m) && !IsProbed(m, p.addr)
    ensures PointsApart(Install(m, inst, p, id))
  {
  }

  lemma InstallPatches(text: map<nat, word>, m: Memory, p: Point, id: nat)
    requires TextPatched(text, m) && PointsApart(m) && p.addr in text && !IsProbed(m, p.addr)
    requires Accepted(text[p.addr]) && id !in m.points
    ensures TextPatched(text, Install(m, text[p.addr], p, id)) && PointsApart(Install(m, text[p.addr], p, id))
  {
    InstallApart(m, text[p.addr], p, id);
    InstallBreaks(text, m, p, id);
    hide PointsApart, BreaksAt, IsProbed;
    var q := Install(m, text[p.addr], p, id);
    forall a | a in text && !IsProbed(q, a)
      ensures q.code[a] == text[a]
    {
      StaysUnprobed(m, text[p.addr], p, id, a);
    }
  }

  lemma InstallBreaks(text: map<nat, word>, m: Memory, p: Point, id: nat)
    requires TextPatched(text, m) && p.addr in text && Accepted(text[p.addr])
    ensures var q := Install(m, text[p.addr], p, id);
            forall i | i in q.points :: BreaksAt(text, q, q.points[i].addr)
  {
    hide Accepted, IsProbed;
    var q := Install(m, text[p.addr], p, id);
    forall i | i in q.points
      ensures BreaksAt(text, q, q.points[i].addr)
    {
      assert i != id ==> BreaksAt(text, m, m.points[i].addr);
    }
  }

  lemma StaysUnprobed(m: Memory, inst: word, p: Point, id: nat, a: nat)
    requires id !in m.points && !IsProbed(Install(m, inst, p, id), a)
    ensures a != p.addr && !IsProbed(m, a)
  {
    var q := Install(m, inst, p, id);
    assert q.points[id] == p;
    assert forall i | i in m.points :: q.points[i] == m.points[i];
  }

  lemma OtherSlotsHold(text: map<nat, word>, m: Memory, q: Memory, i: nat)
    requires i in m.points && m.points[i].addr in text && SlotsHold(text, m, i)
    requires i in q.points && q.points[i] == m.points[i]
    requires forall a | a in m.pages && m.pages[a].owner == i :: a in q.pages && q.pages[a] == m.pages[a]
    ensures SlotsHold(text, q, i)
  {
  }

  lemma InstallOwns(text: map<nat, word>, m: Memory, p: Point, id: nat)
    requires PagesOwned(text.Keys, m) && p.addr in text && id !in m.points
    requires IsPageOff(text.Keys, p.slot) && p.slot !in m.pages
    ensures PagesOwned(text.Keys, Install(m, text[p.addr], p, id))
  {
    hide IsPageOff;
    var q := Install(m, text[p.addr], p, id);
    forall a | a in q.pages
      ensures IsPageOff(text.Keys, a) && PageOwned(q, a)
    {
      if a != p.slot {
        assert PageOwned(m, a);
      }
    }
  }

  lemma InstallFills(text: map<nat, word>, m: Memory, p: Point, id: nat)
    requires AllSlotsHold(text, m) && PagesOwned(text.Keys, m) && p.addr in text && p.dynamic == 0
    requires id !in m.points && IsPageOff(text.Keys, p.slot) && p.slot !in m.pages
    ensures AllSlotsHold(text, Install(m, text[p.addr], p, id))
    ensures PagesOwned(text.Keys, Install(m, text[p.addr], p, id))
  {
    hide IsPageOff, PageOwned, PagesOwned, AllSlotsHold;
    InstallOwns(text, m, p, id);
    InstallLeavesSlots(text, m, p, id);
  }

  lemma InstallLeavesSlots(text: map<nat, word>, m: Memory, p: Point, id: nat)
    requires AllSlotsHold(text, m) && p.addr in text && p.dynamic == 0 && id !in m.points && p.slot !in m.pages
    ensures AllSlotsHold(text, Install(m, text[p.addr], p, id))
  {
    InstallFillsOne(text, m, p, id);
    hide SlotsHold;
    var q := Install(m, text[p.addr], p, id);
    forall i | i in q.points
      ensures q.points[i].addr in text && SlotsHold(text, q, i)
    {
      if i != id {
        OtherSlotsHold(text, m, q, i);
      }
    }
  }

  lemma InstallFillsOne(text: map<nat, word>, m: Memory, p: Point, id: nat)
    requires p.addr in text && p.dynamic == 0
    ensures var q := Install(m, text[p.addr], p, id);
            id in q.points && q.points[id] == p && SlotsHold(text, q, id)
  {
  }

  lemma InstallKeepsMemory(text: map<nat, word>, m: Memory, addr: nat, slot: nat, pid: Option<int>, id: nat)
    requires MemoryOk(text, m) && addr in text && id !in m.points && IsFreePage(m, slot)
    ensures addr in m.code
    ensures ReplaceInst(m, addr, slot, pid, id).Ok? ==>
              && !IsProbed(m, addr) && MemoryOk(text, ReplaceInst(m, addr, slot, pid, id).value)
              && ReplaceInst(m, addr, slot, pid, id).value == Install(m, text[addr], Point(addr, slot, pid, 0), id)
  {
    if ReplaceInst(m, addr, slot, pid, id).Ok? {
      AcceptedIsUnprobed(text, m, addr);
      hide TextPatched, PagesOwned, AllSlotsHold, PointsApart, IsProbed;
      InstallPatches(text, m, Point(addr, slot, pid, 0), id);
      InstallFills(text, m, Point(addr, slot, pid, 0), id);
    }
  }

  // ----- Dropping

  lemma OffIsNotZero(text: set<nat>, a: nat)
    requires IsPageOff(text, a)
    ensures a != 0
  {
  }

  lemma LiveIsDroppable(text: map<nat, word>, m: Memory, id: nat)
    requires TextPatched(text, m) && AllSlotsHold(text, m) && id in m.points
    ensures Droppable(m, id) && m.points[id].addr in text && m.code.Keys == text.Keys
    ensures m.pages[m.points[id].slot].inst == text[m.points[id].addr]
  {
    hide Accepted;
    assert SlotsHold(text, m, id);
  }

  lemma DropRestores(text: map<nat, word>, m: Memory, id: nat, q: Memory)
    requires PointsApart(m) && TextPatched(text, m) && id in m.points && m.points[id].addr in text
    requires q.code == m.code[m.points[id].addr := text[m.points[id].addr]] && q.points.Keys == m.points.Keys - {id}
    requires forall i | i in q.points :: q.points[i] == m.points[i]
    ensures TextPatched(text, q) && PointsApart(q)
  {
    hide BreaksAt, IsProbed, PointsApart;
    DropApart(m, id, q);
    DropBreaks(text, m, id, q);
    DropOriginal(text, m, id, q);
  }

  lemma DropApart(m: Memory, id: nat, q: Memory)
    requires PointsApart(m) && q.points.Keys == m.points.Keys - {id}
    requires forall i | i in q.points :: q.points[i] == m.points[i]
    ensures PointsApart(q)
  {
  }

  lemma DropOriginal(text: map<nat, word>, m: Memory, id: nat, q: Memory)
    requires TextPatched(text, m) && id in m.points && m.points[id].addr in text
    requires q.code == m.code[m.points[id].addr := text[m.points[id].addr]] && q.points.Keys == m.points.Keys - {id}
    requires forall i | i in q.points :: q.points[i] == m.points[i]
    ensures forall a | a in text && !IsProbed(q, a) :: a in q.code && q.code[a] == text[a]
  {
    hide BreaksAt, IsProbed;
    forall a | a in text && !IsProbed(q, a)
      ensures q.code[a] == text[a]
    {
      if a != m.points[id].addr {
        WasUnprobed(m, id, q, a);
      }
    }
  }

  lemma DropBreaks(text: map<nat, word>, m: Memory, id: nat, q: Memory)
    requires PointsApart(m) && TextPatched(text, m) && id in m.points && m.points[id].addr in text
    requires q.code == m.code[m.points[id].addr := text[m.points[id].addr]] && q.points.Keys == m.points.Keys - {id}
    requires forall i | i in q.points :: q.points[i] == m.points[i]
    ensures forall i | i in q.points :: BreaksAt(text, q, q.points[i].addr)
  {
    hide Accepted, IsProbed;
    forall i | i in q.points
      ensures BreaksAt(text, q, q.points[i].addr)
    {
      assert i in m.points && i != id && BreaksAt(text, m, m.points[i].addr);
    }
  }

  lemma WasUnprobed(m: Memory, id: nat, q: Memory, a: nat)
    requires id in m.points && q.points.Keys == m.points.Keys - {id}
    requires forall i | i in q.points :: q.points[i] == m.points[i]
    requires a != m.points[id].addr && !IsProbed(q, a)
    ensures !IsProbed(m, a)
  {
    forall i | i in m.points
      ensures m.points[i].addr != a
    {
      assert i == id || i in q.points;
    }
  }

  /** The pages that go belong to the point; the others keep their owners. */
  lemma DropFrees(text: map<nat, word>, m: Memory, id: nat)
    requires PagesOwned(text.Keys, m) && AllSlotsHold(text, m) && Droppable(m, id)
    ensures PagesOwned(text.Keys, DropPoint(m, id))
    ensures forall a | a in m.pages && m.pages[a].owner != id ::
              a in DropPoint(m, id).pages && DropPoint(m, id).pages[a] == m.pages[a]
  {
    hide IsPageOff, PageOwned, SlotsHold;
    var q := DropPoint(m, id);
    forall a | a in m.pages
      ensures m.pages[a].owner != id ==> a in q.pages && q.pages[a] == m.pages[a]
      ensures a in q.pages ==> PageOwned(q, a)
    {
      assert PageOwned(m, a) && IsPageOff(text.Keys, a) && SlotsHold(text, m, id);
      hide PagesOwned, AllSlotsHold;
      OffIsNotZero(text.Keys, a);
      DropKeepsPage(text, m, id, a);
    }
    assert forall a | a in q.pages :: a in m.pages;
  }

  lemma DropKeepsPage(text: map<nat, word>, m: Memory, id: nat, a: nat)
    requires Droppable(m, id) && m.points[id].addr in text && SlotsHold(text, m, id)
    requires a in m.pages && a != 0 && PageOwned(m, a)
    ensures m.pages[a].owner != id ==> a in DropPoint(m, id).pages && DropPoint(m, id).pages[a] == m.pages[a]
    ensures a in DropPoint(m, id).pages ==> PageOwned(DropPoint(m, id), a)
  {
  }

  lemma DropLeavesSlots(text: map<nat, word>, m: Memory, id: nat)
    requires AllSlotsHold(text, m) && Droppable(m, id)
    requires forall a | a in m.pages && m.pages[a].owner != id ::
               a in DropPoint(m, id).pages && DropPoint(m, id).pages[a] == m.pages[a]
    ensures AllSlotsHold(text, DropPoint(m, id))
  {
    var q := DropPoint(m, id);
    forall i | i in q.points
      ensures q.points[i].addr in text && SlotsHold(text, q, i)
    {
      assert SlotsHold(text, m, i);
      hide SlotsHold, DropPoint;
      OtherSlotsHold(text, m, q, i);
    }
  }

  /** Dropping a point takes the breakpoint out and leaves every other point as it was. */
  lemma DropKeepsMemory(text: map<nat, word>, m: Memory, id: nat)
    requires MemoryOk(text, m) && id in m.points
    ensures Droppable(m, id) && MemoryOk(text, DropPoint(m, id))
    ensures DropPoint(m, id).code[m.points[id].addr] == text[m.points[id].addr]
  {
    LiveIsDroppable(text, m, id);
    hide TextPatched, PagesOwned, AllSlotsHold, SlotsHold, IsProbed;
    DropRestores(text, m, id, DropPoint(m, id));
    DropFrees(text, m, id);
    DropLeavesSlots(text, m, id);
  }

  // ----- Copying

  lemma CopyLeavesText(text: map<nat, word>, m: Memory, id: nat, user: nat)
    requires TextPatched(text, m) && Droppable(m, id)
    ensures TextPatched(text, CopySlot(m, id, user))
  {
    hide Accepted;
    var q := CopySlot(m, id, user);
    assert forall i | i in m.points :: i in q.points && q.points[i].addr == m.points[i].addr;
    forall a | a in text && !IsProbed(q, a)
      ensures q.code[a] == text[a]
    {
      assert !IsProbed(m, a);
    }
  }

  lemma CopyOwns(text: map<nat, word>, m: Memory, id: nat, user: nat)
    requires PagesOwned(text.Keys, m) && Droppable(m, id) && m.points[id].dynamic == 0
    requires m.points[id].addr in text && SlotsHold(text, m, id) && IsPageOff(text.Keys, user)
    ensures PagesOwned(text.Keys, CopySlot(m, id, user))
  {
    hide IsPageOff;
    var q := CopySlot(m, id, user);
    forall a | a in q.pages
      ensures IsPageOff(text.Keys, a) && PageOwned(q, a)
    {
      if a != user {
        assert PageOwned(m, a);
        OffIsNotZero(text.Keys, a);
      }
    }
  }

  lemma CopyFills(text: map<nat, word>, m: Memory, id: nat, user: nat)
    requires PagesOwned(text.Keys, m) && AllSlotsHold(text, m) && Droppable(m, id) && m.points[id].dynamic == 0
    requires IsPageOff(text.Keys, user) && user !in m.pages
    ensures PagesOwned(text.Keys, CopySlot(m, id, user)) && AllSlotsHold(text, CopySlot(m, id, user))
  {
    assert SlotsHold(text, m, id);
    CopyOwns(text, m, id, user);
    OffIsNotZero(text.Keys, user);
    hide IsPageOff, PagesOwned, PageOwned;
    var q := CopySlot(m, id, user);
    assert SlotsHold(text, q, id);
    forall i | i in q.points
      ensures q.points[i].addr in text && SlotsHold(text, q, i)
    {
      if i != id {
        hide SlotsHold;
        OtherSlotsHold(text, m, q, i);
      }
    }
  }

  /** The copy holds what the slot holds; everything else stays. */
  lemma CopyKeepsMemory(text: map<nat, word>, m: Memory, id: nat, user: nat)
    requires MemoryOk(text, m) && id in m.points && m.points[id].dynamic == 0 && IsFreePage(m, user)
    ensures Droppable(m, id) && MemoryOk(text, CopySlot(m, id, user))
  {
    LiveIsDroppable(text, m, id);
    hide TextPatched, PagesOwned, AllSlotsHold, SlotsHold, IsPageOff, IsProbed;
    CopyLeavesText(text, m, id, user);
    CopyFills(text, m, id, user);
  }

  // ----- Addresses of points

  /** A point steps in a page of its own. */
  lemma StepPage(text: map<nat, word>, m: Memory, i: nat)
    requires MemoryOk(text, m) && i in m.points
    ensures m.points[i].StepAddress() in m.pages && m.points[i].addr in text
    ensures m.pages[m.points[i].StepAddress()] == Page(text[m.points[i].addr], BRK_KPROBES_SS, i)
    ensures Droppable(m, i) && IsPageOff(text.Keys, m.points[i].StepAddress())
  {
    hide Accepted;
    assert SlotsHold(text, m, i);
  }

  /** Different points have different debug addresses. */
  lemma DebugApart(text: map<nat, word>, m: Memory, i: nat, j: nat)
    requires MemoryOk(text, m) && i in m.points && j in m.points
             && m.points[i].DebugAddress() == m.points[j].DebugAddress()
    ensures i == j
  {
    hide MemoryOk;
    StepPage(text, m, i);
    StepPage(text, m, j);
  }
}
