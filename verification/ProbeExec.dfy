/**
  Executing the patched program: break, step in the slot, debug, resume
  (kprobe/src/kprobe/mod.rs, kprobe/src/uprobe/mod.rs, kprobe/src/arch/aarch64/mod.rs).
*/
module ProbeExec {
  import opened Bytes
  import opened ProbeTypes
  import opened ProbeManager
  import opened ProbeMemory
  import opened ProbeRegistry

  /** The two sets of trap handlers: a manager is used with one of them. */
  datatype Mode = Kernel | User

  /** `data` is everything but the pc and the executable memory: registers and data memory. */
  datatype Machine<D> = Machine(reg: Registry, pc: nat, data: D)

  /** What an instruction word does when it is executed at an address: the next pc and data. */
  type Semantics<!D> = (word, nat, D) -> (nat, D)

  /**
    A processor: its instructions, and what taking a trap, handling it and returning do to the data.
    The handlers leave the registers alone, but an exception return clears the exclusive monitor.
  */
  datatype Cpu<!D> = Cpu(sem: Semantics<D>, trap: D -> D)

  /** A page for the copy of a slot: what alloc_user_exec_memory returns. */
  type Allocator = Registry -> nat

  predicate IsBreak(w: word) { w == BRK_KPROBES || w == BRK_KPROBES_SS }

  function Fetch(m: Memory, pc: nat): Option<word> {
    if pc in m.code then Some(m.code[pc])
    else if pc in m.pages then Some(m.pages[pc].inst)
    else if pc >= INST_LEN && pc - INST_LEN in m.pages then Some(m.pages[pc - INST_LEN].next)
    else None
  }

  // ----- The trap handlers, with handlers of probes that leave the registers alone

  /** The point of a list's first probe. */
  function FirstPoint(r: Registry, list: seq<Probe>): Option<nat> {
    if list != [] && list[0] in r.pointOf && r.pointOf[list[0]] in r.mem.points then Some(r.pointOf[list[0]]) else None
  }

  /** kprobe_handler_from_debug and uprobe_handler_from_debug: the address to resume at. */
  function HandleDebug(r: Registry, pc: nat): Option<nat> {
    if pc !in r.debugList then None else
      match FirstPoint(r, r.debugList[pc])
      case None => None
      case Some(id) => Some(r.mem.points[id].ReturnAddress())
  }

  /** kprobe_handler_from_break and uprobe_handler_from_break: the address to step at. */
  function HandleBreak(mode: Mode, alloc: Allocator, r: Registry, pc: nat): Option<(Registry, nat)> {
    if pc in r.breakList then
      match FirstPoint(r, r.breakList[pc])
      case None => None
      case Some(id) =>
        if mode.Kernel? then Some((r, r.mem.points[id].slot))
        else if r.mem.points[id].dynamic != 0 then Some((r, r.mem.points[id].dynamic))
        else if Droppable(r.mem, id) then Some((FirstBreak(r, id, alloc(r)), alloc(r)))
        else None
    else
      match HandleDebug(r, pc)
      case None => None
      case Some(at) => Some((r, at))
  }

  /** One step of the processor: a breakpoint traps to the handler, anything else executes. */
  function Step<D>(cpu: Cpu<D>, mode: Mode, alloc: Allocator, s: Machine<D>): Option<Machine<D>> {
    match Fetch(s.reg.mem, s.pc)
    case None => None
    case Some(w) =>
      if IsBreak(w) then
        match HandleBreak(mode, alloc, s.reg, s.pc)
        case None => None
        case Some(next) => Some(Machine(next.0, next.1, cpu.trap(s.data)))
      else
        var next := cpu.sem(w, s.pc, s.data);
        Some(Machine(s.reg, next.0, next.1))
  }

  function Steps<D>(cpu: Cpu<D>, mode: Mode, alloc: Allocator, s: Machine<D>, k: nat): Option<Machine<D>>
    decreases k
  {
    if k == 0 then Some(s) else
      match Step(cpu, mode, alloc, s)
      case None => None
      case Some(t) => Steps(cpu, mode, alloc, t, k - 1)
  }

  // ----- What is assumed of the surroundings

  /** The instruction does the same to the data wherever it runs, and goes on to the next word. */
  ghost predicate Movable<D(!new)>(sem: Semantics<D>, w: word) {
    forall at: nat, to: nat, d: D :: sem(w, at, d).0 == at + INST_LEN && sem(w, at, d).1 == sem(w, to, d).1
  }

  /** Only the position-dependent encodings of Armv8-A read or set the pc. */
  ghost predicate ObeysArchitecture<D(!new)>(sem: Semantics<D>) {
    forall w: word :: !IsPositionDependent(w) ==> Movable(sem, w)
  }

  ghost predicate Allocates(alloc: Allocator) {
    forall r: Registry :: IsFreePage(r.mem, alloc(r))
  }

  /** The kernel handlers never copy a slot. */
  ghost predicate ModeOk(mode: Mode, r: Registry) {
    mode.Kernel? ==> forall i | i in r.mem.points :: r.mem.points[i].dynamic == 0
  }

  // ----- The handlers find the point

  lemma ListedPoint(text: map<nat, word>, r: Registry, pc: nat)
    requires Inv(text, r) && pc in r.pointList
    ensures r.pointList[pc] in r.mem.points && r.mem.points[r.pointList[pc]].addr == pc
    ensures pc in r.breakList && FirstPoint(r, r.breakList[pc]) == Some(r.pointList[pc])
    ensures var d := r.mem.points[r.pointList[pc]].DebugAddress(); d in r.debugList && r.debugList[d] == r.breakList[pc]
  {
    hide MemoryOk, NoDuplicates, Injective, HasKey, ProbesOwned, PointsOwned;
    assert pc in DebugKeys(r.mem.points, r.pointList);
    assert r.breakList[pc][0] in r.breakList[pc];
  }

  lemma UnlistedBreak(text: map<nat, word>, r: Registry, pc: nat)
    requires Inv(text, r) && pc in text && pc !in r.pointList
    ensures pc !in r.breakList && pc !in r.debugList
  {
    hide MemoryOk, NoDuplicates, Injective, ProbesOwned, PointsOwned, IsPageOff;
    assert pc !in r.breakList;
    if pc in r.debugList {
      var a :| a in DebugKeys(r.mem.points, r.pointList) && DebugKeys(r.mem.points, r.pointList)[a] == pc;
      StepPageOff(text, r.mem, r.pointList[a]);
      assert false;
    }
  }

  /** Two pages are at least a slot apart. */
  lemma SlotsApart(text: set<nat>, a: nat, b: nat)
    requires IsPageOff(text, a) && IsPageOff(text, b)
    ensures a + INST_LEN != b && a + INST_LEN !in text && a !in text
  {
  }

  /** A point's instruction is fetched in its page, and after it the breakpoint that ends the slot. */
  lemma StepPageOff(text: map<nat, word>, m: Memory, id: nat)
    requires MemoryOk(text, m) && id in m.points
    ensures m.points[id].DebugAddress() !in text
    ensures m.points[id].addr in text && Fetch(m, m.points[id].StepAddress()) == Some(text[m.points[id].addr])
    ensures Fetch(m, m.points[id].DebugAddress()) == Some(0xD420_00C0)
  {
    hide IsPageOff, MemoryOk, Droppable;
    StepPage(text, m, id);
    var at := m.points[id].StepAddress();
    PagesOff(text, m);
    forall a | a in m.pages
      ensures a != at + INST_LEN
    {
      SlotsApart(text.Keys, at, a);
    }
    SlotsApart(text.Keys, at, at);
  }

  lemma PagesOff(text: map<nat, word>, m: Memory)
    requires MemoryOk(text, m)
    ensures m.code.Keys == text.Keys && forall a | a in m.pages :: IsPageOff(text.Keys, a)
  {
    hide IsPageOff, Accepted, AllSlotsHold, PointsApart, IsProbed, PageOwned;
  }

  // ----- One instruction

  /** The break at a listed address goes to the page of its point, whatever mode and whether copied or not. */
  lemma BreakGoesToSlot<D>(text: map<nat, word>, cpu: Cpu<D>, mode: Mode, alloc: Allocator, s: Machine<D>)
    requires Inv(text, s.reg) && ModeOk(mode, s.reg) && Allocates(alloc) && s.pc in s.reg.pointList
    ensures Step(cpu, mode, alloc, s).Some?
    ensures var t := Step(cpu, mode, alloc, s).value;
            && Inv(text, t.reg) && ModeOk(mode, t.reg) && t.reg.pointList == s.reg.pointList
            && t.data == cpu.trap(s.data) && t.reg.pointList[s.pc] in t.reg.mem.points
            && t.pc == t.reg.mem.points[t.reg.pointList[s.pc]].StepAddress()
  {
    hide Inv, IsFreePage, Allocates, Fetch, Accepted, FirstPoint, Droppable;
    var r := s.reg;
    ListedPoint(text, r, s.pc);
    BreakFetched(text, r, s.pc);
    CopiedIfNeeded(text, mode, alloc, r, s.pc);
  }

  lemma CopiedIfNeeded(text: map<nat, word>, mode: Mode, alloc: Allocator, r: Registry, pc: nat)
    requires Inv(text, r) && Allocates(alloc) && pc in r.pointList && r.pointList[pc] in r.mem.points
    ensures Droppable(r.mem, r.pointList[pc])
    ensures r.mem.points[r.pointList[pc]].dynamic == 0 ==>
              alloc(r) != 0 && Inv(text, FirstBreak(r, r.pointList[pc], alloc(r)))
  {
    PointIsDroppable(text, r, r.pointList[pc]);
    hide Inv, Droppable, FirstBreak, IsPageOff;
    if r.mem.points[r.pointList[pc]].dynamic == 0 {
      assert IsFreePage(r.mem, alloc(r));
      OffIsNotZero(r.mem.code.Keys, alloc(r));
      FirstBreakKeeps(text, r, pc, alloc(r));
    }
  }

  lemma PointIsDroppable(text: map<nat, word>, r: Registry, id: nat)
    requires Inv(text, r) && id in r.mem.points
    ensures Droppable(r.mem, id)
  {
    hide MemoryOk, Droppable;
    StepPage(text, r.mem, id);
  }

  lemma BreakFetched(text: map<nat, word>, r: Registry, pc: nat)
    requires Inv(text, r) && pc in r.pointList && r.pointList[pc] in r.mem.points
             && r.mem.points[r.pointList[pc]].addr == pc
    ensures pc in text && Fetch(r.mem, pc) == Some(BRK_KPROBES) && Accepted(text[pc])
  {
    hide Accepted, ListsNamed, ProbesOwned, PointsOwned, Agree, PagesOwned, AllSlotsHold, PointsApart;
  }

  /** The breakpoint that ends the slot resumes after the probed address. */
  lemma DebugResumes<D>(text: map<nat, word>, cpu: Cpu<D>, mode: Mode, alloc: Allocator, s: Machine<D>, addr: nat)
    requires Inv(text, s.reg) && addr in s.reg.pointList && s.reg.pointList[addr] in s.reg.mem.points
    requires s.pc == s.reg.mem.points[s.reg.pointList[addr]].DebugAddress()
    ensures Step(cpu, mode, alloc, s) == Some(s.(pc := addr + INST_LEN, data := cpu.trap(s.data)))
  {
    hide Fetch, FirstPoint, MemoryOk, PointsListed, ListsNamed, ProbesOwned, PointsOwned, Agree, DebugKeys;
    StepPageOff(text, s.reg.mem, s.reg.pointList[addr]);
    hide Inv;
    ListedPoint(text, s.reg, addr);
    ListedInText(text, s.reg, s.pc);
    hide Accepted;
  }

  lemma ListedInText(text: map<nat, word>, r: Registry, pc: nat)
    requires Inv(text, r) && pc !in text
    ensures pc !in r.breakList
  {
    if pc in r.breakList {
      ListedIsPointed(text, r, pc);
      ListedPoint(text, r, pc);
      BreakFetched(text, r, pc);
      assert false;
    }
  }

  lemma ListedIsPointed(text: map<nat, word>, r: Registry, pc: nat)
    requires Inv(text, r)
    ensures pc in r.breakList <==> pc in r.pointList
  {
    hide MemoryOk, ListsNamed, ProbesOwned, PointsOwned, Injective, HasKey;
    assert pc in DebugKeys(r.mem.points, r.pointList) <==> pc in r.pointList;
  }

  lemma SlotExecutes<D>(text: map<nat, word>, cpu: Cpu<D>, mode: Mode, alloc: Allocator, t: Machine<D>, addr: nat)
    requires Inv(text, t.reg) && addr in t.reg.pointList && t.reg.pointList[addr] in t.reg.mem.points && addr in text
    requires t.pc == t.reg.mem.points[t.reg.pointList[addr]].StepAddress()
    ensures var next := cpu.sem(text[addr], t.pc, t.data);
            Step(cpu, mode, alloc, t) == Some(Machine(t.reg, next.0, next.1))
  {
    hide Fetch, MemoryOk, PointsListed, ListsNamed, ProbesOwned, PointsOwned, Agree, DebugKeys, HandleBreak, Accepted;
    StepPageOff(text, t.reg.mem, t.reg.pointList[addr]);
    hide Inv;
    ListedPoint(text, t.reg, addr);
    BreakFetched(text, t.reg, addr);
    AcceptedIsNoBreak(text[addr]);
  }

  /**
    Break, step and debug at a probed address: the machine resumes after the address with what
    the first trap, the instruction in the slot and the second trap do to the data.
  */
  lemma ThreeSteps<D>(text: map<nat, word>, cpu: Cpu<D>, mode: Mode, alloc: Allocator, s: Machine<D>)
    requires Inv(text, s.reg) && ModeOk(mode, s.reg) && Allocates(alloc) && s.pc in s.reg.pointList && s.pc in text
    requires forall at: nat :: cpu.sem(text[s.pc], at, cpu.trap(s.data)).0 == at + INST_LEN
    ensures Steps(cpu, mode, alloc, s, 3).Some?
    ensures var t := Steps(cpu, mode, alloc, s, 3).value;
            && Inv(text, t.reg) && ModeOk(mode, t.reg) && t.reg.pointList == s.reg.pointList && t.pc == s.pc + INST_LEN
            && t.reg.pointList[s.pc] in t.reg.mem.points
            && var at := t.reg.mem.points[t.reg.pointList[s.pc]].StepAddress();
               t.data == cpu.trap(cpu.sem(text[s.pc], at, cpu.trap(s.data)).1)
  {
    hide Step, Inv, ModeOk, Allocates;
    BreakGoesToSlot(text, cpu, mode, alloc, s);
    var t := Step(cpu, mode, alloc, s).value;
    SlotExecutes(text, cpu, mode, alloc, t, s.pc);
    var u := Machine(t.reg, t.pc + INST_LEN, cpu.sem(text[s.pc], t.pc, t.data).1);
    DebugResumes(text, cpu, mode, alloc, u, s.pc);
    assert Steps(cpu, mode, alloc, s, 3) == Steps(cpu, mode, alloc, t, 2);
    assert Steps(cpu, mode, alloc, t, 2) == Steps(cpu, mode, alloc, u, 1);
    assert Steps(cpu, mode, alloc, u, 1) == Some(u.(pc := s.pc + INST_LEN, data := cpu.trap(u.data)));
  }

  /** Runs the instruction at the pc: through the slot when it is probed. */
  function Resume<D>(cpu: Cpu<D>, mode: Mode, alloc: Allocator, s: Machine<D>): Option<Machine<D>> {
    Steps(cpu, mode, alloc, s, if s.pc in s.reg.pointList then 3 else 1)
  }

  lemma MovableInstruction<D(!new)>(sem: Semantics<D>, w: word)
    requires ObeysArchitecture(sem) && !IsPositionDependent(w)
    ensures Movable(sem, w)
  {
    hide IsPositionDependent, Movable;
  }

  /** Whatever the check lets through and is not one of the encodings it misses can be moved. */
  lemma ProbedIsMovable<D(!new)>(text: map<nat, word>, r: Registry, sem: Semantics<D>, a: nat)
    requires Inv(text, r) && ObeysArchitecture(sem) && a in r.pointList && a in text && !IsMissed(text[a])
    ensures Movable(sem, text[a])
  {
    hide Inv, ObeysArchitecture, IsMissed, IsPositionDependent, Movable, Dangling;
    TextAgrees(text, r, a);
    CheckIsExactUpTo(text[a]);
    MovableInstruction(sem, text[a]);
  }

  /** A breakpoint no list accounts for is not at the pc. */
  ghost predicate Handled(r: Registry, pc: nat) {
    pc in r.pointList || !Dangling(r, pc)
  }

  /** Both traps around the instruction make no difference to what it does to the data. */
  predicate Undisturbed<D(==)>(cpu: Cpu<D>, w: word, pc: nat, d: D) {
    cpu.trap(cpu.sem(w, pc, cpu.trap(d)).1) == cpu.sem(w, pc, d).1
  }

  /**
    On any processor that obeys the architecture the patched program goes from every address of
    the text where the original goes, for probes on any instructions but the encodings the check
    misses: a probed instruction needs three steps for it. It does the same to the data exactly
    where no probe is, or the two traps do not disturb the instruction.
  */
  lemma InstructionPreserved<D(!new)>(text: map<nat, word>, cpu: Cpu<D>, mode: Mode, alloc: Allocator, s: Machine<D>)
    requires Inv(text, s.reg) && ModeOk(mode, s.reg) && Allocates(alloc) && ObeysArchitecture(cpu.sem)
    requires s.pc in text && !IsBreak(text[s.pc]) && Handled(s.reg, s.pc)
    requires s.pc in s.reg.pointList ==> !IsMissed(text[s.pc])
    ensures var res, next := Resume(cpu, mode, alloc, s), cpu.sem(text[s.pc], s.pc, s.data);
            && res.Some? && res.value.pc == next.0
            && Inv(text, res.value.reg) && ModeOk(mode, res.value.reg) && res.value.reg.pointList == s.reg.pointList
            && (res.value.data == next.1 <==>
                (s.pc in s.reg.pointList ==> Undisturbed(cpu, text[s.pc], s.pc, s.data)))
  {
    hide Inv, ModeOk, Allocates, ObeysArchitecture, IsMissed;
    if s.pc in s.reg.pointList {
      ProbedIsMovable(text, s.reg, cpu.sem, s.pc);
      hide Steps;
      ThreeSteps(text, cpu, mode, alloc, s);
    } else {
      hide Dangling, HandleBreak;
      TextAgrees(text, s.reg, s.pc);
      assert Step(cpu, mode, alloc, s).Some?;
      hide Step;
      assert Steps(cpu, mode, alloc, Step(cpu, mode, alloc, s).value, 0) == Step(cpu, mode, alloc, s);
    }
  }

  // ----- Exclusive sequences

  /** Data with a local exclusive monitor, which a load-exclusive sets and a store-exclusive asks. */
  datatype Monitored<D> = Monitored(rest: D, exclusive: bool)

  /** What any instruction but the exclusive loads and stores does: it neither asks nor changes the monitor. */
  ghost predicate IgnoresMonitor<D(!new)>(sem: Semantics<Monitored<D>>, w: word) {
    forall at: nat, d: Monitored<D> ::
      && sem(w, at, d).1.exclusive == d.exclusive
      && sem(w, at, d.(exclusive := false)).1 == sem(w, at, d).1.(exclusive := false)
  }

  /**
    Where an exception return clears the monitor, a probe on an ordinary instruction leaves it
    clear. So the patched program agrees with the original exactly outside the sequences from a
    load-exclusive to its store: inside one the store fails, however often the loop tries again.
  */
  lemma ProbeInExclusive<D(!new)>(text: map<nat, word>, cpu: Cpu<Monitored<D>>, mode: Mode, alloc: Allocator,
                                  s: Machine<Monitored<D>>)
    requires Inv(text, s.reg) && ModeOk(mode, s.reg) && Allocates(alloc) && ObeysArchitecture(cpu.sem)
    requires s.pc in text && s.pc in s.reg.pointList && !IsMissed(text[s.pc]) && IgnoresMonitor(cpu.sem, text[s.pc])
    requires forall d: Monitored<D> :: cpu.trap(d) == d.(exclusive := false)
    ensures var res, next := Resume(cpu, mode, alloc, s), cpu.sem(text[s.pc], s.pc, s.data);
            && res.Some? && res.value.pc == next.0 && res.value.data == next.1.(exclusive := false)
            && (res.value.data == next.1 <==> !s.data.exclusive)
  {
    hide Inv, ModeOk, Allocates, ObeysArchitecture, IsMissed, Steps;
    ProbedIsMovable(text, s.reg, cpu.sem, s.pc);
    ThreeSteps(text, cpu, mode, alloc, s);
  }

  /**
    For any instruction that falls through, accepted or missed: the patched program agrees with
    the original exactly when, between the two traps, it does at the step address what it does
    at the pc without them.
  */
  lemma FallThroughExact<D>(text: map<nat, word>, cpu: Cpu<D>, mode: Mode, alloc: Allocator, s: Machine<D>)
    requires Inv(text, s.reg) && ModeOk(mode, s.reg) && Allocates(alloc) && s.pc in text && s.pc in s.reg.pointList
    requires forall at: nat :: cpu.sem(text[s.pc], at, cpu.trap(s.data)).0 == at + INST_LEN
    requires cpu.sem(text[s.pc], s.pc, s.data).0 == s.pc + INST_LEN
    ensures var res, next := Resume(cpu, mode, alloc, s), cpu.sem(text[s.pc], s.pc, s.data);
            && res.Some? && s.pc in res.value.reg.pointList && res.value.reg.pointList[s.pc] in res.value.reg.mem.points
            && var at := res.value.reg.mem.points[res.value.reg.pointList[s.pc]].StepAddress();
               (res.value.pc, res.value.data) == next
               <==> cpu.trap(cpu.sem(text[s.pc], at, cpu.trap(s.data)).1) == next.1
  {
    hide Inv, ModeOk, Allocates, Steps;
    ThreeSteps(text, cpu, mode, alloc, s);
  }

  /** At a dangling address the breakpoint is still there, and no handler takes the trap. */
  lemma DanglingIsUnhandled<D>(text: map<nat, word>, cpu: Cpu<D>, mode: Mode, alloc: Allocator, s: Machine<D>)
    requires Inv(text, s.reg) && s.pc in text && !IsBreak(text[s.pc]) && s.pc !in s.reg.pointList
    ensures Step(cpu, mode, alloc, s).None? <==> Dangling(s.reg, s.pc)
  {
    hide Inv, Dangling;
    TextAgrees(text, s.reg, s.pc);
    UnlistedBreak(text, s.reg, s.pc);
  }

  /**
    The check accepts `adrp`, which puts the number of its page, plus its offset, into a register:
    `put` does, and `get` reads it back. For it the patched program agrees with the original
    exactly when the page it steps in is the page of the probed address, and the traps do not
    disturb it.
  */
  lemma AdrpNeedsSamePage<D(!new)>(text: map<nat, word>, cpu: Cpu<D>, put: (nat, D) -> D, get: D -> nat, mode: Mode,
                                   alloc: Allocator, s: Machine<D>)
    requires Inv(text, s.reg) && ModeOk(mode, s.reg) && Allocates(alloc) && s.pc in text && s.pc in s.reg.pointList
    requires IsAdrp(text[s.pc])
    requires forall at: nat, d: D :: cpu.sem(text[s.pc], at, d) == (at + INST_LEN, put(at / 4096, d))
    requires (forall i: nat, d: D :: get(put(i, d)) == i) && forall d: D :: get(cpu.trap(d)) == get(d)
    ensures var res, next := Resume(cpu, mode, alloc, s), cpu.sem(text[s.pc], s.pc, s.data);
            && res.Some? && s.pc in res.value.reg.pointList && res.value.reg.pointList[s.pc] in res.value.reg.mem.points
            && var at := res.value.reg.mem.points[res.value.reg.pointList[s.pc]].StepAddress();
               (res.value.pc, res.value.data) == next
               <==> at / 4096 == s.pc / 4096 && Undisturbed(cpu, text[s.pc], s.pc, s.data)
  {
    hide Inv, ModeOk, Allocates, Resume, IsAdrp;
    FallThroughExact(text, cpu, mode, alloc, s);
    var t := Resume(cpu, mode, alloc, s).value;
    var at := t.reg.mem.points[t.reg.pointList[s.pc]].StepAddress();
    assert get(cpu.trap(put(at / 4096, cpu.trap(s.data)))) == at / 4096;
    assert get(put(s.pc / 4096, s.data)) == s.pc / 4096;
  }

  // ----- A thread in a slot while probes change

  /** The point listed for `a` steps in the page at `at`. */
  predicate StepsAt(r: Registry, a: nat, at: nat) {
    a in r.pointList && r.pointList[a] in r.mem.points && r.mem.points[r.pointList[a]].StepAddress() == at
  }

  /** The live points are on no encoding the check misses. */
  ghost predicate NoneMissed(text: map<nat, word>, r: Registry) {
    forall i | i in r.mem.points && r.mem.points[i].addr in text :: !IsMissed(text[r.mem.points[i].addr])
  }

  /** From the page of a listed point the slot's instruction and its breakpoint lead back into the text. */
  lemma SlotLeadsBack<D(!new)>(text: map<nat, word>, cpu: Cpu<D>, mode: Mode, alloc: Allocator, s: Machine<D>, a: nat)
    requires Inv(text, s.reg) && ObeysArchitecture(cpu.sem) && NoneMissed(text, s.reg) && StepsAt(s.reg, a, s.pc)
    ensures a in text
    ensures Steps(cpu, mode, alloc, s, 2)
         == Some(Machine(s.reg, a + INST_LEN, cpu.trap(cpu.sem(text[a], s.pc, s.data).1)))
  {
    hide Inv, ObeysArchitecture, Step, IsMissed;
    ListedPoint(text, s.reg, a);
    BreakFetched(text, s.reg, a);
    ProbedIsMovable(text, s.reg, cpu.sem, a);
    SlotExecutes(text, cpu, mode, alloc, s, a);
    var t := Machine(s.reg, s.pc + INST_LEN, cpu.sem(text[a], s.pc, s.data).1);
    DebugResumes(text, cpu, mode, alloc, t, a);
    assert Steps(cpu, mode, alloc, s, 2) == Steps(cpu, mode, alloc, t, 1);
    assert Steps(cpu, mode, alloc, t, 1) == Some(t.(pc := a + INST_LEN, data := cpu.trap(t.data)));
  }

  /** What a page in use holds. */
  lemma PageHolds(text: map<nat, word>, m: Memory, at: nat)
    requires MemoryOk(text, m) && at in m.pages
    ensures m.pages[at].owner in m.points && m.points[m.pages[at].owner].addr in text
    ensures m.pages[at].inst == text[m.points[m.pages[at].owner].addr] && m.pages[at].next == BRK_KPROBES_SS
    ensures Accepted(m.pages[at].inst) && IsPageOff(text.Keys, at)
  {
    hide Accepted, IsPageOff, IsProbed, PointsApart;
    OffIsNotZero(text.Keys, at);
    assert PageOwned(m, at);
    assert SlotsHold(text, m, m.pages[at].owner);
  }

  /** A debug list is kept only under a page that a listed point steps in. */
  lemma DebugListSteps(text: map<nat, word>, r: Registry, at: nat)
    requires Inv(text, r)
    ensures at + INST_LEN in r.debugList ==> exists a :: StepsAt(r, a, at)
  {
    hide MemoryOk, ListsNamed, ProbesOwned, PointsOwned, Injective;
    if at + INST_LEN in r.debugList {
      var a :| a in DebugKeys(r.mem.points, r.pointList) && DebugKeys(r.mem.points, r.pointList)[a] == at + INST_LEN;
      assert StepsAt(r, a, at);
    }
  }

  /** Slots begin at multiples of their length: the start of one is not the second word of another. */
  lemma NotASecondWord(text: set<nat>, m: Memory, at: nat)
    requires IsPageOff(text, at) && forall a | a in m.pages :: IsPageOff(text, a)
    ensures at + INST_LEN !in m.pages && (at >= INST_LEN ==> at - INST_LEN !in m.pages)
  {
  }

  lemma StepInPage<D>(cpu: Cpu<D>, mode: Mode, alloc: Allocator, s: Machine<D>)
    requires s.pc !in s.reg.mem.code && s.pc in s.reg.mem.pages && !IsBreak(s.reg.mem.pages[s.pc].inst)
    ensures var next := cpu.sem(s.reg.mem.pages[s.pc].inst, s.pc, s.data);
            Step(cpu, mode, alloc, s) == Some(Machine(s.reg, next.0, next.1))
  {
  }

  lemma NoHandler<D>(cpu: Cpu<D>, mode: Mode, alloc: Allocator, s: Machine<D>)
    requires Fetch(s.reg.mem, s.pc) == Some(BRK_KPROBES_SS) && s.pc !in s.reg.breakList && s.pc !in s.reg.debugList
    ensures Step(cpu, mode, alloc, s).None?
  {
  }

  lemma NoCode<D>(cpu: Cpu<D>, mode: Mode, alloc: Allocator, s: Machine<D>)
    requires Fetch(s.reg.mem, s.pc).None?
    ensures Step(cpu, mode, alloc, s).None?
  {
  }

  /** From any other page a thread gets no further than the breakpoint that ends the slot. */
  lemma StrandedInSlot<D(!new)>(text: map<nat, word>, cpu: Cpu<D>, mode: Mode, alloc: Allocator, s: Machine<D>)
    requires Inv(text, s.reg) && ObeysArchitecture(cpu.sem) && NoneMissed(text, s.reg) && IsPageOff(text.Keys, s.pc)
    requires !exists a :: StepsAt(s.reg, a, s.pc)
    ensures Steps(cpu, mode, alloc, s, 2).None?
  {
    hide ObeysArchitecture, IsMissed, Accepted, ListsNamed, ProbesOwned, PointsOwned, Agree, PointsListed, MemoryOk,
      IsPageOff, IsPositionDependent, Step;
    var m, at := s.reg.mem, s.pc;
    DebugListSteps(text, s.reg, at);
    PagesOff(text, m);
    SlotsApart(text.Keys, at, at);
    NotASecondWord(text.Keys, m, at);
    if at in m.pages {
      PageHolds(text, m, at);
      AcceptedIsNoBreak(m.pages[at].inst);
      CheckIsExactUpTo(m.pages[at].inst);
      MovableInstruction(cpu.sem, m.pages[at].inst);
      ListedInText(text, s.reg, at + INST_LEN);
      var t := Machine(s.reg, at + INST_LEN, cpu.sem(m.pages[at].inst, at, s.data).1);
      StepInPage(cpu, mode, alloc, s);
      NoHandler(cpu, mode, alloc, t);
      assert Steps(cpu, mode, alloc, s, 2) == Steps(cpu, mode, alloc, t, 1);
    } else {
      NoCode(cpu, mode, alloc, s);
    }
  }

  /**
    A thread about to execute a slot on behalf of address `a`, after probes have changed: it comes
    back behind `a`, with what the instruction does, exactly when the point listed for `a` still
    steps in that page. It is stranded, without code or without a handler, exactly when the page
    is that of no listed point.
  */
  lemma GoesOnExactly<D(!new)>(text: map<nat, word>, cpu: Cpu<D>, mode: Mode, alloc: Allocator, s: Machine<D>, a: nat)
    requires Inv(text, s.reg) && ObeysArchitecture(cpu.sem) && NoneMissed(text, s.reg) && IsPageOff(text.Keys, s.pc)
    requires a in text
    ensures var back := Machine(s.reg, a + INST_LEN, cpu.trap(cpu.sem(text[a], s.pc, s.data).1));
            Steps(cpu, mode, alloc, s, 2) == Some(back) <==> StepsAt(s.reg, a, s.pc)
    ensures Steps(cpu, mode, alloc, s, 2).None? <==> !exists b :: StepsAt(s.reg, b, s.pc)
  {
    hide Inv, ObeysArchitecture, NoneMissed, IsPageOff, Steps, StepsAt;
    if b :| StepsAt(s.reg, b, s.pc) {
      SlotLeadsBack(text, cpu, mode, alloc, s, b);
      if StepsAt(s.reg, a, s.pc) {
        SlotLeadsBack(text, cpu, mode, alloc, s, a);
      }
    } else {
      StrandedInSlot(text, cpu, mode, alloc, s);
    }
  }

  /** The only probe of the address is unlisted, or its point moves from its slot to a copy. */
  predicate Strands(r: Registry, act: Action, a: nat) {
    (act.DoUnlist? && ListAt(r.breakList, a) == [act.p]) || (act.DoFirstBreak? && act.addr == a)
  }

  lemma RegisterStrandsNone(r: Registry, p: Probe, addr: nat, slot: nat, pid: Option<int>, id: nat, a: nat, at: nat)
    requires addr in r.mem.code && (addr in r.pointList ==> r.pointList[addr] in r.mem.points)
    requires id !in r.mem.points && StepsAt(r, a, at) && Register(r, p, addr, slot, pid, id).Ok?
    ensures StepsAt(Register(r, p, addr, slot, pid, id).value, a, at)
  {
    hide PushAt, ValidateInstruction;
  }

  lemma WithoutLast(list: seq<Probe>, p: Probe)
    requires list != [] && NoDuplicates(list)
    ensures Without(list, p) == [] <==> list == [p]
  {
    WithoutHolds(list, p);
    var other := if list[0] == p && |list| > 1 then list[1] else list[0];
    assert other in list;
    if list == [p] {
      assert forall q :: q !in Without(list, p);
      assert Without(list, p) == [];
    } else {
      assert other in Without(list, p);
    }
  }

  lemma UnlistStrands(text: map<nat, word>, r: Registry, p: Probe, a: nat, at: nat)
    requires Inv(text, r) && p in r.held && p in r.pointOf && r.pointOf[p] in r.mem.points && StepsAt(r, a, at)
    ensures StepsAt(Unlist(r, p), a, at) <==> ListAt(r.breakList, a) != [p]
  {
    hide MemoryOk, Injective, HasKey, NoDuplicates, Without, ProbesOwned, PointsOwned;
    ListedIsPointed(text, r, a);
    var list := r.breakList[a];
    assert a in DebugKeys(r.mem.points, r.pointList) && list != [] && NoDuplicates(list);
    WithoutLast(list, p);
    if list == [p] {
      assert p in list;
    }
  }

  lemma DropStrandsNone(text: map<nat, word>, r: Registry, p: Probe, a: nat, at: nat)
    requires Inv(text, r) && p in r.held && p in r.pointOf && Droppable(r.mem, r.pointOf[p]) && StepsAt(r, a, at)
    ensures StepsAt(DropHandle(r, p), a, at)
  {
    hide Inv, Droppable, Listed;
    assert r.pointList[a] == r.pointOf[p] ==> Referenced(r.pointList, r.pointOf - {p}, r.pointOf[p]);
  }

  lemma CopyStrands(text: map<nat, word>, r: Registry, addr: nat, user: nat, a: nat, at: nat)
    requires Inv(text, r) && addr in r.pointList && r.pointList[addr] in r.mem.points && IsFreePage(r.mem, user)
    requires r.mem.points[r.pointList[addr]].dynamic == 0 && StepsAt(r, a, at) && Droppable(r.mem, r.pointList[addr])
    ensures StepsAt(FirstBreak(r, r.pointList[addr], user), a, at) <==> a != addr
  {
    hide MemoryOk, Agree, ListsNamed, ProbesOwned, PointsOwned, Rekey;
  }

  /** Among all that may happen to the probes, exactly these take the page from under the thread. */
  lemma StrandedByExactly(text: map<nat, word>, r: Registry, act: Action, a: nat, at: nat)
    requires Inv(text, r) && Permitted(text, r, act) && StepsAt(r, a, at)
    ensures StepsAt(Perform(text, r, act), a, at) <==> !Strands(r, act, a)
  {
    hide Inv, StepsAt, IsFreePage, Register, Unlist, DropHandle, FirstBreak, Droppable;
    match act
    case DoRegister(p, addr, slot, pid, id) =>
      RegisterKeeps(text, r, p, addr, slot, pid, id);
      if Register(r, p, addr, slot, pid, id).Ok? {
        RegisterStrandsNone(r, p, addr, slot, pid, id, a, at);
      }
    case DoUnlist(p) =>
      UnlistKeeps(text, r, p);
      UnlistStrands(text, r, p, a, at);
    case DoDropHandle(p) =>
      DropHandleKeeps(text, r, p);
      DropStrandsNone(text, r, p, a, at);
    case DoFirstBreak(addr, user) =>
      FirstBreakKeeps(text, r, addr, user);
      CopyStrands(text, r, addr, user, a, at);
  }

  /**
    A thread in the slot of a listed address when probes change: it comes back behind the address,
    with what the instruction does, unless the change strands it, and then it never does so.
  */
  lemma ChangeWhileStepping<D(!new)>(text: map<nat, word>, cpu: Cpu<D>, mode: Mode, alloc: Allocator, s: Machine<D>,
                                     act: Action, a: nat)
    requires Inv(text, s.reg) && Permitted(text, s.reg, act) && StepsAt(s.reg, a, s.pc)
    requires ObeysArchitecture(cpu.sem) && NoneMissed(text, Perform(text, s.reg, act))
    ensures a in text
    ensures var after := s.(reg := Perform(text, s.reg, act));
            var back := after.(pc := a + INST_LEN, data := cpu.trap(cpu.sem(text[a], s.pc, s.data).1));
            Steps(cpu, mode, alloc, after, 2) == Some(back) <==> !Strands(s.reg, act, a)
  {
    ListedPoint(text, s.reg, a);
    StepPage(text, s.reg.mem, s.reg.pointList[a]);
    PerformKeeps(text, s.reg, act);
    StrandedByExactly(text, s.reg, act, a, s.pc);
    hide Inv, ObeysArchitecture, NoneMissed, IsPageOff, Perform, Permitted, Strands, StepsAt, Steps;
    GoesOnExactly(text, cpu, mode, alloc, s.(reg := Perform(text, s.reg, act)), a);
  }

  // ----- Programs

  /** `n` instructions of the unpatched program; nothing when it leaves the text or breaks itself. */
  function Original<D>(text: map<nat, word>, sem: Semantics<D>, pc: nat, data: D, n: nat): Option<(nat, D)>
    decreases n
  {
    if n == 0 then Some((pc, data))
    else
      match Original(text, sem, pc, data, n - 1)
      case None => None
      case Some(at) =>
        if at.0 !in text || IsBreak(text[at.0]) then None else Some(sem(text[at.0], at.0, at.1))
  }

  /** The program executes an instruction, or probes change between two instructions. */
  datatype Event = Tick | Change(act: Action)

  function Ticks(events: seq<Event>): nat {
    if events == [] then 0 else Ticks(events[..|events| - 1]) + if events[|events| - 1].Tick? then 1 else 0
  }

  /**
    What is asked where an instruction is executed: the pc is not at a breakpoint left behind, and
    a probe there is on no encoding the check misses and at no instruction its traps disturb.
  */
  ghost predicate Safe<D>(text: map<nat, word>, cpu: Cpu<D>, s: Machine<D>) {
    && Handled(s.reg, s.pc)
    && (s.pc in s.reg.pointList && s.pc in text ==>
          !IsMissed(text[s.pc]) && Undisturbed(cpu, text[s.pc], s.pc, s.data))
  }

  ghost predicate Happens<D(!new)>(text: map<nat, word>, cpu: Cpu<D>, mode: Mode, alloc: Allocator, s: Machine<D>,
                                   e: Event, t: Machine<D>) {
    match e
    case Tick => Resume(cpu, mode, alloc, s) == Some(t)
    case Change(act) =>
      && (mode.Kernel? ==> !act.DoFirstBreak?)
      && (Inv(text, s.reg) ==> Permitted(text, s.reg, act) && t == s.(reg := Perform(text, s.reg, act)))
  }

  ghost predicate Trace<D(!new)>(text: map<nat, word>, cpu: Cpu<D>, mode: Mode, alloc: Allocator,
                                 states: seq<Machine<D>>, events: seq<Event>) {
    && |states| == |events| + 1 && Inv(text, states[0].reg) && ModeOk(mode, states[0].reg)
    && (forall i | 0 <= i < |events| ::
          && (events[i].Tick? ==> Safe(text, cpu, states[i]))
          && Happens(text, cpu, mode, alloc, states[i], events[i], states[i + 1]))
  }

  /** Only the first break makes a copy. */
  lemma PerformKeepsMode(text: map<nat, word>, mode: Mode, r: Registry, act: Action)
    requires Inv(text, r) && Permitted(text, r, act) && ModeOk(mode, r) && (mode.Kernel? ==> !act.DoFirstBreak?)
    ensures ModeOk(mode, Perform(text, r, act))
  {
    hide Inv, IsFreePage, ValidateInstruction, Listed, Referenced, RemoveAt, PushAt, Droppable;
  }

  lemma EventKeeps<D(!new)>(text: map<nat, word>, cpu: Cpu<D>, mode: Mode, alloc: Allocator, s: Machine<D>,
         e: Event, t: Machine<D>)
    requires Inv(text, s.reg) && ModeOk(mode, s.reg) && Allocates(alloc) && ObeysArchitecture(cpu.sem)
    requires e.Tick? ==> s.pc in text && !IsBreak(text[s.pc]) && Safe(text, cpu, s)
    requires Happens(text, cpu, mode, alloc, s, e, t)
    ensures Inv(text, t.reg) && ModeOk(mode, t.reg)
    ensures (t.pc, t.data) == if e.Tick? then cpu.sem(text[s.pc], s.pc, s.data) else (s.pc, s.data)
  {
    hide Inv, ModeOk, Allocates, ObeysArchitecture, IsMissed, Resume, Perform, Permitted, Dangling, Handled,
      Undisturbed;
    match e
    case Tick => InstructionPreserved(text, cpu, mode, alloc, s);
    case Change(act) =>
      PerformKeeps(text, s.reg, act);
      PerformKeepsMode(text, mode, s.reg, act);
  }

  /**
    On any processor that obeys the architecture, while probes come and go on any instructions but
    the encodings the check misses and those their traps disturb, the patched program is at every
    moment where the original is after as many instructions, with the same data.
  */
  lemma {:induction false} TraceFollows<D(!new)>(text: map<nat, word>, cpu: Cpu<D>, mode: Mode, alloc: Allocator,
                                           states: seq<Machine<D>>, events: seq<Event>, n: nat)
    requires Trace(text, cpu, mode, alloc, states, events) && Allocates(alloc) && ObeysArchitecture(cpu.sem)
    requires n <= |events|
    requires Original(text, cpu.sem, states[0].pc, states[0].data, Ticks(events[..n])).Some?
    ensures Inv(text, states[n].reg) && ModeOk(mode, states[n].reg)
    ensures Original(text, cpu.sem, states[0].pc, states[0].data, Ticks(events[..n]))
         == Some((states[n].pc, states[n].data))
  {
    hide Inv, ModeOk, Allocates, ObeysArchitecture, Safe, Happens;
    if n == 0 {
      assert events[..0] == [];
    } else {
      assert events[..n][..n - 1] == events[..n - 1];
      TraceFollows(text, cpu, mode, alloc, states, events, n - 1);
      EventKeeps(text, cpu, mode, alloc, states[n - 1], events[n - 1], states[n]);
    }
  }
}
