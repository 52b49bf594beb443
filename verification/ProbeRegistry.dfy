/**
  Registering, unregistering and dropping probes: the point list, the manager and the memory
  stay in step (kprobe/src/kprobe/mod.rs, kprobe/src/uprobe/mod.rs, kprobe/src/lib.rs).
*/
module ProbeRegistry {
  import opened Bytes
  import opened ProbeTypes
  import opened ProbeManager
  import opened ProbeMemory

  /**
    `points` names the live point of an address; `pointOf` maps the live probe objects to
    their points; `held` are the probes that callers still have a handle of.
  */
  datatype Registry = Registry(mem: Memory, pointList: map<nat, nat>, breakList: Index, debugList: Index,
                               pointOf: map<Probe, nat>, held: set<Probe>)

  function Empty(text: map<nat, word>): Registry {
    Registry(Memory(text, map[], map[]), map[], map[], map[], map[], {})
  }

  predicate Listed(breaks: Index, p: Probe) {
    exists a | a in breaks :: p in breaks[a]
  }

  // ----- Operations

  /** insert_probe: the new probe goes under its point's break and current debug address. */
  function InsertProbe(r: Registry, p: Probe, id: nat): Registry
    requires id in r.mem.points
  {
    var point := r.mem.points[id];
    r.(breakList := PushAt(r.breakList, point.BreakAddress(), p),
       debugList := PushAt(r.debugList, point.DebugAddress(), p),
       pointOf := r.pointOf[p := id], held := r.held + {p})
  }

  /** register_kprobe and its kin: an existing point is shared, else one is installed. */
  function Register(r: Registry, p: Probe, addr: nat, slot: nat, pid: Option<int>, id: nat)
    : Result<Registry, InstallError>
    requires addr in r.mem.code && (addr in r.pointList ==> r.pointList[addr] in r.mem.points)
  {
    if addr in r.pointList then Ok(InsertProbe(r, p, r.pointList[addr]))
    else
      match ReplaceInst(r.mem, addr, slot, pid, id)
      case Err(e) => Err(e)
      case Ok(m) => Ok(InsertProbe(r.(mem := m, pointList := r.pointList[addr := id]), p, id))
  }

  /** unregister_kprobe and its kin, but for the fate of the handle passed in. */
  function Unlist(r: Registry, p: Probe): Registry
    requires p in r.pointOf && r.pointOf[p] in r.mem.points
  {
    var point := r.mem.points[r.pointOf[p]];
    var breaks := RemoveAt(r.breakList, point.BreakAddress(), p);
    r.(breakList := breaks,
       debugList := RemoveAt(r.debugList, point.DebugAddress(), p),
       pointList := if |ListAt(breaks, point.addr)| == 0 then r.pointList - {point.addr} else r.pointList)
  }

  /** A point object is referred to by the point list or by a live probe. */
  predicate Referenced(pointList: map<nat, nat>, pointOf: map<Probe, nat>, id: nat) {
    (exists a | a in pointList :: pointList[a] == id) || (exists p | p in pointOf :: pointOf[p] == id)
  }

  function DropIfUnreferenced(r: Registry, id: nat): Registry
    requires Droppable(r.mem, id)
  {
    if Referenced(r.pointList, r.pointOf, id) then r else r.(mem := DropPoint(r.mem, id))
  }

  /** The caller gives its last handle up: a probe no list names is freed, and with it the point. */
  function DropHandle(r: Registry, p: Probe): Registry
    requires p in r.pointOf && Droppable(r.mem, r.pointOf[p])
  {
    var r1 := r.(held := r.held - {p});
    if Listed(r1.breakList, p) then r1 else DropIfUnreferenced(r1.(pointOf := r1.pointOf - {p}), r.pointOf[p])
  }

  /** uprobe_handler_from_break, first break: the slot is copied, the debug list re-keyed. */
  function FirstBreak(r: Registry, id: nat, user: nat): Registry
    requires Droppable(r.mem, id)
  {
    var m := CopySlot(r.mem, id, user);
    r.(mem := m, debugList := Rekey(r.debugList, r.mem.points[id].DebugAddress(), m.points[id].DebugAddress()))
  }

  // ----- The invariant

  /** The point list names each address's point. */
  ghost predicate PointsListed(points: map<nat, Point>, pointList: map<nat, nat>) {
    forall a | a in pointList :: pointList[a] in points && points[pointList[a]].addr == a
  }

  /** The debug address each listed address has now. */
  function DebugKeys(points: map<nat, Point>, pointList: map<nat, nat>): map<nat, nat>
    requires PointsListed(points, pointList)
  {
    map a | a in pointList :: points[pointList[a]].DebugAddress()
  }

  /** A list holds live probes of its address's point, each once. */
  ghost predicate ListsNamed(pointList: map<nat, nat>, breaks: Index, pointOf: map<Probe, nat>) {
    && (forall a | a in breaks :: a in pointList && NoDuplicates(breaks[a]))
    && (forall a, p | a in breaks && p in breaks[a] :: p in pointOf && pointOf[p] == pointList[a])
  }

  /** Probes live as long as a handle or a list refers to them. */
  ghost predicate ProbesOwned(breaks: Index, pointOf: map<Probe, nat>, held: set<Probe>) {
    held <= pointOf.Keys && forall p | p in pointOf :: p in held || Listed(breaks, p)
  }

  /** Points live as long as they are referenced. */
  ghost predicate PointsOwned(points: map<nat, Point>, pointList: map<nat, nat>, pointOf: map<Probe, nat>) {
    && (forall i | i in points :: Referenced(pointList, pointOf, i))
    && (forall p | p in pointOf :: pointOf[p] in points)
  }

  ghost predicate Inv(text: map<nat, word>, r: Registry) {
    && MemoryOk(text, r.mem)
    && PointsListed(r.mem.points, r.pointList) && ListsNamed(r.pointList, r.breakList, r.pointOf)
    && Agree(DebugKeys(r.mem.points, r.pointList), r.breakList, r.debugList)
    && ProbesOwned(r.breakList, r.pointOf, r.held) && PointsOwned(r.mem.points, r.pointList, r.pointOf)
  }

  lemma EmptyOk(text: map<nat, word>)
    ensures Inv(text, Empty(text))
  {
    hide MemoryOk;
    UnpatchedOk(text, Empty(text).mem);
  }

  // ----- Debug addresses

  lemma KeyInUse(text: map<nat, word>, m: Memory, pointList: map<nat, nat>, at: nat)
    requires MemoryOk(text, m) && PointsListed(m.points, pointList) && at !in m.pages
    ensures !HasKey(DebugKeys(m.points, pointList), at + INST_LEN)
  {
    hide MemoryOk, Droppable, IsPageOff;
    forall a | a in pointList
      ensures DebugKeys(m.points, pointList)[a] != at + INST_LEN
    {
      StepPage(text, m, pointList[a]);
    }
  }

  /** No debug list is kept under a page that is not in use. */
  lemma FreshDebugKey(text: map<nat, word>, r: Registry, at: nat)
    requires Inv(text, r) && at !in r.mem.pages
    ensures at + INST_LEN !in r.debugList
  {
    hide MemoryOk, ListsNamed, ProbesOwned, PointsOwned, Injective, HasKey, PointsListed, DebugKeys;
    KeyInUse(text, r.mem, r.pointList, at);
  }

  // ----- Registering

  lemma PushKeepsNamed(pointList: map<nat, nat>, breaks: Index, pointOf: map<Probe, nat>, a: nat, p: Probe)
    requires ListsNamed(pointList, breaks, pointOf) && p !in pointOf && a in pointList
    ensures ListsNamed(pointList, PushAt(breaks, a, p), pointOf[p := pointList[a]])
  {
  }

  lemma InsertKeepsProbes(breaks: Index, pointOf: map<Probe, nat>, held: set<Probe>, a: nat, p: Probe, id: nat)
    requires ProbesOwned(breaks, pointOf, held)
    ensures ProbesOwned(PushAt(breaks, a, p), pointOf[p := id], held + {p})
  {
    var after := PushAt(breaks, a, p);
    forall x | x in pointOf && x !in held && x != p
      ensures Listed(after, x)
    {
      var b :| b in breaks && x in breaks[b];
      assert x in after[b];
    }
  }

  lemma InsertKeepsPoints(points: map<nat, Point>, pointList: map<nat, nat>, pointOf: map<Probe, nat>, p: Probe,
         id: nat)
    requires PointsOwned(points, pointList, pointOf) && p !in pointOf && id in points
    ensures PointsOwned(points, pointList, pointOf[p := id])
  {
    var after := pointOf[p := id];
    forall i | i in points
      ensures Referenced(pointList, after, i)
    {
      assert Referenced(pointList, pointOf, i);
      assert forall x | x in pointOf :: after[x] == pointOf[x];
    }
  }

  lemma ShareKeeps(text: map<nat, word>, r: Registry, p: Probe, addr: nat)
    requires Inv(text, r) && addr in r.pointList && p !in r.pointOf
    ensures Inv(text, InsertProbe(r, p, r.pointList[addr]))
  {
    hide MemoryOk, ListsNamed, ProbesOwned, PointsOwned, Agree, PushAt;
    var id := r.pointList[addr];
    PushAgrees(DebugKeys(r.mem.points, r.pointList), r.breakList, r.debugList, addr, p);
    PushKeepsNamed(r.pointList, r.breakList, r.pointOf, addr, p);
    InsertKeepsProbes(r.breakList, r.pointOf, r.held, addr, p, id);
    InsertKeepsPoints(r.mem.points, r.pointList, r.pointOf, p, id);
  }

  /** A new point for a new address: the other addresses keep their points and debug addresses. */
  lemma StartLists(points: map<nat, Point>, pointList: map<nat, nat>, point: Point, id: nat)
    requires PointsListed(points, pointList) && id !in points && point.addr !in pointList
    ensures PointsListed(points[id := point], pointList[point.addr := id])
             && point.addr !in DebugKeys(points, pointList)
    ensures DebugKeys(points[id := point], pointList[point.addr := id])
         == DebugKeys(points, pointList)[point.addr := point.DebugAddress()]
  {
  }

  lemma StartKeepsNamed(pointList: map<nat, nat>, breaks: Index, pointOf: map<Probe, nat>, a: nat, id: nat, p: Probe)
    requires ListsNamed(pointList, breaks, pointOf) && p !in pointOf && a !in pointList
    ensures ListsNamed(pointList[a := id], PushAt(breaks, a, p), pointOf[p := id])
  {
  }

  lemma StartKeepsPoints(points: map<nat, Point>, pointList: map<nat, nat>, pointOf: map<Probe, nat>, point: Point,
                         id: nat, p: Probe)
    requires PointsOwned(points, pointList, pointOf) && p !in pointOf && point.addr !in pointList
    ensures PointsOwned(points[id := point], pointList[point.addr := id], pointOf[p := id])
  {
    var listed, named := pointList[point.addr := id], pointOf[p := id];
    assert named[p] == id;
    forall i | i in points
      ensures Referenced(listed, named, i)
    {
      assert Referenced(pointList, pointOf, i);
      assert forall x | x in pointOf :: named[x] == pointOf[x];
      assert forall a | a in pointList :: listed[a] == pointList[a];
    }
  }

  lemma StartKeeps(text: map<nat, word>, r: Registry, p: Probe, addr: nat, slot: nat, pid: Option<int>, id: nat)
    requires Inv(text, r) && addr in text && addr !in r.pointList && p !in r.pointOf
    requires id !in r.mem.points && IsFreePage(r.mem, slot)
    ensures addr in r.mem.code
    ensures var res := Register(r, p, addr, slot, pid, id);
            res.Ok? ==> Inv(text, res.value) && res.value.breakList == PushAt(r.breakList, addr, p)
  {
    hide ListsNamed, ProbesOwned, PointsOwned, Agree, PushAt, PointsListed, DebugKeys, ReplaceInst, IsPageOff,
      TextPatched, PagesOwned, AllSlotsHold, PointsApart;
    FreshDebugKey(text, r, slot);
    InstallKeepsMemory(text, r.mem, addr, slot, pid, id);
    hide MemoryOk, IsFreePage;
    if Register(r, p, addr, slot, pid, id).Ok? {
      var point := Point(addr, slot, pid, 0);
      StartLists(r.mem.points, r.pointList, point, id);
      StartAgrees(DebugKeys(r.mem.points, r.pointList), r.breakList, r.debugList, addr, point.DebugAddress(), p);
      StartKeepsNamed(r.pointList, r.breakList, r.pointOf, addr, id, p);
      InsertKeepsProbes(r.breakList, r.pointOf, r.held, addr, p, id);
      StartKeepsPoints(r.mem.points, r.pointList, r.pointOf, point, id, p);
    }
  }

  lemma RegisterAdds(text: map<nat, word>, r: Registry, p: Probe, addr: nat, slot: nat, pid: Option<int>, id: nat)
    requires Inv(text, r) && addr in text
    ensures addr in r.mem.code && (addr in r.pointList ==> r.pointList[addr] in r.mem.points)
    ensures var res := Register(r, p, addr, slot, pid, id);
            res.Ok? ==>
              && res.value.breakList
                 == r.breakList[addr := (if addr in r.breakList then r.breakList[addr] else []) + [p]]
              && res.value.held == r.held + {p} && res.value.pointOf.Keys == r.pointOf.Keys + {p}
              && res.value.pointOf[p] in res.value.mem.points
              && res.value.mem.points[res.value.pointOf[p]].addr == addr
  {
    hide ListsNamed, ProbesOwned, PointsOwned, Agree, DebugKeys, ValidateInstruction, PagesOwned, AllSlotsHold,
      PointsApart, InsertProbe;
    if addr in r.pointList {
      InsertAdds(r, p, r.pointList[addr]);
    } else if ReplaceInst(r.mem, addr, slot, pid, id).Ok? {
      InsertAdds(r.(mem := ReplaceInst(r.mem, addr, slot, pid, id).value, pointList := r.pointList[addr := id]), p, id);
    }
  }

  lemma InsertAdds(r: Registry, p: Probe, id: nat)
    requires id in r.mem.points
    ensures var q, a := InsertProbe(r, p, id), r.mem.points[id].addr;
            && q.breakList == r.breakList[a := (if a in r.breakList then r.breakList[a] else []) + [p]]
            && q.held == r.held + {p} && q.pointOf.Keys == r.pointOf.Keys + {p} && q.mem == r.mem && q.pointOf[p] == id
  {
    PushedLast(r.breakList, r.mem.points[id].addr, p);
    hide PushAt;
  }

  /**
    Registering keeps the invariant, whether the point is shared or installed. The list of the
    address is what it was, followed by the probe; the caller holds it, and its point lies there.
  */
  lemma RegisterKeeps(text: map<nat, word>, r: Registry, p: Probe, addr: nat, slot: nat, pid: Option<int>, id: nat)
    requires Inv(text, r) && addr in text && p !in r.pointOf && id !in r.mem.points && IsFreePage(r.mem, slot)
    ensures addr in r.mem.code && (addr in r.pointList ==> r.pointList[addr] in r.mem.points)
    ensures var res := Register(r, p, addr, slot, pid, id);
            res.Ok? ==> Inv(text, res.value) && res.value.breakList == PushAt(r.breakList, addr, p)
    ensures var res := Register(r, p, addr, slot, pid, id);
            res.Ok? ==>
              && res.value.breakList
                 == r.breakList[addr := (if addr in r.breakList then r.breakList[addr] else []) + [p]]
              && res.value.held == r.held + {p} && res.value.pointOf.Keys == r.pointOf.Keys + {p}
              && res.value.pointOf[p] in res.value.mem.points
              && res.value.mem.points[res.value.pointOf[p]].addr == addr
  {
    RegisterAdds(text, r, p, addr, slot, pid, id);
    hide ListsNamed, ProbesOwned, PointsOwned, Agree, PushAt, DebugKeys, IsFreePage, ReplaceInst;
    hide PagesOwned, AllSlotsHold, PointsApart, IsProbed, Accepted;
    assert addr in r.mem.code;
    hide MemoryOk;
    if addr in r.pointList {
      ShareKeeps(text, r, p, addr);
    } else {
      StartKeeps(text, r, p, addr, slot, pid, id);
    }
  }

  // ----- Unlisting

  lemma UnlistKeepsNamed(pointList: map<nat, nat>, breaks: Index, pointOf: map<Probe, nat>, a: nat, p: Probe)
    requires ListsNamed(pointList, breaks, pointOf)
    ensures ListsNamed(if a in RemoveAt(breaks, a, p) then pointList else pointList - {a},
                       RemoveAt(breaks, a, p), pointOf)
  {
    WithoutKeepsDistinct(ListAt(breaks, a), p);
    WithoutHolds(ListAt(breaks, a), p);
  }

  lemma UnlistKeepsProbes(breaks: Index, pointOf: map<Probe, nat>, held: set<Probe>, a: nat, p: Probe)
    requires ProbesOwned(breaks, pointOf, held) && p in held
    ensures ProbesOwned(RemoveAt(breaks, a, p), pointOf, held)
  {
    var after := RemoveAt(breaks, a, p);
    WithoutHolds(ListAt(breaks, a), p);
    forall x | x in pointOf && x !in held
      ensures Listed(after, x)
    {
      var b :| b in breaks && x in breaks[b];
      assert b in after && x in after[b];
    }
  }

  lemma UnlistKeepsPoints(points: map<nat, Point>, pointList: map<nat, nat>, pointOf: map<Probe, nat>, a: nat, p: Probe)
    requires PointsOwned(points, pointList, pointOf) && p in pointOf && (a in pointList ==> pointList[a] == pointOf[p])
    ensures PointsOwned(points, pointList - {a}, pointOf)
  {
    var left := pointList - {a};
    forall i | i in points
      ensures Referenced(left, pointOf, i)
    {
      assert Referenced(pointList, pointOf, i);
      if b :| b in pointList && pointList[b] == i {
        assert b != a ==> left[b] == i;
      }
    }
  }

  /** An unlisted probe's address is listed only under the probe's own point. */
  lemma SamePoint(text: map<nat, word>, r: Registry, p: Probe)
    requires Inv(text, r) && p in r.pointOf
    ensures r.pointOf[p] in r.mem.points
    ensures var a := r.mem.points[r.pointOf[p]].addr; a in r.pointList ==> r.pointList[a] == r.pointOf[p]
  {
    hide ProbesOwned, ListsNamed, Agree, DebugKeys, TextPatched, PagesOwned, AllSlotsHold, Referenced;
  }

  /** No address is listed under an unlisted point's debug address. */
  lemma UnlistedKey(text: map<nat, word>, m: Memory, pointList: map<nat, nat>, id: nat)
    requires MemoryOk(text, m) && PointsListed(m.points, pointList) && id in m.points && m.points[id].addr !in pointList
    ensures !HasKey(DebugKeys(m.points, pointList), m.points[id].DebugAddress())
  {
    hide MemoryOk;
    forall a | a in pointList
      ensures DebugKeys(m.points, pointList)[a] != m.points[id].DebugAddress()
    {
      if DebugKeys(m.points, pointList)[a] == m.points[id].DebugAddress() {
        DebugApart(text, m, pointList[a], id);
        assert false;
      }
    }
  }

  lemma DelistKeys(points: map<nat, Point>, pointList: map<nat, nat>, a: nat)
    requires PointsListed(points, pointList)
    ensures PointsListed(points, pointList - {a})
    ensures DebugKeys(points, pointList - {a}) == DebugKeys(points, pointList) - {a}
    ensures DebugKeys(points, pointList).Keys == pointList.Keys
    ensures a in pointList ==> DebugKeys(points, pointList)[a] == points[pointList[a]].DebugAddress()
  {
  }

  lemma UnlistAgrees(text: map<nat, word>, r: Registry, p: Probe)
    requires MemoryOk(text, r.mem) && PointsListed(r.mem.points, r.pointList)
    requires Agree(DebugKeys(r.mem.points, r.pointList), r.breakList, r.debugList)
    requires p in r.pointOf && r.pointOf[p] in r.mem.points
    requires var a := r.mem.points[r.pointOf[p]].addr; a in r.pointList ==> r.pointList[a] == r.pointOf[p]
    ensures PointsListed(r.mem.points, Unlist(r, p).pointList)
    ensures Agree(DebugKeys(r.mem.points, Unlist(r, p).pointList), Unlist(r, p).breakList, Unlist(r, p).debugList)
  {
    hide MemoryOk, PointsListed, DebugKeys, RemoveAt, Agree;
    var point := r.mem.points[r.pointOf[p]];
    var a, keyOf := point.addr, DebugKeys(r.mem.points, r.pointList);
    DelistKeys(r.mem.points, r.pointList, a);
    EmptyListLeaves(r.breakList, a, p);
    if a in r.pointList {
      RemoveAgrees(keyOf, r.breakList, r.debugList, a, p);
    } else {
      UnlistedKey(text, r.mem, r.pointList, r.pointOf[p]);
      RemoveAbsent(keyOf, r.breakList, r.debugList, a, point.DebugAddress(), p);
      assert r.pointList - {a} == r.pointList;
    }
  }

  /** Unlisting keeps the invariant; it removes the probe from its point's address only. */
  lemma UnlistKeeps(text: map<nat, word>, r: Registry, p: Probe)
    requires Inv(text, r) && p in r.held
    ensures p in r.pointOf && r.pointOf[p] in r.mem.points && Inv(text, Unlist(r, p))
    ensures Unlist(r, p).breakList == RemoveAt(r.breakList, r.mem.points[r.pointOf[p]].addr, p)
    ensures Unlist(r, p).mem == r.mem
  {
    hide Listed, NoDuplicates, Referenced, MemoryOk, Agree, DebugKeys, ListsNamed, RemoveAt;
    assert p in r.pointOf;
    hide ProbesOwned;
    SamePoint(text, r, p);
    hide PointsOwned, PointsListed;
    var a := r.mem.points[r.pointOf[p]].addr;
    EmptyListLeaves(r.breakList, a, p);
    UnlistKeepsNamed(r.pointList, r.breakList, r.pointOf, a, p);
    UnlistKeepsProbes(r.breakList, r.pointOf, r.held, a, p);
    UnlistKeepsPoints(r.mem.points, r.pointList, r.pointOf, a, p);
    UnlistAgrees(text, r, p);
  }

  // ----- Dropping a handle

  lemma DropHandleProbes(breaks: Index, pointOf: map<Probe, nat>, held: set<Probe>, p: Probe)
    requires ProbesOwned(breaks, pointOf, held)
    ensures Listed(breaks, p) ==> ProbesOwned(breaks, pointOf, held - {p})
    ensures !Listed(breaks, p) ==> ProbesOwned(breaks, pointOf - {p}, held - {p})
  {
    hide Listed;
  }

  lemma FreeKeepsNamed(pointList: map<nat, nat>, breaks: Index, pointOf: map<Probe, nat>, p: Probe)
    requires ListsNamed(pointList, breaks, pointOf) && !Listed(breaks, p)
    ensures ListsNamed(pointList, breaks, pointOf - {p})
  {
    hide NoDuplicates;
    forall a, x | a in breaks && x in breaks[a]
      ensures x in pointOf - {p} && (pointOf - {p})[x] == pointList[a]
    {
      assert x != p;
    }
  }

  /** Freeing a probe leaves every point referenced, but for the probe's own, which may go. */
  lemma FreeKeepsPoints(points: map<nat, Point>, pointList: map<nat, nat>, pointOf: map<Probe, nat>, p: Probe)
    requires PointsOwned(points, pointList, pointOf) && p in pointOf
    ensures var left := pointOf - {p};
            if Referenced(pointList, left, pointOf[p]) then PointsOwned(points, pointList, left)
            else PointsOwned(points - {pointOf[p]}, pointList, left)
  {
    var left := pointOf - {p};
    forall i | i in points && i != pointOf[p]
      ensures Referenced(pointList, left, i)
    {
      assert Referenced(pointList, pointOf, i);
      if x :| x in pointOf && pointOf[x] == i {
        assert left[x] == i;
      }
    }
    if !Referenced(pointList, left, pointOf[p]) {
      assert forall x | x in left :: left[x] == pointOf[x] && left[x] != pointOf[p];
    }
  }

  /** A point nothing lists takes no part in the point list. */
  lemma DropKeepsListed(points: map<nat, Point>, pointList: map<nat, nat>, pointOf: map<Probe, nat>, id: nat)
    requires PointsListed(points, pointList) && !Referenced(pointList, pointOf, id)
    ensures PointsListed(points - {id}, pointList)
    ensures DebugKeys(points - {id}, pointList) == DebugKeys(points, pointList)
  {
    assert forall a | a in pointList :: pointList[a] != id;
  }

  lemma DropHandleInv(text: map<nat, word>, r: Registry, p: Probe)
    requires Inv(text, r) && p in r.held
    ensures p in r.pointOf && Droppable(r.mem, r.pointOf[p])
    ensures Inv(text, DropHandle(r, p))
  {
    hide Listed, NoDuplicates, Referenced, Agree, DebugKeys, ListsNamed, PointsListed;
    hide TextPatched, PagesOwned, AllSlotsHold, PointsApart;
    assert p in r.pointOf && r.pointOf[p] in r.mem.points;
    var id := r.pointOf[p];
    DropKeepsMemory(text, r.mem, id);
    hide MemoryOk, PointsOwned, ProbesOwned;
    DropHandleProbes(r.breakList, r.pointOf, r.held, p);
    if !Listed(r.breakList, p) {
      FreeKeepsNamed(r.pointList, r.breakList, r.pointOf, p);
      FreeKeepsPoints(r.mem.points, r.pointList, r.pointOf, p);
      if !Referenced(r.pointList, r.pointOf - {p}, id) {
        DropKeepsListed(r.mem.points, r.pointList, r.pointOf - {p}, id);
      }
    }
  }

  lemma NamedIsReferenced(pointList: map<nat, nat>, pointOf: map<Probe, nat>, p: Probe)
    requires p in pointOf
    ensures Referenced(pointList, pointOf, pointOf[p])
  {
  }

  lemma DropHandleFrees(r: Registry, p: Probe)
    requires p in r.pointOf && Droppable(r.mem, r.pointOf[p])
    ensures var q, id := DropHandle(r, p), r.pointOf[p];
            && (p in q.pointOf <==> Listed(r.breakList, p))
            && (id in q.mem.points <==> Referenced(q.pointList, q.pointOf, id))
            && q.pointOf - {p} == r.pointOf - {p} && q.mem.points - {id} == r.mem.points - {id}
            && (q.pointList, q.breakList, q.debugList) == (r.pointList, r.breakList, r.debugList)
  {
    hide Listed, Referenced;
    NamedIsReferenced(r.pointList, r.pointOf, p);
  }

  /**
    Giving the last handle up keeps the invariant. The probe stays exactly when a list names it,
    its point exactly when it is still referred to; no other probe or point goes, no list changes.
  */
  lemma DropHandleKeeps(text: map<nat, word>, r: Registry, p: Probe)
    requires Inv(text, r) && p in r.held
    ensures p in r.pointOf && Droppable(r.mem, r.pointOf[p])
    ensures Inv(text, DropHandle(r, p))
    ensures var q, id := DropHandle(r, p), r.pointOf[p];
            && (p in q.pointOf <==> Listed(r.breakList, p))
            && (id in q.mem.points <==> Referenced(q.pointList, q.pointOf, id))
            && q.pointOf - {p} == r.pointOf - {p} && q.mem.points - {id} == r.mem.points - {id}
            && (q.pointList, q.breakList, q.debugList) == (r.pointList, r.breakList, r.debugList)
  {
    hide Inv, DropHandle, Droppable, Listed, Referenced;
    DropHandleInv(text, r, p);
    DropHandleFrees(r, p);
  }

  // ----- The first break of a uprobe

  lemma CopyKeys(points: map<nat, Point>, pointList: map<nat, nat>, addr: nat, user: nat)
    requires PointsListed(points, pointList) && addr in pointList && user != 0
    ensures var moved := points[pointList[addr] := points[pointList[addr]].(dynamic := user)];
            PointsListed(moved, pointList)
              && DebugKeys(moved, pointList) == DebugKeys(points, pointList)[addr := user + INST_LEN]
    ensures DebugKeys(points, pointList)[addr] == points[pointList[addr]].DebugAddress()
  {
  }

  lemma CopyKeepsPoints(points: map<nat, Point>, pointList: map<nat, nat>, pointOf: map<Probe, nat>, id: nat,
         point: Point)
    requires PointsOwned(points, pointList, pointOf) && id in points
    ensures PointsOwned(points[id := point], pointList, pointOf)
  {
    hide Referenced;
  }

  /** The copy and the re-key keep the invariant: the debug list follows its point. */
  lemma FirstBreakKeeps(text: map<nat, word>, r: Registry, addr: nat, user: nat)
    requires Inv(text, r) && addr in r.pointList && r.pointList[addr] in r.mem.points
    requires r.mem.points[r.pointList[addr]].dynamic == 0 && IsFreePage(r.mem, user)
    ensures Droppable(r.mem, r.pointList[addr]) && Inv(text, FirstBreak(r, r.pointList[addr], user))
  {
    OffIsNotZero(r.mem.code.Keys, user);
    FreshDebugKey(text, r, user);
    var id := r.pointList[addr];
    hide ListsNamed, ProbesOwned, PointsOwned, Agree, Rekey, DebugKeys, PointsListed, IsFreePage;
    hide TextPatched, PagesOwned, AllSlotsHold, PointsApart;
    CopyKeepsMemory(text, r.mem, id, user);
    hide MemoryOk;
    CopyKeys(r.mem.points, r.pointList, addr, user);
    DelistKeys(r.mem.points, r.pointList, addr);
    RekeyAgrees(DebugKeys(r.mem.points, r.pointList), r.breakList, r.debugList, addr, user + INST_LEN);
    CopyKeepsPoints(r.mem.points, r.pointList, r.pointOf, id, r.mem.points[id].(dynamic := user));
  }

  // ----- Runs

  /** What callers and handlers do, with what the allocators hand out. */
  datatype Action =
    | DoRegister(p: Probe, addr: nat, slot: nat, pid: Option<int>, id: nat)
    | DoUnlist(p: Probe)
    | DoDropHandle(p: Probe)
    | DoFirstBreak(addr: nat, user: nat)

  /**
    New objects are new, pages come from the allocator, a caller uses handles it has, and the
    first break is one of a point that has no copy yet.
  */
  ghost predicate Permitted(text: map<nat, word>, r: Registry, act: Action) {
    match act
    case DoRegister(p, addr, slot, _, id) =>
      addr in text && p !in r.pointOf && id !in r.mem.points && IsFreePage(r.mem, slot)
    case DoUnlist(p) => p in r.held
    case DoDropHandle(p) => p in r.held
    case DoFirstBreak(addr, user) =>
      && addr in r.pointList && r.pointList[addr] in r.mem.points && r.mem.points[r.pointList[addr]].dynamic == 0
      && IsFreePage(r.mem, user)
  }

  /** The state after the action; a registration that fails changes nothing. */
  ghost function Perform(text: map<nat, word>, r: Registry, act: Action): Registry
    requires Inv(text, r) && Permitted(text, r, act)
  {
    match act
    case DoRegister(p, addr, slot, pid, id) =>
      RegisterKeeps(text, r, p, addr, slot, pid, id);
      var res := Register(r, p, addr, slot, pid, id);
      if res.Ok? then res.value else r
    case DoUnlist(p) => UnlistKeeps(text, r, p); Unlist(r, p)
    case DoDropHandle(p) => DropHandleKeeps(text, r, p); DropHandle(r, p)
    case DoFirstBreak(addr, user) => FirstBreakKeeps(text, r, addr, user); FirstBreak(r, r.pointList[addr], user)
  }

  lemma PerformKeeps(text: map<nat, word>, r: Registry, act: Action)
    requires Inv(text, r) && Permitted(text, r, act)
    ensures Inv(text, Perform(text, r, act))
  {
    hide Inv, Register, Unlist, DropHandle, FirstBreak, IsFreePage;
    match act
    case DoRegister(p, addr, slot, pid, id) => RegisterKeeps(text, r, p, addr, slot, pid, id);
    case DoUnlist(p) => UnlistKeeps(text, r, p);
    case DoDropHandle(p) => DropHandleKeeps(text, r, p);
    case DoFirstBreak(addr, user) => FirstBreakKeeps(text, r, addr, user);
  }

  /** Steps need the invariant to be defined; RunKeeps shows that it always holds. */
  ghost predicate Run(text: map<nat, word>, states: seq<Registry>, acts: seq<Action>) {
    && |states| == |acts| + 1 && states[0] == Empty(text)
    && forall i | 0 <= i < |acts| :: Inv(text, states[i]) ==>
         Permitted(text, states[i], acts[i]) && states[i + 1] == Perform(text, states[i], acts[i])
  }

  /** Every state of every run satisfies the invariant. */
  lemma {:induction false} RunKeeps(text: map<nat, word>, states: seq<Registry>, acts: seq<Action>, n: nat)
    requires Run(text, states, acts) && n <= |acts|
    ensures Inv(text, states[n])
  {
    hide Inv, Perform, Permitted;
    if n == 0 {
      EmptyOk(text);
    } else {
      RunKeeps(text, states, acts, n - 1);
      PerformKeeps(text, states[n - 1], acts[n - 1]);
    }
  }

  // ----- What the invariant says

  /** A live probe that no list names: it was unregistered, and a caller kept a handle. */
  ghost predicate Dangling(r: Registry, a: nat) {
    exists p | p in r.pointOf :: p in r.held && !Listed(r.breakList, p)
                                && r.pointOf[p] in r.mem.points && r.mem.points[r.pointOf[p]].addr == a
  }

  /** An unlisted address with a live point has a dangling probe. */
  lemma ProbedBecause(text: map<nat, word>, r: Registry, i: nat)
    requires Inv(text, r) && i in r.mem.points && r.mem.points[i].addr !in r.pointList
    ensures Dangling(r, r.mem.points[i].addr)
  {
    hide MemoryOk, Agree, NoDuplicates, DebugKeys;
    assert Referenced(r.pointList, r.pointOf, i);
    var p :| p in r.pointOf && r.pointOf[p] == i;
    assert !Listed(r.breakList, p);
  }

  /**
    In every reachable state the text holds the breakpoint exactly at the addresses of the point
    list, which are those of the break list, and at those of dangling probes; every other word is
    the original.
  */
  lemma TextAgrees(text: map<nat, word>, r: Registry, a: nat)
    requires Inv(text, r) && a in text
    ensures r.pointList.Keys == r.breakList.Keys && a in r.mem.code
    ensures r.mem.code[a] == if a in r.pointList || Dangling(r, a) then 0xD420_0080 else text[a]
    ensures a in r.pointList || Dangling(r, a) ==> Accepted(text[a]) && text[a] != BRK_KPROBES
  {
    hide Accepted, PagesOwned, AllSlotsHold, PointsApart, ListsNamed, ProbesOwned, PointsOwned, Listed;
    assert IsProbed(r.mem, a) ==> a in r.pointList || Dangling(r, a) by {
      if i :| i in r.mem.points && r.mem.points[i].addr == a {
        if a !in r.pointList {
          ProbedBecause(text, r, i);
        }
      }
    }
    AcceptedIsNoBreak(text[a]);
  }

  lemma AcceptedIsNoBreak(w: word)
    ensures Accepted(w) ==> w != BRK_KPROBES && w != BRK_KPROBES_SS
  {
    hide IsRejected;
  }

  // ----- Giving back

  /** It does happen: unregistering a probe while a handle is kept leaves its breakpoint behind. */
  lemma UnlistedDangles(text: map<nat, word>, r: Registry, p: Probe)
    requires Inv(text, r) && p in r.held
    ensures p in r.pointOf && r.pointOf[p] in r.mem.points
    ensures var a := r.mem.points[r.pointOf[p]].addr;
            Dangling(Unlist(r, p), a) && (ListAt(r.breakList, a) == [p] ==> a !in Unlist(r, p).pointList)
  {
    UnlistKeeps(text, r, p);
    SamePoint(text, r, p);
    hide MemoryOk, Agree, ProbesOwned, PointsOwned, DebugKeys, RemoveAt, Listed;
    assert ListsNamed(r.pointList, r.breakList, r.pointOf) && PointsListed(r.mem.points, r.pointList);
    var a := r.mem.points[r.pointOf[p]].addr;
    UnlistUnlists(r.pointList, r.breakList, r.pointOf, a, p);
    EmptyListLeaves(r.breakList, a, p);
    OnlyOne(r.breakList, a, p);
    assert Unlist(r, p).pointOf == r.pointOf && Unlist(r, p).held == r.held;
  }

  lemma OnlyOne(breaks: Index, a: nat, p: Probe)
    ensures ListAt(breaks, a) == [p] ==> a !in RemoveAt(breaks, a, p)
  {
    WithoutHolds([p], p);
    assert forall q :: q !in Without([p], p);
    assert Without([p], p) == [];
  }

  /** Another live probe shares the point. */
  ghost predicate Shared(pointOf: map<Probe, nat>, p: Probe)
    requires p in pointOf
  {
    exists x | x in pointOf :: x != p && pointOf[x] == pointOf[p]
  }

  lemma UnlistUnlists(pointList: map<nat, nat>, breaks: Index, pointOf: map<Probe, nat>, a: nat, p: Probe)
    requires ListsNamed(pointList, breaks, pointOf) && p in pointOf
    requires forall b | b in pointList && pointList[b] == pointOf[p] :: b == a
    ensures !Listed(RemoveAt(breaks, a, p), p)
  {
    WithoutHolds(ListAt(breaks, a), p);
  }

  /** A removed address with no shared point is referenced by nothing any more. */
  lemma LastReference(r: Registry, p: Probe, q: Registry)
    requires PointsListed(r.mem.points, r.pointList) && ListsNamed(r.pointList, r.breakList, r.pointOf)
    requires p in r.pointOf && r.pointOf[p] in r.mem.points && q == Unlist(r, p)
    ensures Referenced(q.pointList, q.pointOf - {p}, r.pointOf[p]) ==>
              Shared(r.pointOf, p) || r.mem.points[r.pointOf[p]].addr in q.pointList
    ensures Shared(r.pointOf, p) ==> Referenced(q.pointList, q.pointOf - {p}, r.pointOf[p])
  {
    hide ListsNamed, RemoveAt;
    if x :| x in r.pointOf && x != p && r.pointOf[x] == r.pointOf[p] {
      assert (q.pointOf - {p})[x] == r.pointOf[p];
    }
  }

  lemma ListedShares(pointList: map<nat, nat>, breaks: Index, pointOf: map<Probe, nat>, p: Probe, a: nat)
    requires ListsNamed(pointList, breaks, pointOf) && p in pointOf && (a in pointList ==> pointList[a] == pointOf[p])
    requires a in RemoveAt(breaks, a, p)
    ensures Shared(pointOf, p)
  {
    hide NoDuplicates;
    var list := Without(ListAt(breaks, a), p);
    WithoutHolds(ListAt(breaks, a), p);
    assert list[0] in list;
    var x := list[0];
    assert x in breaks[a] && x != p && x in pointOf && pointOf[x] == pointOf[p];
  }

  lemma SharedStays(text: map<nat, word>, r: Registry, p: Probe)
    requires MemoryOk(text, r.mem) && p in r.pointOf && r.pointOf[p] in r.mem.points
    ensures r.mem.points[r.pointOf[p]].addr in r.mem.code && r.mem.points[r.pointOf[p]].addr in text
    ensures r.mem.code[r.mem.points[r.pointOf[p]].addr] != text[r.mem.points[r.pointOf[p]].addr]
  {
    hide Accepted, PagesOwned, AllSlotsHold, PointsApart;
    AcceptedIsNoBreak(text[r.mem.points[r.pointOf[p]].addr]);
  }

  /** Unlisting a probe and giving up its handle frees the probe, and its point unless it is shared. */
  lemma RemovalFrees(text: map<nat, word>, r: Registry, p: Probe)
    requires Inv(text, r) && p in r.held && p in r.pointOf && r.pointOf[p] in r.mem.points
    ensures p in Unlist(r, p).pointOf && Droppable(r.mem, r.pointOf[p]) && Unlist(r, p).mem == r.mem
    ensures var q := DropHandle(Unlist(r, p), p);
            && q.pointOf == r.pointOf - {p} && q.held == r.held - {p} && q.pointList == Unlist(r, p).pointList
            && q.mem == (if Shared(r.pointOf, p) then r.mem else DropPoint(r.mem, r.pointOf[p]))
            && (!Shared(r.pointOf, p) ==>
                  r.mem.points[r.pointOf[p]].addr !in q.pointList && r.mem.points[r.pointOf[p]].addr !in q.breakList)
  {
    var id := r.pointOf[p];
    var a := r.mem.points[id].addr;
    UnlistKeeps(text, r, p);
    DropHandleKeeps(text, Unlist(r, p), p);
    SamePoint(text, r, p);
    hide MemoryOk, Agree, ProbesOwned, PointsOwned, DebugKeys, Shared, Referenced, RemoveAt, Droppable, DropPoint;
    assert ListsNamed(r.pointList, r.breakList, r.pointOf);
    assert PointsListed(r.mem.points, r.pointList);
    UnlistUnlists(r.pointList, r.breakList, r.pointOf, a, p);
    hide ListsNamed, Listed;
    LastReference(r, p, Unlist(r, p));
    EmptyListLeaves(r.breakList, a, p);
    if a in RemoveAt(r.breakList, a, p) {
      ListedShares(r.pointList, r.breakList, r.pointOf, p, a);
    }
  }

  /**
    Removing the last probe of a point with its last handle restores the text; with another live
    probe on the point the breakpoint stays.
  */
  lemma RemovalRestores(text: map<nat, word>, r: Registry, p: Probe)
    requires Inv(text, r) && p in r.held && p in r.pointOf && r.pointOf[p] in r.mem.points
    ensures p in Unlist(r, p).pointOf && Droppable(Unlist(r, p).mem, r.pointOf[p])
    ensures var q, a := DropHandle(Unlist(r, p), p), r.mem.points[r.pointOf[p]].addr;
            && a in q.mem.code && a in text && p !in q.pointOf && (q.mem.code[a] == text[a] <==> !Shared(r.pointOf, p))
            && (!Shared(r.pointOf, p) ==> r.pointOf[p] !in q.mem.points && a !in q.pointList && a !in q.breakList)
  {
    hide Agree, ListsNamed, PointsListed, ProbesOwned, PointsOwned, DebugKeys, TextPatched, PagesOwned, AllSlotsHold,
         PointsApart, Unlist, DropHandle, Shared;
    RemovalFrees(text, r, p);
    DropKeepsMemory(text, r.mem, r.pointOf[p]);
    SharedStays(text, r, p);
  }

  lemma SomeIn(list: seq<Probe>) returns (p: Probe)
    requires list != []
    ensures p in list
  {
    p := list[0];
  }

  lemma ListHolds(pointList: map<nat, nat>, breaks: Index, pointOf: map<Probe, nat>, a: nat, p: Probe)
    requires ListsNamed(pointList, breaks, pointOf) && a in breaks && p in breaks[a]
    ensures p in pointOf
  {
  }

  lemma NoLists(keyOf: map<nat, nat>, pointList: map<nat, nat>, breaks: Index, debugs: Index, pointOf: map<Probe, nat>)
    requires Agree(keyOf, breaks, debugs) && ListsNamed(pointList, breaks, pointOf) && forall p :: p !in pointOf
    ensures keyOf == map[] && breaks == map[] && debugs == map[]
  {
    hide Injective, NoDuplicates;
    if a :| a in breaks {
      var p := SomeIn(breaks[a]);
      ListHolds(pointList, breaks, pointOf, a, p);
      assert false;
    }
    assert breaks == map[];
  }

  lemma NoPoints(points: map<nat, Point>, pointList: map<nat, nat>, pointOf: map<Probe, nat>)
    requires PointsOwned(points, pointList, pointOf) && pointList.Keys == {} && pointOf.Keys == {}
    ensures points == map[]
  {
  }

  lemma NoPages(text: map<nat, word>, m: Memory)
    requires MemoryOk(text, m) && m.points.Keys == {}
    ensures m.pages == map[] && m.code == text
  {
    hide Accepted, AllSlotsHold, PointsApart, IsPageOff;
    assert forall a :: !IsProbed(m, a);
  }

  /** In every reachable state, once no probe object is left everything is as it was before the first. */
  lemma NothingLeft(text: map<nat, word>, r: Registry)
    requires Inv(text, r) && r.pointOf.Keys == {}
    ensures r == Empty(text)
  {
    hide MemoryOk, Agree, ListsNamed, PointsOwned, Listed;
    NoLists(DebugKeys(r.mem.points, r.pointList), r.pointList, r.breakList, r.debugList, r.pointOf);
    DelistKeys(r.mem.points, r.pointList, 0);
    hide DebugKeys, PointsListed;
    NoPoints(r.mem.points, r.pointList, r.pointOf);
    NoPages(text, r.mem);
    assert r.pointList == map[] && r.pointOf == map[] && r.held == {};
  }

  /** What the check says of a word. */
  lemma CheckDecides(w: word)
    ensures ValidateInstruction(w) ==
            if w == 0xD420_0080 || w == 0xD420_00C0 then Err(UnsupportedInstruction)
            else if IsPositionDependent(w) && !IsMissed(w) then Err(UnsafeInstruction)
            else Ok(())
  {
    CheckIsExactUpTo(w);
    hide IsRejected, IsPositionDependent, IsMissed;
  }

  /** What an installation says: the address first, then the word found there. */
  lemma InstallDecides(m: Memory, addr: nat, slot: nat, pid: Option<int>, id: nat)
    requires addr in m.code
    ensures ReplaceInst(m, addr, slot, pid, id).Ok? <==> addr % 4 == 0 && ValidateInstruction(m.code[addr]).Ok?
    ensures forall e :: ReplaceInst(m, addr, slot, pid, id) == Err(e) <==>
              if addr % 4 != 0 then e == InvalidAddress else ValidateInstruction(m.code[addr]) == Err(e)
  {
    hide ValidateInstruction;
  }

  /**
    A point with a live probe but no list refuses new probes: the check meets the breakpoint. Which
    error a refusal is, the address and the words of the text say.
  */
  lemma DanglingRefuses(text: map<nat, word>, r: Registry, p: Probe, addr: nat, slot: nat, pid: Option<int>, id: nat)
    requires Inv(text, r) && addr in text && addr !in r.pointList
    ensures addr in r.mem.code
    ensures Register(r, p, addr, slot, pid, id).Ok? <==>
              addr % INST_LEN == 0 && ValidateInstruction(text[addr]).Ok? && !Dangling(r, addr)
    ensures var res, w := Register(r, p, addr, slot, pid, id), text[addr];
            var breaks := Dangling(r, addr) || w == 0xD420_0080 || w == 0xD420_00C0;
            && (res == Err(InvalidAddress) <==> addr % 4 != 0)
            && (res == Err(UnsupportedInstruction) <==> addr % 4 == 0 && breaks)
            && (res == Err(UnsafeInstruction) <==> addr % 4 == 0 && !breaks && IsPositionDependent(w) && !IsMissed(w))
  {
    hide Inv, ValidateInstruction, ReplaceInst, IsPositionDependent, IsMissed, Dangling;
    TextAgrees(text, r, addr);
    AcceptedIsNoBreak(text[addr]);
    CheckDecides(text[addr]);
    CheckDecides(0xD420_0080);
    InstallDecides(r.mem, addr, slot, pid, id);
    hide Accepted;
  }
}
