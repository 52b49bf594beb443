/**
  The registration and handler functions as they update the objects: the point list, the
  manager and the probe objects (kprobe/src/kprobe/mod.rs, kprobe/src/uprobe/mod.rs).
*/
module ProbeObjects {
  import opened Bytes
  import opened ProbeTypes
  import opened ProbeManager
  import opened ProbeMemory
  import opened ProbeRegistry
  import opened ProbeExec

  class Probes {
    const manager: Manager
    var mem: Memory
    var pointList: map<nat, nat>
    var pointOf: map<Probe, nat>
    var held: set<Probe>

    function State(): Registry
      reads this, manager
    {
      Registry(mem, pointList, manager.breakList, manager.debugList, pointOf, held)
    }

    constructor (text: map<nat, word>)
      ensures fresh(manager) && State() == Empty(text)
    {
      mem := Memory(text, map[], map[]);
      pointList, pointOf, held := map[], map[], {};
      manager := new Manager();
    }

    /** register_kprobe and its kin; __register_kprobe is the first half. */
    method RegisterProbe(p: Probe, addr: nat, slot: nat, pid: Option<int>, id: nat)
      returns (r: Result<(), InstallError>)
      requires addr in mem.code && (addr in pointList ==> pointList[addr] in mem.points)
      modifies this, manager
      ensures var res := Register(old(State()), p, addr, slot, pid, id);
              if res.Ok? then r.Ok? && State() == res.value else r == Err(res.error) && State() == old(State())
    {
      hide ValidateInstruction, PushAt;
      var point: nat;
      if addr in pointList {
        point := pointList[addr];
      } else {
        var installed := ReplaceInst(mem, addr, slot, pid, id);
        if installed.Err? {
          return Err(installed.error);
        }
        mem := installed.value;
        point := id;
        pointList := pointList[addr := point];
      }
      pointOf, held := pointOf[p := point], held + {p};
      manager.InsertProbe(p, mem.points[point]);
      r := Ok(());
    }

    /** unregister_kprobe and its kin. */
    method UnregisterProbe(p: Probe)
      requires p in pointOf && pointOf[p] in mem.points
      modifies this, manager
      ensures State() == Unlist(old(State()), p)
    {
      hide RemoveAt;
      var point := mem.points[pointOf[p]];
      manager.RemoveProbe(p, point);
      var n := manager.KprobeNum(point.BreakAddress());
      if n == 0 {
        pointList := pointList - {point.BreakAddress()};
      }
    }

    /** The break handlers: the first probe of the list gives the page to step in. */
    method HandlerFromBreak(mode: Mode, alloc: Allocator, pc: nat) returns (to: Option<nat>)
      modifies this, manager
      ensures var res := HandleBreak(mode, alloc, old(State()), pc);
              if res.Some? then to == Some(res.value.1) && State() == res.value.0
              else to.None? && State() == old(State())
    {
      hide Rekey;
      var list := manager.GetBreakList(pc);
      if list.None? {
        to := HandlerFromDebug(pc);
        return;
      }
      if list.value == [] || list.value[0] !in pointOf || pointOf[list.value[0]] !in mem.points {
        return None;
      }
      var id := pointOf[list.value[0]];
      var point := mem.points[id];
      if mode.Kernel? {
        to := Some(point.slot);
      } else if point.dynamic != 0 {
        to := Some(point.dynamic);
      } else if point.slot !in mem.pages || point.addr !in mem.code {
        to := None;
      } else {
        var user := alloc(State());
        var oldAddress := point.DebugAddress();
        mem := mem.(pages := mem.pages[user := mem.pages[point.slot]],
          points := mem.points[id := point.(dynamic := user)]);
        manager.ReplaceDebugListWithNewAddress(oldAddress, mem.points[id].DebugAddress());
        to := Some(user);
      }
    }

    /** The debug handlers: resume after the probed instruction. */
    method HandlerFromDebug(pc: nat) returns (to: Option<nat>)
      ensures to == HandleDebug(State(), pc)
    {
      var list := manager.GetDebugList(pc);
      if list.None? || list.value == [] || list.value[0] !in pointOf || pointOf[list.value[0]] !in mem.points {
        return None;
      }
      to := Some(mem.points[pointOf[list.value[0]]].ReturnAddress());
    }
  }
}
