/**
  Return probes: pools of instances, the shadow stack of each task, and the trampoline
  (kprobe/src/arch/retprobe.rs, kprobe/src/arch/aarch64/mod.rs).
*/
module Retprobe {
  import opened Bytes

  /** The address of arch_rethook_trampoline; no call returns there by itself. */
  const TRAMPOLINE: nat := 1

  type Data = Option<nat>

  /** `owner` is the return probe an instance in flight was taken from. */
  datatype Instance = Instance(retAddr: nat, frame: nat, data: Data, owner: Option<nat>)

  /** The two registers that matter: the link register (30) and the frame pointer (29). */
  datatype Regs = Regs(lr: nat, fp: nat)

  /** A call of a user handler with the instance's data. */
  datatype HandlerCall = EntryCall(probe: nat, data: Data) | ReturnCall(probe: nat, data: Data)

  /**
    `free` and `missed` are the pool and nmissed of each return probe, `stacks` the instances
    each task has in flight, the last pushed last; `log` the handler calls so far.
  */
  datatype Hooks = Hooks(free: map<nat, seq<Instance>>, missed: map<nat, nat>, stacks: seq<seq<Instance>>,
                         log: seq<HandlerCall>)

  // ----- The pool

  function Fresh(data: Data): Instance { Instance(0, 0, data, None) }

  /** The pool of a builder with this data: the data is taken from the end. */
  function Pool(maxactive: nat, data: seq<nat>): (pool: seq<Instance>)
    ensures |pool| == maxactive
  {
    seq(maxactive, i => Fresh(if 0 <= i < |data| then Some(data[|data| - 1 - i]) else None))
  }

  /** with_data: one clone for each instance. */
  method WithData(maxactive: nat, data: seq<nat>, value: nat) returns (r: seq<nat>)
    ensures r == data + seq(maxactive, _ => value)
  {
    r := data;
    for i := 0 to maxactive
      invariant r == data + seq(i, _ => value)
    {
      r := r + [value];
    }
  }

  /** The loop of From<RetprobeBuilder>. */
  method BuildPool(maxactive: nat, data: seq<nat>) returns (instances: seq<Instance>)
    ensures instances == Pool(maxactive, data)
  {
    var left := data;
    instances := [];
    for i := 0 to maxactive
      invariant instances == Pool(i, data)
      invariant left == if i <= |data| then data[..|data| - i] else []
    {
      var taken: Data := None;
      if left != [] {
        taken, left := Some(left[|left| - 1]), left[..|left| - 1];
      }
      instances := instances + [Fresh(taken)];
    }
  }

  /** Whatever was set before, the pool holds the data set last, once for each instance. */
  lemma PoolHoldsLastData(maxactive: nat, before: seq<nat>, value: nat)
    ensures Pool(maxactive, before + seq(maxactive, _ => value)) == seq(maxactive, _ => Fresh(Some(value)))
  {
  }

  /** A builder given data once more, then built. */
  method BuildWithData(maxactive: nat, before: seq<nat>, value: nat) returns (instances: seq<Instance>)
    ensures instances == seq(maxactive, _ => Fresh(Some(value)))
  {
    var data := WithData(maxactive, before, value);
    instances := BuildPool(maxactive, data);
    PoolHoldsLastData(maxactive, before, value);
  }

  // ----- The handlers

  /** pre_handler_kretprobe with arch_rethook_prepare. */
  function PreHandler(h: Hooks, q: nat, t: nat, regs: Regs): (Hooks, Regs)
    requires q in h.free && q in h.missed && t < |h.stacks|
  {
    var pool := h.free[q];
    if pool == [] then (h.(missed := h.missed[q := h.missed[q] + 1]), regs)
    else
      var taken := pool[|pool| - 1].(retAddr := regs.lr, frame := regs.fp, owner := Some(q));
      (h.(free := h.free[q := pool[..|pool| - 1]], stacks := h.stacks[t := h.stacks[t] + [taken]],
          log := h.log + [EntryCall(q, taken.data)]),
       regs.(lr := TRAMPOLINE))
  }

  /** The probes of one address, in the order of the break list. */
  function PreHandlers(h: Hooks, probes: seq<nat>, t: nat, regs: Regs): (Hooks, Regs)
    requires (forall q | q in probes :: q in h.free && q in h.missed) && t < |h.stacks|
    decreases |probes|
  {
    if probes == [] then (h, regs)
    else
      var next := PreHandler(h, probes[0], t, regs);
      PreHandlers(next.0, probes[1..], t, next.1)
  }

  /** rethook_trampoline_handler: the address to go on at; nothing where the source panics. */
  function Trampoline(h: Hooks, t: nat, fp: nat): Option<(Hooks, nat)>
    requires t < |h.stacks|
  {
    var stack := h.stacks[t];
    if stack == [] then None else
      var top := stack[|stack| - 1];
      if top.frame != fp || top.owner.None? || top.owner.value !in h.free then None else
        var q := top.owner.value;
        Some((h.(free := h.free[q := h.free[q] + [top]], stacks := h.stacks[t := stack[..|stack| - 1]],
                 log := h.log + [ReturnCall(q, top.data)]),
              top.retAddr))
  }

  /** A return: through the trampoline for as long as that is the address to return to. */
  function ReturnTo(h: Hooks, t: nat, regs: Regs): Option<(Hooks, nat)>
    requires t < |h.stacks|
    decreases |h.stacks[t]|
  {
    if regs.lr != TRAMPOLINE then Some((h, regs.lr)) else
      match Trampoline(h, t, regs.fp)
      case None => None
      case Some(next) => ReturnTo(next.0, t, Regs(next.1, regs.fp))
  }

  // ----- The order of the handlers

  /**
    The entry handlers that run for a list of probes: in list order, one for each probe with an
    instance left, with the data of the instance given back last.
  */
  function EntryCalls(free: map<nat, seq<Instance>>, probes: seq<nat>): seq<HandlerCall>
    requires forall q | q in probes :: q in free
  {
    if probes == [] then []
    else
      var q, n := probes[0], |free[probes[0]]|;
      if n == 0 then EntryCalls(free, probes[1..])
      else [EntryCall(q, free[q][n - 1].data)] + EntryCalls(free[q := free[q][..n - 1]], probes[1..])
  }

  lemma {:induction false} EntriesInListOrder(h: Hooks, probes: seq<nat>, t: nat, regs: Regs)
    requires (forall q | q in probes :: q in h.free && q in h.missed) && t < |h.stacks|
    ensures PreHandlers(h, probes, t, regs).0.log == h.log + EntryCalls(h.free, probes)
    decreases |probes|
  {
    if probes != [] {
      var next := PreHandler(h, probes[0], t, regs);
      EntriesInListOrder(next.0, probes[1..], t, next.1);
    }
  }

  /** The return handlers run from the instance hooked last to the one hooked first. */
  function ReturnCalls(taken: seq<Instance>): seq<HandlerCall>
    requires forall i | 0 <= i < |taken| :: taken[i].owner.Some?
  {
    seq(|taken|, i requires 0 <= i < |taken| =>
      ReturnCall(taken[|taken| - 1 - i].owner.value, taken[|taken| - 1 - i].data))
  }

  lemma {:induction false} ReturnsInReverse(h: Hooks, t: nat, regs: Regs) returns (n: nat)
    requires t < |h.stacks| && ReturnTo(h, t, regs).Some?
    ensures n <= |h.stacks[t]| && forall i | n <= i < |h.stacks[t]| :: h.stacks[t][i].owner.Some?
    ensures var next := ReturnTo(h, t, regs).value.0;
            next.stacks == h.stacks[t := h.stacks[t][..n]] && next.log == h.log + ReturnCalls(h.stacks[t][n..])
    decreases |h.stacks[t]|
  {
    var stack := h.stacks[t];
    if regs.lr != TRAMPOLINE {
      n := |stack|;
      assert stack[..n] == stack;
    } else {
      var step := Trampoline(h, t, regs.fp).value;
      var top := stack[|stack| - 1];
      n := ReturnsInReverse(step.0, t, Regs(step.1, regs.fp));
      var rest := stack[..|stack| - 1];
      assert stack[n..] == rest[n..] + [top] && rest[..n] == stack[..n];
      assert ReturnCalls(stack[n..]) == [ReturnCall(top.owner.value, top.data)] + ReturnCalls(rest[n..]);
    }
  }

  class Rethook {
    var free: map<nat, seq<Instance>>
    var missed: map<nat, nat>
    var stacks: seq<seq<Instance>>
    var log: seq<HandlerCall>

    function State(): Hooks
      reads this
    {
      Hooks(free, missed, stacks, log)
    }

    constructor (h: Hooks)
      ensures State() == h
    {
      free, missed, stacks, log := h.free, h.missed, h.stacks, h.log;
    }

    method PreHandlerKretprobe(q: nat, t: nat, regs: Regs) returns (r: Regs)
      requires q in free && q in missed && t < |stacks|
      modifies this
      ensures (State(), r) == PreHandler(old(State()), q, t, regs)
    {
      var pool := free[q];
      r := regs;
      if |pool| > 0 {
        var instance := pool[|pool| - 1];
        free := free[q := pool[..|pool| - 1]];
        instance := instance.(retAddr := r.lr, frame := r.fp);
        r := r.(lr := TRAMPOLINE);
        log := log + [EntryCall(q, instance.data)];
        instance := instance.(owner := Some(q));
        stacks := stacks[t := stacks[t] + [instance]];
      } else {
        missed := missed[q := missed[q] + 1];
      }
    }

    /** The break handler's loop over the probes of the address. */
    method Enter(probes: seq<nat>, t: nat, regs: Regs) returns (r: Regs)
      requires (forall q | q in probes :: q in free && q in missed) && t < |stacks|
      modifies this
      ensures (State(), r) == PreHandlers(old(State()), probes, t, regs)
    {
      r := regs;
      for i := 0 to |probes|
        invariant free.Keys == old(free.Keys) && missed.Keys == old(missed.Keys) && |stacks| == old(|stacks|)
        invariant PreHandlers(State(), probes[i..], t, r) == PreHandlers(old(State()), probes, t, regs)
      {
        assert probes[i..][0] == probes[i] && probes[i..][1..] == probes[i + 1..];
        r := PreHandlerKretprobe(probes[i], t, r);
      }
    }

    method TrampolineHandler(t: nat, fp: nat) returns (to: Option<nat>)
      requires t < |stacks|
      modifies this
      ensures match Trampoline(old(State()), t, fp)
              case None => to.None? && State() == old(State())
              case Some(next) => to == Some(next.1) && State() == next.0
    {
      if |stacks[t]| == 0 {
        return None;
      }
      var instance := stacks[t][|stacks[t]| - 1];
      if instance.frame != fp || instance.owner.None? || instance.owner.value !in free {
        return None;
      }
      stacks := stacks[t := stacks[t][..|stacks[t]| - 1]];
      var q := instance.owner.value;
      log := log + [ReturnCall(q, instance.data)];
      free := free[q := free[q] + [instance]];
      to := Some(instance.retAddr);
    }
  }
}
