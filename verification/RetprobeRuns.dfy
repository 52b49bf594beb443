/**
  Runs of many tasks through functions with return probes: every return reaches its caller,
  and no instance is lost (kprobe/src/arch/retprobe.rs).
*/
module RetprobeRuns {
  import opened Bytes
  import opened Retprobe

  /**
    A call in progress: the address and frame pointer its caller gave it, the link register it
    will return through, and how many instances its entry took (a tail call adds more).
  */
  datatype Frame = Frame(ret: nat, fp: nat, lr: nat, hooked: nat)

  datatype Sys = Sys(hooks: Hooks, frames: seq<seq<Frame>>)

  datatype Event =
    | Call(t: nat, ret: nat, fp: nat)
    | Enter(t: nat, probes: seq<nat>)
    | Return(t: nat)

  // ----- The shadow stack matches the call stack

  /** The instances of one call: the first returns to the caller, each other to the trampoline. */
  ghost predicate Chain(f: Frame, c: seq<Instance>, owners: set<nat>) {
    && |c| == f.hooked && f.ret != TRAMPOLINE && f.lr == (if c == [] then f.ret else TRAMPOLINE)
    && forall j | 0 <= j < |c| ::
         c[j].frame == f.fp && c[j].retAddr == (if j == 0 then f.ret else TRAMPOLINE) && c[j].owner.Some?
           && c[j].owner.value in owners
  }

  ghost predicate Matches(frames: seq<Frame>, stack: seq<Instance>, owners: set<nat>) {
    if frames == [] then stack == []
    else
      var f := frames[|frames| - 1];
      && f.hooked <= |stack|
      && Chain(f, stack[|stack| - f.hooked..], owners)
      && Matches(frames[..|frames| - 1], stack[..|stack| - f.hooked], owners)
  }

  ghost predicate AllMatch(s: Sys) {
    && |s.frames| == |s.hooks.stacks|
    && forall t | 0 <= t < |s.frames| :: Matches(s.frames[t], s.hooks.stacks[t], s.hooks.free.Keys)
  }

  // ----- Conservation

  /** Instances are counted all together or by their data. */
  datatype Which = Any | Only(data: Data)

  function One(top: Instance, w: Which): nat {
    if w.Any? || top.data == w.data then 1 else 0
  }

  function Kept(pool: seq<Instance>, w: Which): nat {
    if pool == [] then 0 else Kept(pool[..|pool| - 1], w) + One(pool[|pool| - 1], w)
  }

  function OneOf(top: Instance, q: nat, w: Which): nat {
    if top.owner == Some(q) then One(top, w) else 0
  }

  /** The instances of `q` in one task's stack. */
  function Held(stack: seq<Instance>, q: nat, w: Which): nat {
    if stack == [] then 0 else Held(stack[..|stack| - 1], q, w) + OneOf(stack[|stack| - 1], q, w)
  }

  /** The instances of `q` in flight, in any task. */
  function InFlight(stacks: seq<seq<Instance>>, q: nat, w: Which): nat {
    if stacks == [] then 0 else Held(stacks[0], q, w) + InFlight(stacks[1..], q, w)
  }

  /** Free and in flight together are the initial pool, datum by datum. */
  ghost predicate Conserved(h: Hooks, pools: map<nat, seq<Instance>>) {
    && h.free.Keys == pools.Keys && h.missed.Keys == pools.Keys
    && forall q, w | q in pools :: Kept(h.free[q], w) + InFlight(h.stacks, q, w) == Kept(pools[q], w)
  }

  lemma {:induction false} InFlightUpdate(stacks: seq<seq<Instance>>, t: nat, stack: seq<Instance>, q: nat, w: Which)
    requires t < |stacks|
    ensures InFlight(stacks[t := stack], q, w) + Held(stacks[t], q, w) == InFlight(stacks, q, w) + Held(stack, q, w)
  {
    hide Held;
    var after := stacks[t := stack];
    if t == 0 {
      assert after[1..] == stacks[1..];
    } else {
      InFlightUpdate(stacks[1..], t - 1, stack, q, w);
      assert after[1..] == stacks[1..][t - 1 := stack];
      assert stacks[1..][t - 1] == stacks[t] && after[0] == stacks[0];
    }
  }

  lemma PushInFlight(stacks: seq<seq<Instance>>, t: nat, top: Instance, q: nat, w: Which)
    requires t < |stacks|
    ensures InFlight(stacks[t := stacks[t] + [top]], q, w) == InFlight(stacks, q, w) + OneOf(top, q, w)
  {
    hide InFlight;
    InFlightUpdate(stacks, t, stacks[t] + [top], q, w);
    assert (stacks[t] + [top])[..|stacks[t]|] == stacks[t];
  }

  lemma PopInFlight(stacks: seq<seq<Instance>>, t: nat, q: nat, w: Which)
    requires t < |stacks| && stacks[t] != []
    ensures InFlight(stacks, q, w)
         == InFlight(stacks[t := stacks[t][..|stacks[t]| - 1]], q, w) + OneOf(stacks[t][|stacks[t]| - 1], q, w)
  {
    hide InFlight;
    InFlightUpdate(stacks, t, stacks[t][..|stacks[t]| - 1], q, w);
  }

  lemma PreHandlerConserves(h: Hooks, pools: map<nat, seq<Instance>>, q: nat, t: nat, regs: Regs)
    requires Conserved(h, pools) && q in pools && t < |h.stacks|
    ensures Conserved(PreHandler(h, q, t, regs).0, pools)
  {
    hide InFlight, Held;
    if h.free[q] != [] {
      var after := PreHandler(h, q, t, regs).0;
      forall x, w | x in pools
        ensures Kept(after.free[x], w) + InFlight(after.stacks, x, w) == Kept(pools[x], w)
      {
        PushInFlight(h.stacks, t, after.stacks[t][|h.stacks[t]|], x, w);
        assert x != q ==> after.free[x] == h.free[x];
      }
    }
  }

  lemma TrampolineConserves(h: Hooks, pools: map<nat, seq<Instance>>, t: nat, fp: nat)
    requires Conserved(h, pools) && t < |h.stacks|
    ensures Trampoline(h, t, fp).Some? ==> Conserved(Trampoline(h, t, fp).value.0, pools)
  {
    hide InFlight, Held;
    if Trampoline(h, t, fp).Some? {
      var after := Trampoline(h, t, fp).value.0;
      var top := h.stacks[t][|h.stacks[t]| - 1];
      forall x, w | x in pools
        ensures Kept(after.free[x], w) + InFlight(after.stacks, x, w) == Kept(pools[x], w)
      {
        PopInFlight(h.stacks, t, x, w);
        assert if x == top.owner.value then after.free[x][..|h.free[x]|] == h.free[x] else after.free[x] == h.free[x];
      }
    }
  }

  // ----- Handler calls

  function Entries(log: seq<HandlerCall>, q: nat, w: Which): nat {
    if log == [] then 0
    else
      var last := log[|log| - 1];
      Entries(log[..|log| - 1], q, w)
      + if last.EntryCall? && last.probe == q && (w.Any? || last.data == w.data) then 1 else 0
  }

  function Returns(log: seq<HandlerCall>, q: nat, w: Which): nat {
    if log == [] then 0
    else
      var last := log[|log| - 1];
      Returns(log[..|log| - 1], q, w)
      + if last.ReturnCall? && last.probe == q && (w.Any? || last.data == w.data) then 1 else 0
  }

  /** Every entry handler call has had its return handler call, or its instance is in flight. */
  ghost predicate Logged(h: Hooks) {
    forall q, w :: Entries(h.log, q, w) == Returns(h.log, q, w) + InFlight(h.stacks, q, w)
  }

  lemma PreHandlerLogs(h: Hooks, q: nat, t: nat, regs: Regs)
    requires Logged(h) && q in h.free && q in h.missed && t < |h.stacks|
    ensures Logged(PreHandler(h, q, t, regs).0)
  {
    hide InFlight, Held;
    if h.free[q] != [] {
      var after := PreHandler(h, q, t, regs).0;
      forall x, w
        ensures Entries(after.log, x, w) == Returns(after.log, x, w) + InFlight(after.stacks, x, w)
      {
        PushInFlight(h.stacks, t, after.stacks[t][|h.stacks[t]|], x, w);
        assert after.log[..|h.log|] == h.log;
      }
    }
  }

  lemma TrampolineLogs(h: Hooks, t: nat, fp: nat)
    requires Logged(h) && t < |h.stacks|
    ensures Trampoline(h, t, fp).Some? ==> Logged(Trampoline(h, t, fp).value.0)
  {
    hide InFlight, Held;
    if Trampoline(h, t, fp).Some? {
      var after := Trampoline(h, t, fp).value.0;
      forall x, w
        ensures Entries(after.log, x, w) == Returns(after.log, x, w) + InFlight(after.stacks, x, w)
      {
        PopInFlight(h.stacks, t, x, w);
        assert after.log[..|h.log|] == h.log;
      }
    }
  }

  // ----- Whole entries and returns

  ghost predicate HooksOk(h: Hooks, pools: map<nat, seq<Instance>>) {
    Conserved(h, pools) && Logged(h)
  }

  /** What an entry does to the frame it hooks. */
  function Hooked(f: Frame, taken: nat, regs: Regs): Frame {
    f.(lr := regs.lr, hooked := f.hooked + taken)
  }

  /** One probe: its instance, if there is one, joins the chain of the call. */
  lemma PreHandlerMatches(h: Hooks, q: nat, t: nat, below: seq<Frame>, f: Frame)
    requires q in h.free && q in h.missed && t < |h.stacks| && Matches(below + [f], h.stacks[t], h.free.Keys)
    ensures var next := PreHandler(h, q, t, Regs(f.lr, f.fp));
            && next.0.free.Keys == h.free.Keys && next.0.missed.Keys == h.missed.Keys && |next.0.stacks| == |h.stacks|
            && (forall x | 0 <= x < |h.stacks| && x != t :: next.0.stacks[x] == h.stacks[x])
            && |next.0.stacks[t]| >= |h.stacks[t]| && next.1.fp == f.fp
            && Matches(below + [Hooked(f, |next.0.stacks[t]| - |h.stacks[t]|, next.1)], next.0.stacks[t], h.free.Keys)
  {
    var stack := h.stacks[t];
    var next := PreHandler(h, q, t, Regs(f.lr, f.fp));
    var after := next.0.stacks[t];
    var g := Hooked(f, |after| - |stack|, next.1);
    assert (below + [f])[..|below|] == below && (below + [g])[..|below|] == below;
    assert after[..|after| - g.hooked] == stack[..|stack| - f.hooked];
    assert next.0.free.Keys == h.free.Keys;
    if h.free[q] != [] {
      assert after[|after| - g.hooked..] == stack[|stack| - f.hooked..] + [after[|stack|]];
    }
  }

  lemma {:induction false} PreHandlersMatch(h: Hooks, pools: map<nat, seq<Instance>>, probes: seq<nat>, t: nat,
         below: seq<Frame>, f: Frame)
    requires (forall q | q in probes :: q in h.free && q in h.missed) && t < |h.stacks| && HooksOk(h, pools)
    requires Matches(below + [f], h.stacks[t], h.free.Keys)
    ensures var next := PreHandlers(h, probes, t, Regs(f.lr, f.fp));
            && HooksOk(next.0, pools) && next.0.free.Keys == h.free.Keys && |next.0.stacks| == |h.stacks|
            && (forall x | 0 <= x < |h.stacks| && x != t :: next.0.stacks[x] == h.stacks[x])
            && |next.0.stacks[t]| >= |h.stacks[t]| && next.1.fp == f.fp
            && Matches(below + [Hooked(f, |next.0.stacks[t]| - |h.stacks[t]|, next.1)], next.0.stacks[t], h.free.Keys)
    decreases |probes|
  {
    hide Matches, Conserved, Logged, PreHandler;
    if probes == [] {
      assert Hooked(f, 0, Regs(f.lr, f.fp)) == f;
    } else {
      var next := PreHandler(h, probes[0], t, Regs(f.lr, f.fp));
      PreHandlerMatches(h, probes[0], t, below, f);
      KeysPooled(h, pools);
      PreHandlerConserves(h, pools, probes[0], t, Regs(f.lr, f.fp));
      PreHandlerLogs(h, probes[0], t, Regs(f.lr, f.fp));
      var g := Hooked(f, |next.0.stacks[t]| - |h.stacks[t]|, next.1);
      assert Regs(g.lr, g.fp) == next.1;
      PreHandlersMatch(next.0, pools, probes[1..], t, below, g);
    }
  }

  lemma KeysPooled(h: Hooks, pools: map<nat, seq<Instance>>)
    requires Conserved(h, pools)
    ensures h.free.Keys == pools.Keys && h.missed.Keys == pools.Keys
  {
  }

  /** The trampoline pops the chain of the call that returns, and nothing else. */
  lemma TrampolineMatches(h: Hooks, t: nat, below: seq<Frame>, f: Frame)
    requires t < |h.stacks| && Matches(below + [f], h.stacks[t], h.free.Keys) && f.lr == TRAMPOLINE
    ensures f.hooked > 0 && Trampoline(h, t, f.fp).Some?
    ensures var next := Trampoline(h, t, f.fp).value;
            && next.0.free.Keys == h.free.Keys && next.0.missed == h.missed && |next.0.stacks| == |h.stacks|
            && (forall x | 0 <= x < |h.stacks| && x != t :: next.0.stacks[x] == h.stacks[x])
            && Matches(below + [f.(lr := next.1, hooked := f.hooked - 1)], next.0.stacks[t], h.free.Keys)
  {
    var stack := h.stacks[t];
    assert (below + [f])[..|below|] == below;
    var chain := stack[|stack| - f.hooked..];
    assert Chain(f, chain, h.free.Keys) && chain != [];
    assert stack[|stack| - 1] == chain[|chain| - 1];
    var next := Trampoline(h, t, f.fp).value;
    var g := f.(lr := next.1, hooked := f.hooked - 1);
    var after := next.0.stacks[t];
    assert (below + [g])[..|below|] == below;
    assert after[|after| - g.hooked..] == chain[..|chain| - 1];
    assert after[..|after| - g.hooked] == stack[..|stack| - f.hooked];
    assert next.0.free.Keys == h.free.Keys;
  }

  /** A return goes through the trampoline once for each instance of its call, and reaches the caller. */
  lemma {:induction false} ReturnReaches(h: Hooks, pools: map<nat, seq<Instance>>, t: nat, below: seq<Frame>, f: Frame)
    requires t < |h.stacks| && Matches(below + [f], h.stacks[t], h.free.Keys) && HooksOk(h, pools)
    ensures ReturnTo(h, t, Regs(f.lr, f.fp)).Some?
    ensures var next := ReturnTo(h, t, Regs(f.lr, f.fp)).value;
            && next.1 == f.ret && HooksOk(next.0, pools) && next.0.free.Keys == h.free.Keys && next.0.missed == h.missed
            && |next.0.stacks| == |h.stacks| && Matches(below, next.0.stacks[t], h.free.Keys)
            && (forall x | 0 <= x < |h.stacks| && x != t :: next.0.stacks[x] == h.stacks[x])
    decreases f.hooked
  {
    hide Conserved, Logged, Trampoline;
    if f.lr == TRAMPOLINE {
      TrampolineMatches(h, t, below, f);
      var next := Trampoline(h, t, f.fp).value;
      TrampolineConserves(h, pools, t, f.fp);
      TrampolineLogs(h, t, f.fp);
      hide Matches;
      ReturnReaches(next.0, pools, t, below, f.(lr := next.1, hooked := f.hooked - 1));
    } else {
      assert (below + [f])[..|below|] == below;
      assert h.stacks[t][..|h.stacks[t]|] == h.stacks[t];
    }
  }

  // ----- Runs

  function Top(s: Sys, t: nat): Frame
    requires t < |s.frames| && s.frames[t] != []
  {
    s.frames[t][|s.frames[t]| - 1]
  }

  function Below(s: Sys, t: nat): seq<Frame>
    requires t < |s.frames| && s.frames[t] != []
  {
    s.frames[t][..|s.frames[t]| - 1]
  }

  /** Calls nest: a task enters and returns from its innermost call. No call returns to the trampoline. */
  predicate Ready(s: Sys, e: Event) {
    && e.t < |s.frames| == |s.hooks.stacks|
    && match e
       case Call(_, ret, _) => ret != TRAMPOLINE
       case Enter(t, probes) => s.frames[t] != [] && forall q | q in probes :: q in s.hooks.free && q in s.hooks.missed
       case Return(t) => s.frames[t] != []
  }

  /** The state after the event; nothing where the source panics. */
  function Step(s: Sys, e: Event): Option<Sys>
    requires Ready(s, e)
  {
    match e
    case Call(t, ret, fp) => Some(s.(frames := s.frames[t := s.frames[t] + [Frame(ret, fp, ret, 0)]]))
    case Enter(t, probes) =>
      var f := Top(s, t);
      var next := PreHandlers(s.hooks, probes, t, Regs(f.lr, f.fp));
      if t >= |next.0.stacks| || |next.0.stacks[t]| < |s.hooks.stacks[t]| then None
      else
        var g := Hooked(f, |next.0.stacks[t]| - |s.hooks.stacks[t]|, next.1);
        Some(Sys(next.0, s.frames[t := Below(s, t) + [g]]))
    case Return(t) =>
      match ReturnTo(s.hooks, t, Regs(Top(s, t).lr, Top(s, t).fp))
      case None => None
      case Some(next) => Some(Sys(next.0, s.frames[t := Below(s, t)]))
  }

  function Exec(s: Sys, events: seq<Event>): Option<Sys> {
    if events == [] then Some(s)
    else
      match Exec(s, events[..|events| - 1])
      case None => None
      case Some(u) => if Ready(u, events[|events| - 1]) then Step(u, events[|events| - 1]) else None
  }

  /** A run of well-nested calls, enters and returns, of any number of tasks. */
  predicate WellNested(s: Sys, events: seq<Event>) {
    events == []
    || (WellNested(s, events[..|events| - 1])
        && (Exec(s, events[..|events| - 1]).Some?
          ==> Ready(Exec(s, events[..|events| - 1]).value, events[|events| - 1])))
  }

  /** No task has made a call; the pools are full. */
  function Start(pools: map<nat, seq<Instance>>, tasks: nat): Sys {
    Sys(Hooks(pools, map q | q in pools :: 0, seq(tasks, _ => []), []), seq(tasks, _ => []))
  }

  ghost predicate Inv(s: Sys, pools: map<nat, seq<Instance>>) {
    AllMatch(s) && HooksOk(s.hooks, pools)
  }

  lemma {:induction false} NoneInFlight(stacks: seq<seq<Instance>>, q: nat, w: Which)
    requires forall t | 0 <= t < |stacks| :: stacks[t] == []
    ensures InFlight(stacks, q, w) == 0
  {
    if stacks != [] {
      NoneInFlight(stacks[1..], q, w);
    }
  }

  lemma StartOk(pools: map<nat, seq<Instance>>, tasks: nat)
    ensures Inv(Start(pools, tasks), pools)
  {
    var h := Start(pools, tasks).hooks;
    forall q, w
      ensures InFlight(h.stacks, q, w) == 0
    {
      NoneInFlight(h.stacks, q, w);
    }
    hide InFlight, Held, Kept;
    assert h.missed.Keys == pools.Keys;
    assert Conserved(h, pools) && Logged(h);
    hide Conserved, Logged;
  }

  lemma TaskMatches(s: Sys, pools: map<nat, seq<Instance>>, t: nat)
    requires Inv(s, pools) && t < |s.frames| && s.frames[t] != []
    ensures |s.hooks.stacks| == |s.frames| && Matches(Below(s, t) + [Top(s, t)], s.hooks.stacks[t], s.hooks.free.Keys)
  {
    hide Matches, HooksOk;
    assert Below(s, t) + [Top(s, t)] == s.frames[t];
  }

  /** No event panics: not the frame assertion, not the weak pointer, not an empty task stack. */
  lemma StepKeeps(s: Sys, pools: map<nat, seq<Instance>>, e: Event)
    requires Inv(s, pools) && Ready(s, e)
    ensures Step(s, e).Some? && Inv(Step(s, e).value, pools)
  {
    hide Inv, Ready, Step;
    match e
    case Call(t, ret, fp) => CallKeeps(s, pools, t, ret, fp);
    case Enter(t, probes) => EnterKeeps(s, pools, t, probes);
    case Return(t) => ReturnKeeps(s, pools, t);
  }

  lemma CallKeeps(s: Sys, pools: map<nat, seq<Instance>>, t: nat, ret: nat, fp: nat)
    requires Inv(s, pools) && Ready(s, Call(t, ret, fp))
    ensures Step(s, Call(t, ret, fp)).Some? && Inv(Step(s, Call(t, ret, fp)).value, pools)
  {
    hide HooksOk;
    CallMatches(s.frames[t], s.hooks.stacks[t], s.hooks.free.Keys, Frame(ret, fp, ret, 0));
  }

  lemma EnterKeeps(s: Sys, pools: map<nat, seq<Instance>>, t: nat, probes: seq<nat>)
    requires Inv(s, pools) && Ready(s, Enter(t, probes))
    ensures Step(s, Enter(t, probes)).Some? && Inv(Step(s, Enter(t, probes)).value, pools)
  {
    TaskMatches(s, pools, t);
    hide Matches, HooksOk, PreHandlers;
    PreHandlersMatch(s.hooks, pools, probes, t, Below(s, t), Top(s, t));
  }

  lemma ReturnKeeps(s: Sys, pools: map<nat, seq<Instance>>, t: nat)
    requires Inv(s, pools) && Ready(s, Return(t))
    ensures Step(s, Return(t)).Some? && Inv(Step(s, Return(t)).value, pools)
  {
    TaskMatches(s, pools, t);
    hide Matches, HooksOk, ReturnTo;
    ReturnReaches(s.hooks, pools, t, Below(s, t), Top(s, t));
  }

  lemma CallMatches(frames: seq<Frame>, stack: seq<Instance>, owners: set<nat>, f: Frame)
    requires Matches(frames, stack, owners) && f.hooked == 0 && f.lr == f.ret != TRAMPOLINE
    ensures Matches(frames + [f], stack, owners)
  {
    assert (frames + [f])[..|frames|] == frames;
    assert stack[..|stack|] == stack;
  }

  /** Every well-nested run goes through without a panic and keeps the invariant. */
  lemma {:induction false} RunKeeps(pools: map<nat, seq<Instance>>, tasks: nat, events: seq<Event>)
    requires WellNested(Start(pools, tasks), events)
    ensures Exec(Start(pools, tasks), events).Some? && Inv(Exec(Start(pools, tasks), events).value, pools)
  {
    hide Inv, Step, Ready, Start;
    if events == [] {
      StartOk(pools, tasks);
    } else {
      var before := events[..|events| - 1];
      RunKeeps(pools, tasks, before);
      StepKeeps(Exec(Start(pools, tasks), before).value, pools, events[|events| - 1]);
    }
  }

  /** After any run, a return reaches the address its innermost call was given. */
  lemma EveryReturnReachesItsCaller(pools: map<nat, seq<Instance>>, tasks: nat, events: seq<Event>, t: nat)
    requires WellNested(Start(pools, tasks), events + [Return(t)])
    ensures Exec(Start(pools, tasks), events).Some?
    ensures var s := Exec(Start(pools, tasks), events).value;
            && t < |s.frames| && s.frames[t] != [] && t < |s.hooks.stacks|
            && ReturnTo(s.hooks, t, Regs(Top(s, t).lr, Top(s, t).fp)).Some?
            && ReturnTo(s.hooks, t, Regs(Top(s, t).lr, Top(s, t).fp)).value.1 == Top(s, t).ret
  {
    assert (events + [Return(t)])[..|events|] == events;
    hide Exec, ReturnTo;
    RunKeeps(pools, tasks, events);
    var s := Exec(Start(pools, tasks), events).value;
    TaskMatches(s, pools, t);
    hide Matches, HooksOk;
    ReturnReaches(s.hooks, pools, t, Below(s, t), Top(s, t));
  }

  // ----- What is conserved, and what is missed

  lemma {:induction false} KeptAll(pool: seq<Instance>)
    ensures Kept(pool, Any) == |pool|
  {
    if pool != [] {
      KeptAll(pool[..|pool| - 1]);
    }
  }

  /**
    After any run the free instances of a probe and those in flight are its pool, datum by
    datum. An entry then is missed exactly when all the instances are in flight.
  */
  lemma PoolsConserved(pools: map<nat, seq<Instance>>, tasks: nat, events: seq<Event>, q: nat)
    requires WellNested(Start(pools, tasks), events) && q in pools
    ensures Exec(Start(pools, tasks), events).Some?
    ensures var h := Exec(Start(pools, tasks), events).value.hooks;
            && q in h.free && q in h.missed
            && (forall w :: Kept(h.free[q], w) + InFlight(h.stacks, q, w) == Kept(pools[q], w))
            && |h.free[q]| + InFlight(h.stacks, q, Any) == |pools[q]|
            && (forall t, regs | 0 <= t < |h.stacks| ::
                  PreHandler(h, q, t, regs).0.missed[q]
                    == h.missed[q] + if InFlight(h.stacks, q, Any) == |pools[q]| then 1 else 0)
  {
    RunKeeps(pools, tasks, events);
    hide Exec, InFlight, AllMatch, Logged, Kept;
    var h := Exec(Start(pools, tasks), events).value.hooks;
    KeptAll(h.free[q]);
    KeptAll(pools[q]);
  }

  /** How often the run entered a function with the probe. */
  function Offered(events: seq<Event>, q: nat): nat {
    if events == [] then 0
    else
      Offered(events[..|events| - 1], q)
      + match events[|events| - 1] case Enter(_, probes) => Count(probes, q) case _ => 0
  }

  function Count(probes: seq<nat>, q: nat): nat {
    if probes == [] then 0 else (if probes[0] == q then 1 else 0) + Count(probes[1..], q)
  }

  function MissedOf(h: Hooks, q: nat): nat {
    if q in h.missed then h.missed[q] else 0
  }

  lemma {:induction false} PreHandlersCount(h: Hooks, probes: seq<nat>, t: nat, regs: Regs, q: nat)
    requires (forall x | x in probes :: x in h.free && x in h.missed) && t < |h.stacks|
    ensures var next := PreHandlers(h, probes, t, regs).0;
            MissedOf(next, q) + Entries(next.log, q, Any) == MissedOf(h, q) + Entries(h.log, q, Any) + Count(probes, q)
    decreases |probes|
  {
    if probes != [] {
      var next := PreHandler(h, probes[0], t, regs);
      assert next.0.log != h.log ==> next.0.log[..|h.log|] == h.log;
      PreHandlersCount(next.0, probes[1..], t, next.1, q);
    }
  }

  lemma {:induction false} ReturnToCount(h: Hooks, t: nat, regs: Regs, q: nat)
    requires t < |h.stacks|
    ensures var next := ReturnTo(h, t, regs);
            next.Some? ==>
                      next.value.0.missed == h.missed && Entries(next.value.0.log, q, Any) == Entries(h.log, q, Any)
    decreases |h.stacks[t]|
  {
    if regs.lr == TRAMPOLINE && Trampoline(h, t, regs.fp).Some? {
      var next := Trampoline(h, t, regs.fp).value;
      assert next.0.log[..|h.log|] == h.log;
      ReturnToCount(next.0, t, Regs(next.1, regs.fp), q);
    }
  }

  lemma {:induction false} OffersCounted(pools: map<nat, seq<Instance>>, tasks: nat, events: seq<Event>, q: nat)
    requires WellNested(Start(pools, tasks), events)
    ensures Exec(Start(pools, tasks), events).Some?
    ensures var h := Exec(Start(pools, tasks), events).value.hooks;
            Offered(events, q) == MissedOf(h, q) + Entries(h.log, q, Any)
  {
    RunKeeps(pools, tasks, events);
    if events != [] {
      var before, e := events[..|events| - 1], events[|events| - 1];
      OffersCounted(pools, tasks, before, q);
      var s := Exec(Start(pools, tasks), before).value;
      hide Inv, Start, PreHandlers, ReturnTo, Entries, Count, MissedOf;
      match e
      case Call(_, _, _) =>
      case Enter(t, probes) => PreHandlersCount(s.hooks, probes, t, Regs(Top(s, t).lr, Top(s, t).fp), q);
      case Return(t) => ReturnToCount(s.hooks, t, Regs(Top(s, t).lr, Top(s, t).fp), q);
    }
  }

  /**
    Every entry into a function with the probe is accounted for: it was missed, or its return
    was handled, or its instance is in flight.
  */
  lemma EntriesAccounted(pools: map<nat, seq<Instance>>, tasks: nat, events: seq<Event>, q: nat)
    requires WellNested(Start(pools, tasks), events)
    ensures Exec(Start(pools, tasks), events).Some?
    ensures var h := Exec(Start(pools, tasks), events).value.hooks;
            Offered(events, q) == MissedOf(h, q) + Returns(h.log, q, Any) + InFlight(h.stacks, q, Any)
  {
    RunKeeps(pools, tasks, events);
    hide Exec, InFlight, AllMatch, Conserved, Entries, Returns, WellNested, Offered;
    OffersCounted(pools, tasks, events, q);
  }
}
