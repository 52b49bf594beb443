/** The order of the probes of one address, over whole runs (kprobe/src/manager.rs). */
module ProbeOrder {
  import opened Bytes
  import opened ProbeTypes
  import opened ProbeManager
  import opened ProbeMemory
  import opened ProbeRegistry

  /** When the probe was registered, the last time before step `n`; -1 when it was not. */
  ghost function Since(states: seq<Registry>, acts: seq<Action>, n: nat, p: Probe): (m: int)
    requires n <= |acts| < |states|
    ensures -1 <= m < n
  {
    if n == 0 then -1
    else if acts[n - 1].DoRegister? && acts[n - 1].p == p && p in states[n].pointOf then n - 1
    else Since(states, acts, n - 1, p)
  }

  /** The list is sorted by the times of registration. */
  ghost predicate Sorted(states: seq<Registry>, acts: seq<Action>, n: nat, list: seq<Probe>)
    requires n <= |acts| < |states|
  {
    forall i, j | 0 <= i < j < |list| :: Since(states, acts, n, list[i]) < Since(states, acts, n, list[j])
  }

  ghost predicate AllSorted(states: seq<Registry>, acts: seq<Action>, n: nat)
    requires n <= |acts| < |states|
  {
    forall a | a in states[n].breakList :: Sorted(states, acts, n, states[n].breakList[a])
  }

  lemma ListedLives(text: map<nat, word>, r: Registry, a: nat, p: Probe)
    requires Inv(text, r) && a in r.breakList && p in r.breakList[a]
    ensures p in r.pointOf
  {
    hide MemoryOk, Agree, NoDuplicates, ProbesOwned, PointsOwned, PointsListed, DebugKeys;
  }

  /** A step that leaves a list alone leaves it sorted, unless it registers one of its probes. */
  lemma StaysSorted(states: seq<Registry>, acts: seq<Action>, n: nat, list: seq<Probe>)
    requires n < |acts| < |states| && Sorted(states, acts, n, list)
    requires acts[n].DoRegister? ==> acts[n].p !in list
    ensures Sorted(states, acts, n + 1, list)
  {
    forall i | 0 <= i < |list|
      ensures Since(states, acts, n + 1, list[i]) == Since(states, acts, n, list[i])
    {
      assert list[i] in list;
    }
  }

  lemma RegisterSorts(text: map<nat, word>, states: seq<Registry>, acts: seq<Action>, n: nat)
    requires n < |acts| < |states| && Inv(text, states[n]) && AllSorted(states, acts, n) && acts[n].DoRegister?
    requires Permitted(text, states[n], acts[n]) && states[n + 1] == Perform(text, states[n], acts[n])
    ensures AllSorted(states, acts, n + 1)
  {
    var r, q, p, addr := states[n], states[n + 1], acts[n].p, acts[n].addr;
    RegisterKeeps(text, r, p, addr, acts[n].slot, acts[n].pid, acts[n].id);
    var before, after := r.breakList, q.breakList;
    var added := before[addr := (if addr in before then before[addr] else []) + [p]];
    assert after == before || (after == added && p in q.pointOf);
    hide Register, Perform, Permitted, Sorted;
    forall a | a in before
      ensures p !in before[a]
    {
      if p in before[a] {
        ListedLives(text, r, a, p);
        assert false;
      }
    }
    hide Inv;
    if after == before {
      NoneSorts(states, acts, n, before);
    } else {
      PushSorts(states, acts, n, before, addr, p);
    }
  }

  lemma NoneSorts(states: seq<Registry>, acts: seq<Action>, n: nat, before: Index)
    requires n < |acts| < |states| && acts[n].DoRegister? && forall a | a in before :: acts[n].p !in before[a]
    requires forall a | a in before :: Sorted(states, acts, n, before[a])
    ensures forall a | a in before :: Sorted(states, acts, n + 1, before[a])
  {
    hide Sorted;
    forall a | a in before
      ensures Sorted(states, acts, n + 1, before[a])
    {
      StaysSorted(states, acts, n, before[a]);
    }
  }

  lemma PushSorts(states: seq<Registry>, acts: seq<Action>, n: nat, before: Index, addr: nat, p: Probe)
    requires n < |acts| < |states| && acts[n].DoRegister? && acts[n].p == p && p in states[n + 1].pointOf
    requires forall a | a in before :: p !in before[a] && Sorted(states, acts, n, before[a])
    ensures var after := before[addr := (if addr in before then before[addr] else []) + [p]];
            forall a | a in after :: Sorted(states, acts, n + 1, after[a])
  {
    hide Sorted, Since;
    NoneSorts(states, acts, n, before);
    NothingSorted(states, acts, n + 1);
    LastSorted(states, acts, n, if addr in before then before[addr] else [], p);
  }

  lemma NothingSorted(states: seq<Registry>, acts: seq<Action>, n: nat)
    requires n <= |acts| < |states|
    ensures Sorted(states, acts, n, [])
  {
  }

  lemma LastSorted(states: seq<Registry>, acts: seq<Action>, n: nat, list: seq<Probe>, p: Probe)
    requires n < |acts| < |states| && Sorted(states, acts, n + 1, list) && p !in list
    requires acts[n].DoRegister? && acts[n].p == p && p in states[n + 1].pointOf
    ensures Sorted(states, acts, n + 1, list + [p])
  {
    forall i | 0 <= i < |list|
      ensures Since(states, acts, n + 1, list[i]) < n
    {
      assert list[i] in list;
    }
  }

  lemma UnlistSorts(text: map<nat, word>, states: seq<Registry>, acts: seq<Action>, n: nat)
    requires n < |acts| < |states| && Inv(text, states[n]) && AllSorted(states, acts, n) && acts[n].DoUnlist?
    requires Permitted(text, states[n], acts[n]) && states[n + 1] == Perform(text, states[n], acts[n])
    ensures AllSorted(states, acts, n + 1)
  {
    var r, p := states[n], acts[n].p;
    UnlistKeeps(text, r, p);
    var at := r.mem.points[r.pointOf[p]].addr;
    assert states[n + 1].breakList == RemoveAt(r.breakList, at, p);
    hide Inv, Perform, Unlist, RemoveAt, Sorted;
    RemoveSorts(states, acts, n, r.breakList, at, p);
    var after := states[n + 1].breakList;
    forall a | a in after
      ensures Sorted(states, acts, n + 1, after[a])
    {
      StaysSorted(states, acts, n, after[a]);
    }
  }

  lemma RemoveSorts(states: seq<Registry>, acts: seq<Action>, n: nat, breaks: Index, at: nat, p: Probe)
    requires n <= |acts| < |states| && forall a | a in breaks :: Sorted(states, acts, n, breaks[a])
    ensures forall a | a in RemoveAt(breaks, at, p) :: Sorted(states, acts, n, RemoveAt(breaks, at, p)[a])
  {
    NothingSorted(states, acts, n);
    WithoutSorted(states, acts, n, ListAt(breaks, at), p);
    hide Sorted, Without;
  }

  lemma WithoutSorted(states: seq<Registry>, acts: seq<Action>, n: nat, list: seq<Probe>, p: Probe)
    requires n <= |acts| < |states| && Sorted(states, acts, n, list)
    ensures Sorted(states, acts, n, Without(list, p))
  {
    hide Since, Without;
    var left := Without(list, p);
    forall i, j | 0 <= i < j < |left|
      ensures Since(states, acts, n, left[i]) < Since(states, acts, n, left[j])
    {
      var k, l := WithoutKeepsOrder(list, p, i, j);
    }
  }

  lemma OtherSorts(text: map<nat, word>, states: seq<Registry>, acts: seq<Action>, n: nat)
    requires n < |acts| < |states| && Inv(text, states[n]) && AllSorted(states, acts, n)
    requires acts[n].DoDropHandle? || acts[n].DoFirstBreak?
    requires Permitted(text, states[n], acts[n]) && states[n + 1] == Perform(text, states[n], acts[n])
    ensures AllSorted(states, acts, n + 1)
  {
    if acts[n].DoDropHandle? {
      DropHandleKeeps(text, states[n], acts[n].p);
      hide DropHandle;
    } else {
      FirstBreakKeeps(text, states[n], acts[n].addr, acts[n].user);
    }
    hide Inv, Sorted;
    forall a | a in states[n].breakList
      ensures Sorted(states, acts, n + 1, states[n].breakList[a])
    {
      StaysSorted(states, acts, n, states[n].breakList[a]);
    }
  }

  lemma RunStep(text: map<nat, word>, states: seq<Registry>, acts: seq<Action>, n: nat)
    requires Run(text, states, acts) && n < |acts| && Inv(text, states[n])
    ensures |states| == |acts| + 1 && Permitted(text, states[n], acts[n])
    ensures states[n + 1] == Perform(text, states[n], acts[n])
  {
    hide Inv, Permitted, Perform;
  }

  lemma {:induction false} RunSorts(text: map<nat, word>, states: seq<Registry>, acts: seq<Action>, n: nat)
    requires Run(text, states, acts) && n <= |acts|
    ensures Inv(text, states[n]) && AllSorted(states, acts, n)
    decreases n
  {
    hide Inv, Permitted, Perform, Sorted;
    RunKeeps(text, states, acts, n);
    if n > 0 {
      RunSorts(text, states, acts, n - 1);
      RunStep(text, states, acts, n - 1);
      hide Run, AllSorted;
      match acts[n - 1]
      case DoRegister(_, _, _, _, _) => RegisterSorts(text, states, acts, n - 1);
      case DoUnlist(_) => UnlistSorts(text, states, acts, n - 1);
      case DoDropHandle(_) => OtherSorts(text, states, acts, n - 1);
      case DoFirstBreak(_, _) => OtherSorts(text, states, acts, n - 1);
    }
  }

  lemma DebugListIs(text: map<nat, word>, r: Registry, a: nat)
    requires Inv(text, r) && a in r.breakList
    ensures a in r.pointList && r.pointList[a] in r.mem.points
    ensures var debug := r.mem.points[r.pointList[a]].DebugAddress();
            debug in r.debugList && r.debugList[debug] == r.breakList[a]
  {
    hide MemoryOk, ListsNamed, ProbesOwned, PointsOwned, Injective, HasKey;
    assert a in DebugKeys(r.mem.points, r.pointList);
  }

  /**
    Of two probes of one address the one registered earlier stands earlier in the list for the
    break, and in the list for the debug trap, in every state of every run.
  */
  lemma EarlierStandsEarlier(text: map<nat, word>, states: seq<Registry>, acts: seq<Action>, n: nat, a: nat, i: nat,
                             j: nat)
    requires Run(text, states, acts) && n <= |acts| && a in states[n].breakList
    requires i < |states[n].breakList[a]| && j < |states[n].breakList[a]|
    ensures var r := states[n];
            && (i < j <==> Since(states, acts, n, r.breakList[a][i]) < Since(states, acts, n, r.breakList[a][j]))
            && a in r.pointList && r.pointList[a] in r.mem.points
            && r.mem.points[r.pointList[a]].DebugAddress() in r.debugList
            && r.debugList[r.mem.points[r.pointList[a]].DebugAddress()] == r.breakList[a]
  {
    RunSorts(text, states, acts, n);
    DebugListIs(text, states[n], a);
    hide Inv, Since;
  }
}
