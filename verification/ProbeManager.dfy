/**
  The manager's two indexes: lists of probes by break address and by debug address
  (kprobe/src/manager.rs).
*/
module ProbeManager {
  import opened Bytes
  import opened ProbeTypes

  type Index = map<nat, seq<Probe>>

  function ListAt(m: Index, key: nat): seq<Probe> {
    if key in m then m[key] else []
  }

  function PushAt(m: Index, key: nat, p: Probe): Index {
    m[key := ListAt(m, key) + [p]]
  }

  /** The probe comes after those of the key, and no other list changes. */
  lemma PushedLast(m: Index, key: nat, p: Probe)
    ensures PushAt(m, key, p) == m[key := (if key in m then m[key] else []) + [p]]
  {
  }

  function WithoutFirst(q: Probe, p: Probe): seq<Probe> {
    if q == p then [] else [q]
  }

  function Without(list: seq<Probe>, p: Probe): seq<Probe> {
    if list == [] then [] else WithoutFirst(list[0], p) + Without(list[1..], p)
  }

  /** Removes the probe from the list, and an empty list from the index. */
  function RemoveAt(m: Index, key: nat, p: Probe): Index {
    var list := Without(ListAt(m, key), p);
    if list == [] then m - {key} else m[key := list]
  }

  function Rekey(m: Index, from: nat, to: nat): Index {
    if from in m then (m - {from})[to := m[from]] else m
  }

  ghost predicate NoDuplicates(list: seq<Probe>) {
    forall i, j | 0 <= i < j < |list| :: list[i] != list[j]
  }

  // ----- Lists

  lemma {:induction false} WithoutAppend(list: seq<Probe>, p: Probe, q: Probe)
    ensures Without(list + [q], p) == Without(list, p) + (if q == p then [] else [q])
  {
    if list == [] {
      assert [q][1..] == [];
    } else {
      WithoutAppend(list[1..], p, q);
      var last := if q == p then [] else [q];
      assert Without(list + [q], p) == WithoutFirst(list[0], p) + Without(list[1..] + [q], p) by {
        assert (list + [q])[1..] == list[1..] + [q] && (list + [q])[0] == list[0];
      }
      assert WithoutFirst(list[0], p) + (Without(list[1..], p) + last)
          == WithoutFirst(list[0], p) + Without(list[1..], p) + last;
    }
  }

  lemma {:induction false} WithoutHolds(list: seq<Probe>, p: Probe)
    ensures forall q :: q in Without(list, p) <==> q in list && q != p
  {
    if list != [] {
      WithoutHolds(list[1..], p);
      assert list == [list[0]] + list[1..];
    }
  }

  lemma {:induction false} WithoutAbsent(list: seq<Probe>, p: Probe)
    requires p !in list
    ensures Without(list, p) == list
  {
    if list != [] {
      WithoutAbsent(list[1..], p);
    }
  }

  /** Of two that are left, the earlier one stood earlier. */
  lemma {:induction false} WithoutKeepsOrder(list: seq<Probe>, p: Probe, i: nat, j: nat) returns (k: int, l: nat)
    requires i < j < |Without(list, p)|
    ensures 0 <= k < l < |list| && list[k] == Without(list, p)[i] && list[l] == Without(list, p)[j]
  {
    var first, rest := WithoutFirst(list[0], p), Without(list[1..], p);
    assert Without(list, p) == first + rest;
    hide Without;
    if i < |first| {
      k := -1;
      l := WithoutIn(list[1..], p, j - |first|);
    } else {
      k, l := WithoutKeepsOrder(list[1..], p, i - |first|, j - |first|);
    }
    k, l := k + 1, l + 1;
  }

  lemma WithoutIn(list: seq<Probe>, p: Probe, j: nat) returns (l: nat)
    requires j < |Without(list, p)|
    ensures l < |list| && list[l] == Without(list, p)[j]
  {
    WithoutHolds(list, p);
    assert Without(list, p)[j] in list;
    l :| 0 <= l < |list| && list[l] == Without(list, p)[j];
  }

  /** Removing keeps the others in order, each once if it was there once. */
  lemma {:induction false} WithoutKeepsDistinct(list: seq<Probe>, p: Probe)
    requires NoDuplicates(list)
    ensures NoDuplicates(Without(list, p))
  {
    if list != [] {
      WithoutKeepsDistinct(list[1..], p);
      WithoutHolds(list[1..], p);
      var rest := Without(list[1..], p);
      assert list[0] !in list[1..];
      assert forall j | 0 <= j < |rest| :: rest[j] in rest;
    }
  }

  /** Removing a probe right after inserting it gives the index back, empty lists and all. */
  lemma RemoveUndoesPush(m: Index, key: nat, p: Probe)
    requires p !in ListAt(m, key) && (key in m ==> m[key] != [])
    ensures RemoveAt(PushAt(m, key, p), key, p) == m
  {
    var list := ListAt(m, key);
    WithoutAppend(list, p, p);
    WithoutAbsent(list, p);
    assert ListAt(PushAt(m, key, p), key) == list + [p];
    assert Without(list + [p], p) == list + [] == list;
  }

  // ----- The two indexes agree

  predicate Injective(keyOf: map<nat, nat>) {
    forall a, b | a in keyOf && b in keyOf && keyOf[a] == keyOf[b] :: a == b
  }

  predicate HasKey(keyOf: map<nat, nat>, d: nat) {
    exists a | a in keyOf :: keyOf[a] == d
  }

  /**
    `keyOf` gives the debug address of each break address: the list under it is the break
    list of that address, never empty, and no other debug list is left over.
  */
  predicate Agree(keyOf: map<nat, nat>, breaks: Index, debugs: Index) {
    && keyOf.Keys == breaks.Keys && Injective(keyOf)
    && (forall a | a in keyOf :: keyOf[a] in debugs && debugs[keyOf[a]] == breaks[a] && breaks[a] != [])
    && (forall d | d in debugs :: HasKey(keyOf, d))
  }

  lemma PushAgrees(keyOf: map<nat, nat>, breaks: Index, debugs: Index, a: nat, p: Probe)
    requires Agree(keyOf, breaks, debugs) && a in keyOf
    ensures Agree(keyOf, PushAt(breaks, a, p), PushAt(debugs, keyOf[a], p))
  {
  }

  lemma StartAgrees(keyOf: map<nat, nat>, breaks: Index, debugs: Index, a: nat, d: nat, p: Probe)
    requires Agree(keyOf, breaks, debugs) && a !in keyOf && d !in debugs
    ensures Agree(keyOf[a := d], PushAt(breaks, a, p), PushAt(debugs, d, p))
  {
    assert debugs.Keys + {d} == PushAt(debugs, d, p).Keys;
    forall x | x in PushAt(debugs, d, p)
      ensures HasKey(keyOf[a := d], x)
    {
      NewKey(keyOf, a, d, x);
    }
    hide HasKey;
  }

  lemma NewKey(keyOf: map<nat, nat>, a: nat, d: nat, x: nat)
    requires x == d || (HasKey(keyOf, x) && (a in keyOf ==> keyOf[a] != x))
    ensures HasKey(keyOf[a := d], x)
  {
    if x == d {
      assert keyOf[a := d][a] == d;
    } else {
      var b :| b in keyOf && keyOf[b] == x;
      assert keyOf[a := d][b] == x;
    }
  }

  /** Removing from both lists of an address keeps them equal; an emptied address leaves both indexes. */
  lemma RemoveAgrees(keyOf: map<nat, nat>, breaks: Index, debugs: Index, a: nat, p: Probe)
    requires Agree(keyOf, breaks, debugs) && a in keyOf
    ensures Agree(if a in RemoveAt(breaks, a, p) then keyOf else keyOf - {a},
                  RemoveAt(breaks, a, p), RemoveAt(debugs, keyOf[a], p))
  {
    hide Without;
    assert ListAt(debugs, keyOf[a]) == ListAt(breaks, a);
    if Without(ListAt(breaks, a), p) == [] {
      EmptiedAgrees(keyOf, breaks, debugs, a);
    } else {
      assert a in RemoveAt(breaks, a, p) && keyOf[a] in RemoveAt(debugs, keyOf[a], p);
      hide HasKey;
    }
  }

  lemma EmptiedAgrees(keyOf: map<nat, nat>, breaks: Index, debugs: Index, a: nat)
    requires Agree(keyOf, breaks, debugs) && a in keyOf
    ensures Agree(keyOf - {a}, breaks - {a}, debugs - {keyOf[a]})
  {
    forall x | x in debugs - {keyOf[a]}
      ensures HasKey(keyOf - {a}, x)
    {
      OtherKey(keyOf, a, x);
    }
    hide HasKey;
  }

  lemma OtherKey(keyOf: map<nat, nat>, a: nat, x: nat)
    requires HasKey(keyOf, x) && (a in keyOf ==> keyOf[a] != x)
    ensures HasKey(keyOf - {a}, x)
  {
    var b :| b in keyOf && keyOf[b] == x;
    assert (keyOf - {a})[b] == x;
  }

  /** A probe whose address and debug address are not listed is not found. */
  lemma RemoveAbsent(keyOf: map<nat, nat>, breaks: Index, debugs: Index, a: nat, d: nat, p: Probe)
    requires Agree(keyOf, breaks, debugs) && a !in keyOf && !HasKey(keyOf, d)
    ensures RemoveAt(breaks, a, p) == breaks && RemoveAt(debugs, d, p) == debugs
  {
    hide HasKey;
  }

  lemma EmptyListLeaves(m: Index, key: nat, p: Probe)
    ensures |ListAt(RemoveAt(m, key, p), key)| == 0 <==> key !in RemoveAt(m, key, p)
  {
  }

  /** The uprobe re-key: the address moves to a fresh debug address and the indexes still agree. */
  lemma RekeyAgrees(keyOf: map<nat, nat>, breaks: Index, debugs: Index, a: nat, d: nat)
    requires Agree(keyOf, breaks, debugs) && a in keyOf && d !in debugs
    ensures Agree(keyOf[a := d], breaks, Rekey(debugs, keyOf[a], d))
  {
    forall x | x in Rekey(debugs, keyOf[a], d)
      ensures HasKey(keyOf[a := d], x)
    {
      NewKey(keyOf, a, d, x);
    }
  }

  class Manager {
    var breakList: Index
    var debugList: Index

    constructor ()
      ensures breakList == map[] && debugList == map[]
    {
      breakList, debugList := map[], map[];
    }

    method InsertProbe(p: Probe, point: Point)
      modifies this
      ensures breakList == PushAt(old(breakList), point.BreakAddress(), p)
      ensures debugList == PushAt(old(debugList), point.DebugAddress(), p)
      ensures breakList == old(breakList)[point.addr :=
                             (if point.addr in old(breakList) then old(breakList)[point.addr] else []) + [p]]
      ensures var debug := point.StepAddress() + 4;
              debugList
              == old(debugList)[debug := (if debug in old(debugList) then old(debugList)[debug] else []) + [p]]
    {
      breakList := breakList[point.BreakAddress() := ListAt(breakList, point.BreakAddress()) + [p]];
      debugList := debugList[point.DebugAddress() := ListAt(debugList, point.DebugAddress()) + [p]];
    }

    method GetBreakList(address: nat) returns (list: Option<seq<Probe>>)
      ensures list == if address in breakList then Some(breakList[address]) else None
    {
      list := if address in breakList then Some(breakList[address]) else None;
    }

    method GetDebugList(address: nat) returns (list: Option<seq<Probe>>)
      ensures list == if address in debugList then Some(debugList[address]) else None
    {
      list := if address in debugList then Some(debugList[address]) else None;
    }

    method KprobeNum(address: nat) returns (n: nat)
      ensures n == |ListAt(breakList, address)|
    {
      n := if address in breakList then |breakList[address]| else 0;
    }

    method ReplaceDebugListWithNewAddress(oldAddress: nat, newAddress: nat)
      modifies this`debugList
      ensures debugList == Rekey(old(debugList), oldAddress, newAddress)
    {
      if oldAddress in debugList {
        var list := debugList[oldAddress];
        debugList := debugList - {oldAddress};
        debugList := debugList[newAddress := list];
      }
    }

    method RemoveProbe(p: Probe, point: Point)
      modifies this
      ensures breakList == RemoveAt(old(breakList), point.BreakAddress(), p)
      ensures debugList == RemoveAt(old(debugList), point.DebugAddress(), p)
    {
      breakList := RemoveOne(breakList, point.BreakAddress(), p);
      debugList := RemoveOne(debugList, point.DebugAddress(), p);
    }

    /** remove_one_break and remove_one_debug: retain the others, drop an empty list. */
    static method RemoveOne(index: Index, address: nat, p: Probe) returns (r: Index)
      ensures r == RemoveAt(index, address, p)
    {
      r := index;
      if address in r {
        var kept := Retain(r[address], p);
        r := r[address := kept];
      }
      if address !in r || |r[address]| == 0 {
        r := r - {address};
      }
    }

    static method Retain(list: seq<Probe>, p: Probe) returns (kept: seq<Probe>)
      ensures kept == Without(list, p)
    {
      kept := [];
      for i := 0 to |list|
        invariant kept == Without(list[..i], p)
      {
        WithoutAppend(list[..i], p, list[i]);
        assert list[..i] + [list[i]] == list[..i + 1];
        if list[i] != p {
          kept := kept + [list[i]];
        }
      }
      assert list[..|list|] == list;
    }
  }
}
