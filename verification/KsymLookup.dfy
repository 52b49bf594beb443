/** The reader's lookups over a mapped table (ksym/src/lib.rs). */
module KsymLookup {
  import opened Bytes
  import opened KsymOrder
  import opened KsymRecord
  import opened KsymBlob

  // ----- What a table holds

  /** The record of the symbol at place `i` in address order lies inside the names. */
  predicate RecordInside(t: Table, i: nat)
    requires i < |t.offsets|
  {
    && t.offsets[i] + PREFIX_LEN <= |t.names|
    && ReadLenAndType(t.names[t.offsets[i]..]).0 >= 1
    && t.offsets[i] + PREFIX_LEN + ReadLenAndType(t.names[t.offsets[i]..]).0 <= |t.names|
  }

  predicate WellFormed(t: Table) {
    && |t.addresses| == |t.offsets| == |t.seqs| == t.numSyms
    && (forall i | 0 <= i < t.numSyms :: t.seqs[i] < t.numSyms)
    && GoodTable(t.tokenTable, t.tokenIndex)
    && (forall i | 0 <= i < t.numSyms :: RecordInside(t, i))
  }

  lemma Inside(t: Table, i: nat)
    requires WellFormed(t) && i < t.numSyms
    ensures |t.offsets| == t.numSyms && GoodTable(t.tokenTable, t.tokenIndex) && RecordInside(t, i)
    ensures var start := t.offsets[i];
            && start + PREFIX_LEN + 1 <= start + PREFIX_LEN + ReadLenAndType(t.names[start..]).0 <= |t.names|
  {
    hide GoodTable, ReadLenAndType;
    assert RecordInside(t, i);
  }

  function TypeAt(t: Table, i: nat): byte
    requires WellFormed(t) && i < t.numSyms
  {
    assert RecordInside(t, i);
    ReadLenAndType(t.names[t.offsets[i]..]).1
  }

  function PayloadAt(t: Table, i: nat): (bytes: seq<byte>)
    requires WellFormed(t) && i < t.numSyms
    ensures bytes != []
  {
    assert RecordInside(t, i);
    var start := t.offsets[i] + PREFIX_LEN;
    t.names[start..start + ReadLenAndType(t.names[t.offsets[i]..]).0]
  }

  function NameAt(t: Table, i: nat): Name
    requires WellFormed(t) && i < t.numSyms
  {
    Expand(t.tokenTable, t.tokenIndex, PayloadAt(t, i))
  }

  /** The j-th name in name order. */
  function Nth(t: Table, j: nat): Name
    requires WellFormed(t) && j < t.numSyms
  {
    NameAt(t, t.seqs[j])
  }

  predicate NamesSorted(t: Table)
    requires WellFormed(t)
  {
    forall i, j | 0 <= i < j < t.numSyms :: !NameLess(Nth(t, j), Nth(t, i))
  }

  predicate AddressesSorted(t: Table) {
    forall i, j | 0 <= i < j < |t.addresses| :: t.addresses[i] <= t.addresses[j]
  }

  lemma BelowStaysBelow(t: Table, name: Name, mid: nat)
    requires WellFormed(t) && NamesSorted(t) && mid < t.numSyms
    ensures NameLess(Nth(t, mid), name) ==> forall j | 0 <= j <= mid :: NameLess(Nth(t, j), name)
    ensures NameLess(name, Nth(t, mid)) ==> forall j | mid <= j < t.numSyms :: NameLess(name, Nth(t, j))
  {
    forall j | 0 <= j <= mid && NameLess(Nth(t, mid), name)
      ensures NameLess(Nth(t, j), name)
    {
      NameTrichotomy(Nth(t, j), Nth(t, mid));
      if NameLess(Nth(t, j), Nth(t, mid)) {
        NameTransitive(Nth(t, j), Nth(t, mid), name);
      }
    }
    forall j | mid <= j < t.numSyms && NameLess(name, Nth(t, mid))
      ensures NameLess(name, Nth(t, j))
    {
      NameTrichotomy(Nth(t, j), Nth(t, mid));
      if NameLess(Nth(t, mid), Nth(t, j)) {
        NameTransitive(name, Nth(t, mid), Nth(t, j));
      }
    }
  }

  /** Equal names are consecutive. */
  lemma EqualsBetween(t: Table, i: nat, k: nat, j: nat)
    requires WellFormed(t) && NamesSorted(t) && i <= k <= j < t.numSyms && Nth(t, i) == Nth(t, j)
    ensures Nth(t, k) == Nth(t, i)
  {
    hide NameLess, Nth, WellFormed;
    NameTrichotomy(Nth(t, k), Nth(t, i));
    NameTrichotomy(Nth(t, k), Nth(t, j));
  }

  // ----- Lookups

  /** Reads the name in place `i` of address order into the buffer. */
  method ReadName(t: Table, i: nat, buf: array<byte>) returns (name: Name)
    requires WellFormed(t) && i < t.numSyms && buf.Length == KSYM_NAME_LEN
    modifies buf
    ensures name == NameAt(t, i)
  {
    hide WellFormed, RecordInside, GoodTable, Expand, ReadLenAndType;
    Inside(t, i);
    var start := t.offsets[i];
    var (len, ty) := ReadLenAndType(t.names[start..]);
    var end := start + PREFIX_LEN + len;
    var bytes := t.names[start + PREFIX_LEN..end];
    name := ExpandSymbol(t.tokenTable, t.tokenIndex, bytes, buf);
  }

  /** Reads the type in place `i` of address order. */
  method ReadType(t: Table, i: nat) returns (ty: byte)
    requires WellFormed(t) && i < t.numSyms
    ensures ty == TypeAt(t, i)
  {
    hide WellFormed, RecordInside, ReadLenAndType;
    Inside(t, i);
    var (len, found) := ReadLenAndType(t.names[t.offsets[i]..]);
    ty := found;
  }

  /** Reads the j-th name in name order into the buffer. */
  method ReadNth(t: Table, j: nat, buf: array<byte>) returns (name: Name)
    requires WellFormed(t) && j < t.numSyms && buf.Length == KSYM_NAME_LEN
    modifies buf
    ensures name == Nth(t, j)
  {
    hide NameAt;
    name := ReadName(t, t.seqs[j], buf);
  }

  /** Binary search in name order: what it finds has the name; -1 in a sorted table means none has. */
  method SearchName(t: Table, name: Name, buf: array<byte>) returns (found: int)
    requires WellFormed(t) && t.numSyms > 0 && buf.Length == KSYM_NAME_LEN
    modifies buf
    ensures NamesSorted(t) && found == -1 ==> forall j | 0 <= j < t.numSyms :: Nth(t, j) != name
    ensures found != -1 ==> 0 <= found < t.numSyms && Nth(t, found) == name
  {
    hide WellFormed, NamesSorted, Nth, NameLess;
    ghost var sorted := NamesSorted(t);
    var low, high := 0, t.numSyms - 1;
    while low <= high
      invariant 0 <= low <= high + 1 <= t.numSyms
      invariant sorted ==> forall j | 0 <= j < low :: NameLess(Nth(t, j), name)
      invariant sorted ==> forall j | high < j < t.numSyms :: NameLess(name, Nth(t, j))
      decreases high - low
    {
      var mid := low + (high - low) / 2;
      var midName := ReadNth(t, mid, buf);
      if sorted {
        BelowStaysBelow(t, name, mid);
      }
      NameTrichotomy(name, midName);
      if name == midName {
        return mid;
      } else if NameLess(name, midName) {
        if mid == 0 {
          if sorted {
            NoneEqual(t, name, 0);
          }
          return -1;
        }
        high := mid - 1;
      } else {
        low := mid + 1;
      }
    }
    if sorted {
      NoneEqual(t, name, low);
    }
    return -1;
  }

  lemma NoneEqual(t: Table, name: Name, k: nat)
    requires WellFormed(t) && k <= t.numSyms
    requires forall j | 0 <= j < k :: NameLess(Nth(t, j), name)
    requires forall j | k <= j < t.numSyms :: NameLess(name, Nth(t, j))
    ensures forall j | 0 <= j < t.numSyms :: Nth(t, j) != name
  {
    NameIrreflexive(name);
  }

  /**
    A place with the name; in a sorted table the first one and, when asked for, the last one:
    exactly the run of equal names. Without `needEnd` the second component is 0.
  */
  method LookupNames(t: Table, name: Name, needEnd: bool) returns (r: Option<(nat, nat)>)
    requires WellFormed(t)
    ensures r.Some? ==> r.value.0 < t.numSyms && Nth(t, r.value.0) == name
    ensures NamesSorted(t) && r.None? ==> forall j | 0 <= j < t.numSyms :: Nth(t, j) != name
    ensures NamesSorted(t) && r.Some? ==> forall j | 0 <= j < r.value.0 :: Nth(t, j) != name
    ensures NamesSorted(t) && r.Some? && needEnd ==>
              forall j | 0 <= j < t.numSyms :: Nth(t, j) == name <==> r.value.0 <= j <= r.value.1
    ensures r.Some? && !needEnd ==> r.value.1 == 0
  {
    hide WellFormed, NamesSorted, Nth;
    var buf := new byte[KSYM_NAME_LEN](i => 0);
    if t.numSyms == 0 {
      return None;
    }
    var mid := SearchName(t, name, buf);
    if mid == -1 {
      return None;
    }
    var low: nat := mid;
    while low > 0
      invariant low <= mid && forall j | low <= j <= mid :: Nth(t, j) == name
    {
      var before := ReadNth(t, low - 1, buf);
      if before != name {
        break;
      }
      low := low - 1;
    }
    if NamesSorted(t) {
      NoneBefore(t, name, low);
    }
    var high: nat := 0;
    if needEnd {
      high := mid;
      while high < t.numSyms - 1
        invariant mid <= high < t.numSyms && forall j | low <= j <= high :: Nth(t, j) == name
      {
        var after := ReadNth(t, high + 1, buf);
        if after != name {
          break;
        }
        high := high + 1;
      }
      if NamesSorted(t) {
        NoneAfter(t, name, high);
      }
    }
    return Some((low, high));
  }

  lemma NoneBefore(t: Table, name: Name, low: nat)
    requires WellFormed(t) && NamesSorted(t) && low < t.numSyms && Nth(t, low) == name
    requires low > 0 ==> Nth(t, low - 1) != name
    ensures forall j | 0 <= j < low :: Nth(t, j) != name
  {
    hide NamesSorted, WellFormed, Nth;
    forall j | 0 <= j < low
      ensures Nth(t, j) != name
    {
      if Nth(t, j) == name {
        EqualsBetween(t, j, low - 1, low);
      }
    }
  }

  lemma NoneAfter(t: Table, name: Name, high: nat)
    requires WellFormed(t) && NamesSorted(t) && high < t.numSyms && Nth(t, high) == name
    requires high + 1 < t.numSyms ==> Nth(t, high + 1) != name
    ensures forall j | high < j < t.numSyms :: Nth(t, j) != name
  {
    hide NamesSorted, WellFormed, Nth;
    forall j | high < j < t.numSyms
      ensures Nth(t, j) != name
    {
      if Nth(t, j) == name {
        EqualsBetween(t, high, high + 1, j);
      }
    }
  }

  /** The place in name order of the first symbol with the name. */
  ghost predicate FirstNamed(t: Table, name: Name, j: nat)
    requires WellFormed(t)
  {
    j < t.numSyms && Nth(t, j) == name && forall i | 0 <= i < j :: Nth(t, i) != name
  }

  method LookupName(t: Table, name: Name) returns (r: Option<nat>, ghost first: nat)
    requires WellFormed(t)
    ensures r.Some? ==> first < t.numSyms && Nth(t, first) == name && r.value == t.addresses[t.seqs[first]]
    ensures NamesSorted(t) && r.None? ==> forall j | 0 <= j < t.numSyms :: Nth(t, j) != name
    ensures NamesSorted(t) && r.Some? ==> FirstNamed(t, name, first)
  {
    var names := LookupNames(t, name, false);
    first := 0;
    if names.None? {
      return None, 0;
    }
    var (startIdx, endIdx) := names.value;
    return Some(t.addresses[t.seqs[startIdx]]), startIdx;
  }

  /** `Underflow` is `addr - symbol_start` below zero: a panic, or a wrapped offset without the checks. */
  datatype Answer = Absent | Underflow | Found(name: Name, size: nat, offset: nat, ty: byte)

  /** Binary search for the last address not above `addr`; 0 when there is none. */
  method FloorIndex(addresses: seq<nat>, addr: nat) returns (low: nat)
    requires addresses != []
    requires forall i, j | 0 <= i < j < |addresses| :: addresses[i] <= addresses[j]
    ensures low < |addresses| && forall j | low < j < |addresses| :: addresses[j] > addr
    ensures if addresses[0] <= addr then addresses[low] <= addr else low == 0
  {
    low := 0;
    var high := |addresses|;
    while high - low > 1
      invariant 0 <= low < high <= |addresses| && (low == 0 || addresses[low] <= addr)
      invariant forall j | high <= j < |addresses| :: addresses[j] > addr
    {
      var mid := low + (high - low) / 2;
      if addresses[mid] <= addr {
        low := mid;
      } else {
        high := mid;
      }
    }
  }

  /**
    Place `at` is that of the symbol `addr` belongs to: the first alias on an exact hit, else the
    last symbol at the greatest address below.
  */
  ghost predicate IsFloor(addresses: seq<nat>, addr: nat, at: nat) {
    && at < |addresses| && addresses[at] <= addr
    && (forall j | 0 <= j < |addresses| && addresses[j] <= addr :: addresses[j] <= addresses[at])
    && (forall j | 0 <= j < |addresses| && addresses[j] == addr :: at <= j)
    && (addresses[at] != addr ==> forall j | at < j < |addresses| :: addresses[j] > addr)
  }

  /** The place of the greatest address at or below `addr`, the first of its aliases on an exact hit. */
  method FirstAlias(addresses: seq<nat>, addr: nat) returns (at: nat)
    requires addresses != []
    requires forall i, j | 0 <= i < j < |addresses| :: addresses[i] <= addresses[j]
    ensures at < |addresses| && if addresses[0] <= addr then addresses[at] <= addr else at == 0
    ensures addresses[0] <= addr ==> IsFloor(addresses, addr, at)
  {
    at := FloorIndex(addresses, addr);
    while at > 0 && addresses[at - 1] == addr
      invariant at < |addresses| && if addresses[0] <= addr then addresses[at] <= addr else at == 0
      invariant forall j | 0 <= j < |addresses| && addresses[j] <= addr :: addresses[j] <= addresses[at]
      invariant addresses[at] != addr ==> forall j | at < j < |addresses| :: addresses[j] > addr
    {
      at := at - 1;
    }
  }

  /** The least address above `start`, if there is one. */
  ghost predicate IsNextGreater(addresses: seq<nat>, start: nat, r: Option<nat>) {
    match r
    case None => forall j | 0 <= j < |addresses| :: addresses[j] <= start
    case Some(next) =>
      && start < next && next in addresses
      && forall j | 0 <= j < |addresses| && addresses[j] > start :: next <= addresses[j]
  }

  /** The first address after place `low` that is greater than the one there. */
  method NextGreater(addresses: seq<nat>, low: nat) returns (r: Option<nat>)
    requires low < |addresses| && forall i, j | 0 <= i < j < |addresses| :: addresses[i] <= addresses[j]
    ensures IsNextGreater(addresses, addresses[low], r)
  {
    var next := low + 1;
    while next < |addresses|
      invariant low < next <= |addresses|
      invariant forall j | low < j < next :: addresses[j] == addresses[low]
    {
      if addresses[next] > addresses[low] {
        return Some(addresses[next]);
      }
      next := next + 1;
    }
    return None;
  }

  /**
    The symbol an address belongs to, at place `low` of address order. An address of the text
    below every symbol is not refused, and the offset to the first symbol underflows.
  */
  method LookupAddress(m: Mapped, addr: nat) returns (r: Answer, ghost low: nat, ghost end: nat)
    requires WellFormed(m.table) && AddressesSorted(m.table)
    ensures r.Absent? <==> !(m.stext <= addr < m.etext && m.table.numSyms > 0)
    ensures r.Underflow? <==> m.stext <= addr < m.etext && m.table.numSyms > 0 && addr < m.table.addresses[0]
    ensures r.Found? ==>
              var t := m.table;
              && low < t.numSyms && IsFloor(t.addresses, addr, low) && t.addresses[low] <= addr
              && IsEnd(m, t.addresses[low], end) && addr < end
              && r == Found(NameAt(t, low), end - t.addresses[low], addr - t.addresses[low], TypeAt(t, low))
  {
    low, end := 0, 0;
    var t := m.table;
    if addr < m.stext || addr >= m.etext || t.numSyms == 0 {
      return Absent, 0, 0;
    }
    assert t.numSyms == |t.addresses|;
    hide WellFormed, NameAt, TypeAt, IsFloor, IsEnd, IsNextGreater;
    var at := FirstAlias(t.addresses, addr);
    var symbolStart := t.addresses[at];
    var symbolEnd := NextGreater(t.addresses, at);
    var endAddr := if symbolEnd.Some? then symbolEnd.value else m.etext;
    low, end := at, endAddr;
    EndIs(m, addr, at, symbolEnd);
    var buf := new byte[KSYM_NAME_LEN](i => 0);
    var name := ReadName(t, at, buf);
    var ty := ReadType(t, at);
    if endAddr < symbolStart || addr < symbolStart {
      return Underflow, at, endAddr;
    }
    r := Found(name, endAddr - symbolStart, addr - symbolStart, ty);
  }

  lemma EndIs(m: Mapped, addr: nat, at: nat, next: Option<nat>)
    requires at < |m.table.addresses| && addr < m.etext
    requires IsNextGreater(m.table.addresses, m.table.addresses[at], next)
    ensures var end := if next.Some? then next.value else m.etext;
            && IsEnd(m, m.table.addresses[at], end)
            && (IsFloor(m.table.addresses, addr, at) ==> addr < end)
            && (next.Some? ==> m.table.addresses[at] < end)
  {
  }

  /** Where the symbol at `start` ends: the next greater address, or the end of the text. */
  ghost predicate IsEnd(m: Mapped, start: nat, end: nat) {
    IsNextGreater(m.table.addresses, start, Some(end))
    || (IsNextGreater(m.table.addresses, start, None) && end == m.etext)
  }
}
