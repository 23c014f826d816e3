/** The indexing tables of RFC 7541 section 2.3: a fixed part and a queue that evicts its oldest entries. */
module HpackTable {
  import opened HpackStatic

  const ENTRY_OVERHEAD: nat := 32
  const DYNAMIC_TABLE_START: nat := 62

  datatype Entry = Entry(name: Text, value: Text)

  function EntrySize(e: Entry): nat {
    |e.name| + |e.value| + ENTRY_OVERHEAD
  }

  /** The bytes that entries count for, newest first. */
  function Bytes(entries: seq<Entry>): nat {
    if entries == [] then 0 else Bytes(entries[..|entries| - 1]) + EntrySize(entries[|entries| - 1])
  }

  lemma {:induction false} BytesCons(e: Entry, entries: seq<Entry>)
    ensures Bytes([e] + entries) == EntrySize(e) + Bytes(entries)
  {
    var s := [e] + entries;
    if entries == [] {
      assert s[..0] == [] && Bytes(s[..0]) == 0;
    } else {
      var m := entries[..|entries| - 1];
      BytesCons(e, m);
      assert s[..|s| - 1] == [e] + m;
    }
  }

  lemma {:induction false} BytesGrow(entries: seq<Entry>, m: nat)
    requires m <= |entries|
    ensures Bytes(entries[..m]) <= Bytes(entries)
  {
    if m == |entries| {
      assert entries[..m] == entries;
    } else {
      var s := entries[..|entries| - 1];
      BytesGrow(s, m);
      assert s[..m] == entries[..m];
    }
  }

  /** Section 4.1: an entry counts for its name, its value and 32 bytes more. */
  lemma SizeBySection41(e: Entry, entries: seq<Entry>)
    ensures Bytes([]) == 0 && Bytes([e] + entries) == |e.name| + |e.value| + 32 + Bytes(entries)
  {
    BytesCons(e, entries);
  }

  lemma NotForNothing(entries: seq<Entry>)
    ensures entries != [] ==> Bytes(entries) >= 32
  {
  }

  // ---- eviction

  /** What eviction leaves: entries are dropped from the old end until the rest fits. */
  function Fit(entries: seq<Entry>, limit: nat): (r: seq<Entry>)
    ensures Bytes(r) <= limit && r <= entries
  {
    if Bytes(entries) <= limit then entries else Fit(entries[..|entries| - 1], limit)
  }

  /** One step of eviction. */
  lemma FitStep(entries: seq<Entry>, limit: nat)
    ensures Bytes(entries) > limit ==> entries != [] && Fit(entries, limit) == Fit(entries[..|entries| - 1], limit)
    ensures Bytes(entries) <= limit ==> Fit(entries, limit) == entries
  {
  }

  /** An entry survives exactly when it fits together with all newer ones. */
  lemma {:induction false} FitExact(entries: seq<Entry>, limit: nat, m: nat)
    ensures m <= |Fit(entries, limit)| <==> m <= |entries| && Bytes(entries[..m]) <= limit
  {
    if Bytes(entries) <= limit {
      if m <= |entries| { BytesGrow(entries, m); }
    } else {
      var s := entries[..|entries| - 1];
      FitExact(s, limit, m);
      if m < |entries| {
        assert s[..m] == entries[..m];
      } else if m == |entries| {
        assert entries[..m] == entries;
      }
    }
  }

  // ---- runs

  datatype Step = Add(entry: Entry) | Resize(limit: nat)

  datatype State = State(limit: nat, entries: seq<Entry>)
  {
    /** An entry larger than the whole table is refused and leaves the table as it is. */
    predicate Accepts(e: Entry) {
      EntrySize(e) <= limit
    }

    function After(s: Step): State {
      match s
      case Add(e) => if Accepts(e) then State(limit, [e] + Fit(entries, limit - EntrySize(e))) else this
      case Resize(n) => State(n, Fit(entries, n))
    }
  }

  /** After a resize the limit is the new one, and the newest entries are there that fit it together. */
  lemma ResizeExact(t: State, n: nat)
    ensures t.After(Step.Resize(n)).limit == n && t.After(Step.Resize(n)).entries <= t.entries
    ensures forall m: nat :: m <= |t.After(Step.Resize(n)).entries|
                        <==> m <= |t.entries| && Bytes(t.entries[..m]) <= n
  {
    forall m: nat ensures m <= |Fit(t.entries, n)| <==> m <= |t.entries| && Bytes(t.entries[..m]) <= n {
      FitExact(t.entries, n, m);
    }
  }

  /** An add keeps the limit; an entry that fits it comes first, before the newest that fit together with it. */
  lemma AddExact(t: State, e: Entry)
    ensures var n, size := t.After(Step.Add(e)), |e.name| + |e.value| + 32;
            if size > t.limit then n == t
            else
              && n.limit == t.limit && n.entries != [] && n.entries[0] == e && n.entries[1..] <= t.entries
              && forall m: nat :: m < |n.entries| <==> m <= |t.entries| && size + Bytes(t.entries[..m]) <= t.limit
  {
    var size := EntrySize(e);
    if size <= t.limit {
      forall m: nat
        ensures m <= |Fit(t.entries, t.limit - size)| <==> m <= |t.entries| && size + Bytes(t.entries[..m]) <= t.limit
      {
        FitExact(t.entries, t.limit - size, m);
      }
    }
  }

  /** The table after n steps of a run. */
  function Table(limit: nat, run: seq<Step>, n: nat): State
    requires n <= |run|
  {
    if n == 0 then State(limit, []) else Table(limit, run, n - 1).After(run[n - 1])
  }

  /** The limit in force is the one that the last resize asked for, or the first one if there was none. */
  lemma {:induction false} LimitInForce(limit: nat, run: seq<Step>, j: nat, n: nat)
    requires j <= n <= |run| && forall k :: j <= k < n ==> run[k].Add?
    ensures j == 0 ==> Table(limit, run, n).limit == limit
    ensures j > 0 && run[j - 1].Resize? ==> Table(limit, run, n).limit == run[j - 1].limit
  {
    if j == n {
    } else {
      LimitInForce(limit, run, j, n - 1);
    }
  }

  /** All entries accepted in the first n steps, newest first. */
  function Accepted(limit: nat, run: seq<Step>, n: nat): seq<Entry>
    requires n <= |run|
  {
    if n == 0 then [] else
      var before := Accepted(limit, run, n - 1);
      if run[n - 1].Add? && Table(limit, run, n - 1).Accepts(run[n - 1].entry) then [run[n - 1].entry] + before
      else before
  }

  /** The k-th accepted entry is still in the table after n steps. */
  predicate Present(limit: nat, run: seq<Step>, n: nat, k: nat)
    requires n <= |run| && k < |Accepted(limit, run, n)|
  {
    |Accepted(limit, run, n)| - k <= |Table(limit, run, n).entries|
  }

  /**
   The k-th accepted entry and all accepted after it fit the limit in force after n steps, if it was accepted by then.
   */
  predicate FitsAt(limit: nat, run: seq<Step>, n: nat, k: nat)
    requires n <= |run|
  {
    var a := Accepted(limit, run, n);
    k < |a| ==> Bytes(a[..|a| - k]) <= Table(limit, run, n).limit
  }

  /** What a step does to a table that fits its limit and holds the newest of some entries. */
  lemma StepKeeps(t: State, s: Step, all: seq<Entry>)
    requires t.entries <= all && Bytes(t.entries) <= t.limit
    ensures var n := t.After(s);
            && Bytes(n.entries) <= n.limit
            && n.entries <= (if s.Add? && t.Accepts(s.entry) then [s.entry] + all else all)
  {
    hide Fit, Bytes, EntrySize;
    if s.Add? && t.Accepts(s.entry) {
      BytesCons(s.entry, Fit(t.entries, t.limit - EntrySize(s.entry)));
    }
  }

  /** The table holds the newest of the accepted entries, in order, and they fit its limit. */
  lemma {:induction false} TableIsNewest(limit: nat, run: seq<Step>, n: nat)
    requires n <= |run|
    ensures Table(limit, run, n).entries <= Accepted(limit, run, n)
    ensures Bytes(Table(limit, run, n).entries) <= Table(limit, run, n).limit
  {
    if n == 0 {
      assert Bytes([]) == 0;
    } else {
      hide Bytes, Fit, EntrySize;
      TableIsNewest(limit, run, n - 1);
      StepKeeps(Table(limit, run, n - 1), run[n - 1], Accepted(limit, run, n - 1));
    }
  }

  lemma {:induction false} AcceptedGrows(limit: nat, run: seq<Step>, m: nat, n: nat)
    requires m <= n <= |run|
    ensures |Accepted(limit, run, m)| <= |Accepted(limit, run, n)|
  {
    if m == n {
    } else {
      AcceptedGrows(limit, run, m, n - 1);
    }
  }

  /** One step keeps a present entry exactly when it then fits with all newer ones. */
  lemma PresentStep(limit: nat, run: seq<Step>, n: nat, k: nat)
    requires 0 < n <= |run| && k < |Accepted(limit, run, n - 1)|
    ensures k < |Accepted(limit, run, n)|
    ensures Present(limit, run, n, k) <==> Present(limit, run, n - 1, k) && FitsAt(limit, run, n, k)
  {
    hide Fit, Bytes, EntrySize;
    TableIsNewest(limit, run, n - 1);
    var t, s, a := Table(limit, run, n - 1), run[n - 1], Accepted(limit, run, n - 1);
    var m := |a| - k;
    match s
    case Add(e) =>
      if t.Accepts(e) {
        FitExact(t.entries, t.limit - EntrySize(e), m);
        assert ([e] + a)[..m + 1] == [e] + a[..m];
        BytesCons(e, a[..m]);
        if m <= |t.entries| { assert t.entries[..m] == a[..m]; }
      } else if m <= |t.entries| {
        assert t.entries[..m] == a[..m];
        BytesGrow(t.entries, m);
      }
    case Resize(l) =>
      FitExact(t.entries, l, m);
      if m <= |t.entries| { assert t.entries[..m] == a[..m]; }
  }

  lemma NoneAccepted(limit: nat, run: seq<Step>)
    ensures Accepted(limit, run, 0) == []
  {
  }

  /** The entry that the last step added fits then, and there was none to fit before. */
  lemma Newcomer(limit: nat, run: seq<Step>, n: nat, k: nat)
    requires 0 < n <= |run| && |Accepted(limit, run, n - 1)| <= k < |Accepted(limit, run, n)|
    ensures Present(limit, run, n, k) && FitsAt(limit, run, n, k)
  {
    hide EntrySize, Fit;
    var e := run[n - 1].entry;
    assert Accepted(limit, run, n)[..1] == [e] + [];
    BytesCons(e, []);
  }

  lemma NotYetAccepted(limit: nat, run: seq<Step>, j: nat, n: nat, k: nat)
    requires j <= n <= |run| && |Accepted(limit, run, n)| <= k
    ensures FitsAt(limit, run, j, k)
  {
    hide Bytes, Table, Accepted;
    AcceptedGrows(limit, run, j, n);
  }

  /**
   An accepted entry is present exactly when at every later step it fitted, with all newer ones, the limit then in
   force.
   */
  lemma {:induction false} EvictionExact(limit: nat, run: seq<Step>, n: nat, k: nat)
    requires n <= |run| && k < |Accepted(limit, run, n)|
    ensures Present(limit, run, n, k) <==> forall j :: 0 <= j <= n ==> FitsAt(limit, run, j, k)
  {
    hide Bytes, Table, Accepted, Present, FitsAt;
    NoneAccepted(limit, run);
    if k < |Accepted(limit, run, n - 1)| {
      EvictionExact(limit, run, n - 1, k);
      PresentStep(limit, run, n, k);
    } else {
      Newcomer(limit, run, n, k);
      forall j | 0 <= j < n ensures FitsAt(limit, run, j, k) {
        NotYetAccepted(limit, run, j, n - 1, k);
      }
    }
  }

  // ---- the table

  class HpackTable {
    var maxTableBytes: nat
    var currentTableBytes: nat
    var dynamicTable: seq<Entry>

    /** The byte counter is exact. */
    predicate Valid()
      reads this
    {
      currentTableBytes == Bytes(dynamicTable)
    }

    predicate WithinLimit()
      reads this
    {
      Bytes(dynamicTable) <= maxTableBytes
    }

    function Value(): State
      reads this
    {
      State(maxTableBytes, dynamicTable)
    }

    constructor ()
      ensures Valid() && WithinLimit() && Value() == State(0, [])
    {
      maxTableBytes, currentTableBytes, dynamicTable := 0, 0, [];
    }

    /** Sets the limit and evicts nothing. */
    method Init(initMaxTableBytes: nat)
      requires Valid()
      modifies this
      ensures Valid() && Value() == old(Value()).(limit := initMaxTableBytes)
      ensures WithinLimit() <==> old(currentTableBytes) <= initMaxTableBytes
    {
      maxTableBytes := initMaxTableBytes;
    }

    /** Eviction only ever meets a table that is not empty. */
    method DropEntry()
      requires dynamicTable != [] && currentTableBytes == Bytes(dynamicTable)
      modifies this
      ensures dynamicTable == old(dynamicTable)[..|old(dynamicTable)| - 1] && maxTableBytes == old(maxTableBytes)
      ensures currentTableBytes == Bytes(dynamicTable) < old(currentTableBytes)
    {
      var lastEntry := dynamicTable[|dynamicTable| - 1];
      var entrySize := |lastEntry.name| + |lastEntry.value| + ENTRY_OVERHEAD;
      currentTableBytes := currentTableBytes - entrySize;
      dynamicTable := dynamicTable[..|dynamicTable| - 1];
    }

    method Resize(newMaxTableBytes: nat)
      requires Valid()
      modifies this
      ensures Valid() && WithinLimit() && Value() == old(Value()).After(Step.Resize(newMaxTableBytes))
      ensures maxTableBytes == newMaxTableBytes && dynamicTable <= old(dynamicTable)
      ensures forall m: nat :: m <= |dynamicTable|
                          <==> m <= |old(dynamicTable)| && Bytes(old(dynamicTable)[..m]) <= newMaxTableBytes
    {
      ResizeExact(Value(), newMaxTableBytes);
      hide Bytes, Fit;
      while currentTableBytes > newMaxTableBytes
        invariant currentTableBytes == Bytes(dynamicTable)
        invariant Fit(dynamicTable, newMaxTableBytes) == Fit(old(dynamicTable), newMaxTableBytes)
        decreases currentTableBytes
      {
        FitStep(dynamicTable, newMaxTableBytes);
        DropEntry();
      }
      FitStep(dynamicTable, newMaxTableBytes);
      maxTableBytes := newMaxTableBytes;
    }

    method Add(headerName: Text, headerValue: Text) returns (ok: bool)
      requires Valid()
      modifies this
      ensures Valid() && Value() == old(Value()).After(Step.Add(Entry(headerName, headerValue)))
      ensures ok <==> |headerName| + |headerValue| + 32 <= old(maxTableBytes)
      ensures ok || old(WithinLimit()) ==> WithinLimit()
      ensures maxTableBytes == old(maxTableBytes) && (!ok ==> dynamicTable == old(dynamicTable))
      ensures ok ==> dynamicTable != [] && dynamicTable[0] == Entry(headerName, headerValue)
      ensures ok ==> dynamicTable[1..] <= old(dynamicTable)
    {
      hide Bytes, Fit;
      var entrySize := |headerName| + |headerValue| + ENTRY_OVERHEAD;
      if entrySize > maxTableBytes {
        return false;
      }
      ghost var room := maxTableBytes - entrySize;
      while currentTableBytes + entrySize > maxTableBytes
        invariant currentTableBytes == Bytes(dynamicTable) && maxTableBytes == old(maxTableBytes)
        invariant Fit(dynamicTable, room) == Fit(old(dynamicTable), room)
        decreases currentTableBytes
      {
        FitStep(dynamicTable, room);
        DropEntry();
      }
      FitStep(dynamicTable, room);
      currentTableBytes := currentTableBytes + entrySize;
      BytesCons(Entry(headerName, headerValue), dynamicTable);
      dynamicTable := [Entry(headerName, headerValue)] + dynamicTable;
      return true;
    }

    predicate HasEntryAtIndex(index: nat)
      requires index != 0
      reads this
      ensures HasEntryAtIndex(index) <==> HasIndex(dynamicTable, index)
    {
      if index <= STATIC_TABLE_MAX then true else |dynamicTable| >= index - STATIC_TABLE_MAX
    }

    function NameAtIndex(index: nat): (r: Text)
      requires index != 0 && HasEntryAtIndex(index)
      reads this
      ensures r == AtIndex(dynamicTable, index).name
    {
      if index <= STATIC_TABLE_MAX then StaticName(index) else dynamicTable[index - DYNAMIC_TABLE_START].name
    }

    function ValueAtIndex(index: nat): (r: Text)
      requires index != 0 && HasEntryAtIndex(index)
      reads this
      ensures r == AtIndex(dynamicTable, index).value
    {
      if index <= STATIC_TABLE_MAX then StaticValue(index) else dynamicTable[index - DYNAMIC_TABLE_START].value
    }
  }

  // ---- the index address space of section 2.3.3

  predicate HasIndex(dynamic: seq<Entry>, index: nat) {
    1 <= index <= STATIC_TABLE_MAX + |dynamic|
  }

  function AtIndex(dynamic: seq<Entry>, index: nat): Entry
    requires HasIndex(dynamic, index)
  {
    if index <= STATIC_TABLE_MAX then Entry(StaticName(index), StaticValue(index))
    else dynamic[index - 1 - STATIC_TABLE_MAX]
  }

  /** The static table followed by the dynamic table. */
  function AddressSpace(dynamic: seq<Entry>): (s: seq<Entry>)
    ensures |s| == STATIC_TABLE_MAX + |dynamic|
  {
    seq(STATIC_TABLE_MAX, i requires 0 <= i < STATIC_TABLE_MAX => Entry(StaticName(i + 1), StaticValue(i + 1)))
    + dynamic
  }

  /** Indices count the entries of one address space from 1. */
  lemma OneAddressSpace(dynamic: seq<Entry>, index: nat)
    ensures HasIndex(dynamic, index) <==> 1 <= index <= |AddressSpace(dynamic)|
    ensures HasIndex(dynamic, index) ==> AtIndex(dynamic, index) == AddressSpace(dynamic)[index - 1]
  {
    hide StaticName, StaticValue;
  }

  /** Adding makes the new entry the first dynamic one and moves each survivor up by one. */
  lemma IndicesShift(t: State, e: Entry, index: nat)
    requires t.Accepts(e)
    ensures var n := t.After(Step.Add(e)).entries;
            && HasIndex(n, DYNAMIC_TABLE_START) && AtIndex(n, DYNAMIC_TABLE_START) == e
            && (index > DYNAMIC_TABLE_START && HasIndex(n, index) ==>
                  HasIndex(t.entries, index - 1) && AtIndex(n, index) == AtIndex(t.entries, index - 1))
  {
    hide StaticName, StaticValue, EntrySize, Fit;
  }
}
