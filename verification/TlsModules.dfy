/**
 * Memory-module TLS entries: the index allocator, module load and unload, and how the hooked
 * kernel calls keep the invariant.
 */
module TlsModules {
  import opened Wrappers
  import opened TlsState
  import opened TlsHook

  // ---------- The index allocator ----------

  /** RtlFindClearBitsAndSet(bitmap, 1, 0): the first clear bit at or after k. */
  function FirstClear(bitmap: seq<bool>, k: nat): (r: Option<nat>)
    requires k <= |bitmap|
    ensures r.Some? ==> k <= r.value < |bitmap| && !bitmap[r.value] && forall i :: k <= i < r.value ==> bitmap[i]
    ensures r.None? ==> forall i :: k <= i < |bitmap| ==> bitmap[i]
    decreases |bitmap| - k
  {
    if k == |bitmap| then None
    else if !bitmap[k] then Some(k)
    else FirstClear(bitmap, k + 1)
  }

  /** Listing an entry at the first clear bit. */
  function AddEntry(s: State, owner: Address, size: nat): (s': State)
    requires FirstClear(s.bitmap, 0).Some?
  {
    var k := FirstClear(s.bitmap, 0).value;
    s.(bitmap := s.bitmap[k := true], entries := s.entries + [Entry(owner, k, size)])
  }

  /** The first entry of the module, or |entries|. */
  function EntryOf(entries: seq<Entry>, owner: Address): (i: nat)
    ensures i <= |entries|
    ensures i < |entries| ==> entries[i].owner == owner
    ensures forall k :: 0 <= k < i ==> entries[k].owner != owner
  {
    EntryFrom(entries, owner, 0)
  }

  function EntryFrom(entries: seq<Entry>, owner: Address, n: nat): (i: nat)
    requires n <= |entries|
    ensures n <= i <= |entries|
    ensures i < |entries| ==> entries[i].owner == owner
    ensures forall k :: n <= k < i ==> entries[k].owner != owner
    decreases |entries| - n
  {
    if n == |entries| || entries[n].owner == owner then n else EntryFrom(entries, owner, n + 1)
  }

  /** MmpReleaseTlsEntry: unlist the module's entry, if it has one, and clear its bit. */
  function DropEntry(s: State, owner: Address): State
    requires forall i :: 0 <= i < |s.entries| ==> s.entries[i].index < |s.bitmap|
  {
    var i := EntryOf(s.entries, owner);
    if i == |s.entries| then s
    else s.(bitmap := s.bitmap[s.entries[i].index := false], entries := s.entries[..i] + s.entries[i + 1..])
  }

  lemma AddEntryKeepsIndexOk(s: State, owner: Address, size: nat)
    requires IndexOk(s.bitmap, s.entries) && FirstClear(s.bitmap, 0).Some?
    ensures IndexOk(AddEntry(s, owner, size).bitmap, AddEntry(s, owner, size).entries)
    ensures !Carried(s.entries, FirstClear(s.bitmap, 0).value)
  {
    var s' := AddEntry(s, owner, size);
    var k := FirstClear(s.bitmap, 0).value;
    forall i | START_TLS_INDEX <= i < MAXIMUM_TLS_INDEX
      ensures s'.bitmap[i] <==> Carried(s'.entries, i)
    {
      if i == k {
        assert s'.entries[|s.entries|].index == i;
      } else if Carried(s.entries, i) {
        var e :| 0 <= e < |s.entries| && s.entries[e].index == i;
        assert s'.entries[e].index == i;
      }
    }
  }

  lemma DropEntryKeepsIndexOk(s: State, owner: Address)
    requires IndexOk(s.bitmap, s.entries)
    ensures IndexOk(DropEntry(s, owner).bitmap, DropEntry(s, owner).entries)
  {
    var d := EntryOf(s.entries, owner);
    if d < |s.entries| {
      DroppedIndexOk(s.bitmap, s.entries, d, s.entries[..d] + s.entries[d + 1..]);
    }
  }

  lemma DroppedIndexOk(bitmap: seq<bool>, entries: seq<Entry>, d: nat, rest: seq<Entry>)
    requires IndexOk(bitmap, entries) && d < |entries| && rest == entries[..d] + entries[d + 1..]
    ensures IndexOk(bitmap[entries[d].index := false], rest)
  {
    assert forall i :: 0 <= i < |rest| ==> rest[i] == entries[if i < d then i else i + 1];
    forall k | START_TLS_INDEX <= k < MAXIMUM_TLS_INDEX
      ensures Carried(rest, k) <==> Carried(entries, k) && k != entries[d].index
    {
      DroppedCarries(entries, d, rest, k);
    }
  }

  lemma DroppedCarries(entries: seq<Entry>, d: nat, rest: seq<Entry>, k: nat)
    requires d < |entries| && |rest| == |entries| - 1
    requires forall i :: 0 <= i < |rest| ==> rest[i] == entries[if i < d then i else i + 1]
    requires forall i, j :: 0 <= i < j < |entries| ==> entries[i].index != entries[j].index
    ensures Carried(rest, k) <==> Carried(entries, k) && k != entries[d].index
  {
    if Carried(entries, k) && k != entries[d].index {
      var e :| 0 <= e < |entries| && entries[e].index == k;
      assert rest[if e < d then e else e - 1].index == k;
    }
  }

  /** Some listed entry is the module's. */
  predicate Listed(entries: seq<Entry>, owner: Address) {
    EntryOf(entries, owner) < |entries|
  }

  /** A load that fails before the kernel is asked: the entry is listed, and the module's entry is released. */
  function Undone(s: State, owner: Address, size: nat): State
    requires IndexOk(s.bitmap, s.entries) && FirstClear(s.bitmap, 0).Some?
  {
    DropEntry(AddEntry(s, owner, size), owner)
  }

  /** Releasing undoes listing exactly when nothing was listed for the module; otherwise the older entry goes
      and the new one stays. */
  lemma DropUndoesAddIff(s: State, owner: Address, size: nat)
    requires IndexOk(s.bitmap, s.entries) && FirstClear(s.bitmap, 0).Some?
    ensures Undone(s, owner, size) == s <==> !Listed(s.entries, owner)
    ensures Listed(s.entries, owner) ==>
              var k := FirstClear(s.bitmap, 0).value;
              Undone(s, owner, size) == DropEntry(s, owner).(
                bitmap := DropEntry(s, owner).bitmap[k := true],
                entries := DropEntry(s, owner).entries + [Entry(owner, k, size)])
  {
    AddedFound(s.entries, Entry(owner, FirstClear(s.bitmap, 0).value, size));
    if Listed(s.entries, owner) {
      OlderGoes(s, owner, size);
    } else {
      NewGoes(s, owner, size);
    }
  }

  lemma NewGoes(s: State, owner: Address, size: nat)
    requires IndexOk(s.bitmap, s.entries) && FirstClear(s.bitmap, 0).Some?
    requires EntryOf(AddEntry(s, owner, size).entries, owner) == |s.entries|
    ensures Undone(s, owner, size) == s
  {
    var s', k, d := AddEntry(s, owner, size), FirstClear(s.bitmap, 0).value, |s.entries|;
    assert s'.entries[..d] + s'.entries[d + 1..] == s.entries;
    assert s.bitmap[k := true][k := false] == s.bitmap;
  }

  lemma OlderGoes(s: State, owner: Address, size: nat)
    requires IndexOk(s.bitmap, s.entries) && FirstClear(s.bitmap, 0).Some? && Listed(s.entries, owner)
    requires EntryOf(AddEntry(s, owner, size).entries, owner) == EntryOf(s.entries, owner)
    ensures var k := FirstClear(s.bitmap, 0).value;
            Undone(s, owner, size) == DropEntry(s, owner).(
              bitmap := DropEntry(s, owner).bitmap[k := true],
              entries := DropEntry(s, owner).entries + [Entry(owner, k, size)])
    ensures Undone(s, owner, size) != s
  {
    var k, d := FirstClear(s.bitmap, 0).value, EntryOf(s.entries, owner);
    var older := s.entries[d].index;
    assert older != k by { assert !s.bitmap[k] && Carried(s.entries, older); }
    var all := s.entries + [Entry(owner, k, size)];
    assert all[..d] + all[d + 1..] == (s.entries[..d] + s.entries[d + 1..]) + [Entry(owner, k, size)];
    assert s.bitmap[k := true][older := false] == s.bitmap[older := false][k := true];
    assert Undone(s, owner, size).bitmap[k];
  }

  /** A new entry is found only if the module had none. */
  lemma AddedFound(entries: seq<Entry>, e: Entry)
    ensures EntryOf(entries + [e], e.owner) == EntryOf(entries, e.owner)
  {
    var d, all := EntryOf(entries, e.owner), entries + [e];
    assert all[d].owner == e.owner;
    assert forall k :: 0 <= k < d ==> all[k] == entries[k];
  }

  lemma AddEntryKeepsSafe(s: State, owner: Address, size: nat, active: Dword)
    requires Safe(s) && FirstClear(s.bitmap, 0).Some?
    ensures Safe(AddEntry(s, owner, size).(active := active))
  {
    AddEntryKeepsIndexOk(s, owner, size);
    OtherFieldsSafe(s, AddEntry(s, owner, size).(active := active));
  }

  /** Safety rests on the list and the bitmap through their agreement alone, and not on the count. */
  lemma OtherFieldsSafe(s: State, s': State)
    requires Safe(s) && IndexOk(s'.bitmap, s'.entries)
    requires s' == s.(bitmap := s'.bitmap, entries := s'.entries, active := s'.active)
    ensures Safe(s')
  {
    forall j | 0 <= j < |s.records|
      ensures Backed(s', s.records[j])
    {
      assert Backed(s, s.records[j]);
    }
    forall t | t in s'.teb
      ensures Registered(s', t)
    {
      assert Registered(s, t);
    }
    assert RecordsOk(s') && PostponedOk(s');
  }

  lemma UndoneKeepsSafe(s: State, owner: Address, size: nat)
    requires Safe(s) && FirstClear(s.bitmap, 0).Some?
    ensures Safe(Undone(s, owner, size))
  {
    AddEntryKeepsSafe(s, owner, size, s.active);
    DropKeepsSafe(AddEntry(s, owner, size), owner);
  }

  /** Index acquisition fails exactly when 128 entries are live. */
  lemma AcquireFailsIff(bitmap: seq<bool>, entries: seq<Entry>)
    requires IndexOk(bitmap, entries)
    ensures |entries| <= MAXIMUM_TLS_INDEX - START_TLS_INDEX
    ensures FirstClear(bitmap, 0).None? <==> |entries| == MAXIMUM_TLS_INDEX - START_TLS_INDEX
  {
    IndexSetSize(entries);
    if FirstClear(bitmap, 0).None? {
      AllIndicesLive(bitmap, entries);
    } else {
      SomeIndexFree(bitmap, entries, FirstClear(bitmap, 0).value);
    }
  }

  lemma SomeIndexFree(bitmap: seq<bool>, entries: seq<Entry>, k: nat)
    requires IndexOk(bitmap, entries) && k < |bitmap| && !bitmap[k]
    ensures |IndexSet(entries)| < MAXIMUM_TLS_INDEX - START_TLS_INDEX
  {
    var all := Range(START_TLS_INDEX, MAXIMUM_TLS_INDEX);
    assert IndexSet(entries) <= all;
    SubsetSize(IndexSet(entries), all);
    assert !Carried(entries, k);
    assert k in all && k !in IndexSet(entries);
  }

  lemma AllIndicesLive(bitmap: seq<bool>, entries: seq<Entry>)
    requires IndexOk(bitmap, entries) && FirstClear(bitmap, 0).None?
    ensures IndexSet(entries) == Range(START_TLS_INDEX, MAXIMUM_TLS_INDEX)
  {
    forall k | START_TLS_INDEX <= k < MAXIMUM_TLS_INDEX
      ensures k in IndexSet(entries)
    {
      assert Carried(entries, k);
    }
  }

  function IndexSet(entries: seq<Entry>): set<nat> {
    set i | 0 <= i < |entries| :: entries[i].index
  }

  lemma {:induction false} IndexSetSize(entries: seq<Entry>)
    requires forall i, j :: 0 <= i < j < |entries| ==> entries[i].index != entries[j].index
    ensures |IndexSet(entries)| == |entries|
  {
    if |entries| != 0 {
      var n := |entries| - 1;
      IndexSetSize(entries[..n]);
      assert IndexSet(entries) == IndexSet(entries[..n]) + {entries[n].index};
    }
  }

  function Range(lo: nat, hi: nat): (r: set<nat>)
    requires lo <= hi
    ensures |r| == hi - lo && forall k :: k in r <==> lo <= k < hi
    decreases hi
  {
    if lo == hi then {} else Range(lo, hi - 1) + {hi - 1}
  }

  lemma {:induction false} SubsetSize<T>(a: set<T>, b: set<T>)
    requires a <= b
    ensures |a| <= |b| && (|a| == |b| ==> a == b)
  {
    if a != {} {
      var x :| x in a;
      SubsetSize(a - {x}, b - {x});
    }
  }

  // ---------- The kernel's choice ----------

  /** How many items the kernel used. */
  function Served(c: Choice): (n: nat)
    ensures n <= |c|
  {
    if |c| == 0 then 0 else Served(c[..|c| - 1]) + (if c[|c| - 1].Some? then 1 else 0)
  }

  function ChosenSet(c: Choice): set<ThreadId> {
    set i | 0 <= i < |c| && c[i].Some? :: c[i].value
  }

  lemma {:induction false} ChosenSetSize(c: Choice)
    requires forall i, j :: 0 <= i < j < |c| && c[i].Some? && c[j].Some? ==> c[i] != c[j]
    ensures |ChosenSet(c)| == Served(c)
    ensures (forall i :: 0 <= i < |c| ==> c[i].Some?) ==> Served(c) == |c|
  {
    if |c| != 0 {
      var n := |c| - 1;
      ChosenSetSize(c[..n]);
      ChosenSetNext(c, c[..n], n);
    }
  }

  lemma ChosenSetNext(c: Choice, before: Choice, n: nat)
    requires |c| == n + 1 && before == c[..n]
    requires forall i, j :: 0 <= i < j < |c| && c[i].Some? && c[j].Some? ==> c[i] != c[j]
    ensures if c[n].Some? then
              ChosenSet(c) == ChosenSet(before) + {c[n].value} && c[n].value !in ChosenSet(before)
            else ChosenSet(c) == ChosenSet(before)
  {
    forall t
      ensures t in ChosenSet(c) <==> t in ChosenSet(before) || c[n] == Some(t)
    {
      if t in ChosenSet(before) {
        var i :| 0 <= i < n && before[i] == Some(t);
        assert c[i] == Some(t);
      }
      assert c[n] == Some(t) ==> t in ChosenSet(c);
    }
  }

  /** With at least as many items as live threads, every live thread is served, once. */
  lemma EveryThreadServed(s: State, c: Choice)
    requires ValidChoice(s, |c|, c) && Complete(s, c) && |s.teb| <= |c|
    ensures forall t :: t in s.teb ==> Chosen(c, t, |c|)
    ensures Served(c) == |s.teb|
  {
    ChosenSetSize(c);
    assert ChosenSet(c) <= s.teb.Keys;
    SubsetSize(ChosenSet(c), s.teb.Keys);
    forall t | t in s.teb
      ensures t in ChosenSet(c)
    {
      if Chosen(c, t, |c|) {
        var i :| 0 <= i < |c| && c[i] == Some(t);
        assert c[i].value in ChosenSet(c);
      }
    }
    forall t | t in s.teb
      ensures Chosen(c, t, |c|)
    {
      var i :| 0 <= i < |c| && c[i].Some? && c[i].value == t;
    }
    assert ChosenSet(c) == s.teb.Keys;
  }

  // ---------- Module load ----------

  ghost predicate BlocksOk(s: State, blocks: seq<Address>) {
    && (forall i :: 0 <= i < |blocks| ==> blocks[i] != 0 && blocks[i] !in s.heap)
    && (forall i, j :: 0 <= i < j < |blocks| ==> blocks[i] != blocks[j])
  }

  /** Block x is in slot k of a thread that received a new block. */
  predicate Replaced(s: State, c: Choice, k: nat, x: Address) {
    exists j :: 0 <= j < |s.records| && ReplacedAt(s, c, k, x, s.records[j])
  }

  predicate ReplacedAt(s: State, c: Choice, k: nat, x: Address, r: Record) {
    && Chosen(c, r.thread, |c|)
    && r.mmp in s.vectors && k < |s.vectors[r.mmp]|
    && s.vectors[r.mmp][k] == x
  }

  /** A successful MmpHandleTlsData: the entry is listed, each chosen thread's slot holds its block,
      and the blocks replaced and the ones left over are freed. */
  ghost predicate Loaded(s: State, s': State, owner: Address, size: nat, blocks: seq<Address>, c: Choice)
    requires RecordsOk(s) && FirstClear(s.bitmap, 0).Some? && FirstClear(s.bitmap, 0).value < MAXIMUM_TLS_INDEX
    requires |blocks| == |c|
  {
    var k := FirstClear(s.bitmap, 0).value;
    && s' == AddEntry(s, owner, size).(vectors := s'.vectors, active := s'.active, heap := s'.heap)
    && s'.active == Served(c)
    && s'.vectors.Keys == s.vectors.Keys
    && (forall i: nat, j: nat :: Gets(s, c, i, j) ==>
          && s'.vectors[s.records[j].mmp] == s.vectors[s.records[j].mmp][k := blocks[i]]
          && blocks[i] in s'.heap && s'.heap[blocks[i]] == Home(s.records[j].id, k, owner))
    && (forall v :: v in s.vectors && !SwappedVector(s, c, v) ==> s'.vectors[v] == s.vectors[v])
    && (forall i :: 0 <= i < |c| && c[i].None? ==> blocks[i] !in s'.heap)
    && (forall x :: x in s.heap ==>
          if Replaced(s, c, k, x) then x !in s'.heap else x in s'.heap && s'.heap[x] == s.heap[x])
    && (forall x :: x in s'.heap ==> x in s.heap || x in blocks)
  }

  /** A block at home elsewhere than in slot k of a record survives the load. */
  lemma HomeOutlivesLoad(s: State, s': State, owner: Address, size: nat, blocks: seq<Address>, c: Choice, x: Address)
    requires Safe(s) && FirstClear(s.bitmap, 0).Some? && |blocks| == |c|
    requires Loaded(s, s', owner, size, blocks, c)
    requires x in s.heap
    requires var k := FirstClear(s.bitmap, 0).value;
             s.heap[x].index != k
             || forall j :: 0 <= j < |s.records| && Chosen(c, s.records[j].thread, |c|) ==>
                  s.records[j].id != s.heap[x].record
    ensures x in s'.heap && s'.heap[x] == s.heap[x]
  {
    var k := FirstClear(s.bitmap, 0).value;
    forall j | 0 <= j < |s.records|
      ensures !ReplacedAt(s, c, k, x, s.records[j])
    {
      assert Owns(s.heap, s.vectors[s.records[j].mmp], s.records[j].id);
    }
    assert !Replaced(s, c, k, x);
  }

  lemma LoadKeepsRecords(s: State, s': State, owner: Address, size: nat, blocks: seq<Address>, c: Choice)
    requires Safe(s) && FirstClear(s.bitmap, 0).Some? && |blocks| == |c|
    requires ValidChoice(s, |c|, c) && Loaded(s, s', owner, size, blocks, c)
    ensures RecordsOk(s') && PostponedOk(s') && MirrorOk(s')
    ensures forall j :: 0 <= j < |s.records| ==>
              SlotKept(s, s', c, FirstClear(s.bitmap, 0).value, s.records[j].mmp)
  {
    var k := FirstClear(s.bitmap, 0).value;
    forall j | 0 <= j < |s.records|
      ensures SlotKept(s, s', c, k, s.records[j].mmp)
      ensures Backed(s', s.records[j]) && Mirrored(s'.vectors, s.records[j])
    {
      assert Backed(s, s.records[j]);
      assert Mirrored(s.vectors, s.records[j]);
      LoadKeepsSlots(s, s', owner, size, blocks, c, j);
    }
    forall t | t in s'.teb
      ensures Registered(s', t)
    {
      assert Registered(s, t);
    }
  }

  /** The private vector changed at most at k. */
  predicate SlotKept(s: State, s': State, c: Choice, k: nat, v: Address) {
    && v in s.vectors && v in s'.vectors
    && |s'.vectors[v]| == |s.vectors[v]|
    && (forall l :: 0 <= l < |s.vectors[v]| && l != k ==> s'.vectors[v][l] == s.vectors[v][l])
  }

  lemma LoadKeepsSlots(
    s: State, s': State, owner: Address, size: nat, blocks: seq<Address>, c: Choice, j: nat)
    requires Safe(s) && FirstClear(s.bitmap, 0).Some? && |blocks| == |c|
    requires ValidChoice(s, |c|, c) && Loaded(s, s', owner, size, blocks, c) && j < |s.records|
    ensures SlotKept(s, s', c, FirstClear(s.bitmap, 0).value, s.records[j].mmp)
    ensures s'.vectors[s.records[j].ldr] == s.vectors[s.records[j].ldr]
    ensures !Chosen(c, s.records[j].thread, |c|) ==>
              s'.vectors[s.records[j].mmp] == s.vectors[s.records[j].mmp]
  {
    var r := s.records[j];
    assert Backed(s, r);
    if Chosen(c, r.thread, |c|) {
      var i :| 0 <= i < |c| && c[i] == Some(r.thread);
      assert Gets(s, c, i, j);
    } else {
      assert !SwappedVector(s, c, r.mmp) by {
        forall j' | 0 <= j' < |s.records| && s.records[j'].mmp == r.mmp
          ensures j' == j
        {
          RecordUnique(s, j', j);
        }
      }
    }
    LdrNotPrivate(s, j);
    assert !SwappedVector(s, c, r.ldr);
  }

  lemma LoadKeepsOwned(s: State, s': State, owner: Address, size: nat, blocks: seq<Address>, c: Choice, j: nat)
    requires Safe(s) && FirstClear(s.bitmap, 0).Some? && |blocks| == |c|
    requires ValidChoice(s, |c|, c) && Loaded(s, s', owner, size, blocks, c) && j < |s.records|
    requires SlotKept(s, s', c, FirstClear(s.bitmap, 0).value, s.records[j].mmp)
    ensures Owns(s'.heap, s'.vectors[s.records[j].mmp], s.records[j].id)
  {
    var k := FirstClear(s.bitmap, 0).value;
    var r := s.records[j];
    assert Backed(s, r);
    assert Owns(s.heap, s.vectors[r.mmp], r.id);
    forall l | START_TLS_INDEX <= l < MAXIMUM_TLS_INDEX && s'.vectors[r.mmp][l] != 0
      ensures var x := s'.vectors[r.mmp][l]; x in s'.heap && s'.heap[x].record == r.id && s'.heap[x].index == l
    {
      if l != k {
        HomeOutlivesLoad(s, s', owner, size, blocks, c, s.vectors[r.mmp][l]);
      } else if Chosen(c, r.thread, |c|) {
        var i :| 0 <= i < |c| && c[i] == Some(r.thread);
        assert Gets(s, c, i, j);
      } else {
        LoadKeepsSlots(s, s', owner, size, blocks, c, j);
        forall j' | 0 <= j' < |s.records| && Chosen(c, s.records[j'].thread, |c|)
          ensures s.records[j'].id != r.id
        {
          if s.records[j'].id == r.id {
            RecordUnique(s, j', j);
          }
        }
        HomeOutlivesLoad(s, s', owner, size, blocks, c, s.vectors[r.mmp][l]);
      }
    }
  }

  lemma LoadKeepsSnapshot(s: State, s': State, owner: Address, size: nat, blocks: seq<Address>, c: Choice, q: nat)
    requires Safe(s) && FirstClear(s.bitmap, 0).Some? && |blocks| == |c|
    requires ValidChoice(s, |c|, c) && Loaded(s, s', owner, size, blocks, c) && q < |s.postponed|
    ensures Owns(s'.heap, s.postponed[q].snapshot, s.postponed[q].record.id)
  {
    var item := s.postponed[q];
    assert Owns(s.heap, item.snapshot, item.record.id);
    forall l | START_TLS_INDEX <= l < MAXIMUM_TLS_INDEX && item.snapshot[l] != 0
      ensures item.snapshot[l] in s'.heap && s'.heap[item.snapshot[l]] == s.heap[item.snapshot[l]]
    {
      forall j | 0 <= j < |s.records|
        ensures s.records[j].id != item.record.id
      {
        assert ApartFromPostponed(s.records[j], item);
      }
      HomeOutlivesLoad(s, s', owner, size, blocks, c, item.snapshot[l]);
    }
  }

  lemma LoadCovers(s: State, s': State, owner: Address, size: nat, blocks: seq<Address>, c: Choice, j: nat, e: nat)
    requires Inv(s) && FirstClear(s.bitmap, 0).Some? && |blocks| == |c|
    requires ValidChoice(s, |c|, c) && Loaded(s, s', owner, size, blocks, c)
    requires j < |s.records| && s.records[j].thread in s.teb && e < |s'.entries|
    requires Chosen(c, s.records[j].thread, |c|) && BlocksOk(s, blocks)
    ensures s.records[j].mmp in s'.vectors && Holds(s'.heap, s'.vectors[s.records[j].mmp], s'.entries[e])
  {
    var k := FirstClear(s.bitmap, 0).value;
    var r := s.records[j];
    assert Backed(s, r);
    var i :| 0 <= i < |c| && c[i] == Some(r.thread);
    assert Gets(s, c, i, j);
    if e < |s.entries| {
      AddEntryKeepsIndexOk(s, owner, size);
      assert s'.entries[e].index != k;
      assert Holds(s.heap, s.vectors[r.mmp], s.entries[e]);
      StillHolds(s, s', owner, size, blocks, c, j, s.entries[e]);
    }
  }

  /** Slots other than the load's keep their blocks, and these outlive the load. */
  lemma StillHolds(
    s: State, s': State, owner: Address, size: nat, blocks: seq<Address>, c: Choice, j: nat, e: Entry)
    requires Safe(s) && FirstClear(s.bitmap, 0).Some? && |blocks| == |c|
    requires Loaded(s, s', owner, size, blocks, c) && j < |s.records| && s.records[j].mmp in s'.vectors
    requires Holds(s.heap, s.vectors[s.records[j].mmp], e)
    requires START_TLS_INDEX <= e.index < MAXIMUM_TLS_INDEX && e.index != FirstClear(s.bitmap, 0).value
    requires |s'.vectors[s.records[j].mmp]| == |s.vectors[s.records[j].mmp]|
    requires s'.vectors[s.records[j].mmp][e.index] == s.vectors[s.records[j].mmp][e.index]
    ensures Holds(s'.heap, s'.vectors[s.records[j].mmp], e)
  {
    assert Owns(s.heap, s.vectors[s.records[j].mmp], s.records[j].id);
    HomeOutlivesLoad(s, s', owner, size, blocks, c, s.vectors[s.records[j].mmp][e.index]);
  }

  /** A served load keeps the records, the mirror, the ownership and the indices, whichever threads it serves. */
  lemma LoadKeepsSafe(s: State, s': State, owner: Address, size: nat, blocks: seq<Address>, c: Choice)
    requires Safe(s) && FirstClear(s.bitmap, 0).Some?
    requires |blocks| == |c| && BlocksOk(s, blocks)
    requires ValidChoice(s, |c|, c) && Loaded(s, s', owner, size, blocks, c)
    ensures Safe(s')
  {
    LoadKeepsRecords(s, s', owner, size, blocks, c);
    AddEntryKeepsIndexOk(s, owner, size);
    forall j | 0 <= j < |s.records|
      ensures Owns(s'.heap, s'.vectors[s.records[j].mmp], s.records[j].id)
    {
      LoadKeepsOwned(s, s', owner, size, blocks, c, j);
    }
    forall q | 0 <= q < |s.postponed|
      ensures Owns(s'.heap, s.postponed[q].snapshot, s.postponed[q].record.id)
    {
      LoadKeepsSnapshot(s, s', owner, size, blocks, c, q);
    }
  }

  /** A served load that leaves no live thread out keeps the invariant and makes the count exact, killed
      threads included. */
  lemma LoadKeepsInv(s: State, s': State, owner: Address, size: nat, blocks: seq<Address>, c: Choice)
    requires Inv(s) && FirstClear(s.bitmap, 0).Some?
    requires |blocks| == |c| == s.active && BlocksOk(s, blocks)
    requires ValidChoice(s, |c|, c) && Complete(s, c) && Loaded(s, s', owner, size, blocks, c)
    ensures Inv(s') && s'.active == |s'.teb|
  {
    EveryThreadServed(s, c);
    LoadKeepsSafe(s, s', owner, size, blocks, c);
    LoadKeepsCovered(s, s', owner, size, blocks, c);
  }

  lemma LoadKeepsCovered(s: State, s': State, owner: Address, size: nat, blocks: seq<Address>, c: Choice)
    requires Inv(s) && RecordsOk(s') && FirstClear(s.bitmap, 0).Some? && |blocks| == |c| && BlocksOk(s, blocks)
    requires ValidChoice(s, |c|, c) && Loaded(s, s', owner, size, blocks, c)
    requires forall t :: t in s.teb ==> Chosen(c, t, |c|)
    ensures Covered(s')
  {
    forall j, e | 0 <= j < |s.records| && s.records[j].thread in s.teb && 0 <= e < |s'.entries|
      ensures Holds(s'.heap, s'.vectors[s.records[j].mmp], s'.entries[e])
    {
      LoadCovers(s, s', owner, size, blocks, c, j, e);
    }
  }

  /** Of all module slots of all threads, x is in slot k of record j and in no other. */
  ghost predicate OnlySlot(s: State, x: Address, j: nat, k: nat)
    requires RecordsOk(s)
  {
    && j < |s.records|
    && (forall j', l :: 0 <= j' < |s.records| && START_TLS_INDEX <= l < MAXIMUM_TLS_INDEX ==>
          (s.vectors[s.records[j'].mmp][l] == x <==> j' == j && l == k))
  }

  /** Block x went to the thread of record j, into slot k and no other, and what k held is freed. */
  ghost predicate Delivered(s: State, s': State, c: Choice, x: Address, i: nat, j: nat, k: nat)
    requires RecordsOk(s) && RecordsOk(s') && k < MAXIMUM_TLS_INDEX
  {
    && Gets(s, c, i, j)
    && OnlySlot(s', x, j, k)
    && s.vectors[s.records[j].mmp][k] !in s'.heap
  }

  lemma OldBlockFreed(
    s: State, s': State, owner: Address, size: nat, blocks: seq<Address>, c: Choice, i: nat, j: nat, k: nat)
    requires Safe(s) && 0 !in s'.heap && FirstClear(s.bitmap, 0) == Some(k) && |blocks| == |c|
    requires START_TLS_INDEX <= k < MAXIMUM_TLS_INDEX
    requires Loaded(s, s', owner, size, blocks, c) && Gets(s, c, i, j)
    ensures s.vectors[s.records[j].mmp][k] !in s'.heap
  {
    var x := s.vectors[s.records[j].mmp][k];
    assert Owns(s.heap, s.vectors[s.records[j].mmp], s.records[j].id);
    assert ReplacedAt(s, c, k, x, s.records[j]);
    assert Replaced(s, c, k, x);
  }

  lemma OnlySlotOfBlock(
    s: State, s': State, owner: Address, size: nat, blocks: seq<Address>, c: Choice, i: nat, j: nat, k: nat)
    requires Safe(s) && Safe(s') && FirstClear(s.bitmap, 0) == Some(k) && |blocks| == |c|
    requires k < MAXIMUM_TLS_INDEX && Loaded(s, s', owner, size, blocks, c) && Gets(s, c, i, j)
    ensures blocks[i] in s'.heap && OnlySlot(s', blocks[i], j, k)
  {
    forall l, j' | 0 <= j' < |s'.records| && START_TLS_INDEX <= l < MAXIMUM_TLS_INDEX
      ensures s'.vectors[s'.records[j'].mmp][l] == blocks[i] <==> j' == j && l == k
    {
      assert Backed(s, s.records[j']);
      if s'.vectors[s'.records[j'].mmp][l] == blocks[i] {
        assert Owns(s'.heap, s'.vectors[s'.records[j'].mmp], s'.records[j'].id);
        RecordUnique(s', j', j);
      }
    }
  }

  /** Each block of the request ends up in exactly one slot, or freed; what the slot held is freed. */
  lemma RequestBlocksPlacedOrFreed(
    s: State, s': State, owner: Address, size: nat, blocks: seq<Address>, c: Choice, i: nat)
    requires Safe(s) && FirstClear(s.bitmap, 0).Some?
    requires |blocks| == |c| && BlocksOk(s, blocks)
    requires ValidChoice(s, |c|, c) && Loaded(s, s', owner, size, blocks, c)
    requires i < |blocks|
    ensures Safe(s')
    ensures c[i].None? ==> blocks[i] !in s'.heap
    ensures c[i].Some? ==>
              && blocks[i] in s'.heap
              && exists j: nat :: Delivered(s, s', c, blocks[i], i, j, FirstClear(s.bitmap, 0).value)
  {
    LoadKeepsSafe(s, s', owner, size, blocks, c);
    if c[i].Some? {
      var k := FirstClear(s.bitmap, 0).value;
      var j := ChosenRecord(s, c, i);
      OnlySlotOfBlock(s, s', owner, size, blocks, c, i, j, k);
      OldBlockFreed(s, s', owner, size, blocks, c, i, j, k);
      assert Delivered(s, s', c, blocks[i], i, j, k);
    }
  }

  /** MmpHandleTlsData after a refused kernel call: the entry stays listed and every request item
      is taken off the count. */
  function LoadRefused(s: State, owner: Address, size: nat): State
    requires FirstClear(s.bitmap, 0).Some?
  {
    AddEntry(s, owner, size).(active := 0)
  }

  /** A refused load keeps the invariant only when there is no thread to cover. */
  lemma RefusedLoadKeepsInvIff(s: State, owner: Address, size: nat)
    requires Inv(s) && FirstClear(s.bitmap, 0).Some?
    ensures Inv(LoadRefused(s, owner, size)) <==> s.teb == map[]
  {
    if s.teb == map[] {
      AddEntryKeepsSafe(s, owner, size, 0);
    } else {
      var t :| t in s.teb;
      assert |s.teb.Keys| > 0;
    }
  }

  // ---------- Module unload ----------

  lemma DropKeepsInv(s: State, owner: Address)
    requires Inv(s)
    ensures Inv(DropEntry(s, owner))
  {
    DropKeepsSafe(s, owner);
    var d := EntryOf(s.entries, owner);
    if d < |s.entries| {
      FewerEntriesCovered(s, DropEntry(s, owner), d);
    }
  }

  lemma FewerEntriesCovered(s: State, s': State, d: nat)
    requires RecordsOk(s) && Covered(s) && d < |s.entries|
    requires s' == s.(bitmap := s'.bitmap, entries := s.entries[..d] + s.entries[d + 1..])
    requires RecordsOk(s')
    ensures Covered(s')
  {
    forall j, e | 0 <= j < |s.records| && s.records[j].thread in s.teb && 0 <= e < |s'.entries|
      ensures Holds(s.heap, s.vectors[s.records[j].mmp], s'.entries[e])
    {
      assert s'.entries[e] == s.entries[if e < d then e else e + 1];
    }
  }

  lemma DropKeepsSafe(s: State, owner: Address)
    requires Safe(s)
    ensures Safe(DropEntry(s, owner))
  {
    DropEntryKeepsIndexOk(s, owner);
    OtherFieldsSafe(s, DropEntry(s, owner));
  }
}
