/**
 * The state behind TLS virtualisation, and the invariants it keeps.
 *
 * Every registered thread runs on a private vector of 256 slots.  Slots below 0x80 mirror the
 * vector ntdll believes the thread has; slots from 0x80 up hold one data block for each listed
 * memory module.
 */
module TlsState {
  const START_TLS_INDEX: nat := 0x80
  const MAXIMUM_TLS_INDEX: nat := 0x100

  /** ntdll grows its TLS vectors in steps of this many slots. */
  const VECTOR_GRANULE: nat := 8

  /** Heap addresses; 0 is the null pointer. */
  type Address = nat
  type ThreadId = nat

  type Vector = seq<Address>

  const DWORD_RANGE: nat := 0x1_0000_0000

  type Dword = n: nat | n < DWORD_RANGE

  /** DWORD arithmetic wraps around. */
  function Wrapped(n: int): Dword {
    n % DWORD_RANGE
  }

  /** MMP_TLSP_RECORD: `ldr` is the vector ntdll knows, `mmp` the one the thread runs on. */
  datatype Record = Record(id: Address, thread: ThreadId, ldr: Address, mmp: Address)

  /** TLS_ENTRY of a memory module; `size` is the length of its TLS template. */
  datatype Entry = Entry(owner: Address, index: nat, size: nat)

  /** An exited thread whose blocks the worker still has to free. */
  datatype Postponed = Postponed(record: Record, snapshot: Vector)

  /** Where a data block was installed: the thread's record, the index, and the module it is for. */
  datatype Home = Home(record: Address, index: nat, owner: Address)

  /**
   * `teb` maps each live TLS thread to its ThreadLocalStoragePointer, `vectors` holds the TLS
   * vectors on the heap and `heap` the data blocks that are allocated and not yet freed.
   */
  datatype State = State(
    teb: map<ThreadId, Address>,
    vectors: map<Address, Vector>,
    records: seq<Record>,
    entries: seq<Entry>,
    bitmap: seq<bool>,
    active: Dword,
    postponed: seq<Postponed>,
    heap: map<Address, Home>)

  // ---------- Records ----------

  predicate Apart(a: Record, b: Record) {
    && a.id != b.id
    && a.thread != b.thread
    && a.mmp != b.mmp
    && a.mmp != b.ldr
    && a.ldr != b.mmp
    && a.ldr != b.ldr
  }

  predicate Backed(s: State, r: Record) {
    && r.mmp in s.vectors
    && |s.vectors[r.mmp]| == MAXIMUM_TLS_INDEX
    && r.ldr in s.vectors
    && r.mmp != r.ldr
    && (r.thread in s.teb ==> s.teb[r.thread] == r.mmp)
  }

  predicate Registered(s: State, t: ThreadId) {
    exists i :: 0 <= i < |s.records| && s.records[i].thread == t
  }

  ghost predicate RecordsOk(s: State) {
    && (forall i, j :: 0 <= i < j < |s.records| ==> Apart(s.records[i], s.records[j]))
    && (forall i :: 0 <= i < |s.records| ==> Backed(s, s.records[i]))
    && (forall t :: t in s.teb ==> Registered(s, t))
  }

  predicate ApartFromPostponed(r: Record, q: Postponed) {
    && r.id != q.record.id
    && r.ldr != q.record.ldr
    && r.mmp != q.record.ldr
  }

  predicate ApartItems(a: Postponed, b: Postponed) {
    a.record.id != b.record.id && a.record.ldr != b.record.ldr
  }

  predicate AllApart(items: seq<Postponed>) {
    forall i, j :: 0 <= i < j < |items| ==> ApartItems(items[i], items[j])
  }

  ghost predicate PostponedOk(s: State) {
    && (forall i :: 0 <= i < |s.postponed| ==>
          |s.postponed[i].snapshot| == MAXIMUM_TLS_INDEX && s.postponed[i].record.ldr in s.vectors)
    && AllApart(s.postponed)
    && (forall i, j :: 0 <= i < |s.records| && 0 <= j < |s.postponed| ==>
          ApartFromPostponed(s.records[i], s.postponed[j]))
  }

  // ---------- Mirror ----------

  /** The two vectors of a record agree on every slot ntdll has published. */
  predicate Mirrored(vectors: map<Address, Vector>, r: Record)
    requires r.mmp in vectors && |vectors[r.mmp]| == MAXIMUM_TLS_INDEX && r.ldr in vectors
  {
    && |vectors[r.ldr]| <= START_TLS_INDEX
    && (forall k :: 0 <= k < |vectors[r.ldr]| ==> vectors[r.ldr][k] == vectors[r.mmp][k])
    && (forall k :: |vectors[r.ldr]| <= k < START_TLS_INDEX ==> vectors[r.mmp][k] == 0)
  }

  ghost predicate MirrorOk(s: State)
    requires RecordsOk(s)
  {
    forall i :: 0 <= i < |s.records| ==> Mirrored(s.vectors, s.records[i])
  }

  // ---------- Index allocator ----------

  /** Some listed entry carries index k. */
  predicate Carried(entries: seq<Entry>, k: nat) {
    exists i :: 0 <= i < |entries| && entries[i].index == k
  }

  ghost predicate IndexOk(bitmap: seq<bool>, entries: seq<Entry>) {
    && |bitmap| == MAXIMUM_TLS_INDEX
    && (forall k :: 0 <= k < START_TLS_INDEX ==> bitmap[k])
    && (forall i :: 0 <= i < |entries| ==> START_TLS_INDEX <= entries[i].index < MAXIMUM_TLS_INDEX)
    && (forall i, j :: 0 <= i < j < |entries| ==> entries[i].index != entries[j].index)
    && (forall k :: START_TLS_INDEX <= k < MAXIMUM_TLS_INDEX ==> (bitmap[k] <==> Carried(entries, k)))
  }

  // ---------- Ownership, coverage, count ----------

  /** Every block in the module part of a vector is allocated, and its home is this very slot. */
  predicate Owns(heap: map<Address, Home>, v: Vector, id: Address)
    requires |v| == MAXIMUM_TLS_INDEX
  {
    forall k :: START_TLS_INDEX <= k < MAXIMUM_TLS_INDEX && v[k] != 0 ==>
      v[k] in heap && heap[v[k]].record == id && heap[v[k]].index == k
  }

  ghost predicate OwnedOk(s: State)
    requires RecordsOk(s) && PostponedOk(s)
  {
    && 0 !in s.heap
    && (forall i :: 0 <= i < |s.records| ==> Owns(s.heap, s.vectors[s.records[i].mmp], s.records[i].id))
    && (forall i :: 0 <= i < |s.postponed| ==>
          Owns(s.heap, s.postponed[i].snapshot, s.postponed[i].record.id))
  }

  /** What every step keeps that has a record and a vector for its thread, whatever else fails. */
  ghost predicate Safe(s: State) {
    && RecordsOk(s)
    && PostponedOk(s)
    && MirrorOk(s)
    && IndexOk(s.bitmap, s.entries)
    && OwnedOk(s)
  }

  /** Vector v holds, at the entry's index, a block that was allocated for the entry's module. */
  predicate Holds(heap: map<Address, Home>, v: Vector, e: Entry) {
    && e.index < |v|
    && v[e.index] != 0
    && v[e.index] in heap
    && heap[v[e.index]].owner == e.owner
  }

  /** Every live thread holds a block for every listed entry. */
  ghost predicate Covered(s: State)
    requires RecordsOk(s)
  {
    forall i, e :: 0 <= i < |s.records| && s.records[i].thread in s.teb && 0 <= e < |s.entries| ==>
      Holds(s.heap, s.vectors[s.records[i].mmp], s.entries[e])
  }

  ghost predicate Counted(s: State) {
    |s.teb| <= s.active
  }

  /** What holds besides as long as neither an allocation nor a kernel call fails. */
  ghost predicate Inv(s: State) {
    Safe(s) && Covered(s) && Counted(s)
  }

  // ---------- What the invariants mean ----------

  /** Records are told apart by their thread, by their private vector, and by their address. */
  lemma RecordUnique(s: State, i: nat, j: nat)
    requires RecordsOk(s) && i < |s.records| && j < |s.records|
    requires
      || s.records[i].thread == s.records[j].thread
      || s.records[i].mmp == s.records[j].mmp
      || s.records[i].id == s.records[j].id
    ensures i == j
  {
    assert i < j ==> Apart(s.records[i], s.records[j]);
    assert j < i ==> Apart(s.records[j], s.records[i]);
  }

  /** In every safe state a block in a module slot of a registered thread is allocated and at home there, and
      no other slot of any live, killed or exited thread refers to it. */
  lemma BlockInOneSlotAlone(s: State, i: nat, k: nat)
    requires Safe(s) && i < |s.records| && START_TLS_INDEX <= k < MAXIMUM_TLS_INDEX
    requires s.vectors[s.records[i].mmp][k] != 0
    ensures var block := s.vectors[s.records[i].mmp][k];
            && block in s.heap && s.heap[block].record == s.records[i].id && s.heap[block].index == k
            && (forall j, l :: 0 <= j < |s.records| && START_TLS_INDEX <= l < MAXIMUM_TLS_INDEX ==>
                  s.vectors[s.records[j].mmp][l] == block ==> j == i && l == k)
            && (forall q, l :: 0 <= q < |s.postponed| && START_TLS_INDEX <= l < MAXIMUM_TLS_INDEX ==>
                  s.postponed[q].snapshot[l] != block)
  {
    var block := s.vectors[s.records[i].mmp][k];
    assert Owns(s.heap, s.vectors[s.records[i].mmp], s.records[i].id);
    forall j, l | 0 <= j < |s.records| && START_TLS_INDEX <= l < MAXIMUM_TLS_INDEX
                  && s.vectors[s.records[j].mmp][l] == block
      ensures j == i && l == k
    {
      assert Owns(s.heap, s.vectors[s.records[j].mmp], s.records[j].id);
      RecordUnique(s, i, j);
    }
    forall q, l | 0 <= q < |s.postponed| && START_TLS_INDEX <= l < MAXIMUM_TLS_INDEX
      ensures s.postponed[q].snapshot[l] != block
    {
      assert Owns(s.heap, s.postponed[q].snapshot, s.postponed[q].record.id);
      assert ApartFromPostponed(s.records[i], s.postponed[q]);
    }
  }

  /** In every state that meets the invariant a live thread holds such a block for each listed entry, allocated
      for that entry's module. */
  lemma BlockBelongsToThatPairAlone(s: State, t: ThreadId, e: nat) returns (i: nat)
    requires Inv(s) && t in s.teb && e < |s.entries|
    ensures i < |s.records| && s.records[i].thread == t && s.teb[t] == s.records[i].mmp
    ensures var k := s.entries[e].index; var block := s.vectors[s.teb[t]][k];
            && block != 0 && block in s.heap && s.heap[block] == Home(s.records[i].id, k, s.entries[e].owner)
            && (forall j, l :: 0 <= j < |s.records| && START_TLS_INDEX <= l < MAXIMUM_TLS_INDEX ==>
                  s.vectors[s.records[j].mmp][l] == block ==> j == i && l == k)
            && (forall q, l :: 0 <= q < |s.postponed| && START_TLS_INDEX <= l < MAXIMUM_TLS_INDEX ==>
                  s.postponed[q].snapshot[l] != block)
  {
    assert Registered(s, t);
    i :| 0 <= i < |s.records| && s.records[i].thread == t;
    assert Backed(s, s.records[i]);
    assert Holds(s.heap, s.vectors[s.records[i].mmp], s.entries[e]);
    BlockInOneSlotAlone(s, i, s.entries[e].index);
  }
}
