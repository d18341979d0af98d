/**
 * What a hooked NtSetInformationProcess(ProcessTlsInformation) call does, as a relation between
 * states, and the proof that ntdll cannot tell it from the kernel's own operation.
 */
module TlsHook {
  import opened Wrappers
  import opened TlsState

  const REPLACE_INDEX: nat := 0
  const REPLACE_VECTOR: nat := 1
  const MAX_OPERATION: nat := 2

  /** THREAD_TLS_INFORMATION_ASSIGNED: the kernel processed the item. */
  const ASSIGNED: nat := 1

  /** THREAD_TLS_INFORMATION: `ptr` is TlsVector for ReplaceVector, TlsModulePointer otherwise. */
  datatype Item = Item(flags: nat, thread: ThreadId, ptr: Address)

  /** PROCESS_TLS_INFORMATION: `arg` is TlsVectorLength for ReplaceVector, TlsIndex otherwise. */
  datatype Request = Request(op: nat, arg: nat, items: seq<Item>)

  /** The thread the kernel picks for each item, if any. */
  type Choice = seq<Option<ThreadId>>

  predicate ValidChoice(s: State, n: nat, c: Choice) {
    && |c| == n
    && (forall i :: 0 <= i < n && c[i].Some? ==> c[i].value in s.teb)
    && (forall i, j :: 0 <= i < j < n && c[i].Some? && c[j].Some? ==> c[i] != c[j])
  }

  /** The item given to thread t, or |c| when there is none. */
  ghost function ItemOf(c: Choice, t: ThreadId): (i: nat)
    ensures i < |c| ==> c[i] == Some(t)
    ensures i == |c| || i < |c|
    ensures i == |c| ==> !Chosen(c, t, |c|)
  {
    if Chosen(c, t, |c|) then var i: nat :| i < |c| && c[i] == Some(t); i else |c|
  }

  predicate Chosen(c: Choice, t: ThreadId, n: nat)
    requires n <= |c|
  {
    exists i :: 0 <= i < n && c[i] == Some(t)
  }

  /** The kernel leaves no item unused while a live thread is without one. */
  predicate Complete(s: State, c: Choice) {
    || (forall i :: 0 <= i < |c| ==> c[i].Some?)
    || (forall t :: t in s.teb ==> Chosen(c, t, |c|))
  }

  /** The requests the hook passes on to the kernel: ntdll's two operations on the slots that are ntdll's, and
      ReplaceIndex on the others for a memory module. */
  predicate Servable(byNtdll: bool, req: Request) {
    if byNtdll then req.op < 2 && req.arg < 0x80
    else req.op == 0 && 0x80 <= req.arg < 0x100
  }

  /** The vector is some record's or some postponed item's. */
  predicate InUse(s: State, v: Address) {
    || (exists j :: 0 <= j < |s.records| && (s.records[j].mmp == v || s.records[j].ldr == v))
    || (exists q :: 0 <= q < |s.postponed| && s.postponed[q].record.ldr == v)
  }

  /** The vectors a ReplaceVector request names exist and have the slot it installs. */
  predicate Readable(s: State, req: Request) {
    req.op == REPLACE_VECTOR ==>
      forall i :: 0 <= i < |req.items| ==>
        req.items[i].ptr in s.vectors && req.arg < |s.vectors[req.items[i].ptr]|
  }

  /** The pointer that item i puts into slot `arg`. */
  function Pointer(s: State, req: Request, i: nat): Address
    requires i < |req.items| && Readable(s, req)
  {
    if req.op == REPLACE_VECTOR then s.vectors[req.items[i].ptr][req.arg] else req.items[i].ptr
  }

  /** Request pointers are distinct and in no private vector yet; new vectors belong to nobody. */
  ghost predicate Fresh(s: State, req: Request)
    requires RecordsOk(s) && Readable(s, req) && req.arg < MAXIMUM_TLS_INDEX
  {
    && (forall i, j :: 0 <= i < j < |req.items| ==> Pointer(s, req, i) != Pointer(s, req, j))
    && (forall i, j :: 0 <= i < |req.items| && 0 <= j < |s.records| ==>
          s.vectors[s.records[j].mmp][req.arg] != Pointer(s, req, i))
    && (req.op == REPLACE_VECTOR ==>
          && (forall i, j :: 0 <= i < j < |req.items| ==> req.items[i].ptr != req.items[j].ptr)
          && (forall i :: 0 <= i < |req.items| ==> !InUse(s, req.items[i].ptr)))
  }

  /** The least multiple of the granule above n: how far ntdll grows a vector of n slots. */
  function Grown(n: nat): (m: nat)
    ensures n < m <= n + VECTOR_GRANULE && m % VECTOR_GRANULE == 0
  {
    (n / VECTOR_GRANULE + 1) * VECTOR_GRANULE
  }

  /** The slots of the chosen threads' LDR vectors that the request is about are there: all below a new vector's
      length, or the one that is replaced. */
  ghost predicate SlotsThere(s: State, req: Request, c: Choice)
    requires RecordsOk(s)
  {
    forall i: nat, j: nat :: Gets(s, c, i, j) ==>
      if req.op == REPLACE_VECTOR then req.arg <= |s.vectors[s.records[j].ldr]|
      else req.arg < |s.vectors[s.records[j].ldr]|
  }

  /** What ntdll keeps to: it replaces whole vectors by zeroed, grown ones that differ in one new
      slot, and single slots inside the current ones. */
  ghost predicate NtdllDiscipline(s: State, req: Request)
    requires RecordsOk(s) && Readable(s, req)
  {
    req.op == REPLACE_VECTOR ==>
      && (forall j :: 0 <= j < |s.records| && s.records[j].thread in s.teb ==>
            |s.vectors[s.records[j].ldr]| == req.arg)
      && (forall i :: 0 <= i < |req.items| ==> |s.vectors[req.items[i].ptr]| <= Grown(req.arg))
      && (forall i, k :: 0 <= i < |req.items| && req.arg < k < |s.vectors[req.items[i].ptr]| ==>
            s.vectors[req.items[i].ptr][k] == 0)
  }

  // ---------- The effect of a successful call ----------

  /** Record j's thread was given item i. */
  predicate Gets(s: State, c: Choice, i: nat, j: nat) {
    i < |c| && j < |s.records| && c[i] == Some(s.records[j].thread)
  }

  /**
   * A ReplaceVector request after the kernel has swapped slot `arg` and the first n items have
   * been mapped back: the vector of item i carries the thread's old slots and the new one, it has
   * become the thread's LDR vector, and the item returns the LDR vector it took the place of.
   */
  ghost predicate VectorHooked(s: State, s': State, req: Request, items': seq<Item>, c: Choice, n: nat)
    requires RecordsOk(s) && Readable(s, req) && req.op == REPLACE_VECTOR && req.arg < START_TLS_INDEX
    requires |c| == |req.items| && n <= |c|
  {
    && s' == s.(vectors := s'.vectors, records := s'.records)
    && s'.vectors.Keys == s.vectors.Keys
    && |s'.records| == |s.records|
    && |items'| == |req.items|
    && SlotsSwapped(s, s', req, c)
    && ItemsGiven(s, s', req, items', c, n)
    && RestKept(s, s', req, items', c, n)
  }

  /** The kernel's part: slot `arg` of every chosen thread holds its item's pointer. */
  ghost predicate SlotsSwapped(s: State, s': State, req: Request, c: Choice)
    requires RecordsOk(s) && Readable(s, req) && req.op == REPLACE_VECTOR && req.arg < START_TLS_INDEX
    requires |c| == |req.items| && s'.vectors.Keys == s.vectors.Keys
  {
    forall i: nat, j: nat :: Gets(s, c, i, j) ==>
      s'.vectors[s.records[j].mmp] == s.vectors[s.records[j].mmp][req.arg := Pointer(s, req, i)]
  }

  /** The first n items are mapped back. */
  ghost predicate ItemsGiven(s: State, s': State, req: Request, items': seq<Item>, c: Choice, n: nat)
    requires RecordsOk(s) && Readable(s, req) && req.op == REPLACE_VECTOR && req.arg < START_TLS_INDEX
    requires |c| == |req.items| == |items'| && n <= |c|
    requires s'.vectors.Keys == s.vectors.Keys && |s'.records| == |s.records|
  {
    forall i: nat, j: nat :: Gets(s, c, i, j) && i < n ==>
      && s'.records[j] == s.records[j].(ldr := req.items[i].ptr)
      && s'.vectors[req.items[i].ptr]
         == s.vectors[s.records[j].mmp][..req.arg] + s.vectors[req.items[i].ptr][req.arg..]
      && items'[i] == Item(ASSIGNED, s.records[j].thread, s.records[j].ldr)
  }

  /** All other items, records and vectors are as they were. */
  ghost predicate RestKept(s: State, s': State, req: Request, items': seq<Item>, c: Choice, n: nat)
    requires |c| == |req.items| == |items'| && n <= |c|
    requires s'.vectors.Keys == s.vectors.Keys && |s'.records| == |s.records|
  {
    && (forall i :: 0 <= i < |c| && (n <= i || c[i].None?) ==> items'[i] == req.items[i])
    && (forall j :: 0 <= j < |s.records| && !Chosen(c, s.records[j].thread, n) ==>
          s'.records[j] == s.records[j])
    && (forall v :: v in s.vectors && !SwappedVector(s, c, v) && !GivenVector(req, c, v, n) ==>
          s'.vectors[v] == s.vectors[v])
  }

  /** The private vector of a thread the kernel chose. */
  predicate SwappedVector(s: State, c: Choice, v: Address) {
    exists j :: 0 <= j < |s.records| && s.records[j].mmp == v && Chosen(c, s.records[j].thread, |c|)
  }

  /** The vector of one of the first n items, if the kernel used the item. */
  predicate GivenVector(req: Request, c: Choice, v: Address, n: nat)
    requires |c| == |req.items| && n <= |c|
  {
    exists i :: 0 <= i < n && c[i].Some? && req.items[i].ptr == v
  }

  /** The LDR vector of a thread that one of the first n items went to. */
  predicate PublishedVector(s: State, c: Choice, v: Address, n: nat)
    requires n <= |c|
  {
    exists j :: 0 <= j < |s.records| && s.records[j].ldr == v && Chosen(c, s.records[j].thread, n)
  }

  /** A ReplaceIndex request at the same stage; ntdll's requests also reach the LDR vectors. */
  ghost predicate IndexHooked(
    s: State, s': State, byNtdll: bool, req: Request, items': seq<Item>, c: Choice, n: nat)
    requires RecordsOk(s) && req.op == REPLACE_INDEX && req.arg < MAXIMUM_TLS_INDEX
    requires |c| == |req.items| && n <= |c|
  {
    && s' == s.(vectors := s'.vectors)
    && s'.vectors.Keys == s.vectors.Keys
    && |items'| == |req.items|
    && IndexSwapped(s, s', req, c)
    && IndexPublished(s, s', byNtdll, req, items', c, n)
    && IndexKept(s, s', byNtdll, req, items', c, n)
  }

  ghost predicate IndexSwapped(s: State, s': State, req: Request, c: Choice)
    requires RecordsOk(s) && req.arg < MAXIMUM_TLS_INDEX
    requires |c| == |req.items| && s'.vectors.Keys == s.vectors.Keys
  {
    forall i: nat, j: nat :: Gets(s, c, i, j) ==>
      s'.vectors[s.records[j].mmp] == s.vectors[s.records[j].mmp][req.arg := req.items[i].ptr]
  }

  ghost predicate IndexPublished(
    s: State, s': State, byNtdll: bool, req: Request, items': seq<Item>, c: Choice, n: nat)
    requires RecordsOk(s) && req.arg < MAXIMUM_TLS_INDEX
    requires |c| == |req.items| == |items'| && n <= |c| && s'.vectors.Keys == s.vectors.Keys
  {
    forall i: nat, j: nat :: Gets(s, c, i, j) && i < n ==>
      && items'[i] == Item(ASSIGNED, s.records[j].thread, s.vectors[s.records[j].mmp][req.arg])
      && (byNtdll ==>
            && req.arg < |s.vectors[s.records[j].ldr]|
            && s'.vectors[s.records[j].ldr] == s.vectors[s.records[j].ldr][req.arg := req.items[i].ptr])
  }

  ghost predicate IndexKept(
    s: State, s': State, byNtdll: bool, req: Request, items': seq<Item>, c: Choice, n: nat)
    requires |c| == |req.items| == |items'| && n <= |c| && s'.vectors.Keys == s.vectors.Keys
  {
    && (forall i :: 0 <= i < |c| && (n <= i || c[i].None?) ==> items'[i] == req.items[i])
    && (forall v :: v in s.vectors && !SwappedVector(s, c, v)
                    && !(byNtdll && PublishedVector(s, c, v, n)) ==>
          s'.vectors[v] == s.vectors[v])
  }

  // ---------- ntdll's view ----------

  /** What ntdll can see: the vector it believes each thread has, and all memory but ours. */
  datatype NtdllView = NtdllView(vectorOf: map<ThreadId, Address>, memory: map<Address, Vector>)

  /** The position of thread t's record. */
  ghost function Find(records: seq<Record>, t: ThreadId): (j: nat)
    requires exists j :: 0 <= j < |records| && records[j].thread == t
    ensures j < |records| && records[j].thread == t
  {
    var j: nat :| j < |records| && records[j].thread == t; j
  }

  /** v is a private vector. */
  predicate Private(records: seq<Record>, v: Address) {
    exists j :: 0 <= j < |records| && records[j].mmp == v
  }

  /** The vector ntdll gave thread t last. */
  ghost function LdrOf(s: State, t: ThreadId): Address
    requires Registered(s, t)
  {
    s.records[Find(s.records, t)].ldr
  }

  ghost predicate AllRegistered(s: State) {
    forall t :: t in s.teb ==> Registered(s, t)
  }

  ghost function View(s: State): NtdllView
    requires AllRegistered(s)
  {
    NtdllView(
      map t | t in s.teb :: LdrOf(s, t),
      map v | v in s.vectors && !Private(s.records, v) :: s.vectors[v])
  }

  /** The used item that names vector v, or |c| when there is none. */
  ghost function ItemFor(items: seq<Item>, c: Choice, v: Address): (i: nat)
    requires |items| == |c|
    ensures i < |c| ==> items[i].ptr == v && c[i].Some?
    ensures i == |c| || i < |c|
    ensures i == |c| ==> forall k :: 0 <= k < |c| && c[k].Some? ==> items[k].ptr != v
  {
    if exists k :: 0 <= k < |c| && c[k].Some? && items[k].ptr == v then
      var i: nat :| i < |c| && c[i].Some? && items[i].ptr == v; i
    else |c|
  }

  ghost predicate NativeReady(a: NtdllView, len: nat, items: seq<Item>, c: Choice) {
    && |items| == |c|
    && (forall i :: 0 <= i < |c| && c[i].Some? ==>
          && c[i].value in a.vectorOf
          && a.vectorOf[c[i].value] in a.memory
          && len <= |a.memory[a.vectorOf[c[i].value]]|
          && items[i].ptr in a.memory
          && len <= |a.memory[items[i].ptr]|)
  }

  /** The kernel's own ReplaceVector: each chosen thread moves to its item's vector, which receives
      the thread's first `len` slots, and the item returns the thread's previous vector. */
  ghost function NativeReplaceVector(a: NtdllView, len: nat, items: seq<Item>, c: Choice)
    : (NtdllView, seq<Item>)
    requires NativeReady(a, len, items, c)
  {
    (NtdllView(MovedThreads(a, items, c), FilledVectors(a, len, items, c)), ReturnedVectors(a, len, items, c))
  }

  ghost function MovedThreads(a: NtdllView, items: seq<Item>, c: Choice): map<ThreadId, Address>
    requires |items| == |c|
  {
    map t | t in a.vectorOf :: var i := ItemOf(c, t); if i < |c| then items[i].ptr else a.vectorOf[t]
  }

  ghost function FilledVectors(a: NtdllView, len: nat, items: seq<Item>, c: Choice): map<Address, Vector>
    requires NativeReady(a, len, items, c)
  {
    map v | v in a.memory ::
      var i := ItemFor(items, c, v);
      if i < |c| then a.memory[a.vectorOf[c[i].value]][..len] + a.memory[v][len..] else a.memory[v]
  }

  ghost function ReturnedVectors(a: NtdllView, len: nat, items: seq<Item>, c: Choice): seq<Item>
    requires NativeReady(a, len, items, c)
  {
    seq(|c|, i requires 0 <= i < |c| =>
      if c[i].Some? then Item(ASSIGNED, c[i].value, a.vectorOf[c[i].value]) else items[i])
  }

  ghost predicate NativeIndexReady(a: NtdllView, index: nat, items: seq<Item>, c: Choice) {
    && |items| == |c|
    && (forall i :: 0 <= i < |c| && c[i].Some? ==>
          && c[i].value in a.vectorOf
          && a.vectorOf[c[i].value] in a.memory
          && index < |a.memory[a.vectorOf[c[i].value]]|)
  }

  /** The used item whose thread has vector v, or |c| when there is none. */
  ghost function ItemAt(vectorOf: map<ThreadId, Address>, c: Choice, v: Address): (i: nat)
    ensures i < |c| ==> Has(vectorOf, c[i], v)
    ensures i == |c| || i < |c|
    ensures i == |c| ==> forall k :: 0 <= k < |c| ==> !Has(vectorOf, c[k], v)
  {
    if exists k :: 0 <= k < |c| && Has(vectorOf, c[k], v) then
      var i: nat :| i < |c| && Has(vectorOf, c[i], v); i
    else |c|
  }

  predicate Has(vectorOf: map<ThreadId, Address>, t: Option<ThreadId>, v: Address) {
    t.Some? && t.value in vectorOf && vectorOf[t.value] == v
  }

  /** The kernel's own ReplaceIndex: swap one slot of each chosen thread with its item. */
  ghost function NativeReplaceIndex(a: NtdllView, index: nat, items: seq<Item>, c: Choice)
    : (NtdllView, seq<Item>)
    requires NativeIndexReady(a, index, items, c)
  {
    (NtdllView(a.vectorOf, PatchedVectors(a, index, items, c)), ReturnedSlots(a, index, items, c))
  }

  ghost function PatchedVectors(a: NtdllView, index: nat, items: seq<Item>, c: Choice): map<Address, Vector>
    requires NativeIndexReady(a, index, items, c)
  {
    map v | v in a.memory ::
      var i := ItemAt(a.vectorOf, c, v);
      if i < |c| then a.memory[v][index := items[i].ptr] else a.memory[v]
  }

  ghost function ReturnedSlots(a: NtdllView, index: nat, items: seq<Item>, c: Choice): seq<Item>
    requires NativeIndexReady(a, index, items, c)
  {
    seq(|c|, i requires 0 <= i < |c| =>
      if c[i].Some? then Item(ASSIGNED, c[i].value, a.memory[a.vectorOf[c[i].value]][index]) else items[i])
  }

  /** The kernel's own operation can be carried out: the vectors it touches are there and long enough. */
  ghost predicate NativeCallable(a: NtdllView, req: Request, c: Choice) {
    if req.op == REPLACE_VECTOR then NativeReady(a, req.arg, req.items, c)
    else NativeIndexReady(a, req.arg, req.items, c)
  }

  /** The kernel's own operation leads from view a to view a', and answers with `items`. */
  ghost predicate NativeCall(a: NtdllView, req: Request, c: Choice, a': NtdllView, items: seq<Item>) {
    && NativeCallable(a, req, c)
    && (a', items) == if req.op == REPLACE_VECTOR then NativeReplaceVector(a, req.arg, req.items, c)
                      else NativeReplaceIndex(a, req.arg, req.items, c)
  }

  // ---------- Transparency ----------

  /** A chosen thread is registered, under exactly one record. */
  lemma ChosenRecord(s: State, c: Choice, i: nat) returns (j: nat)
    requires RecordsOk(s) && ValidChoice(s, |c|, c) && i < |c| && c[i].Some?
    ensures j == Find(s.records, c[i].value) && Gets(s, c, i, j)
    ensures s.teb[c[i].value] == s.records[j].mmp
    ensures forall j': nat :: Gets(s, c, i, j') ==> j' == j
  {
    assert Registered(s, c[i].value);
    j := Find(s.records, c[i].value);
    assert Backed(s, s.records[j]);
    forall j': nat | Gets(s, c, i, j')
      ensures j' == j
    {
      RecordUnique(s, j', j);
    }
  }

  /** The key to mapping items back: once the kernel has swapped slot `arg`, a private vector holds
      item i's pointer there if and only if its thread is the one item i was given to. */
  lemma FoundIsChosen(s: State, s': State, req: Request, c: Choice, i: nat, j: nat)
    requires RecordsOk(s) && Readable(s, req) && req.arg < MAXIMUM_TLS_INDEX && Fresh(s, req)
    requires ValidChoice(s, |req.items|, c) && i < |req.items| && j < |s.records|
    requires s'.vectors.Keys == s.vectors.Keys
    requires forall i: nat, j: nat :: Gets(s, c, i, j) ==>
               s'.vectors[s.records[j].mmp] == s.vectors[s.records[j].mmp][req.arg := Pointer(s, req, i)]
    requires forall j :: 0 <= j < |s.records| && !Chosen(c, s.records[j].thread, |c|) ==>
               s'.vectors[s.records[j].mmp] == s.vectors[s.records[j].mmp]
    ensures |s'.vectors[s.records[j].mmp]| == MAXIMUM_TLS_INDEX
    ensures s'.vectors[s.records[j].mmp][req.arg] == Pointer(s, req, i) <==> Gets(s, c, i, j)
  {
    var t := s.records[j].thread;
    assert Backed(s, s.records[j]);
    if Chosen(c, t, |c|) {
      var k :| 0 <= k < |c| && c[k] == Some(t);
      assert Gets(s, c, k, j);
      assert s'.vectors[s.records[j].mmp][req.arg] == Pointer(s, req, k);
    }
  }

  /**
   * Hook transparency.  With every live thread registered and fresh request pointers, a successful
   * hooked ReplaceVector changes what ntdll sees, and returns, exactly as the kernel's own would.
   */
  lemma HookedReplaceVectorIsNative(s: State, s': State, req: Request, items': seq<Item>, c: Choice)
    requires RecordsOk(s) && MirrorOk(s) && Readable(s, req)
    requires req.op == REPLACE_VECTOR && req.arg < START_TLS_INDEX
    requires Fresh(s, req) && SlotsThere(s, req, c) && ValidChoice(s, |req.items|, c)
    requires VectorHooked(s, s', req, items', c, |c|)
    requires AllRegistered(s')
    ensures NativeReady(View(s), req.arg, req.items, c)
    ensures (View(s'), items') == NativeReplaceVector(View(s), req.arg, req.items, c)
  {
    VectorReady(s, req, c);
    SameThreads(s, s', req, items', c);
    SamePrivate(s, s');
    forall t | t in s.teb
      ensures LdrOf(s', t) == var i := ItemOf(c, t); if i < |c| then req.items[i].ptr else LdrOf(s, t)
    {
      ViewOfThread(s, s', req, items', c, t);
    }
    NativeVectorOf(s, s', req, c);
    AllFilled(s, s', req, items', c);
    NativeMemory(s, s', req, c);
    NativeItems(s, s', req, items', c);
  }

  lemma VectorReady(s: State, req: Request, c: Choice)
    requires RecordsOk(s) && Readable(s, req) && req.op == REPLACE_VECTOR && req.arg < START_TLS_INDEX
    requires Fresh(s, req) && SlotsThere(s, req, c) && ValidChoice(s, |req.items|, c)
    ensures NativeReady(View(s), req.arg, req.items, c)
  {
    forall i | 0 <= i < |c| && c[i].Some?
      ensures LdrOf(s, c[i].value) in s.vectors && !Private(s.records, LdrOf(s, c[i].value))
      ensures !Private(s.records, req.items[i].ptr)
      ensures req.arg <= |s.vectors[LdrOf(s, c[i].value)]|
    {
      var j := ChosenRecord(s, c, i);
      LdrNotPrivate(s, j);
      assert !InUse(s, req.items[i].ptr);
    }
  }

  /** A request that the kernel could serve in ntdll's view finds the slots it is about. */
  lemma SlotsThereIfCallable(s: State, req: Request, c: Choice)
    requires RecordsOk(s) && ValidChoice(s, |req.items|, c) && NativeCallable(View(s), req, c)
    ensures SlotsThere(s, req, c)
  {
    forall i: nat, j: nat | Gets(s, c, i, j)
      ensures View(s).vectorOf[c[i].value] == s.records[j].ldr
    {
      var j' := ChosenRecord(s, c, i);
    }
  }

  lemma LdrNotPrivate(s: State, j: nat)
    requires RecordsOk(s) && j < |s.records|
    ensures s.records[j].ldr in s.vectors && !Private(s.records, s.records[j].ldr)
  {
    assert Backed(s, s.records[j]);
    forall k | 0 <= k < |s.records|
      ensures s.records[k].mmp != s.records[j].ldr
    {
      assert k < j ==> Apart(s.records[k], s.records[j]);
      assert j < k ==> Apart(s.records[j], s.records[k]);
    }
  }

  lemma SamePrivate(s: State, s': State)
    requires |s'.records| == |s.records|
    requires forall j :: 0 <= j < |s.records| ==> s'.records[j].mmp == s.records[j].mmp
    ensures forall v :: Private(s'.records, v) <==> Private(s.records, v)
  {
    forall v
      ensures Private(s'.records, v) <==> Private(s.records, v)
    {
      if Private(s.records, v) {
        var j :| 0 <= j < |s.records| && s.records[j].mmp == v;
        assert s'.records[j].mmp == v;
      }
    }
  }

  lemma ViewOfThread(s: State, s': State, req: Request, items': seq<Item>, c: Choice, t: ThreadId)
    requires RecordsOk(s) && Readable(s, req) && req.op == REPLACE_VECTOR && req.arg < START_TLS_INDEX
    requires ValidChoice(s, |req.items|, c) && VectorHooked(s, s', req, items', c, |c|)
    requires t in s.teb
    ensures Registered(s, t) && Registered(s', t)
    ensures LdrOf(s', t) == var i := ItemOf(c, t); if i < |c| then req.items[i].ptr else LdrOf(s, t)
  {
    assert Registered(s, t);
    var j := Find(s.records, t);
    SameThreads(s, s', req, items', c);
    assert s'.records[j].thread == t;
    RecordUnique(s, j, Find(s'.records, t));
    var i := ItemOf(c, t);
    if i < |c| {
      assert Gets(s, c, i, j);
    } else {
      assert !Chosen(c, t, |c|);
    }
  }

  lemma SameThreads(s: State, s': State, req: Request, items': seq<Item>, c: Choice)
    requires RecordsOk(s) && Readable(s, req) && req.op == REPLACE_VECTOR && req.arg < START_TLS_INDEX
    requires |c| == |req.items| && VectorHooked(s, s', req, items', c, |c|)
    ensures forall j :: 0 <= j < |s.records| ==>
              s'.records[j].thread == s.records[j].thread && s'.records[j].mmp == s.records[j].mmp
  {
    forall j | 0 <= j < |s.records|
      ensures s'.records[j].thread == s.records[j].thread && s'.records[j].mmp == s.records[j].mmp
    {
      if Chosen(c, s.records[j].thread, |c|) {
        var i :| 0 <= i < |c| && c[i] == Some(s.records[j].thread);
        assert Gets(s, c, i, j);
      }
    }
  }

  lemma NativeVectorOf(s: State, s': State, req: Request, c: Choice)
    requires AllRegistered(s) && AllRegistered(s') && s'.teb == s.teb
    requires |req.items| == |c|
    requires forall t :: t in s.teb ==>
               LdrOf(s', t) == var i := ItemOf(c, t); if i < |c| then req.items[i].ptr else LdrOf(s, t)
    ensures View(s').vectorOf == MovedThreads(View(s), req.items, c)
  {
  }

  lemma NativeItems(s: State, s': State, req: Request, items': seq<Item>, c: Choice)
    requires RecordsOk(s) && Readable(s, req) && req.op == REPLACE_VECTOR && req.arg < START_TLS_INDEX
    requires ValidChoice(s, |req.items|, c) && VectorHooked(s, s', req, items', c, |c|)
    requires NativeReady(View(s), req.arg, req.items, c)
    ensures items' == ReturnedVectors(View(s), req.arg, req.items, c)
  {
    forall i | 0 <= i < |c|
      ensures c[i].Some? ==> Registered(s, c[i].value)
                             && items'[i] == Item(ASSIGNED, c[i].value, LdrOf(s, c[i].value))
    {
      if c[i].Some? {
        NativeItem(s, s', req, items', c, i);
      }
    }
  }

  lemma NativeItem(s: State, s': State, req: Request, items': seq<Item>, c: Choice, i: nat)
    requires RecordsOk(s) && Readable(s, req) && req.op == REPLACE_VECTOR && req.arg < START_TLS_INDEX
    requires ValidChoice(s, |req.items|, c) && VectorHooked(s, s', req, items', c, |c|) && i < |c| && c[i].Some?
    ensures Registered(s, c[i].value) && items'[i] == Item(ASSIGNED, c[i].value, LdrOf(s, c[i].value))
  {
    var j := ChosenRecord(s, c, i);
  }

  lemma NativeMemory(s: State, s': State, req: Request, c: Choice)
    requires AllRegistered(s) && AllRegistered(s') && s'.vectors.Keys == s.vectors.Keys
    requires forall v :: Private(s'.records, v) <==> Private(s.records, v)
    requires NativeReady(View(s), req.arg, req.items, c)
    requires forall v :: v in s.vectors && !Private(s.records, v) ==> s'.vectors[v] == Filled(s, req, c, v)
    ensures View(s').memory == FilledVectors(View(s), req.arg, req.items, c)
  {
    forall v | v in s.vectors && !Private(s.records, v)
      ensures s'.vectors[v] == FilledVectors(View(s), req.arg, req.items, c)[v]
    {
      assert s'.vectors[v] == Filled(s, req, c, v);
      var i := ItemFor(req.items, c, v);
    }
  }

  /** Vector v after the request, filled up if it was given to one of the chosen threads. */
  ghost function Filled(s: State, req: Request, c: Choice, v: Address): Vector
    requires AllRegistered(s) && v in s.vectors && |c| == |req.items|
    requires NativeReady(View(s), req.arg, req.items, c)
  {
    var i := ItemFor(req.items, c, v);
    if i < |c| then s.vectors[LdrOf(s, c[i].value)][..req.arg] + s.vectors[v][req.arg..] else s.vectors[v]
  }

  lemma AllFilled(s: State, s': State, req: Request, items': seq<Item>, c: Choice)
    requires RecordsOk(s) && MirrorOk(s) && Readable(s, req)
    requires req.op == REPLACE_VECTOR && req.arg < START_TLS_INDEX
    requires SlotsThere(s, req, c) && ValidChoice(s, |req.items|, c)
    requires VectorHooked(s, s', req, items', c, |c|) && NativeReady(View(s), req.arg, req.items, c)
    ensures forall v :: v in s.vectors && !Private(s.records, v) ==> s'.vectors[v] == Filled(s, req, c, v)
  {
    forall v | v in s.vectors && !Private(s.records, v)
      ensures s'.vectors[v] == Filled(s, req, c, v)
    {
      var i := ItemFor(req.items, c, v);
      if i < |c| {
        GivenVectorContents(s, s', req, items', c, i);
      } else {
        assert !SwappedVector(s, c, v);
        assert !GivenVector(req, c, v, |c|);
      }
    }
  }

  /** By the mirror, the slots copied from the private vector are the old LDR vector's. */
  lemma GivenVectorContents(s: State, s': State, req: Request, items': seq<Item>, c: Choice, i: nat)
    requires RecordsOk(s) && MirrorOk(s) && Readable(s, req)
    requires req.op == REPLACE_VECTOR && req.arg < START_TLS_INDEX
    requires SlotsThere(s, req, c) && ValidChoice(s, |req.items|, c)
    requires VectorHooked(s, s', req, items', c, |c|)
    requires i < |c| && c[i].Some?
    ensures Registered(s, c[i].value) && LdrOf(s, c[i].value) in s.vectors
    ensures req.arg <= |s.vectors[LdrOf(s, c[i].value)]|
    ensures s'.vectors[req.items[i].ptr]
            == s.vectors[LdrOf(s, c[i].value)][..req.arg] + s.vectors[req.items[i].ptr][req.arg..]
  {
    var j := ChosenRecord(s, c, i);
    assert Backed(s, s.records[j]);
    SamePublished(s.vectors, s.records[j], req.arg);
  }

  lemma SamePublished(vectors: map<Address, Vector>, r: Record, n: nat)
    requires r.mmp in vectors && |vectors[r.mmp]| == MAXIMUM_TLS_INDEX && r.ldr in vectors && Mirrored(vectors, r)
    requires n <= |vectors[r.ldr]|
    ensures n <= |vectors[r.mmp]| && vectors[r.ldr][..n] == vectors[r.mmp][..n]
  {
  }

  /** The same for ReplaceIndex. */
  lemma HookedReplaceIndexIsNative(s: State, s': State, req: Request, items': seq<Item>, c: Choice)
    requires RecordsOk(s) && MirrorOk(s)
    requires req.op == REPLACE_INDEX && req.arg < START_TLS_INDEX
    requires SlotsThere(s, req, c) && ValidChoice(s, |req.items|, c)
    requires IndexHooked(s, s', true, req, items', c, |c|)
    requires AllRegistered(s')
    ensures NativeIndexReady(View(s), req.arg, req.items, c)
    ensures (View(s'), items') == NativeReplaceIndex(View(s), req.arg, req.items, c)
  {
    IndexReady(s, s', req, items', c);
    AllPatched(s, s', req, items', c);
    NativeIndexMemory(s, s', req, c);
    NativeIndexItems(s, s', req, items', c);
  }

  lemma IndexReady(s: State, s': State, req: Request, items': seq<Item>, c: Choice)
    requires RecordsOk(s) && MirrorOk(s) && req.op == REPLACE_INDEX && req.arg < START_TLS_INDEX
    requires SlotsThere(s, req, c) && ValidChoice(s, |req.items|, c)
    requires IndexHooked(s, s', true, req, items', c, |c|)
    ensures NativeIndexReady(View(s), req.arg, req.items, c)
    ensures forall i :: 0 <= i < |c| ==> items'[i] == ReturnedItem(s, req, c, i)
  {
    forall i | 0 <= i < |c| && c[i].Some?
      ensures Registered(s, c[i].value) && LdrOf(s, c[i].value) in View(s).memory
      ensures req.arg < |s.vectors[LdrOf(s, c[i].value)]|
      ensures items'[i] == Item(ASSIGNED, c[i].value, s.vectors[LdrOf(s, c[i].value)][req.arg])
    {
      ReturnedSlot(s, s', req, items', c, i);
    }
  }

  ghost function ReturnedItem(s: State, req: Request, c: Choice, i: nat): Item
    requires AllRegistered(s) && i < |c| && NativeIndexReady(View(s), req.arg, req.items, c)
  {
    if c[i].Some? then Item(ASSIGNED, c[i].value, s.vectors[LdrOf(s, c[i].value)][req.arg]) else req.items[i]
  }

  lemma AllPatched(s: State, s': State, req: Request, items': seq<Item>, c: Choice)
    requires RecordsOk(s) && MirrorOk(s) && req.op == REPLACE_INDEX && req.arg < START_TLS_INDEX
    requires SlotsThere(s, req, c) && ValidChoice(s, |req.items|, c)
    requires IndexHooked(s, s', true, req, items', c, |c|)
    ensures forall v :: v in s.vectors && !Private(s.records, v) ==> s'.vectors[v] == Patched(s, req, c, v)
  {
    forall v | v in s.vectors && !Private(s.records, v)
      ensures s'.vectors[v] == Patched(s, req, c, v)
    {
      IndexViewOfVector(s, s', req, items', c, v);
    }
  }

  lemma NativeIndexItems(s: State, s': State, req: Request, items': seq<Item>, c: Choice)
    requires AllRegistered(s) && AllRegistered(s') && s'.teb == s.teb && s'.records == s.records
    requires NativeIndexReady(View(s), req.arg, req.items, c)
    requires |items'| == |c|
    requires forall i :: 0 <= i < |c| ==> items'[i] == ReturnedItem(s, req, c, i)
    ensures View(s').vectorOf == View(s).vectorOf
    ensures items' == ReturnedSlots(View(s), req.arg, req.items, c)
  {
  }

  lemma NativeIndexMemory(s: State, s': State, req: Request, c: Choice)
    requires AllRegistered(s) && AllRegistered(s') && s'.records == s.records
    requires s'.vectors.Keys == s.vectors.Keys && NativeIndexReady(View(s), req.arg, req.items, c)
    requires forall v :: v in s.vectors && !Private(s.records, v) ==> s'.vectors[v] == Patched(s, req, c, v)
    ensures View(s').memory == PatchedVectors(View(s), req.arg, req.items, c)
  {
    forall v | v in s.vectors && !Private(s.records, v)
      ensures s'.vectors[v] == PatchedVectors(View(s), req.arg, req.items, c)[v]
    {
      assert s'.vectors[v] == Patched(s, req, c, v);
      var i := ItemAt(View(s).vectorOf, c, v);
    }
  }

  /** Vector v after the requested slot changed, if one of the chosen threads has it. */
  ghost function Patched(s: State, req: Request, c: Choice, v: Address): Vector
    requires AllRegistered(s) && v in s.vectors && |c| == |req.items|
  {
    var i := ItemAt(View(s).vectorOf, c, v);
    if i < |c| && req.arg < |s.vectors[v]| then s.vectors[v][req.arg := req.items[i].ptr] else s.vectors[v]
  }

  /** By the mirror, the slot the kernel returns from the private vector is the LDR vector's. */
  lemma ReturnedSlot(s: State, s': State, req: Request, items': seq<Item>, c: Choice, i: nat)
    requires RecordsOk(s) && MirrorOk(s) && req.op == REPLACE_INDEX && req.arg < START_TLS_INDEX
    requires SlotsThere(s, req, c) && ValidChoice(s, |req.items|, c)
    requires IndexHooked(s, s', true, req, items', c, |c|)
    requires i < |c| && c[i].Some?
    ensures Registered(s, c[i].value)
    ensures LdrOf(s, c[i].value) in s.vectors && !Private(s.records, LdrOf(s, c[i].value))
    ensures req.arg < |s.vectors[LdrOf(s, c[i].value)]|
    ensures items'[i] == Item(ASSIGNED, c[i].value, s.vectors[LdrOf(s, c[i].value)][req.arg])
  {
    var j := ChosenRecord(s, c, i);
    LdrNotPrivate(s, j);
    assert Backed(s, s.records[j]);
    assert Mirrored(s.vectors, s.records[j]);
  }

  lemma IndexViewOfVector(s: State, s': State, req: Request, items': seq<Item>, c: Choice, v: Address)
    requires RecordsOk(s) && req.op == REPLACE_INDEX && req.arg < START_TLS_INDEX
    requires SlotsThere(s, req, c) && ValidChoice(s, |req.items|, c)
    requires IndexHooked(s, s', true, req, items', c, |c|)
    requires v in s.vectors && !Private(s.records, v)
    ensures s'.vectors[v] == Patched(s, req, c, v)
  {
    var i := ItemAt(View(s).vectorOf, c, v);
    if i < |c| {
      var j := ChosenRecord(s, c, i);
      assert Backed(s, s.records[j]);
    } else {
      assert !SwappedVector(s, c, v);
      NotPublished(s, c, v);
    }
  }

  /** A vector that no item's thread has is published by no item. */
  lemma NotPublished(s: State, c: Choice, v: Address)
    requires RecordsOk(s) && ValidChoice(s, |c|, c)
    requires ItemAt(View(s).vectorOf, c, v) == |c|
    ensures !PublishedVector(s, c, v, |c|)
  {
    forall j | 0 <= j < |s.records| && Chosen(c, s.records[j].thread, |c|)
      ensures s.records[j].ldr != v
    {
      var k :| 0 <= k < |c| && c[k] == Some(s.records[j].thread);
      assert Gets(s, c, k, j);
      var j' := ChosenRecord(s, c, k);
      assert View(s).vectorOf[c[k].value] == s.records[j'].ldr;
    }
  }
}
