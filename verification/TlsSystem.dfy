/**
 * TLS virtualisation as one state machine: every event, and the proofs that every run keeps the
 * mirror, the ownership of data blocks and the index allocator, and every run without failures the
 * coverage of live threads and the thread count besides.
 */
module TlsSystem {
  import opened Sequences
  import opened Wrappers
  import opened TlsState
  import opened TlsHook
  import opened TlsRemap
  import opened TlsThreads
  import opened TlsModules
  import opened TlsLoad

  // ---------- ntdll's own requests ----------

  lemma VectorHookedRecord(s: State, s': State, req: Request, items': seq<Item>, c: Choice, j: nat)
    requires Safe(s) && Readable(s, req) && req.op == REPLACE_VECTOR && req.arg < START_TLS_INDEX
    requires Fresh(s, req) && NtdllDiscipline(s, req) && ValidChoice(s, |req.items|, c)
    requires VectorHooked(s, s', req, items', c, |c|) && j < |s.records|
    ensures s'.records[j] == s.records[j].(ldr := s'.records[j].ldr)
    ensures s'.records[j].ldr == s.records[j].ldr
            || exists i :: 0 <= i < |c| && c[i] == Some(s.records[j].thread) && s'.records[j].ldr == req.items[i].ptr
    ensures Backed(s', s'.records[j]) && Mirrored(s'.vectors, s'.records[j])
    ensures s'.vectors[s.records[j].mmp][START_TLS_INDEX..] == s.vectors[s.records[j].mmp][START_TLS_INDEX..]
  {
    assert Backed(s, s.records[j]);
    assert Mirrored(s.vectors, s.records[j]);
    if Chosen(c, s.records[j].thread, |c|) {
      var i :| 0 <= i < |c| && c[i] == Some(s.records[j].thread);
      assert Gets(s, c, i, j);
      assert !InUse(s, req.items[i].ptr);
      GivenRecord(s, s', s.records[j], req.items[i].ptr, req.arg);
    } else {
      UntouchedRecord(s, req, c, j);
    }
  }

  /** The new LDR vector continues the mirror: old slots copied, the new slot in both, zeros above. */
  lemma GivenRecord(s: State, s': State, r: Record, given: Address, len: nat)
    requires Backed(s, r) && Mirrored(s.vectors, r) && s'.teb == s.teb && s'.vectors.Keys == s.vectors.Keys
    requires given in s.vectors && given != r.mmp
    requires |s.vectors[r.ldr]| == len < |s.vectors[given]| <= Grown(len) && len < START_TLS_INDEX
    requires forall k :: len < k < |s.vectors[given]| ==> s.vectors[given][k] == 0
    requires s'.vectors[r.mmp] == s.vectors[r.mmp][len := s.vectors[given][len]]
    requires s'.vectors[given] == s.vectors[r.mmp][..len] + s.vectors[given][len..]
    ensures Backed(s', r.(ldr := given)) && Mirrored(s'.vectors, r.(ldr := given))
    ensures s'.vectors[r.mmp][START_TLS_INDEX..] == s.vectors[r.mmp][START_TLS_INDEX..]
  {
    MirrorContinues(s.vectors[r.mmp], s.vectors[given], len);
  }

  lemma MirrorContinues(mmp: Vector, given: Vector, len: nat)
    requires |mmp| == MAXIMUM_TLS_INDEX && len < |given| <= START_TLS_INDEX
    requires forall k :: len <= k < START_TLS_INDEX ==> mmp[k] == 0
    requires forall k :: len < k < |given| ==> given[k] == 0
    ensures var v, g := mmp[len := given[len]], mmp[..len] + given[len..];
            && |g| == |given|
            && (forall k :: 0 <= k < |g| ==> g[k] == v[k])
            && (forall k :: |g| <= k < START_TLS_INDEX ==> v[k] == 0)
            && v[START_TLS_INDEX..] == mmp[START_TLS_INDEX..]
  {
  }

  /** The vectors of a thread that was not chosen are neither swapped nor given away. */
  lemma UntouchedRecord(s: State, req: Request, c: Choice, j: nat)
    requires RecordsOk(s) && Readable(s, req) && req.op == REPLACE_VECTOR && req.arg < MAXIMUM_TLS_INDEX
    requires Fresh(s, req) && |c| == |req.items| && j < |s.records|
    requires !Chosen(c, s.records[j].thread, |c|)
    ensures !SwappedVector(s, c, s.records[j].mmp) && !SwappedVector(s, c, s.records[j].ldr)
    ensures !GivenVector(req, c, s.records[j].mmp, |c|) && !GivenVector(req, c, s.records[j].ldr, |c|)
  {
    LdrNotPrivate(s, j);
    forall k | 0 <= k < |s.records| && s.records[k].mmp == s.records[j].mmp
      ensures k == j
    {
      RecordUnique(s, k, j);
    }
    forall i | 0 <= i < |c|
      ensures req.items[i].ptr != s.records[j].mmp && req.items[i].ptr != s.records[j].ldr
    {
      assert !InUse(s, req.items[i].ptr);
    }
  }

  lemma VectorHookedApart(s: State, s': State, req: Request, items': seq<Item>, c: Choice, j: nat, k: nat)
    requires Safe(s) && Readable(s, req) && req.op == REPLACE_VECTOR && req.arg < START_TLS_INDEX
    requires Fresh(s, req) && NtdllDiscipline(s, req) && ValidChoice(s, |req.items|, c)
    requires VectorHooked(s, s', req, items', c, |c|) && j < k < |s.records|
    ensures Apart(s'.records[j], s'.records[k])
  {
    assert Apart(s.records[j], s.records[k]);
    VectorHookedRecord(s, s', req, items', c, j);
    VectorHookedRecord(s, s', req, items', c, k);
    forall i | 0 <= i < |c|
      ensures !InUse(s, req.items[i].ptr)
    {
    }
  }

  lemma VectorHookedKeepsRecords(s: State, s': State, req: Request, items': seq<Item>, c: Choice)
    requires Safe(s) && Readable(s, req) && req.op == REPLACE_VECTOR && req.arg < START_TLS_INDEX
    requires Fresh(s, req) && NtdllDiscipline(s, req) && ValidChoice(s, |req.items|, c)
    requires VectorHooked(s, s', req, items', c, |c|)
    ensures RecordsOk(s') && PostponedOk(s')
  {
    forall j | 0 <= j < |s'.records|
      ensures Backed(s', s'.records[j]) && s'.records[j].thread == s.records[j].thread
      ensures forall q :: 0 <= q < |s.postponed| ==> ApartFromPostponed(s'.records[j], s.postponed[q])
    {
      VectorHookedRecord(s, s', req, items', c, j);
      forall q | 0 <= q < |s.postponed|
        ensures ApartFromPostponed(s'.records[j], s.postponed[q])
      {
        assert ApartFromPostponed(s.records[j], s.postponed[q]);
        assert forall i :: 0 <= i < |c| ==> !InUse(s, req.items[i].ptr);
      }
    }
    forall j, k | 0 <= j < k < |s'.records|
      ensures Apart(s'.records[j], s'.records[k])
    {
      VectorHookedApart(s, s', req, items', c, j, k);
    }
    forall t | t in s'.teb
      ensures Registered(s', t)
    {
      assert Registered(s, t);
      var j :| 0 <= j < |s.records| && s.records[j].thread == t;
      assert s'.records[j].thread == t;
    }
  }

  /** A hooked ReplaceVector keeps the invariant; above all, the mirror. */
  lemma VectorHookedKeepsInv(s: State, s': State, req: Request, items': seq<Item>, c: Choice)
    requires Safe(s) && Readable(s, req) && req.op == REPLACE_VECTOR && req.arg < START_TLS_INDEX
    requires Fresh(s, req) && NtdllDiscipline(s, req) && ValidChoice(s, |req.items|, c)
    requires VectorHooked(s, s', req, items', c, |c|)
    ensures Safe(s')
    ensures Inv(s) ==> Inv(s')
  {
    VectorHookedKeepsRecords(s, s', req, items', c);
    forall j | 0 <= j < |s'.records|
      ensures RecordCarriedOver(s, s', j)
    {
      VectorHookedCarries(s, s', req, items', c, j);
    }
    CarriedOver(s, s');
  }

  lemma VectorHookedCarries(s: State, s': State, req: Request, items': seq<Item>, c: Choice, j: nat)
    requires Safe(s) && Readable(s, req) && req.op == REPLACE_VECTOR && req.arg < START_TLS_INDEX
    requires Fresh(s, req) && NtdllDiscipline(s, req) && ValidChoice(s, |req.items|, c)
    requires VectorHooked(s, s', req, items', c, |c|) && RecordsOk(s') && j < |s.records|
    ensures RecordCarriedOver(s, s', j)
  {
    VectorHookedRecord(s, s', req, items', c, j);
    SameModuleSlots(s, s', j);
  }

  /** Record j keeps the mirror and its module slots. */
  ghost predicate RecordCarriedOver(s: State, s': State, j: nat)
    requires RecordsOk(s) && RecordsOk(s') && j < |s.records| && j < |s'.records|
  {
    && s'.records[j] == s.records[j].(ldr := s'.records[j].ldr)
    && Mirrored(s'.vectors, s'.records[j])
    && (forall k :: START_TLS_INDEX <= k < MAXIMUM_TLS_INDEX ==>
          s'.vectors[s'.records[j].mmp][k] == s.vectors[s.records[j].mmp][k])
  }

  lemma SameModuleSlots(s: State, s': State, j: nat)
    requires RecordsOk(s) && RecordsOk(s') && j < |s.records| && j < |s'.records|
    requires s'.records[j].mmp == s.records[j].mmp
    requires s'.vectors[s.records[j].mmp][START_TLS_INDEX..] == s.vectors[s.records[j].mmp][START_TLS_INDEX..]
    ensures forall k :: START_TLS_INDEX <= k < MAXIMUM_TLS_INDEX ==>
              s'.vectors[s.records[j].mmp][k] == s.vectors[s.records[j].mmp][k]
  {
    assert Backed(s, s.records[j]) && Backed(s', s'.records[j]);
    var v, v' := s.vectors[s.records[j].mmp], s'.vectors[s.records[j].mmp];
    forall k | START_TLS_INDEX <= k < MAXIMUM_TLS_INDEX
      ensures v'[k] == v[k]
    {
      assert v'[k] == v'[START_TLS_INDEX..][k - START_TLS_INDEX];
    }
  }

  lemma CarriedOver(s: State, s': State)
    requires Safe(s) && RecordsOk(s') && PostponedOk(s')
    requires s' == s.(vectors := s'.vectors, records := s'.records) && |s'.records| == |s.records|
    requires forall j :: 0 <= j < |s.records| ==> RecordCarriedOver(s, s', j)
    ensures Safe(s')
    ensures Inv(s) ==> Inv(s')
  {
    forall j | 0 <= j < |s'.records|
      ensures Mirrored(s'.vectors, s'.records[j])
      ensures Owns(s'.heap, s'.vectors[s'.records[j].mmp], s'.records[j].id)
    {
      assert RecordCarriedOver(s, s', j);
      assert Owns(s.heap, s.vectors[s.records[j].mmp], s.records[j].id);
    }
    forall j, e | Covered(s) && 0 <= j < |s'.records| && s'.records[j].thread in s'.teb && 0 <= e < |s'.entries|
      ensures Holds(s'.heap, s'.vectors[s'.records[j].mmp], s'.entries[e])
    {
      assert RecordCarriedOver(s, s', j);
      assert Holds(s.heap, s.vectors[s.records[j].mmp], s.entries[e]);
    }
  }

  /** A hooked ReplaceIndex from ntdll keeps the invariant. */
  lemma IndexHookedKeepsInv(s: State, s': State, req: Request, items': seq<Item>, c: Choice)
    requires Safe(s) && req.op == REPLACE_INDEX && req.arg < START_TLS_INDEX
    requires NtdllDiscipline(s, req) && ValidChoice(s, |req.items|, c)
    requires IndexHooked(s, s', true, req, items', c, |c|)
    ensures Safe(s')
    ensures Inv(s) ==> Inv(s')
  {
    forall j | 0 <= j < |s'.records|
      ensures Backed(s', s'.records[j])
      ensures Mirrored(s'.vectors, s'.records[j])
      ensures s'.vectors[s.records[j].mmp][START_TLS_INDEX..] == s.vectors[s.records[j].mmp][START_TLS_INDEX..]
    {
      IndexHookedRecord(s, s', req, items', c, j);
    }
    forall t | t in s'.teb
      ensures Registered(s', t)
    {
      assert Registered(s, t);
    }
    forall j | 0 <= j < |s'.records|
      ensures RecordCarriedOver(s, s', j)
    {
      SameModuleSlots(s, s', j);
    }
    CarriedOver(s, s');
  }

  lemma IndexHookedRecord(s: State, s': State, req: Request, items': seq<Item>, c: Choice, j: nat)
    requires Safe(s) && req.op == REPLACE_INDEX && req.arg < START_TLS_INDEX
    requires NtdllDiscipline(s, req) && ValidChoice(s, |req.items|, c)
    requires IndexHooked(s, s', true, req, items', c, |c|) && j < |s.records|
    ensures Backed(s', s.records[j]) && Mirrored(s'.vectors, s.records[j])
    ensures s'.vectors[s.records[j].mmp][START_TLS_INDEX..] == s.vectors[s.records[j].mmp][START_TLS_INDEX..]
  {
    var r := s.records[j];
    assert Backed(s, r);
    assert Mirrored(s.vectors, r);
    if Chosen(c, r.thread, |c|) {
      var i :| 0 <= i < |c| && c[i] == Some(r.thread);
      assert Gets(s, c, i, j);
      MirrorBoth(s.vectors, s'.vectors, r, req.arg, req.items[i].ptr);
    } else {
      UnchosenUntouched(s, c, j);
      assert s'.vectors[r.mmp] == s.vectors[r.mmp] && s'.vectors[r.ldr] == s.vectors[r.ldr];
    }
  }

  /** Both vectors of a record take the same pointer in the same published slot. */
  lemma MirrorBoth(v0: map<Address, Vector>, v1: map<Address, Vector>, r: Record, k: nat, p: Address)
    requires r.mmp in v0 && |v0[r.mmp]| == MAXIMUM_TLS_INDEX && r.ldr in v0 && Mirrored(v0, r) && k < |v0[r.ldr]|
    requires r.mmp in v1 && r.ldr in v1 && v1[r.mmp] == v0[r.mmp][k := p] && v1[r.ldr] == v0[r.ldr][k := p]
    ensures |v1[r.mmp]| == MAXIMUM_TLS_INDEX && Mirrored(v1, r)
    ensures v1[r.mmp][START_TLS_INDEX..] == v0[r.mmp][START_TLS_INDEX..]
  {
  }

  /** The vectors of a record whose thread is not chosen are neither swapped nor published. */
  lemma UnchosenUntouched(s: State, c: Choice, j: nat)
    requires RecordsOk(s) && j < |s.records| && !Chosen(c, s.records[j].thread, |c|)
    ensures !SwappedVector(s, c, s.records[j].mmp) && !SwappedVector(s, c, s.records[j].ldr)
    ensures !PublishedVector(s, c, s.records[j].mmp, |c|) && !PublishedVector(s, c, s.records[j].ldr, |c|)
  {
    var r := s.records[j];
    assert Backed(s, r);
    forall k | 0 <= k < |s.records| && k != j
      ensures s.records[k].mmp != r.mmp && s.records[k].ldr != r.ldr
      ensures s.records[k].mmp != r.ldr && s.records[k].ldr != r.mmp
    {
      assert k < j ==> Apart(s.records[k], r);
      assert j < k ==> Apart(r, s.records[k]);
    }
  }

  /** A request from ntdll that was admitted and that the kernel served with choice c. */
  ghost predicate NtdllServed(s: State, s': State, req: Request, items: seq<Item>, c: Choice)
    requires Safe(s)
  {
    && Servable(true, req) && Readable(s, req)
    && SlotsThere(s, req, c) && ValidChoice(s, |req.items|, c)
    && if req.op == REPLACE_VECTOR then Fresh(s, req) && VectorHooked(s, s', req, items, c, |c|)
       else IndexHooked(s, s', true, req, items, c, |c|)
  }

  lemma StillRegistered(s: State, s': State, req: Request, items': seq<Item>, c: Choice)
    requires RecordsOk(s) && Readable(s, req) && req.op == REPLACE_VECTOR && req.arg < START_TLS_INDEX
    requires |c| == |req.items| && VectorHooked(s, s', req, items', c, |c|)
    ensures AllRegistered(s')
  {
    SameThreads(s, s', req, items', c);
    forall t | t in s'.teb
      ensures Registered(s', t)
    {
      assert Registered(s, t);
      var j :| 0 <= j < |s.records| && s.records[j].thread == t;
      assert s'.records[j].thread == t;
    }
  }

  /** The hook is invisible to ntdll: a served request changes ntdll's view, and answers, as the
      kernel's own operation would. */
  lemma HookInvisible(s: State, s': State, req: Request, items': seq<Item>, c: Choice)
    requires Safe(s) && NtdllServed(s, s', req, items', c)
    ensures AllRegistered(s')
    ensures NativeCall(View(s), req, c, View(s'), items')
  {
    if req.op == REPLACE_VECTOR {
      StillRegistered(s, s', req, items', c);
      HookedReplaceVectorIsNative(s, s', req, items', c);
    } else {
      assert forall t :: Registered(s, t) ==> Registered(s', t);
      HookedReplaceIndexIsNative(s, s', req, items', c);
    }
  }

  /** The hook is complete: whenever the kernel could serve a request of ntdll's on a slot of ntdll's, the hooked
      call is granted its buffer and the kernel serves it, the call succeeds, as the kernel's own operation. */
  lemma NtdllRequestIsServed(
    s: State, s': State, req: Request, c: Choice, status: NtStatus, items': seq<Item>)
    requires Safe(s) && ValidChoice(s, |req.items|, c) && req.op in {0, 1} && req.arg < 0x80
    requires Readable(s, req) && Fresh(s, req) && NativeCallable(View(s), req, c)
    requires HookEnds(s, s', true, req, true, Some(c), status, items')
    ensures status == Success && NtdllServed(s, s', req, items', c)
    ensures AllRegistered(s') && NativeCall(View(s), req, c, View(s'), items')
  {
    SlotsThereIfCallable(s, req, c);
    HookInvisible(s, s', req, items', c);
  }

  // ---------- Start-up ----------

  /** A thread that was running before the hooks went in. */
  datatype Early = Early(thread: ThreadId, record: Address, ldr: Address, mmp: Address, slots: Vector)

  predicate EarlyApart(a: Early, b: Early) {
    && a.thread != b.thread && a.record != b.record
    && a.ldr != b.ldr && a.mmp != b.mmp && a.ldr != b.mmp && a.mmp != b.ldr
  }

  /** The state MmpTlsInitialize leaves: the kernel has given every early thread a private vector
      holding its first `len` slots, `len` being the calling thread's vector length. */
  ghost predicate Initial(s: State, early: seq<Early>, len: nat)
    requires len <= START_TLS_INDEX
  {
    && (forall i, j :: 0 <= i < j < |early| ==> EarlyApart(early[i], early[j]))
    && |s.records| == |early|
    && (forall i :: 0 <= i < |early| ==> InitialThread(s, early[i], s.records[i], len))
    && s.teb.Keys == EarlyThreads(early)
    && s.entries == []
    && s.bitmap == seq(MAXIMUM_TLS_INDEX, k => k < START_TLS_INDEX)
    && s.postponed == []
    && s.heap == map[]
  }

  function EarlyThreads(early: seq<Early>): set<ThreadId> {
    set i | 0 <= i < |early| :: early[i].thread
  }

  lemma {:induction false} EarlyThreadsSize(early: seq<Early>)
    requires forall i, j :: 0 <= i < j < |early| ==> EarlyApart(early[i], early[j])
    ensures |EarlyThreads(early)| == |early|
  {
    if |early| != 0 {
      var n := |early| - 1;
      EarlyThreadsSize(early[..n]);
      assert EarlyThreads(early) == EarlyThreads(early[..n]) + {early[n].thread};
      forall i | 0 <= i < n
        ensures early[i].thread != early[n].thread
      {
        assert EarlyApart(early[i], early[n]);
      }
    }
  }

  predicate InitialThread(s: State, e: Early, r: Record, len: nat)
    requires len <= START_TLS_INDEX
  {
    && r == Record(e.record, e.thread, e.ldr, e.mmp) && e.ldr != e.mmp
    && e.thread in s.teb && s.teb[e.thread] == e.mmp
    && len <= |e.slots| <= START_TLS_INDEX
    && e.ldr in s.vectors && s.vectors[e.ldr] == e.slots
    && e.mmp in s.vectors && s.vectors[e.mmp] == e.slots[..len] + Repeat<Address>(0, MAXIMUM_TLS_INDEX - len)
  }

  /** Start-up establishes the invariant exactly when as many threads were counted as there are, and no early
      thread has a slot in use beyond the length that was copied. */
  lemma InitialInvIff(s: State, early: seq<Early>, len: nat)
    requires len <= START_TLS_INDEX && Initial(s, early, len)
    ensures Inv(s) <==>
              && |early| <= s.active
              && forall i, k :: 0 <= i < |early| && len <= k < |early[i].slots| ==> early[i].slots[k] == 0
  {
    InitialRecords(s, early, len);
    EarlyThreadsSize(early);
    InitialMirror(s, early, len);
    InitialRest(s, early, len);
  }

  lemma InitialRest(s: State, early: seq<Early>, len: nat)
    requires len <= START_TLS_INDEX && Initial(s, early, len) && RecordsOk(s)
    ensures PostponedOk(s) && IndexOk(s.bitmap, s.entries) && OwnedOk(s) && Covered(s)
  {
    forall i | 0 <= i < |early|
      ensures Owns(s.heap, s.vectors[s.records[i].mmp], s.records[i].id)
    {
      assert InitialThread(s, early[i], s.records[i], len);
    }
  }

  lemma InitialMirror(s: State, early: seq<Early>, len: nat)
    requires len <= START_TLS_INDEX && Initial(s, early, len) && RecordsOk(s)
    ensures MirrorOk(s) <==>
              forall i, k :: 0 <= i < |early| && len <= k < |early[i].slots| ==> early[i].slots[k] == 0
  {
    forall i | 0 <= i < |early|
      ensures Mirrored(s.vectors, s.records[i])
              <==> forall k :: len <= k < |early[i].slots| ==> early[i].slots[k] == 0
    {
      assert InitialThread(s, early[i], s.records[i], len);
    }
  }

  lemma InitialRecords(s: State, early: seq<Early>, len: nat)
    requires len <= START_TLS_INDEX && Initial(s, early, len)
    ensures RecordsOk(s)
  {
    forall i | 0 <= i < |early|
      ensures Backed(s, s.records[i])
    {
      assert InitialThread(s, early[i], s.records[i], len);
    }
    forall i, j | 0 <= i < j < |early|
      ensures Apart(s.records[i], s.records[j])
    {
      assert EarlyApart(early[i], early[j]);
      assert InitialThread(s, early[i], s.records[i], len) && InitialThread(s, early[j], s.records[j], len);
    }
    forall t | t in s.teb
      ensures Registered(s, t)
    {
      var i :| 0 <= i < |early| && early[i].thread == t;
      assert InitialThread(s, early[i], s.records[i], len);
      assert s.records[i].thread == t;
    }
  }

  // ---------- ntdll's vectors ----------

  lemma AllocateKeepsInv(s: State, v: Address, slots: Vector, s': State)
    requires Safe(s) && v !in s.vectors && s' == s.(vectors := s.vectors[v := slots])
    ensures Safe(s')
    ensures Inv(s) ==> Inv(s')
  {
    OtherVectorsSafe(s, s');
  }

  lemma FreeKeepsInv(s: State, v: Address, s': State)
    requires Safe(s) && !InUse(s, v) && s' == s.(vectors := s.vectors - {v})
    ensures Safe(s')
    ensures Inv(s) ==> Inv(s')
  {
    OtherVectorsSafe(s, s');
  }

  /** Safety rests on the vectors in use alone. */
  lemma OtherVectorsSafe(s: State, s': State)
    requires Safe(s) && s' == s.(vectors := s'.vectors)
    requires forall v :: v in s.vectors && InUse(s, v) ==> v in s'.vectors && s'.vectors[v] == s.vectors[v]
    ensures Safe(s')
    ensures Covered(s) ==> Covered(s')
  {
    OtherVectorsRecords(s, s');
    forall j | 0 <= j < |s.records|
      ensures Mirrored(s'.vectors, s.records[j])
      ensures Owns(s'.heap, s'.vectors[s.records[j].mmp], s.records[j].id)
    {
      assert InUse(s, s.records[j].mmp) && InUse(s, s.records[j].ldr);
      assert Mirrored(s.vectors, s.records[j]) && Owns(s.heap, s.vectors[s.records[j].mmp], s.records[j].id);
    }
  }

  lemma OtherVectorsRecords(s: State, s': State)
    requires Safe(s) && s' == s.(vectors := s'.vectors)
    requires forall v :: v in s.vectors && InUse(s, v) ==> v in s'.vectors && s'.vectors[v] == s.vectors[v]
    ensures RecordsOk(s') && PostponedOk(s')
    ensures forall j :: 0 <= j < |s.records| ==> s'.vectors[s.records[j].mmp] == s.vectors[s.records[j].mmp]
  {
    forall j | 0 <= j < |s.records|
      ensures Backed(s', s.records[j]) && s'.vectors[s.records[j].mmp] == s.vectors[s.records[j].mmp]
    {
      assert Backed(s, s.records[j]);
      assert InUse(s, s.records[j].mmp) && InUse(s, s.records[j].ldr);
    }
    forall q | 0 <= q < |s.postponed|
      ensures s.postponed[q].record.ldr in s'.vectors
    {
      assert InUse(s, s.postponed[q].record.ldr);
    }
    forall t | t in s'.teb
      ensures Registered(s', t)
    {
      assert Registered(s, t);
    }
    assert RecordsOk(s');
  }

  // ---------- Runs ----------

  datatype Event =
    | ThreadStart(t: ThreadId, env: StartEnv)
    | ThreadExit(t: ThreadId)
    | ThreadKill(t: ThreadId)
    | PostponedSweep(dead: set<Address>)
    | ModuleLoad(owner: Address, size: nat, load: LoadEnv)
    | ModuleUnload(owner: Address)
    | NtdllRequest(req: Request, items: seq<Item>, c: Choice)
    | NtdllAllocate(v: Address, slots: Vector)
    | NtdllFree(v: Address)

  /** Event e takes s to s'.  A thread may start without all of its blocks, and a load may fail at any point or
      leave threads out; a thread that starts without a record or a vector of its own is no event. */
  ghost predicate Happens(s: State, e: Event, s': State)
    requires Safe(s)
  {
    match e
    case ThreadStart(t, env) =>
      StartEnvOk(s, t, env) && Startable(s, t, env) && s' == StartThread(s, t, env).0
    case ThreadExit(t) =>
      t in s.teb && exists j: nat :: j < |s.records| && s.records[j].thread == t && s' == ExitThread(s, j)
    case ThreadKill(t) =>
      s' == KillThread(s, t)
    case PostponedSweep(dead) =>
      (forall i :: 0 <= i < |s.records| ==> s.records[i].id !in dead) && s' == Sweep(s, dead)
    case ModuleLoad(owner, size, load) =>
      LoadEnvOk(s, load) && Handled(s, s', owner, size, load)
    case ModuleUnload(owner) =>
      s' == DropEntry(s, owner)
    case NtdllRequest(req, items, c) =>
      NtdllServed(s, s', req, items, c) && NtdllDiscipline(s, req)
    case NtdllAllocate(v, slots) =>
      v !in s.vectors && s' == s.(vectors := s.vectors[v := slots])
    case NtdllFree(v) =>
      v in s.vectors && !InUse(s, v) && s' == s.(vectors := s.vectors - {v})
  }

  /** No allocation and no kernel call fails that coverage or the count rests on. */
  ghost predicate Flawless(s: State, e: Event)
    requires Safe(s)
  {
    match e
    case ThreadStart(t, env) => StartEnvOk(s, t, env) && StartServed(s, t, env)
    case ModuleLoad(owner, _, load) => LoadEnvOk(s, load) && Clean(s, owner, load)
    case _ => true
  }

  /** A request of ntdll's leaves the module slots alone. */
  lemma NtdllServedCarries(s: State, s': State, req: Request, items: seq<Item>, c: Choice, j: nat)
    requires Safe(s) && NtdllServed(s, s', req, items, c) && NtdllDiscipline(s, req)
    requires RecordsOk(s') && j < |s.records|
    ensures |s'.records| == |s.records| && RecordCarriedOver(s, s', j)
  {
    if req.op == REPLACE_VECTOR {
      VectorHookedCarries(s, s', req, items, c, j);
    } else {
      IndexHookedRecord(s, s', req, items, c, j);
      SameModuleSlots(s, s', j);
    }
  }

  lemma NtdllServedKeepsInv(s: State, s': State, req: Request, items: seq<Item>, c: Choice)
    requires Safe(s) && NtdllServed(s, s', req, items, c) && NtdllDiscipline(s, req)
    ensures Safe(s')
    ensures Inv(s) ==> Inv(s')
  {
    if req.op == REPLACE_VECTOR {
      VectorHookedKeepsInv(s, s', req, items, c);
    } else {
      IndexHookedKeepsInv(s, s', req, items, c);
    }
  }

  lemma ExitStepKeepsSafe(s: State, t: ThreadId, s': State)
    requires Safe(s) && Happens(s, ThreadExit(t), s')
    ensures Safe(s')
  {
    var j: nat :| j < |s.records| && s.records[j].thread == t && s' == ExitThread(s, j);
    ExitKeepsSafe(s, j);
  }

  lemma ExitStepKeepsInv(s: State, t: ThreadId, s': State)
    requires Inv(s) && Happens(s, ThreadExit(t), s')
    ensures Inv(s')
  {
    var j: nat :| j < |s.records| && s.records[j].thread == t && s' == ExitThread(s, j);
    ExitKeepsInv(s, j);
  }

  lemma EventKeepsSafe(s: State, e: Event, s': State)
    requires Step(s, e, s')
    ensures Safe(s')
  {
    match e
    case ThreadStart(t, env) => StartKeepsSafe(s, t, env);
    case ThreadExit(t) => ExitStepKeepsSafe(s, t, s');
    case ThreadKill(t) => KillKeepsSafe(s, t);
    case PostponedSweep(dead) => SweepKeepsSafe(s, dead);
    case ModuleLoad(owner, size, load) => HandledKeepsSafe(s, s', owner, size, load);
    case ModuleUnload(owner) => DropKeepsSafe(s, owner);
    case NtdllRequest(req, items, c) => NtdllServedKeepsInv(s, s', req, items, c);
    case NtdllAllocate(v, slots) => AllocateKeepsInv(s, v, slots, s');
    case NtdllFree(v) => FreeKeepsInv(s, v, s');
  }

  lemma EventKeepsInv(s: State, e: Event, s': State)
    requires Inv(s) && Step(s, e, s') && Flawless(s, e)
    ensures Inv(s')
  {
    match e
    case ThreadStart(t, env) => StartKeepsInvIff(s, t, env);
    case ThreadExit(t) => ExitStepKeepsInv(s, t, s');
    case ThreadKill(t) => KillKeepsInv(s, t);
    case PostponedSweep(dead) => SweepKeepsInv(s, dead);
    case ModuleLoad(owner, size, load) => CleanKeepsInv(s, s', owner, size, load);
    case ModuleUnload(owner) => DropKeepsInv(s, owner);
    case NtdllRequest(req, items, c) => NtdllServedKeepsInv(s, s', req, items, c);
    case NtdllAllocate(v, slots) => AllocateKeepsInv(s, v, slots, s');
    case NtdllFree(v) => FreeKeepsInv(s, v, s');
  }

  ghost predicate Step(s: State, e: Event, s': State) {
    Safe(s) && Happens(s, e, s')
  }

  /** A run: its first state, or a run followed by an event and the state it leads to. */
  datatype Trace = First(state: State) | Then(past: Trace, event: Event, state: State)

  ghost predicate IsRun(run: Trace) {
    match run
    case First(s) => Safe(s)
    case Then(past, e, s) => IsRun(past) && Step(past.state, e, s)
  }

  /** Over every run from a safe state, whatever fails in it, every state is safe: LDR and private vectors
      agree, ntdll's vectors stay within 0x80 slots, every block in a slot is allocated and at home in that slot
      alone, and indices are consistent. */
  lemma {:induction false} RunKeepsSafe(run: Trace)
    requires IsRun(run)
    ensures Safe(run.state)
  {
    if run.Then? {
      RunKeepsSafe(run.past);
      EventKeepsSafe(run.past.state, run.event, run.state);
    }
  }

  ghost predicate IsFlawlessRun(run: Trace) {
    match run
    case First(s) => Inv(s)
    case Then(past, e, s) => IsFlawlessRun(past) && Step(past.state, e, s) && Flawless(past.state, e)
  }

  /** Over every flawless run from a state that meets the invariant, every live thread is also covered by blocks
      of its own, and the count is never too low. */
  lemma {:induction false} RunKeepsInv(run: Trace)
    requires IsFlawlessRun(run)
    ensures Inv(run.state)
  {
    if run.Then? {
      RunKeepsInv(run.past);
      EventKeepsInv(run.past.state, run.event, run.state);
    }
  }
}
