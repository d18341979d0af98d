/**
 * What ntdll sees of a whole run: its view moves as it would without the memory modules, which read as steps
 * that leave it alone.
 */
module TlsRefinement {
  import opened Wrappers
  import opened TlsState
  import opened TlsHook
  import opened TlsThreads
  import opened TlsModules
  import opened TlsLoad
  import opened TlsSystem

  // ---------- ntdll's own steps ----------

  /** What an event does to ntdll's view: a new thread runs on the vector ntdll gave it; a thread that ends is
      gone; the sweep frees vectors that no thread has; memory modules come and go unseen; vectors are allocated
      and, when no thread has them, freed; and a request is the kernel's own operation. */
  ghost predicate NativeStep(a: NtdllView, e: Event, a': NtdllView) {
    match e
    case ThreadStart(t, env) => t !in a.vectorOf && a' == NtdllView(a.vectorOf[t := env.ldr], a.memory)
    case ThreadExit(t) => a' == NtdllView(a.vectorOf - {t}, a.memory)
    case ThreadKill(t) => a' == NtdllView(a.vectorOf - {t}, a.memory)
    case PostponedSweep(_) =>
      && a'.vectorOf == a.vectorOf
      && a'.memory.Keys <= a.memory.Keys && (forall v :: v in a'.memory ==> a'.memory[v] == a.memory[v])
      && (forall t :: t in a.vectorOf ==> a.vectorOf[t] in a'.memory)
    case ModuleLoad(_, _, _) => a' == a
    case ModuleUnload(_) => a' == a
    case NtdllAllocate(v, slots) => v !in a.memory && a' == NtdllView(a.vectorOf, a.memory[v := slots])
    case NtdllFree(v) =>
      && v in a.memory && (forall t :: t in a.vectorOf ==> a.vectorOf[t] != v)
      && a' == NtdllView(a.vectorOf, a.memory - {v})
    case NtdllRequest(req, items, c) => NativeCall(a, req, c, a', items)
  }

  ghost predicate IsNativeRun(run: Trace) {
    match run
    case First(s) => AllRegistered(s)
    case Then(past, e, s) =>
      && IsNativeRun(past) && AllRegistered(past.state) && AllRegistered(s)
      && NativeStep(View(past.state), e, View(s))
  }

  // ---------- One record, one vector ----------

  ghost predicate OneRecordEach(s: State) {
    && AllRegistered(s)
    && (forall i, j :: 0 <= i < j < |s.records| ==> s.records[i].thread != s.records[j].thread)
  }

  lemma RecordsAreOneEach(s: State)
    requires RecordsOk(s)
    ensures OneRecordEach(s)
  {
    forall i, j | 0 <= i < j < |s.records|
      ensures s.records[i].thread != s.records[j].thread
    {
      assert Apart(s.records[i], s.records[j]);
    }
  }

  /** The view, record by record. */
  ghost predicate Shows(s: State, a: NtdllView) {
    && a.vectorOf.Keys == s.teb.Keys
    && (forall j :: 0 <= j < |s.records| && s.records[j].thread in s.teb ==>
          a.vectorOf[s.records[j].thread] == s.records[j].ldr)
    && (forall v :: v in a.memory <==> v in s.vectors && !Private(s.records, v))
    && (forall v :: v in a.memory ==> a.memory[v] == s.vectors[v])
  }

  lemma ViewShows(s: State)
    requires OneRecordEach(s)
    ensures Shows(s, View(s))
  {
    forall j | 0 <= j < |s.records| && s.records[j].thread in s.teb
      ensures View(s).vectorOf[s.records[j].thread] == s.records[j].ldr
    {
      var i := Find(s.records, s.records[j].thread);
      assert i < j || j < i || i == j;
    }
  }

  lemma ShownIsView(s: State, a: NtdllView)
    requires OneRecordEach(s) && Shows(s, a)
    ensures View(s) == a
  {
    var b := View(s);
    ViewShows(s);
    forall t | t in s.teb
      ensures b.vectorOf[t] == a.vectorOf[t]
    {
      assert Registered(s, t);
      var j := Find(s.records, t);
    }
    assert b.vectorOf == a.vectorOf && b.memory == a.memory;
  }

  // ---------- Threads ----------

  lemma StartShows(s: State, s': State, r: Record, a: NtdllView)
    requires Shows(s, a) && r.thread !in s.teb && r.mmp !in s.vectors
    requires forall j :: 0 <= j < |s.records| ==> s.records[j].thread != r.thread
    requires s'.teb == s.teb[r.thread := r.mmp] && s'.records == s.records + [r]
    requires s'.vectors.Keys == s.vectors.Keys + {r.mmp}
    requires forall v :: v in s.vectors ==> s'.vectors[v] == s.vectors[v]
    ensures Shows(s', NtdllView(a.vectorOf[r.thread := r.ldr], a.memory))
  {
    forall v
      ensures Private(s'.records, v) <==> Private(s.records, v) || v == r.mmp
    {
      PrivateAdded(s.records, r, v);
    }
  }

  lemma PrivateAdded(records: seq<Record>, r: Record, v: Address)
    ensures Private(records + [r], v) <==> Private(records, v) || v == r.mmp
  {
    var all := records + [r];
    assert all[|records|] == r;
    if Private(records, v) {
      var j :| 0 <= j < |records| && records[j].mmp == v;
      assert all[j].mmp == v;
    }
  }

  lemma StartIsNative(s: State, t: ThreadId, env: StartEnv)
    requires RecordsOk(s) && StartEnvOk(s, t, env) && Startable(s, t, env)
    requires IndexOk(s.bitmap, s.entries) && RecordsOk(StartThread(s, t, env).0)
    ensures View(StartThread(s, t, env).0) == NtdllView(View(s).vectorOf[t := env.ldr], View(s).memory)
  {
    RecordsAreOneEach(s);
    RecordsAreOneEach(StartThread(s, t, env).0);
    ViewShows(s);
    StartShows(s, StartThread(s, t, env).0, Record(env.record, t, env.ldr, env.vector), View(s));
    ShownIsView(StartThread(s, t, env).0, NtdllView(View(s).vectorOf[t := env.ldr], View(s).memory));
  }

  lemma PrivateDropped(records: seq<Record>, rest: seq<Record>, j: nat, v: Address)
    requires j < |records| && rest == records[..j] + records[j + 1..]
    requires forall k :: 0 <= k < |records| && k != j ==> records[k].mmp != records[j].mmp
    ensures Private(rest, v) <==> Private(records, v) && v != records[j].mmp
  {
    assert forall k :: 0 <= k < |rest| ==> rest[k] == records[if k < j then k else k + 1];
    if Private(records, v) && v != records[j].mmp {
      var k :| 0 <= k < |records| && records[k].mmp == v;
      assert rest[if k < j then k else k - 1].mmp == v;
    }
  }

  lemma ExitShows(s: State, s': State, j: nat, a: NtdllView)
    requires Shows(s, a) && j < |s.records|
    requires forall k :: 0 <= k < |s.records| && k != j ==> s.records[k].mmp != s.records[j].mmp
    requires s'.teb == s.teb - {s.records[j].thread} && s'.records == s.records[..j] + s.records[j + 1..]
    requires s'.vectors == s.vectors - {s.records[j].mmp}
    ensures Shows(s', NtdllView(a.vectorOf - {s.records[j].thread}, a.memory))
  {
    assert forall k :: 0 <= k < |s'.records| ==> s'.records[k] == s.records[if k < j then k else k + 1];
    assert Private(s.records, s.records[j].mmp);
    forall v
      ensures Private(s'.records, v) <==> Private(s.records, v) && v != s.records[j].mmp
    {
      PrivateDropped(s.records, s'.records, j, v);
    }
  }

  lemma OwnMmp(s: State, j: nat)
    requires RecordsOk(s) && j < |s.records|
    ensures forall k :: 0 <= k < |s.records| && k != j ==> s.records[k].mmp != s.records[j].mmp
  {
    forall k | 0 <= k < |s.records| && k != j
      ensures s.records[k].mmp != s.records[j].mmp
    {
      assert k < j ==> Apart(s.records[k], s.records[j]);
      assert j < k ==> Apart(s.records[j], s.records[k]);
    }
  }

  lemma ExitIsNative(s: State, j: nat)
    requires RecordsOk(s) && j < |s.records| && s.records[j].mmp in s.vectors && RecordsOk(ExitThread(s, j))
    ensures View(ExitThread(s, j)) == NtdllView(View(s).vectorOf - {s.records[j].thread}, View(s).memory)
  {
    RecordsAreOneEach(s);
    RecordsAreOneEach(ExitThread(s, j));
    ViewShows(s);
    OwnMmp(s, j);
    ExitShows(s, ExitThread(s, j), j, View(s));
    ShownIsView(ExitThread(s, j), NtdllView(View(s).vectorOf - {s.records[j].thread}, View(s).memory));
  }

  /** A step that keeps the records: threads may end, and vectors may be freed. */
  lemma SameRecordsShow(s: State, s': State, ended: set<ThreadId>, freed: set<Address>, a: NtdllView)
    requires Shows(s, a) && s'.records == s.records
    requires s'.teb.Keys == s.teb.Keys - ended && s'.vectors.Keys == s.vectors.Keys - freed
    requires forall v :: v in s'.vectors && !Private(s.records, v) ==> s'.vectors[v] == s.vectors[v]
    ensures Shows(s', NtdllView(a.vectorOf - ended, a.memory - freed))
  {
  }

  lemma SameRecordsView(s: State, s': State, ended: set<ThreadId>, freed: set<Address>)
    requires OneRecordEach(s) && OneRecordEach(s') && s'.records == s.records
    requires s'.teb.Keys == s.teb.Keys - ended && s'.vectors.Keys == s.vectors.Keys - freed
    requires forall v :: v in s'.vectors && !Private(s.records, v) ==> s'.vectors[v] == s.vectors[v]
    ensures View(s').vectorOf == View(s).vectorOf - ended && View(s').memory == View(s).memory - freed
  {
    ViewShows(s);
    SameRecordsShow(s, s', ended, freed, View(s));
    ShownIsView(s', NtdllView(View(s).vectorOf - ended, View(s).memory - freed));
  }

  lemma KillIsNative(s: State, t: ThreadId)
    requires RecordsOk(s) && RecordsOk(KillThread(s, t))
    ensures View(KillThread(s, t)) == NtdllView(View(s).vectorOf - {t}, View(s).memory)
  {
    RecordsAreOneEach(s);
    RecordsAreOneEach(KillThread(s, t));
    SameRecordsView(s, KillThread(s, t), {t}, {});
    NothingTaken(View(s).memory);
  }

  lemma NothingTaken<K, V>(m: map<K, V>)
    ensures m - {} == m
  {
  }

  lemma LdrStays(s: State, t: ThreadId)
    requires RecordsOk(s) && t in s.teb
    ensures t in View(s).vectorOf && View(s).vectorOf[t] in View(s).memory
  {
    assert Registered(s, t);
    LdrNotPrivate(s, Find(s.records, t));
  }

  /** What the sweep frees are vectors of ended threads. */
  lemma SweepIsNative(s: State, s': State, dead: set<Address>, a: NtdllView, a': NtdllView)
    requires RecordsOk(s) && RecordsOk(s') && s' == Sweep(s, dead) && a == View(s) && a' == View(s')
    ensures NativeStep(a, PostponedSweep(dead), a')
  {
    RecordsAreOneEach(s);
    RecordsAreOneEach(s');
    SameRecordsView(s, s', {}, DeadVectors(s.postponed, dead, |s.postponed|));
    NothingTaken(a.vectorOf);
    forall t | t in a.vectorOf
      ensures a.vectorOf[t] in a'.memory
    {
      LdrStays(s', t);
    }
  }

  // ---------- Modules ----------

  lemma LoadIsUnseen(s: State, s': State, owner: Address, size: nat, blocks: seq<Address>, c: Choice)
    requires RecordsOk(s) && RecordsOk(s') && FirstClear(s.bitmap, 0).Some? && |blocks| == |c|
    requires FirstClear(s.bitmap, 0).value < MAXIMUM_TLS_INDEX && Loaded(s, s', owner, size, blocks, c)
    ensures View(s') == View(s)
  {
    forall v | v in s.vectors && !Private(s.records, v)
      ensures s'.vectors[v] == s.vectors[v]
    {
      assert !SwappedVector(s, c, v);
    }
    SameView(s, s');
  }

  lemma SameView(s: State, s': State)
    requires RecordsOk(s) && RecordsOk(s') && s'.records == s.records
    requires s'.teb == s.teb && s'.vectors.Keys == s.vectors.Keys
    requires forall v :: v in s.vectors && !Private(s.records, v) ==> s'.vectors[v] == s.vectors[v]
    ensures View(s') == View(s)
  {
    RecordsAreOneEach(s);
    RecordsAreOneEach(s');
    SameRecordsView(s, s', {}, {});
    NothingTaken(View(s).vectorOf);
    NothingTaken(View(s).memory);
  }

  lemma UnloadIsUnseen(s: State, owner: Address)
    requires RecordsOk(s) && IndexOk(s.bitmap, s.entries) && RecordsOk(DropEntry(s, owner))
    ensures View(DropEntry(s, owner)) == View(s)
  {
    SameView(s, DropEntry(s, owner));
  }

  /** However a load ends, ntdll does not see it. */
  lemma HandledIsUnseen(s: State, s': State, owner: Address, size: nat, load: LoadEnv)
    requires Safe(s) && RecordsOk(s') && LoadEnvOk(s, load) && Handled(s, s', owner, size, load)
    ensures View(s') == View(s)
  {
    if Reached(s, load) && LoadStatus(s, load) == Success {
      LoadIsUnseen(s, s', owner, size, load.blocks, load.kernel.value);
    } else {
      SameView(s, s');
    }
  }

  // ---------- ntdll's vectors ----------

  lemma AllocateShows(s: State, s': State, v: Address, slots: Vector, a: NtdllView)
    requires Shows(s, a) && !Private(s.records, v) && s' == s.(vectors := s.vectors[v := slots])
    ensures Shows(s', NtdllView(a.vectorOf, a.memory[v := slots]))
  {
  }

  lemma AllocateIsNative(s: State, s': State, v: Address, slots: Vector)
    requires RecordsOk(s) && RecordsOk(s') && v !in s.vectors && s' == s.(vectors := s.vectors[v := slots])
    ensures v !in View(s).memory
    ensures View(s') == NtdllView(View(s).vectorOf, View(s).memory[v := slots])
  {
    RecordsAreOneEach(s);
    RecordsAreOneEach(s');
    ViewShows(s);
    forall j | 0 <= j < |s.records|
      ensures s.records[j].mmp != v
    {
      assert Backed(s, s.records[j]);
    }
    AllocateShows(s, s', v, slots, View(s));
    ShownIsView(s', NtdllView(View(s).vectorOf, View(s).memory[v := slots]));
  }

  lemma FreeIsNative(s: State, s': State, v: Address)
    requires RecordsOk(s) && RecordsOk(s') && v in s.vectors && !InUse(s, v)
    requires s' == s.(vectors := s.vectors - {v})
    ensures v in View(s).memory && forall t :: t in View(s).vectorOf ==> View(s).vectorOf[t] != v
    ensures View(s') == NtdllView(View(s).vectorOf, View(s).memory - {v})
  {
    RecordsAreOneEach(s);
    RecordsAreOneEach(s');
    assert !Private(s.records, v);
    SameRecordsView(s, s', {}, {v});
    NothingTaken(View(s).vectorOf);
    forall t | t in View(s).vectorOf
      ensures View(s).vectorOf[t] != v
    {
      assert Registered(s, t);
      assert !InUse(s, v) && s.records[Find(s.records, t)].ldr == View(s).vectorOf[t];
    }
  }

  // ---------- Runs ----------

  lemma ExitStepIsNative(s: State, t: ThreadId, s': State)
    requires RecordsOk(s) && RecordsOk(s') && Step(s, ThreadExit(t), s')
    ensures View(s') == NtdllView(View(s).vectorOf - {t}, View(s).memory)
  {
    var j: nat :| j < |s.records| && s.records[j].thread == t && s' == ExitThread(s, j);
    assert Backed(s, s.records[j]);
    ExitIsNative(s, j);
  }

  lemma StepIsNative(s: State, e: Event, s': State)
    requires RecordsOk(s) && RecordsOk(s') && Step(s, e, s')
    ensures NativeStep(View(s), e, View(s'))
  {
    match e
    case ThreadStart(t, env) => StartIsNative(s, t, env);
    case ThreadExit(t) => ExitStepIsNative(s, t, s');
    case ThreadKill(t) => KillIsNative(s, t);
    case PostponedSweep(dead) => SweepIsNative(s, s', dead, View(s), View(s'));
    case ModuleLoad(owner, size, load) => HandledIsUnseen(s, s', owner, size, load);
    case ModuleUnload(owner) => UnloadIsUnseen(s, owner);
    case NtdllRequest(req, items, c) => HookInvisible(s, s', req, items, c);
    case NtdllAllocate(v, slots) => AllocateIsNative(s, s', v, slots);
    case NtdllFree(v) => FreeIsNative(s, s', v);
  }

  /** Every run is, in ntdll's view, a run of its own steps, whatever fails in it. */
  lemma {:induction false} RunIsNative(run: Trace)
    requires IsRun(run)
    ensures IsNativeRun(run)
  {
    RunKeepsSafe(run);
    if run.Then? {
      RunIsNative(run.past);
      RunKeepsSafe(run.past);
      StepIsNative(run.past.state, run.event, run.state);
    }
  }
}
