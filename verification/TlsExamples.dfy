/** A concrete case for each way in which TLS handling does less than it means to. */
module TlsExamples {
  import opened Sequences
  import opened Wrappers
  import opened TlsState
  import opened TlsHook
  import opened TlsThreads
  import opened TlsModules
  import opened TlsLoad
  import opened TlsSystem
  import opened TlsConservation
  import Startup = TlsStartup

  const ONE: ThreadId := 1000

  function NoModules(): (bitmap: seq<bool>)
    ensures |bitmap| == MAXIMUM_TLS_INDEX
  {
    seq(MAXIMUM_TLS_INDEX, k => k < START_TLS_INDEX)
  }

  /** One thread, no module; ntdll has allocated the vector 300 for the next thread. */
  function OneThread(): State {
    State(map[ONE := 200],
          map[100 := Repeat<Address>(0, 8), 200 := Repeat<Address>(0, MAXIMUM_TLS_INDEX), 300 := Repeat<Address>(0, 8)],
          [Record(1, ONE, 100, 200)], [], NoModules(), 1, [], map[])
  }

  lemma OneThreadInv()
    ensures Inv(OneThread())
  {
    var s := OneThread();
    OneThreadRecords();
    assert Mirrored(s.vectors, s.records[0]);
    assert s.teb.Keys == {ONE};
  }

  lemma OneThreadRecords()
    ensures RecordsOk(OneThread()) && PostponedOk(OneThread())
  {
    var s := OneThread();
    assert Backed(s, s.records[0]);
    assert s.records[0].thread == ONE;
  }

  /** A thread is killed, its id is given to a new thread, and that one runs without a private vector. */
  lemma StaleRecordExample()
    ensures var s, env := KillThread(OneThread(), ONE), StartEnv(300, 8, 2, 400, []);
            && Inv(OneThread()) && Inv(s) && StartEnvOk(s, ONE, env)
            && StartThread(s, ONE, env).1
            && !Safe(StartThread(s, ONE, env).0)
  {
    var s, env := KillThread(OneThread(), ONE), StartEnv(300, 8, 2, 400, []);
    OneThreadInv();
    KillKeepsInv(OneThread(), ONE);
    SameIdAgain(s, env);
    StaleRecordBlocksStart(s, ONE, env);
  }

  lemma SameIdAgain(s: State, env: StartEnv)
    requires s == KillThread(OneThread(), ONE) && env == StartEnv(300, 8, 2, 400, [])
    ensures Registered(s, ONE) && StartEnvOk(s, ONE, env)
  {
    assert s.records[0].thread == ONE;
  }

  /** A module is listed and no thread is there yet. */
  function OneModule(): State {
    State(map[], map[300 := Repeat<Address>(0, 8)], [], [Entry(7, START_TLS_INDEX, 4)],
          NoModules()[START_TLS_INDEX := true], 0, [], map[])
  }

  lemma OneModuleInv()
    ensures Inv(OneModule())
  {
    var s := OneModule();
    forall k | START_TLS_INDEX <= k < MAXIMUM_TLS_INDEX
      ensures s.bitmap[k] <==> Carried(s.entries, k)
    {
      assert Carried(s.entries, k) <==> s.entries[0].index == k;
    }
  }

  /** Memory runs out for the module's block: the thread is registered and not covered. */
  lemma MissingBlockExample()
    ensures var s, env := OneModule(), StartEnv(300, 8, 2, 400, [0]);
            && Inv(s) && StartEnvOk(s, ONE, env) && !StartThread(s, ONE, env).1
            && Safe(StartThread(s, ONE, env).0) && !Inv(StartThread(s, ONE, env).0)
  {
    var s, env := OneModule(), StartEnv(300, 8, 2, 400, [0]);
    OneModuleInv();
    StartSafeIff(s, ONE, env);
    StartKeepsInvIff(s, ONE, env);
  }

  /** A thread has exited with a block of a module that is listed no more. */
  function OutlivedBlock(): State {
    State(map[], map[300 := []], [], [], NoModules(), 0,
          [Postponed(Record(1, ONE, 300, 200), Repeat<Address>(0, MAXIMUM_TLS_INDEX)[0x80 := 500])],
          map[500 := Home(1, 0x80, 7)])
  }

  /** The sweep takes the thread's item off the list and leaves the block allocated, with nothing that refers to
      it. */
  lemma OverlookedExample(s: State)
    requires s == OutlivedBlock()
    ensures Inv(s) && Step(s, PostponedSweep({1}), Sweep(s, {1}))
    ensures RecordsOk(Sweep(s, {1})) && 500 in Lost(Sweep(s, {1})) && 500 !in Lost(s)
  {
    OutlivedSafe(s);
    SweepKeepsSafe(s, {1});
    SweepLoses(s, {1});
  }

  lemma OutlivedSafe(s: State)
    requires s == OutlivedBlock()
    ensures Inv(s) && 500 !in Lost(s) && Overlooked(s, {1}, 500)
  {
    var slots := s.postponed[0].snapshot;
    assert Owns(s.heap, slots, 1);
    assert slots[0x80] == 500 && InVector(slots, 500);
    assert OverlookedAt(s, {1}, 500, 0, 0x80);
  }

  /** The kernel refuses a module's request, which is one way for a load to end. */
  lemma RefusedLoadExample(s: State, load: LoadEnv)
    requires s == OneThread() && load == LoadEnv(true, true, [500], true, None)
    ensures Safe(s) && LoadEnvOk(s, load) && LoadStatus(s, load) == KernelRefused
    ensures FirstClear(s.bitmap, 0).Some? && Handled(s, LoadRefused(s, 7, 4), 7, 4, load)
  {
    OneThreadInv();
    FirstClearIs(s.bitmap, 0, START_TLS_INDEX);
    RefusedHandled(s, load);
  }

  lemma RefusedHandled(s: State, load: LoadEnv)
    requires Safe(s) && LoadEnvOk(s, load) && LoadStatus(s, load) == KernelRefused && FirstClear(s.bitmap, 0).Some?
    ensures Handled(s, LoadRefused(s, 7, 4), 7, 4, load)
  {
  }

  /** The entry then stays listed, no thread holds a block for it, and no thread is counted any more. */
  lemma RefusedLoadLeaves()
    ensures FirstClear(OneThread().bitmap, 0).Some?
    ensures var s' := LoadRefused(OneThread(), 7, 4); Safe(s') && !Inv(s') && s'.active == 0 && Listed(s'.entries, 7)
  {
    OneThreadInv();
    NoModulesFree();
    RefusedUncovered(OneThread());
    RefusedListed(LoadRefused(OneThread(), 7, 4).entries);
  }

  lemma RefusedUncovered(s: State)
    requires Inv(s) && FirstClear(s.bitmap, 0).Some? && ONE in s.teb
    ensures Safe(LoadRefused(s, 7, 4)) && !Inv(LoadRefused(s, 7, 4))
  {
    RefusedLoadKeepsInvIff(s, 7, 4);
    AddEntryKeepsSafe(s, 7, 4, 0);
  }

  lemma NoModulesFree()
    ensures FirstClear(NoModules(), 0) == Some(START_TLS_INDEX)
  {
    FirstClearIs(NoModules(), 0, START_TLS_INDEX);
  }

  lemma RefusedListed(entries: seq<Entry>)
    requires entries == [Entry(7, START_TLS_INDEX, 4)]
    ensures Listed(entries, 7)
  {
    assert entries[0].owner == 7;
  }

  lemma FirstClearIs(bitmap: seq<bool>, from: nat, k: nat)
    requires from <= k < |bitmap| && !bitmap[k] && forall i :: from <= i < k ==> bitmap[i]
    ensures FirstClear(bitmap, from) == Some(k)
  {
  }

  /** A module whose refused load left an entry is loaded again, and that fails early: the older entry is
      released and the new one stays. */
  lemma OlderEntryExample()
    ensures var s := OneModule();
            && IndexOk(s.bitmap, s.entries) && FirstClear(s.bitmap, 0) == Some(START_TLS_INDEX + 1)
            && Undone(s, 7, 4).entries == [Entry(7, START_TLS_INDEX + 1, 4)]
  {
    var s := OneModule();
    OneModuleInv();
    FirstClearIs(s.bitmap, 0, START_TLS_INDEX + 1);
    assert EntryOf(s.entries, 7) == 0;
    DropUndoesAddIff(s, 7, 4);
  }

  /** The thread that was counted has gone when the kernel is asked: its vector is recorded under thread id 0. */
  lemma LostThreadExample()
    ensures var s := State(map[], map[], [], [], NoModules(), 1, [], map[]);
            var s' := s.(vectors := map[200 := Repeat<Address>(0, MAXIMUM_TLS_INDEX)],
                         records := [Record(1, 0, 200, 200)]);
            && Startup.Ready(s, 8, [200], [1]) && ValidChoice(s, 1, [None])
            && Startup.PreHooked(s, s', 8, [200], [1], [None]) && !Safe(s')
  {
    var s := State(map[], map[], [], [], NoModules(), 1, [], map[]);
    var s' := s.(vectors := map[200 := Repeat<Address>(0, MAXIMUM_TLS_INDEX)], records := [Record(1, 0, 200, 200)]);
    assert [200][0] == 200;
    assert Startup.Sent([200], 1) == {200};
    assert !Backed(s', s'.records[0]);
  }
}
