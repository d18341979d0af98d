/**
 * What becomes of the data blocks: each allocated block is in a module slot of a record or of a waiting item
 * until it is freed, except for those the sweep loses; and when the thread count is exact.
 */
module TlsConservation {
  import opened Sequences
  import opened Wrappers
  import opened TlsState
  import opened TlsHook
  import opened TlsThreads
  import opened TlsModules
  import opened TlsLoad
  import opened TlsSystem

  // ---------- Where blocks are ----------

  predicate InVector(v: Vector, x: Address) {
    exists k :: 0x80 <= k < |v| && v[k] == x
  }

  /** Block x is in a module slot of a record's private vector. */
  ghost predicate InRecord(s: State, x: Address)
    requires RecordsOk(s)
  {
    exists j :: 0 <= j < |s.records| && InVector(s.vectors[s.records[j].mmp], x)
  }

  /** Block x is in a module slot of an exited thread's snapshot. */
  predicate InSnapshot(items: seq<Postponed>, x: Address) {
    exists q :: 0 <= q < |items| && InVector(items[q].snapshot, x)
  }

  /** The allocated blocks that nothing refers to any more. */
  ghost function Lost(s: State): set<Address>
    requires RecordsOk(s)
  {
    set x | x in s.heap && !InRecord(s, x) && !InSnapshot(s.postponed, x)
  }

  /** Block x is in the snapshot of an ended thread, at an index that no listed entry carries. */
  ghost predicate Overlooked(s: State, dead: set<Address>, x: Address) {
    exists q, k :: OverlookedAt(s, dead, x, q, k)
  }

  predicate OverlookedAt(s: State, dead: set<Address>, x: Address, q: int, k: int) {
    && 0 <= q < |s.postponed| && s.postponed[q].record.id in dead
    && 0x80 <= k < |s.postponed[q].snapshot| && s.postponed[q].snapshot[k] == x
    && !Carried(s.entries, k)
  }

  /** What an event loses: the sweep, the blocks of modules that were unloaded before their thread ended. */
  ghost function LostBy(s: State, e: Event): set<Address> {
    if e.PostponedSweep? then set x | x in s.heap && Overlooked(s, e.dead, x) else {}
  }

  // ---------- Steps that move no block ----------

  lemma SameSlotsLose(s: State, s': State)
    requires RecordsOk(s) && RecordsOk(s') && s'.heap.Keys == s.heap.Keys && s'.postponed == s.postponed
    requires |s'.records| == |s.records|
    requires forall j, x :: 0 <= j < |s.records| ==>
               (InVector(s'.vectors[s'.records[j].mmp], x) <==> InVector(s.vectors[s.records[j].mmp], x))
    ensures Lost(s') == Lost(s)
  {
  }

  lemma SameRecordsLose(s: State, s': State)
    requires RecordsOk(s) && RecordsOk(s') && s'.heap == s.heap && s'.postponed == s.postponed
    requires s'.records == s.records
    requires forall j :: 0 <= j < |s.records| ==> s'.vectors[s.records[j].mmp] == s.vectors[s.records[j].mmp]
    ensures Lost(s') == Lost(s)
  {
    SameSlotsLose(s, s');
  }

  lemma RequestLoses(s: State, s': State, req: Request, items: seq<Item>, c: Choice)
    requires Safe(s) && RecordsOk(s') && NtdllServed(s, s', req, items, c) && NtdllDiscipline(s, req)
    ensures Lost(s') == Lost(s)
  {
    forall j, x | 0 <= j < |s.records|
      ensures |s'.records| == |s.records|
      ensures InVector(s'.vectors[s'.records[j].mmp], x) <==> InVector(s.vectors[s.records[j].mmp], x)
    {
      NtdllServedCarries(s, s', req, items, c, j);
      assert Backed(s, s.records[j]) && Backed(s', s'.records[j]);
      SameHighSlots(s.vectors[s.records[j].mmp], s'.vectors[s'.records[j].mmp], x);
    }
    SameSlotsLose(s, s');
  }

  lemma SameHighSlots(v: Vector, v': Vector, x: Address)
    requires |v| == |v'| == MAXIMUM_TLS_INDEX
    requires forall k :: START_TLS_INDEX <= k < MAXIMUM_TLS_INDEX ==> v'[k] == v[k]
    ensures InVector(v', x) <==> InVector(v, x)
  {
  }

  // ---------- Threads ----------

  lemma {:induction false} PlacedOnly(
    heap: map<Address, Home>, id: Address, entries: seq<Entry>, blocks: seq<Address>, n: nat, x: Address)
    requires n <= |entries| == |blocks| && x in Placed(heap, id, entries, blocks, n) && x !in heap
    ensures exists i :: 0 <= i < n && blocks[i] == x
  {
    if n != 0 && x != blocks[n - 1] {
      PlacedOnly(heap, id, entries, blocks, n - 1, x);
    }
  }

  /** The module slots of a new vector hold the blocks that were granted, and nothing else. */
  lemma StartedSlots(s: State, t: ThreadId, env: StartEnv, x: Address)
    requires Safe(s) && StartEnvOk(s, t, env) && Startable(s, t, env) && x != 0
    ensures InVector(StartThread(s, t, env).0.vectors[env.vector], x)
            <==> exists i :: 0 <= i < Granted(s.entries, env.blocks) && env.blocks[i] == x
  {
    var n := Granted(s.entries, env.blocks);
    var v := StartThread(s, t, env).0.vectors[env.vector];
    InstalledAt(CopiedVector(s.vectors[env.ldr], env.length, t), s.entries, env.blocks, n);
    if InVector(v, x) {
      var k :| 0x80 <= k < |v| && v[k] == x;
      assert Carried(s.entries[..n], k);
      var i :| 0 <= i < n && s.entries[..n][i].index == k;
      assert v[s.entries[i].index] == env.blocks[i];
    }
    if i :| 0 <= i < n && env.blocks[i] == x {
      assert v[s.entries[i].index] == x;
    }
  }

  lemma StartLoses(s: State, t: ThreadId, env: StartEnv)
    requires Safe(s) && StartEnvOk(s, t, env) && Startable(s, t, env) && RecordsOk(StartThread(s, t, env).0)
    ensures Lost(StartThread(s, t, env).0) == Lost(s)
  {
    var s' := StartThread(s, t, env).0;
    var n := Granted(s.entries, env.blocks);
    PlacedAt(s.heap, env.record, s.entries, env.blocks, n);
    forall x | x in s'.heap
      ensures x !in s.heap ==> InRecord(s', x)
      ensures x in s.heap ==> (InRecord(s', x) <==> InRecord(s, x))
    {
      StartedSlots(s, t, env, x);
      if x !in s.heap {
        PlacedOnly(s.heap, env.record, s.entries, env.blocks, n, x);
        assert s'.records[|s.records|].mmp == env.vector;
      } else {
        OldRecordsStay(s, s', x);
      }
    }
  }

  lemma OldRecordsStay(s: State, s': State, x: Address)
    requires RecordsOk(s) && RecordsOk(s') && |s'.records| == |s.records| + 1
    requires forall j :: 0 <= j < |s.records| ==> s'.records[j] == s.records[j]
    requires forall v :: v in s.vectors ==> v in s'.vectors && s'.vectors[v] == s.vectors[v]
    requires !InVector(s'.vectors[s'.records[|s.records|].mmp], x)
    ensures InRecord(s', x) <==> InRecord(s, x)
  {
    forall j | 0 <= j < |s.records|
      ensures s'.vectors[s'.records[j].mmp] == s.vectors[s.records[j].mmp]
    {
      assert Backed(s, s.records[j]);
    }
  }

  lemma ExitLoses(s: State, j: nat)
    requires Safe(s) && j < |s.records| && RecordsOk(ExitThread(s, j))
    ensures Lost(ExitThread(s, j)) == Lost(s)
  {
    var s' := ExitThread(s, j);
    forall x
      ensures InRecord(s', x) || InSnapshot(s'.postponed, x) <==> InRecord(s, x) || InSnapshot(s.postponed, x)
    {
      ExitMoves(s, s', j, x);
    }
  }

  lemma SnapshotAdded(items: seq<Postponed>, item: Postponed, x: Address)
    ensures InSnapshot(items + [item], x) <==> InSnapshot(items, x) || InVector(item.snapshot, x)
  {
    var all := items + [item];
    assert all[|items|] == item;
    assert forall q :: 0 <= q < |items| ==> all[q] == items[q];
  }

  /** The slots of the exiting thread go to its waiting item. */
  lemma ExitMoves(s: State, s': State, j: nat, x: Address)
    requires RecordsOk(s) && RecordsOk(s') && j < |s.records| && s' == ExitThread(s, j)
    ensures InRecord(s', x) || InSnapshot(s'.postponed, x) <==> InRecord(s, x) || InSnapshot(s.postponed, x)
  {
    SnapshotAdded(s.postponed, Postponed(s.records[j], s.vectors[s.records[j].mmp]), x);
    ExitLeaves(s, s', j, x);
  }

  lemma ExitLeaves(s: State, s': State, j: nat, x: Address)
    requires RecordsOk(s) && RecordsOk(s') && j < |s.records| && s' == ExitThread(s, j)
    ensures InRecord(s, x) <==> InRecord(s', x) || InVector(s.vectors[s.records[j].mmp], x)
  {
    if InRecord(s, x) {
      var i :| 0 <= i < |s.records| && InVector(s.vectors[s.records[i].mmp], x);
      if i != j {
        var i' := if i < j then i else i - 1;
        ExitKeepsVector(s, s', j, i', i);
        RecordHas(s', i', x);
      }
    }
    if InRecord(s', x) {
      var i' :| 0 <= i' < |s'.records| && InVector(s'.vectors[s'.records[i'].mmp], x);
      var i := if i' < j then i' else i' + 1;
      ExitKeepsVector(s, s', j, i', i);
      RecordHas(s, i, x);
    }
    if InVector(s.vectors[s.records[j].mmp], x) {
      RecordHas(s, j, x);
    }
  }

  lemma ExitKeepsVector(s: State, s': State, j: nat, i': nat, i: nat)
    requires RecordsOk(s) && RecordsOk(s') && j < |s.records| && s' == ExitThread(s, j)
    requires i' < |s'.records| && i == if i' < j then i' else i' + 1
    ensures s'.vectors[s'.records[i'].mmp] == s.vectors[s.records[i].mmp]
  {
    assert Backed(s', s'.records[i']);
  }

  /** Something in a record's vector is in a record. */
  lemma RecordHas(s: State, j: nat, x: Address)
    requires RecordsOk(s) && j < |s.records| && InVector(s.vectors[s.records[j].mmp], x)
    ensures InRecord(s, x)
  {
  }

  // ---------- The sweep ----------

  lemma {:induction false} RemainingHas(items: seq<Postponed>, dead: set<Address>, n: nat, q: nat)
    requires q < n <= |items| && items[q].record.id !in dead
    ensures items[q] in Remaining(items, dead, n)
  {
    if q < n - 1 {
      RemainingHas(items, dead, n - 1, q);
    }
  }

  lemma RemainingAre(items: seq<Postponed>, dead: set<Address>, item: Postponed)
    ensures item in Remaining(items, dead, |items|) <==> item in items && item.record.id !in dead
  {
    if item in items && item.record.id !in dead {
      var q :| 0 <= q < |items| && items[q] == item;
      RemainingHas(items, dead, |items|, q);
    }
    if item in Remaining(items, dead, |items|) {
      var i :| 0 <= i < |Remaining(items, dead, |items|)| && Remaining(items, dead, |items|)[i] == item;
      var q := RemainingFrom(items, dead, |items|, i);
    }
  }

  /** One pass of the worker deals with every ended thread and with no other: its item is gone, its LDR vector and
      its blocks at listed indices are freed, and nothing else is. */
  lemma SweepIsComplete(s: State, dead: set<Address>)
    requires Safe(s)
    ensures var s' := Sweep(s, dead);
            && (forall item :: item in s'.postponed <==> item in s.postponed && item.record.id !in dead)
            && (forall v :: v in s'.vectors <==>
                  v in s.vectors
                  && forall item :: item in s.postponed && item.record.id in dead ==> item.record.ldr != v)
            && (forall x :: x in s'.heap <==>
                  x in s.heap
                  && forall item, e :: item in s.postponed && item.record.id in dead && e in s.entries ==>
                       item.snapshot[e.index] != x)
  {
    var s' := Sweep(s, dead);
    forall item
      ensures item in s'.postponed <==> item in s.postponed && item.record.id !in dead
    {
      RemainingAre(s.postponed, dead, item);
    }
    forall x | x in s.heap
      ensures x in s'.heap <==>
                forall item, e :: item in s.postponed && item.record.id in dead && e in s.entries ==>
                  item.snapshot[e.index] != x
    {
      if Swept(s.postponed, dead, s.entries, x) {
        var q, e :| 0 <= q < |s.postponed| && 0 <= e < |s.entries|
                    && SweptAt(s.postponed[q], dead, s.entries[e], x);
        assert s.postponed[q] in s.postponed && s.entries[e] in s.entries;
      } else {
        forall item, e | item in s.postponed && item.record.id in dead && e in s.entries
          ensures item.snapshot[e.index] != x
        {
          var q, i :| 0 <= q < |s.postponed| && s.postponed[q] == item && 0 <= i < |s.entries| && s.entries[i] == e;
          assert !SweptAt(s.postponed[q], dead, s.entries[i], x);
        }
      }
    }
  }

  /** After the sweep a snapshot holds x exactly when the one of a running thread did. */
  lemma SweptSnapshots(s: State, dead: set<Address>, x: Address)
    ensures InSnapshot(Sweep(s, dead).postponed, x) <==>
              exists q :: 0 <= q < |s.postponed| && s.postponed[q].record.id !in dead
                          && InVector(s.postponed[q].snapshot, x)
  {
    var rest := Sweep(s, dead).postponed;
    if InSnapshot(rest, x) {
      var i :| 0 <= i < |rest| && InVector(rest[i].snapshot, x);
      var q := RemainingFrom(s.postponed, dead, |s.postponed|, i);
    }
    if q :| 0 <= q < |s.postponed| && s.postponed[q].record.id !in dead && InVector(s.postponed[q].snapshot, x) {
      RemainingHas(s.postponed, dead, |s.postponed|, q);
    }
  }

  lemma SweptRecords(s: State, s': State, dead: set<Address>, x: Address)
    requires RecordsOk(s) && RecordsOk(s') && s' == Sweep(s, dead)
    ensures InRecord(s', x) <==> InRecord(s, x)
  {
    forall j | 0 <= j < |s.records|
      ensures s'.vectors[s.records[j].mmp] == s.vectors[s.records[j].mmp]
    {
      assert Backed(s', s.records[j]);
    }
  }

  /** A block in a slot has the slot's record and index for its home. */
  lemma HomeOfSlots(s: State, x: Address)
    requires Safe(s) && x in s.heap
    ensures InRecord(s, x) ==> exists j :: 0 <= j < |s.records| && s.records[j].id == s.heap[x].record
    ensures forall q, k :: 0 <= q < |s.postponed| && 0x80 <= k < |s.postponed[q].snapshot| ==>
              (s.postponed[q].snapshot[k] == x ==>
                 s.heap[x].record == s.postponed[q].record.id && s.heap[x].index == k)
  {
    if InRecord(s, x) {
      var j :| 0 <= j < |s.records| && InVector(s.vectors[s.records[j].mmp], x);
      assert Owns(s.heap, s.vectors[s.records[j].mmp], s.records[j].id);
    }
    forall q, k | 0 <= q < |s.postponed| && 0x80 <= k < |s.postponed[q].snapshot| && s.postponed[q].snapshot[k] == x
      ensures s.heap[x].record == s.postponed[q].record.id && s.heap[x].index == k
    {
      assert Owns(s.heap, s.postponed[q].snapshot, s.postponed[q].record.id);
    }
  }

  lemma SweepLosesAt(s: State, s': State, dead: set<Address>, x: Address)
    requires Safe(s) && RecordsOk(s') && s' == Sweep(s, dead) && x in s.heap
    requires forall j :: 0 <= j < |s.records| ==> s.records[j].id !in dead
    ensures x in Lost(s') <==> x in Lost(s) || Overlooked(s, dead, x)
  {
    SweptSnapshots(s, dead, x);
    SweptRecords(s, s', dead, x);
    HomeOfSlots(s, x);
    if q, k :| OverlookedAt(s, dead, x, q, k) {
      assert InVector(s.postponed[q].snapshot, x);
      OverlookedStays(s, dead, x, q, k);
    } else if x in Lost(s) {
      LostStays(s, dead, x);
    } else if !InRecord(s, x) && !InSnapshot(s'.postponed, x) {
      var q :| 0 <= q < |s.postponed| && InVector(s.postponed[q].snapshot, x);
      ListedIsSwept(s, dead, x, q);
    }
  }

  lemma OverlookedStays(s: State, dead: set<Address>, x: Address, q: int, k: int)
    requires Safe(s) && x in s.heap && OverlookedAt(s, dead, x, q, k)
    requires s.heap[x].index == k
    ensures x in Sweep(s, dead).heap
  {
    forall p, e | 0 <= p < |s.postponed| && 0 <= e < |s.entries|
      ensures !SweptAt(s.postponed[p], dead, s.entries[e], x)
    {
      assert Owns(s.heap, s.postponed[p].snapshot, s.postponed[p].record.id);
    }
  }

  lemma LostStays(s: State, dead: set<Address>, x: Address)
    requires Safe(s) && x in Lost(s)
    ensures x in Sweep(s, dead).heap
  {
    forall p, e | 0 <= p < |s.postponed| && 0 <= e < |s.entries|
      ensures !SweptAt(s.postponed[p], dead, s.entries[e], x)
    {
      assert !InVector(s.postponed[p].snapshot, x);
    }
  }

  lemma ListedIsSwept(s: State, dead: set<Address>, x: Address, q: nat)
    requires Safe(s) && x in s.heap && q < |s.postponed| && s.postponed[q].record.id in dead
    requires InVector(s.postponed[q].snapshot, x) && !Overlooked(s, dead, x)
    ensures x !in Sweep(s, dead).heap
  {
    var k :| 0x80 <= k < |s.postponed[q].snapshot| && s.postponed[q].snapshot[k] == x;
    assert !OverlookedAt(s, dead, x, q, k);
    var e :| 0 <= e < |s.entries| && s.entries[e].index == k;
    assert SweptAt(s.postponed[q], dead, s.entries[e], x);
  }

  /** The sweep loses what it overlooks, and nothing else. */
  lemma SweepLoses(s: State, dead: set<Address>)
    requires Safe(s) && RecordsOk(Sweep(s, dead))
    requires forall j :: 0 <= j < |s.records| ==> s.records[j].id !in dead
    ensures Lost(Sweep(s, dead)) == Lost(s) + LostBy(s, PostponedSweep(dead))
  {
    forall x | x in s.heap
      ensures x in Lost(Sweep(s, dead)) <==> x in Lost(s) || Overlooked(s, dead, x)
    {
      SweepLosesAt(s, Sweep(s, dead), dead, x);
    }
  }

  // ---------- Module loads ----------

  /** Of the blocks there were, a load frees those it takes out of a slot and leaves the others where they are. */
  lemma LoadedOldAt(
    s: State, s': State, owner: Address, size: nat, blocks: seq<Address>, c: Choice, x: Address)
    requires Safe(s) && RecordsOk(s') && FirstClear(s.bitmap, 0).Some? && |blocks| == |c| && BlocksOk(s, blocks)
    requires ValidChoice(s, |c|, c) && Loaded(s, s', owner, size, blocks, c) && x in s.heap && x in s'.heap
    ensures InRecord(s', x) <==> InRecord(s, x)
  {
    forall j | 0 <= j < |s.records|
      ensures InVector(s'.vectors[s.records[j].mmp], x) <==> InVector(s.vectors[s.records[j].mmp], x)
    {
      LoadedOldIn(s, s', owner, size, blocks, c, x, j);
    }
  }

  lemma LoadedOldIn(
    s: State, s': State, owner: Address, size: nat, blocks: seq<Address>, c: Choice, x: Address, j: nat)
    requires Safe(s) && RecordsOk(s') && FirstClear(s.bitmap, 0).Some? && |blocks| == |c| && BlocksOk(s, blocks)
    requires ValidChoice(s, |c|, c) && Loaded(s, s', owner, size, blocks, c) && x in s.heap && x in s'.heap
    requires j < |s.records|
    ensures InVector(s'.vectors[s.records[j].mmp], x) <==> InVector(s.vectors[s.records[j].mmp], x)
  {
    var k, r := FirstClear(s.bitmap, 0).value, s.records[j];
    assert Backed(s, r);
    LoadKeepsSlots(s, s', owner, size, blocks, c, j);
    if Chosen(c, r.thread, |c|) {
      var i :| 0 <= i < |c| && c[i] == Some(r.thread);
      assert Gets(s, c, i, j);
      NotInSlot(s, s', owner, size, blocks, c, x, r, k);
      SlotChanged(s.vectors[r.mmp], k, blocks[i], x);
    }
  }

  /** A block that is still allocated was not in the slot of a thread that received a new one. */
  lemma NotInSlot(
    s: State, s': State, owner: Address, size: nat, blocks: seq<Address>, c: Choice, x: Address, r: Record, k: nat)
    requires RecordsOk(s) && FirstClear(s.bitmap, 0) == Some(k) && k < MAXIMUM_TLS_INDEX && |blocks| == |c|
    requires Loaded(s, s', owner, size, blocks, c) && x in s.heap && x in s'.heap
    requires r in s.records && r.mmp in s.vectors && k < |s.vectors[r.mmp]| && Chosen(c, r.thread, |c|)
    ensures s.vectors[r.mmp][k] != x
  {
    assert s.vectors[r.mmp][k] == x ==> ReplacedAt(s, c, k, x, r);
    assert !Replaced(s, c, k, x);
  }

  lemma SlotChanged(v: Vector, k: nat, new': Address, x: Address)
    requires k < |v| && v[k] != x && new' != x
    ensures InVector(v[k := new'], x) <==> InVector(v, x)
  {
    var v' := v[k := new'];
    assert forall l :: 0 <= l < |v| ==> (v'[l] == x <==> v[l] == x);
  }

  lemma LoadedNewAt(
    s: State, s': State, owner: Address, size: nat, blocks: seq<Address>, c: Choice, x: Address)
    requires Safe(s) && RecordsOk(s') && FirstClear(s.bitmap, 0).Some? && |blocks| == |c|
    requires ValidChoice(s, |c|, c) && Loaded(s, s', owner, size, blocks, c) && x !in s.heap && x in s'.heap
    ensures InRecord(s', x)
  {
    var i :| 0 <= i < |blocks| && blocks[i] == x;
    var j := ChosenRecord(s, c, i);
    var k := FirstClear(s.bitmap, 0).value;
    assert Backed(s, s.records[j]);
    NewInVector(s.vectors[s.records[j].mmp], k, x);
    RecordHas(s', j, x);
  }

  lemma NewInVector(v: Vector, k: nat, x: Address)
    requires 0x80 <= k < |v|
    ensures InVector(v[k := x], x)
  {
    assert v[k := x][k] == x;
  }

  lemma LoadedLoses(s: State, s': State, owner: Address, size: nat, blocks: seq<Address>, c: Choice)
    requires Safe(s) && RecordsOk(s') && FirstClear(s.bitmap, 0).Some? && |blocks| == |c| && BlocksOk(s, blocks)
    requires ValidChoice(s, |c|, c) && Loaded(s, s', owner, size, blocks, c)
    ensures Lost(s') == Lost(s)
  {
    forall x
      ensures x in Lost(s') <==> x in Lost(s)
    {
      if x in s.heap && x in s'.heap {
        LoadedOldAt(s, s', owner, size, blocks, c, x);
      } else if x in s'.heap {
        LoadedNewAt(s, s', owner, size, blocks, c, x);
      } else if x in s.heap {
        ReplacedWasThere(s, c, FirstClear(s.bitmap, 0).value, x);
      }
    }
  }

  lemma ReplacedWasThere(s: State, c: Choice, k: nat, x: Address)
    requires RecordsOk(s) && Replaced(s, c, k, x) && k >= 0x80
    ensures InRecord(s, x)
  {
    var j :| 0 <= j < |s.records| && ReplacedAt(s, c, k, x, s.records[j]);
    assert s.vectors[s.records[j].mmp][k] == x;
  }

  lemma HandledLoses(s: State, s': State, owner: Address, size: nat, load: LoadEnv)
    requires Safe(s) && RecordsOk(s') && LoadEnvOk(s, load) && Handled(s, s', owner, size, load)
    ensures Lost(s') == Lost(s)
  {
    if Reached(s, load) && LoadStatus(s, load) == Success {
      LoadedLoses(s, s', owner, size, load.blocks, load.kernel.value);
    } else {
      SameRecordsLose(s, s');
    }
  }

  // ---------- Runs ----------

  lemma ExitStepLoses(s: State, t: ThreadId, s': State)
    requires RecordsOk(s') && Step(s, ThreadExit(t), s')
    ensures Lost(s') == Lost(s)
  {
    var j: nat :| j < |s.records| && s.records[j].thread == t && s' == ExitThread(s, j);
    ExitLoses(s, j);
  }

  lemma OwnVectorsKept(s: State, s': State, e: Event)
    requires Step(s, e, s') && RecordsOk(s') && (e.NtdllAllocate? || e.NtdllFree?)
    ensures forall j :: 0 <= j < |s.records| ==> s'.vectors[s.records[j].mmp] == s.vectors[s.records[j].mmp]
  {
    forall j | 0 <= j < |s.records|
      ensures s'.vectors[s.records[j].mmp] == s.vectors[s.records[j].mmp]
    {
      assert Backed(s, s.records[j]) && InUse(s, s.records[j].mmp);
    }
  }

  /** No step loses a block but the sweep, and it exactly those it overlooks. */
  lemma StepLoses(s: State, e: Event, s': State)
    requires Step(s, e, s') && RecordsOk(s')
    ensures Lost(s') == Lost(s) + LostBy(s, e)
  {
    match e
    case ThreadStart(t, env) => StartLoses(s, t, env);
    case ThreadExit(t) => ExitStepLoses(s, t, s');
    case ThreadKill(t) => SameRecordsLose(s, s');
    case PostponedSweep(dead) => SweepLoses(s, dead);
    case ModuleLoad(owner, size, load) => HandledLoses(s, s', owner, size, load);
    case ModuleUnload(owner) => SameRecordsLose(s, s');
    case NtdllRequest(req, items, c) => RequestLoses(s, s', req, items, c);
    case NtdllAllocate(v, slots) =>
      OwnVectorsKept(s, s', e);
      SameRecordsLose(s, s');
    case NtdllFree(v) =>
      OwnVectorsKept(s, s', e);
      SameRecordsLose(s, s');
  }

  ghost function LostIn(run: Trace): set<Address> {
    match run
    case First(s) => if Safe(s) then Lost(s) else {}
    case Then(past, e, s) => LostIn(past) + LostBy(past.state, e)
  }

  /** Conservation of data blocks: over every run, a block that was allocated is freed or in a slot, unless one of
      the sweeps overlooked it. */
  lemma {:induction false} RunConserves(run: Trace)
    requires IsRun(run)
    ensures Safe(run.state) && Lost(run.state) == LostIn(run)
  {
    RunKeepsSafe(run);
    if run.Then? {
      RunConserves(run.past);
      StepLoses(run.past.state, run.event, run.state);
    }
  }

  /** An exiting thread hands over its slots and its LDR vector, and leaves the list and the live threads. */
  lemma ExitHandsOver(s: State, j: nat)
    requires Safe(s) && j < |s.records|
    ensures var s', r := ExitThread(s, j), s.records[j];
            && (forall item :: item in s'.postponed <==>
                  item in s.postponed || item == Postponed(r, s.vectors[r.mmp]))
            && (forall o :: o in s'.records <==> o in s.records && o != r)
            && s'.teb.Keys == s.teb.Keys - {r.thread}
  {
    var s', r := ExitThread(s, j), s.records[j];
    assert Backed(s, r);
    forall o
      ensures o in s'.records <==> o in s.records && o != r
    {
      if o in s'.records {
        var i :| 0 <= i < |s'.records| && s'.records[i] == o;
        var k := if i < j then i else i + 1;
        assert Apart(s.records[if k < j then k else j], s.records[if k < j then j else k]);
      }
      if o in s.records && o != r {
        var k :| 0 <= k < |s.records| && s.records[k] == o;
        assert s'.records[if k < j then k else k - 1] == o;
      }
    }
  }

  // ---------- The thread count ----------

  /** Each live thread is counted once. */
  ghost predicate Exact(s: State) {
    |s.teb| == s.active
  }

  /** An orderly exit keeps an exact count exact, and no other count becomes exact by it. */
  lemma ExitKeepsExactIff(s: State, j: nat)
    requires Safe(s) && j < |s.records| && s.records[j].thread in s.teb && Counted(s)
    ensures Exact(ExitThread(s, j)) <==> Exact(s)
  {
    assert Backed(s, s.records[j]);
    ExitCountIs(s, j);
  }

  lemma ExitCountIs(s: State, j: nat)
    requires j < |s.records| && s.records[j].thread in s.teb && s.records[j].mmp in s.vectors && |s.teb| <= s.active
    ensures Exact(ExitThread(s, j)) <==> Exact(s)
  {
    OneThreadLess(s.teb, s.records[j].thread);
    OneLess(|s.teb|, s.active);
  }

  lemma OneLess(n: nat, count: Dword)
    requires 0 < n <= count
    ensures n - 1 == Wrapped(count - 1) <==> n == count
  {
  }

  /** A start keeps an exact count exact exactly when every block was granted and the count does not wrap. */
  lemma StartKeepsExactIff(s: State, t: ThreadId, env: StartEnv)
    requires Safe(s) && StartEnvOk(s, t, env) && Startable(s, t, env) && Exact(s)
    ensures Exact(StartThread(s, t, env).0) <==>
              && (forall i :: 0 <= i < |s.entries| ==> env.blocks[i] != 0 && s.entries[i].size != 0)
              && s.active != 0xFFFF_FFFF
  {
    IndicesFit(s);
    StartCountIs(s, t, env);
  }

  lemma IndicesFit(s: State)
    requires IndexOk(s.bitmap, s.entries)
    ensures forall i :: 0 <= i < |s.entries| ==> s.entries[i].index < MAXIMUM_TLS_INDEX
  {
  }

  lemma StartCountIs(s: State, t: ThreadId, env: StartEnv)
    requires env.ldr in s.vectors && |s.vectors[env.ldr]| <= 0x80 && |env.blocks| == |s.entries|
    requires forall i :: 0 <= i < |s.entries| ==> s.entries[i].index < MAXIMUM_TLS_INDEX
    requires t !in s.teb && Startable(s, t, env) && Exact(s)
    ensures Exact(StartThread(s, t, env).0) <==>
              && (forall i :: 0 <= i < |s.entries| ==> env.blocks[i] != 0 && s.entries[i].size != 0)
              && s.active != 0xFFFF_FFFF
  {
    OneThreadMore(s.teb, t, env.vector);
  }

  lemma ExitStepExact(s: State, t: ThreadId, s': State)
    requires Inv(s) && Step(s, ThreadExit(t), s')
    ensures Exact(s') <==> Exact(s)
  {
    var j: nat :| j < |s.records| && s.records[j].thread == t && s' == ExitThread(s, j);
    ExitKeepsExactIff(s, j);
  }

  lemma CleanIsExact(s: State, s': State, owner: Address, size: nat, load: LoadEnv)
    requires Inv(s) && LoadEnvOk(s, load) && Handled(s, s', owner, size, load) && Clean(s, owner, load) && Exact(s)
    ensures Exact(s')
  {
    if Reached(s, load) {
      LoadKeepsInv(s, s', owner, size, load.blocks, load.kernel.value);
    }
  }

  lemma KillKeepsExactIff(s: State, t: ThreadId)
    requires Exact(s)
    ensures Exact(KillThread(s, t)) <==> t !in s.teb
  {
    if t in s.teb {
      OneThreadLess(s.teb, t);
    } else {
      assert s.teb - {t} == s.teb;
    }
  }

  lemma OtherStepExact(s: State, e: Event, s': State)
    requires Step(s, e, s')
    requires !e.ThreadStart? && !e.ThreadExit? && !e.ThreadKill? && !e.ModuleLoad?
    ensures s'.teb == s.teb && s'.active == s.active
  {
  }

  /** A step that fails nowhere leaves an exact count exact unless it kills a thread. */
  lemma StepKeepsExactIff(s: State, e: Event, s': State)
    requires Inv(s) && Step(s, e, s') && Flawless(s, e) && Exact(s)
    ensures Exact(s') <==> !(e.ThreadKill? && e.t in s.teb)
  {
    match e
    case ThreadStart(t, env) => StartKeepsExactIff(s, t, env);
    case ThreadExit(t) => ExitStepExact(s, t, s');
    case ThreadKill(t) => KillKeepsExactIff(s, t);
    case ModuleLoad(owner, size, load) => CleanIsExact(s, s', owner, size, load);
    case _ => OtherStepExact(s, e, s');
  }

  ghost predicate NoKill(run: Trace) {
    match run
    case First(s) => Exact(s)
    case Then(past, e, s) => NoKill(past) && !(e.ThreadKill? && e.t in past.state.teb)
  }

  /** Over every flawless run in which no live thread is killed the count is exact. */
  lemma {:induction false} RunKeepsExact(run: Trace)
    requires IsFlawlessRun(run) && NoKill(run)
    ensures Inv(run.state) && Exact(run.state)
  {
    RunKeepsInv(run);
    if run.Then? {
      RunKeepsExact(run.past);
      StepKeepsExactIff(run.past.state, run.event, run.state);
    }
  }
}
