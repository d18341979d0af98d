/**
 * Thread start, orderly exit and kill, and the postponed sweep: what each does to the TLS state,
 * and exactly when it keeps the invariant.
 */
module TlsThreads {
  import opened Sequences
  import opened TlsState
  import opened TlsHook

  // ---------- Thread start ----------

  /** What a starting thread gets: its LDR vector and that vector's Length word, and what the heap
      returns for its record, its private vector and one block per listed entry (0: failure). */
  datatype StartEnv = StartEnv(
    ldr: Address, length: nat, record: Address, vector: Address, blocks: seq<Address>)

  ghost predicate StartEnvOk(s: State, t: ThreadId, env: StartEnv) {
    && t !in s.teb
    && env.ldr != 0 && env.ldr in s.vectors && !InUse(s, env.ldr)
    && |s.vectors[env.ldr]| <= START_TLS_INDEX
    && (env.length == |s.vectors[env.ldr]| || env.length == t)
    && (env.vector != 0 ==> env.vector !in s.vectors)
    && (env.record != 0 ==>
          && (forall i :: 0 <= i < |s.records| ==> s.records[i].id != env.record)
          && (forall q :: 0 <= q < |s.postponed| ==> s.postponed[q].record.id != env.record))
    && |env.blocks| == |s.entries|
    && (forall i :: 0 <= i < |env.blocks| ==> env.blocks[i] !in s.heap)
    && (forall i, j :: 0 <= i < j < |env.blocks| && env.blocks[i] != 0 ==> env.blocks[i] != env.blocks[j])
  }

  /** The private vector as first filled: a Length word equal to the thread id is taken for a
      ThreadId, and then nothing is copied. */
  function CopiedVector(ldr: Vector, length: nat, t: ThreadId): (v: Vector)
    requires |ldr| <= START_TLS_INDEX
    ensures |v| == MAXIMUM_TLS_INDEX
    ensures forall k :: START_TLS_INDEX <= k < MAXIMUM_TLS_INDEX ==> v[k] == 0
  {
    if length == t then Repeat<Address>(0, MAXIMUM_TLS_INDEX) else ldr + Repeat<Address>(0, MAXIMUM_TLS_INDEX - |ldr|)
  }

  /** How many entries receive a block before an allocation fails; an empty template counts as a
      failed allocation. */
  function Granted(entries: seq<Entry>, blocks: seq<Address>): (n: nat)
    requires |entries| == |blocks|
    ensures n <= |entries|
    ensures forall i :: 0 <= i < n ==> blocks[i] != 0 && entries[i].size != 0
    ensures n < |entries| ==> blocks[n] == 0 || entries[n].size == 0
  {
    if |entries| == 0 || blocks[0] == 0 || entries[0].size == 0 then 0
    else 1 + Granted(entries[1..], blocks[1..])
  }

  /** The vector after the first n entries have received their blocks. */
  function Installed(v: Vector, entries: seq<Entry>, blocks: seq<Address>, n: nat): (v': Vector)
    requires n <= |entries| == |blocks|
    requires forall i :: 0 <= i < |entries| ==> entries[i].index < |v|
    ensures |v'| == |v|
  {
    if n == 0 then v else Installed(v, entries, blocks, n - 1)[entries[n - 1].index := blocks[n - 1]]
  }

  /** The heap after the first n entries' blocks have been allocated for record `id`. */
  function Placed(heap: map<Address, Home>, id: Address, entries: seq<Entry>, blocks: seq<Address>, n: nat)
    : map<Address, Home>
    requires n <= |entries| == |blocks|
  {
    if n == 0 then heap
    else Placed(heap, id, entries, blocks, n - 1)
           [blocks[n - 1] := Home(id, entries[n - 1].index, entries[n - 1].owner)]
  }

  /** Thread t is registered, receives its blocks, and is counted if none was missing. */
  function StartThread(s: State, t: ThreadId, env: StartEnv): (State, bool)
    requires env.ldr in s.vectors && |s.vectors[env.ldr]| <= START_TLS_INDEX
    requires |env.blocks| == |s.entries|
    requires forall i :: 0 <= i < |s.entries| ==> s.entries[i].index < MAXIMUM_TLS_INDEX
  {
    if Registered(s, t) then (s.(teb := s.teb[t := env.ldr]), true)
    else if env.record == 0 || env.vector == 0 then (s.(teb := s.teb[t := env.ldr]), false)
    else
      var n := Granted(s.entries, env.blocks);
      var v := CopiedVector(s.vectors[env.ldr], env.length, t);
      (s.(teb := s.teb[t := env.vector],
          vectors := s.vectors[env.vector := Installed(v, s.entries, env.blocks, n)],
          records := s.records + [Record(env.record, t, env.ldr, env.vector)],
          heap := Placed(s.heap, env.record, s.entries, env.blocks, n),
          active := if n == |s.entries| then Wrapped(s.active + 1) else s.active),
       n == |s.entries|)
  }

  /** What a start needs to be registered, whatever becomes of its blocks: a thread id no record carries, a
      record and a vector of its own, and a Length word that is not mistaken for the thread's id. */
  predicate Startable(s: State, t: ThreadId, env: StartEnv)
    requires env.ldr in s.vectors
  {
    && !Registered(s, t)
    && env.record != 0 && env.vector != 0
    && (env.length != t || forall k :: 0 <= k < |s.vectors[env.ldr]| ==> s.vectors[env.ldr][k] == 0)
  }

  /** What a start needs besides to keep the invariant: no failed allocation, no empty template, and a count
      that does not wrap around. */
  predicate StartServed(s: State, t: ThreadId, env: StartEnv)
    requires |env.blocks| == |s.entries| && env.ldr in s.vectors
  {
    && Startable(s, t, env)
    && (forall i :: 0 <= i < |s.entries| ==> env.blocks[i] != 0 && s.entries[i].size != 0)
    && s.active + 1 < DWORD_RANGE
  }

  lemma {:induction false} InstalledAt(v: Vector, entries: seq<Entry>, blocks: seq<Address>, n: nat)
    requires n <= |entries| == |blocks|
    requires forall i :: 0 <= i < |entries| ==> entries[i].index < |v|
    requires forall i, j :: 0 <= i < j < |entries| ==> entries[i].index != entries[j].index
    ensures forall i :: 0 <= i < n ==> Installed(v, entries, blocks, n)[entries[i].index] == blocks[i]
    ensures forall k :: 0 <= k < |v| && !Carried(entries[..n], k) ==> Installed(v, entries, blocks, n)[k] == v[k]
  {
    if n != 0 {
      InstalledAt(v, entries, blocks, n - 1);
      forall k | 0 <= k < |v| && !Carried(entries[..n], k)
        ensures Installed(v, entries, blocks, n)[k] == v[k]
      {
        assert entries[..n][n - 1].index != k;
        assert forall i :: 0 <= i < n - 1 ==> entries[..n - 1][i] == entries[..n][i];
      }
    }
  }

  lemma {:induction false} PlacedAt(
    heap: map<Address, Home>, id: Address, entries: seq<Entry>, blocks: seq<Address>, n: nat)
    requires n <= |entries| == |blocks|
    requires forall i :: 0 <= i < n ==> blocks[i] !in heap && blocks[i] != 0
    requires forall i, j :: 0 <= i < j < n ==> blocks[i] != blocks[j]
    ensures var h := Placed(heap, id, entries, blocks, n);
            && (forall i :: 0 <= i < n ==>
                  blocks[i] in h && h[blocks[i]] == Home(id, entries[i].index, entries[i].owner))
            && (forall x :: x in heap ==> x in h && h[x] == heap[x])
            && (forall x :: x in h && x !in heap ==> x != 0)
  {
    if n != 0 {
      PlacedAt(heap, id, entries, blocks, n - 1);
    }
  }

  /** A started thread's record satisfies everything a record must, and disturbs no other. */
  lemma StartKeepsSafe(s: State, t: ThreadId, env: StartEnv)
    requires Safe(s) && StartEnvOk(s, t, env) && Startable(s, t, env)
    ensures Safe(StartThread(s, t, env).0)
  {
    StartKeepsRecords(s, t, env);
    StartKeepsMirror(s, t, env);
    StartKeepsOwned(s, t, env);
  }

  lemma StartKeepsMirror(s: State, t: ThreadId, env: StartEnv)
    requires Safe(s) && StartEnvOk(s, t, env) && Startable(s, t, env)
    requires RecordsOk(StartThread(s, t, env).0)
    ensures MirrorOk(StartThread(s, t, env).0)
  {
    var s' := StartThread(s, t, env).0;
    var n := Granted(s.entries, env.blocks);
    var ldr := s.vectors[env.ldr];
    LowSlotsCopied(ldr, env.length, t, s.entries, env.blocks, n);
    assert Mirrored(s'.vectors, s'.records[|s.records|]) by {
      assert s'.vectors[env.ldr] == ldr;
      assert s'.vectors[env.vector] == Installed(CopiedVector(ldr, env.length, t), s.entries, env.blocks, n);
    }
    forall i | 0 <= i < |s.records|
      ensures Mirrored(s'.vectors, s'.records[i])
    {
      assert Backed(s, s.records[i]);
      assert Mirrored(s.vectors, s.records[i]);
    }
  }

  /** Below the module part a new vector is as it was copied. */
  lemma LowSlotsCopied(
    ldr: Vector, length: nat, t: ThreadId, entries: seq<Entry>, blocks: seq<Address>, n: nat)
    requires |ldr| <= START_TLS_INDEX && n <= |entries| == |blocks|
    requires forall i :: 0 <= i < |entries| ==> START_TLS_INDEX <= entries[i].index < MAXIMUM_TLS_INDEX
    requires forall i, j :: 0 <= i < j < |entries| ==> entries[i].index != entries[j].index
    ensures var v := Installed(CopiedVector(ldr, length, t), entries, blocks, n);
            && (forall k :: 0 <= k < |ldr| ==> v[k] == if length == t then 0 else ldr[k])
            && (forall k :: |ldr| <= k < START_TLS_INDEX ==> v[k] == 0)
  {
    InstalledAt(CopiedVector(ldr, length, t), entries, blocks, n);
    assert forall k :: 0 <= k < START_TLS_INDEX ==> !Carried(entries[..n], k);
  }

  lemma StartKeepsOwned(s: State, t: ThreadId, env: StartEnv)
    requires Safe(s) && StartEnvOk(s, t, env)
    requires !Registered(s, t) && env.record != 0 && env.vector != 0
    requires RecordsOk(StartThread(s, t, env).0) && PostponedOk(StartThread(s, t, env).0)
    ensures OwnedOk(StartThread(s, t, env).0)
  {
    var s' := StartThread(s, t, env).0;
    PlacedAt(s.heap, env.record, s.entries, env.blocks, Granted(s.entries, env.blocks));
    StartedOwns(s, t, env);
    forall i | 0 <= i < |s.records|
      ensures Owns(s'.heap, s'.vectors[s'.records[i].mmp], s'.records[i].id)
    {
      assert Backed(s, s.records[i]);
      assert Owns(s.heap, s.vectors[s.records[i].mmp], s.records[i].id);
    }
    forall q | 0 <= q < |s.postponed|
      ensures Owns(s'.heap, s.postponed[q].snapshot, s.postponed[q].record.id)
    {
      assert Owns(s.heap, s.postponed[q].snapshot, s.postponed[q].record.id);
    }
  }

  lemma StartedOwns(s: State, t: ThreadId, env: StartEnv)
    requires Safe(s) && StartEnvOk(s, t, env)
    requires !Registered(s, t) && env.record != 0 && env.vector != 0
    ensures var s' := StartThread(s, t, env).0; Owns(s'.heap, s'.vectors[env.vector], env.record)
  {
    var s' := StartThread(s, t, env).0;
    var n := Granted(s.entries, env.blocks);
    InstalledAt(CopiedVector(s.vectors[env.ldr], env.length, t), s.entries, env.blocks, n);
    PlacedAt(s.heap, env.record, s.entries, env.blocks, n);
    forall k | START_TLS_INDEX <= k < MAXIMUM_TLS_INDEX && s'.vectors[env.vector][k] != 0
      ensures var x := s'.vectors[env.vector][k];
              x in s'.heap && s'.heap[x].record == env.record && s'.heap[x].index == k
    {
      assert Carried(s.entries[..n], k);
      var i :| 0 <= i < n && s.entries[..n][i].index == k;
      assert s'.vectors[env.vector][s.entries[i].index] == env.blocks[i];
    }
  }

  lemma StartKeepsRecords(s: State, t: ThreadId, env: StartEnv)
    requires Safe(s) && StartEnvOk(s, t, env)
    requires !Registered(s, t) && env.record != 0 && env.vector != 0
    ensures RecordsOk(StartThread(s, t, env).0) && PostponedOk(StartThread(s, t, env).0)
  {
    var s' := StartThread(s, t, env).0;
    var r := s'.records[|s.records|];
    forall i | 0 <= i < |s.records|
      ensures Apart(s'.records[i], r) && Backed(s', s'.records[i])
    {
      assert Backed(s, s.records[i]);
    }
    assert Backed(s', r);
    forall u | u in s'.teb
      ensures Registered(s', u)
    {
      if u == t {
        assert r.thread == t;
      } else {
        assert Registered(s, u);
        var i :| 0 <= i < |s.records| && s.records[i].thread == u;
        assert s'.records[i].thread == u;
      }
    }
    forall i, q | 0 <= i < |s'.records| && 0 <= q < |s'.postponed|
      ensures ApartFromPostponed(s'.records[i], s'.postponed[q])
    {
      if i < |s.records| {
        assert ApartFromPostponed(s.records[i], s.postponed[q]);
      }
    }
  }

  /** Exactly when a thread start keeps the records, the mirror, the ownership and the indices. */
  lemma StartSafeIff(s: State, t: ThreadId, env: StartEnv)
    requires Safe(s) && StartEnvOk(s, t, env)
    ensures Safe(StartThread(s, t, env).0) <==> Startable(s, t, env)
  {
    var s' := StartThread(s, t, env).0;
    if Registered(s, t) {
      StaleRecordBlocksStart(s, t, env);
    } else if env.record == 0 || env.vector == 0 {
      assert t in s'.teb && !Registered(s', t);
    } else if Startable(s, t, env) {
      StartKeepsSafe(s, t, env);
    } else {
      MistakenLength(s, t, env);
    }
  }

  /** Exactly when a thread start keeps the invariant. */
  lemma StartKeepsInvIff(s: State, t: ThreadId, env: StartEnv)
    requires Inv(s) && StartEnvOk(s, t, env)
    ensures Inv(StartThread(s, t, env).0) <==> StartServed(s, t, env)
    ensures StartServed(s, t, env) ==> StartThread(s, t, env).1
  {
    StartSafeIff(s, t, env);
    if StartServed(s, t, env) {
      StartServedKeepsInv(s, t, env);
    } else if Startable(s, t, env) {
      if Granted(s.entries, env.blocks) < |s.entries| {
        MissingBlock(s, t, env);
      } else {
        CountWrapsAround(s, t, env);
      }
    }
  }

  /** The start that brings the count to 2^32 leaves it at zero. */
  lemma CountWrapsAround(s: State, t: ThreadId, env: StartEnv)
    requires Safe(s) && StartEnvOk(s, t, env) && Startable(s, t, env)
    requires Granted(s.entries, env.blocks) == |s.entries| && s.active + 1 == DWORD_RANGE
    ensures !Counted(StartThread(s, t, env).0)
  {
    assert t in StartThread(s, t, env).0.teb.Keys;
  }

  /** When the thread id is still in the list, left by a killed thread, the new thread runs without
      a record of its own. */
  lemma StaleRecordBlocksStart(s: State, t: ThreadId, env: StartEnv)
    requires Safe(s) && StartEnvOk(s, t, env) && Registered(s, t)
    ensures var s' := StartThread(s, t, env).0;
            && s'.teb[t] == env.ldr && s'.records == s.records && !RecordsOk(s')
            && forall i :: 0 <= i < |s.records| && s.records[i].thread == t ==> s.records[i].mmp != env.ldr
  {
    var s' := StartThread(s, t, env).0;
    var i :| 0 <= i < |s.records| && s.records[i].thread == t;
    assert !Backed(s', s'.records[i]) by {
      assert s'.teb[t] == env.ldr != s.records[i].mmp;
    }
  }

  lemma StartServedKeepsInv(s: State, t: ThreadId, env: StartEnv)
    requires Inv(s) && StartEnvOk(s, t, env) && StartServed(s, t, env)
    ensures Inv(StartThread(s, t, env).0) && StartThread(s, t, env).1
  {
    StartKeepsSafe(s, t, env);
    StartCovers(s, t, env);
    StartCounts(s, t, env);
  }

  /** The thread that is added to the live ones is added to the count. */
  lemma StartCounts(s: State, t: ThreadId, env: StartEnv)
    requires Counted(s) && StartEnvOk(s, t, env) && StartServed(s, t, env)
    requires forall i :: 0 <= i < |s.entries| ==> s.entries[i].index < MAXIMUM_TLS_INDEX
    ensures Counted(StartThread(s, t, env).0) && StartThread(s, t, env).1
  {
    assert Granted(s.entries, env.blocks) == |s.entries|;
    OneThreadMore(s.teb, t, env.vector);
  }

  lemma OneThreadMore(teb: map<ThreadId, Address>, t: ThreadId, v: Address)
    requires t !in teb
    ensures |teb[t := v]| == |teb| + 1
  {
    assert teb[t := v].Keys == teb.Keys + {t};
  }

  /** The entry whose allocation failed is left without a block. */
  lemma MissingBlock(s: State, t: ThreadId, env: StartEnv)
    requires Safe(s) && StartEnvOk(s, t, env)
    requires !Registered(s, t) && env.record != 0 && env.vector != 0
    requires Granted(s.entries, env.blocks) < |s.entries|
    ensures var s', n := StartThread(s, t, env).0, Granted(s.entries, env.blocks);
            && s'.vectors[env.vector][s.entries[n].index] == 0
            && !Inv(s')
  {
    var s' := StartThread(s, t, env).0;
    var n := Granted(s.entries, env.blocks);
    InstalledAt(CopiedVector(s.vectors[env.ldr], env.length, t), s.entries, env.blocks, n);
    assert !Carried(s.entries[..n], s.entries[n].index);
    assert !Holds(s'.heap, s'.vectors[s'.records[|s.records|].mmp], s.entries[n]);
  }

  /** A vector that was not copied because its length equals the thread id is not mirrored. */
  lemma MistakenLength(s: State, t: ThreadId, env: StartEnv)
    requires Safe(s) && StartEnvOk(s, t, env)
    requires !Registered(s, t) && env.record != 0 && env.vector != 0
    requires env.length == t && exists k :: 0 <= k < |s.vectors[env.ldr]| && s.vectors[env.ldr][k] != 0
    ensures var s' := StartThread(s, t, env).0;
            && (forall k :: 0 <= k < |s.vectors[env.ldr]| ==> s'.vectors[env.vector][k] == 0)
            && !Safe(s')
  {
    var s' := StartThread(s, t, env).0;
    var n := Granted(s.entries, env.blocks);
    LowSlotsCopied(s.vectors[env.ldr], env.length, t, s.entries, env.blocks, n);
    var r := s'.records[|s.records|];
    assert Backed(s', r) ==> !Mirrored(s'.vectors, r);
  }

  lemma StartCovers(s: State, t: ThreadId, env: StartEnv)
    requires Inv(s) && StartEnvOk(s, t, env) && StartServed(s, t, env)
    requires RecordsOk(StartThread(s, t, env).0)
    ensures Covered(StartThread(s, t, env).0)
  {
    var s' := StartThread(s, t, env).0;
    forall i, e | 0 <= i < |s'.records| && s'.records[i].thread in s'.teb && 0 <= e < |s'.entries|
      ensures Holds(s'.heap, s'.vectors[s'.records[i].mmp], s'.entries[e])
    {
      if i < |s.records| {
        OldThreadHolds(s, t, env, i, e);
      } else {
        NewThreadHolds(s, t, env, e);
      }
    }
  }

  lemma OldThreadHolds(s: State, t: ThreadId, env: StartEnv, i: nat, e: nat)
    requires Inv(s) && StartEnvOk(s, t, env) && StartServed(s, t, env)
    requires i < |s.records| && s.records[i].thread in StartThread(s, t, env).0.teb && e < |s.entries|
    ensures var s' := StartThread(s, t, env).0;
            s.records[i].mmp in s'.vectors && Holds(s'.heap, s'.vectors[s.records[i].mmp], s.entries[e])
  {
    PlacedAt(s.heap, env.record, s.entries, env.blocks, Granted(s.entries, env.blocks));
    assert Backed(s, s.records[i]);
    assert Holds(s.heap, s.vectors[s.records[i].mmp], s.entries[e]);
  }

  lemma NewThreadHolds(s: State, t: ThreadId, env: StartEnv, e: nat)
    requires Safe(s) && StartEnvOk(s, t, env) && StartServed(s, t, env) && e < |s.entries|
    ensures var s' := StartThread(s, t, env).0; Holds(s'.heap, s'.vectors[env.vector], s.entries[e])
  {
    var n := Granted(s.entries, env.blocks);
    InstalledAt(CopiedVector(s.vectors[env.ldr], env.length, t), s.entries, env.blocks, n);
    PlacedAt(s.heap, env.record, s.entries, env.blocks, n);
    assert StartThread(s, t, env).0.vectors[env.vector][s.entries[e].index] == env.blocks[e];
  }

  // ---------- Orderly exit and kill ----------

  /** Record j leaves the list; its slots are kept for the sweep, and ntdll frees the private vector
      with the rest of the thread's environment. */
  function ExitThread(s: State, j: nat): State
    requires j < |s.records| && s.records[j].mmp in s.vectors
  {
    var r := s.records[j];
    s.(teb := s.teb - {r.thread},
       vectors := s.vectors - {r.mmp},
       records := s.records[..j] + s.records[j + 1..],
       active := Wrapped(s.active - 1),
       postponed := s.postponed + [Postponed(r, s.vectors[r.mmp])])
  }

  lemma ExitKeepsInv(s: State, j: nat)
    requires Inv(s) && j < |s.records| && s.records[j].thread in s.teb
    ensures Inv(ExitThread(s, j))
  {
    ExitKeepsSafe(s, j);
    ExitCounts(s, j);
  }

  lemma ExitCounts(s: State, j: nat)
    requires Counted(s) && j < |s.records| && s.records[j].mmp in s.vectors && s.records[j].thread in s.teb
    ensures Counted(ExitThread(s, j))
  {
    OneThreadLess(s.teb, s.records[j].thread);
  }

  lemma OneThreadLess(teb: map<ThreadId, Address>, t: ThreadId)
    requires t in teb
    ensures |teb - {t}| == |teb| - 1
  {
    assert teb.Keys == (teb - {t}).Keys + {t};
  }

  lemma ExitKeepsSafe(s: State, j: nat)
    requires Safe(s) && j < |s.records|
    ensures Safe(ExitThread(s, j))
    ensures Covered(s) ==> Covered(ExitThread(s, j))
  {
    var s' := ExitThread(s, j);
    ExitKeepsRecords(s, j);
    ExitKeepsPostponed(s, j);
    forall i | 0 <= i < |s'.records|
      ensures ExitKeepsRecord(s, s', i)
    {
      ExitKeepsOther(s, j, i);
    }
    ExitKeepsOwned(s, j);
    ExitKeepsMirrorAndCover(s, s');
  }

  lemma ExitKeepsMirrorAndCover(s: State, s': State)
    requires RecordsOk(s) && RecordsOk(s')
    requires forall i :: 0 <= i < |s'.records| ==> ExitKeepsRecord(s, s', i)
    ensures MirrorOk(s') && (Covered(s) ==> Covered(s'))
  {
    forall i | 0 <= i < |s'.records|
      ensures Mirrored(s'.vectors, s'.records[i])
    {
      assert ExitKeepsRecord(s, s', i);
    }
    forall i, e | Covered(s) && 0 <= i < |s'.records| && s'.records[i].thread in s'.teb && 0 <= e < |s'.entries|
      ensures Holds(s'.heap, s'.vectors[s'.records[i].mmp], s'.entries[e])
    {
      assert ExitKeepsRecord(s, s', i);
    }
  }

  /** What the remaining record i keeps. */
  ghost predicate ExitKeepsRecord(s: State, s': State, i: nat)
    requires RecordsOk(s) && RecordsOk(s') && i < |s'.records|
  {
    && Mirrored(s'.vectors, s'.records[i])
    && Owns(s'.heap, s'.vectors[s'.records[i].mmp], s'.records[i].id)
    && (Covered(s) && s'.records[i].thread in s'.teb ==>
          forall e :: 0 <= e < |s'.entries| ==> Holds(s'.heap, s'.vectors[s'.records[i].mmp], s'.entries[e]))
  }

  lemma ExitKeepsOther(s: State, j: nat, i: nat)
    requires Safe(s) && j < |s.records| && RecordsOk(ExitThread(s, j)) && i < |s.records| - 1
    ensures ExitKeepsRecord(s, ExitThread(s, j), i)
  {
    var s' := ExitThread(s, j);
    var o := if i < j then i else i + 1;
    assert Backed(s, s.records[o]) && Backed(s', s'.records[i]);
    assert Mirrored(s.vectors, s.records[o]);
    assert Owns(s.heap, s.vectors[s.records[o].mmp], s.records[o].id);
    if Covered(s) && s.records[o].thread in s'.teb {
      assert s.records[o].thread in s.teb;
    }
  }

  lemma ExitKeepsOwned(s: State, j: nat)
    requires Safe(s) && j < |s.records|
    requires RecordsOk(ExitThread(s, j)) && PostponedOk(ExitThread(s, j))
    requires var s' := ExitThread(s, j); forall i :: 0 <= i < |s'.records| ==> ExitKeepsRecord(s, s', i)
    ensures OwnedOk(ExitThread(s, j))
  {
    var s' := ExitThread(s, j);
    forall q | 0 <= q < |s'.postponed|
      ensures Owns(s'.heap, s'.postponed[q].snapshot, s'.postponed[q].record.id)
    {
      assert q == |s.postponed| ==> Owns(s.heap, s.vectors[s.records[j].mmp], s.records[j].id);
      assert q < |s.postponed| ==> Owns(s.heap, s.postponed[q].snapshot, s.postponed[q].record.id);
    }
    forall i | 0 <= i < |s'.records|
      ensures Owns(s'.heap, s'.vectors[s'.records[i].mmp], s'.records[i].id)
    {
      assert ExitKeepsRecord(s, s', i);
    }
  }

  lemma ExitKeepsRecords(s: State, j: nat)
    requires Safe(s) && j < |s.records|
    ensures RecordsOk(ExitThread(s, j))
  {
    var s' := ExitThread(s, j);
    forall i | 0 <= i < |s'.records|
      ensures Backed(s', s'.records[i])
    {
      ExitKeepsBacked(s, j, i);
    }
    ExitKeepsApart(s, j);
    ExitKeepsRegistered(s, j);
  }

  lemma ExitKeepsRegistered(s: State, j: nat)
    requires RecordsOk(s) && j < |s.records|
    ensures forall t :: t in ExitThread(s, j).teb ==> Registered(ExitThread(s, j), t)
  {
    var s' := ExitThread(s, j);
    forall t | t in s'.teb
      ensures Registered(s', t)
    {
      assert Registered(s, t);
      var i :| 0 <= i < |s.records| && s.records[i].thread == t;
      assert i != j ==> s'.records[if i < j then i else i - 1] == s.records[i];
    }
  }

  lemma ExitKeepsApart(s: State, j: nat)
    requires RecordsOk(s) && j < |s.records|
    ensures var rs := ExitThread(s, j).records; forall i, k :: 0 <= i < k < |rs| ==> Apart(rs[i], rs[k])
  {
    var rs := ExitThread(s, j).records;
    forall i, k | 0 <= i < k < |rs|
      ensures Apart(rs[i], rs[k])
    {
      assert Apart(s.records[if i < j then i else i + 1], s.records[if k < j then k else k + 1]);
    }
  }

  lemma ExitKeepsBacked(s: State, j: nat, i: nat)
    requires Safe(s) && j < |s.records| && i < |s.records| - 1
    ensures Backed(ExitThread(s, j), ExitThread(s, j).records[i])
  {
    var o := if i < j then i else i + 1;
    assert Apart(s.records[if o < j then o else j], s.records[if o < j then j else o]);
    assert Backed(s, s.records[o]);
    assert Backed(s, s.records[j]);
  }

  lemma ExitKeepsPostponed(s: State, j: nat)
    requires Safe(s) && j < |s.records|
    ensures PostponedOk(ExitThread(s, j))
  {
    var s' := ExitThread(s, j);
    var r := s.records[j];
    assert Backed(s, r);
    forall q | 0 <= q < |s.postponed|
      ensures s'.postponed[q] == s.postponed[q] && s.postponed[q].record.ldr in s'.vectors
      ensures ApartItems(s.postponed[q], s'.postponed[|s.postponed|])
    {
      assert ApartFromPostponed(r, s.postponed[q]);
    }
    forall i, q | 0 <= i < |s'.records| && 0 <= q < |s'.postponed|
      ensures ApartFromPostponed(s'.records[i], s'.postponed[q])
    {
      var o := if i < j then i else i + 1;
      if q < |s.postponed| {
        assert ApartFromPostponed(s.records[o], s.postponed[q]);
      } else {
        assert Apart(s.records[if o < j then o else j], s.records[if o < j then j else o]);
      }
    }
  }

  /** A killed thread runs no code: its record and its vectors stay behind. */
  function KillThread(s: State, t: ThreadId): State {
    s.(teb := s.teb - {t})
  }

  lemma KillKeepsInv(s: State, t: ThreadId)
    requires Inv(s)
    ensures Inv(KillThread(s, t))
  {
    KillKeepsSafe(s, t);
    KillCovers(s, KillThread(s, t));
    KillCounts(s, t);
  }

  lemma KillCovers(s: State, s': State)
    requires RecordsOk(s) && RecordsOk(s') && Covered(s)
    requires s' == s.(teb := s'.teb) && s'.teb.Keys <= s.teb.Keys
    ensures Covered(s')
  {
  }

  lemma KillCounts(s: State, t: ThreadId)
    requires Counted(s)
    ensures Counted(KillThread(s, t))
  {
    if t in s.teb {
      OneThreadLess(s.teb, t);
    } else {
      assert s.teb - {t} == s.teb;
    }
  }

  lemma KillKeepsSafe(s: State, t: ThreadId)
    requires Safe(s)
    ensures Safe(KillThread(s, t))
  {
    var s' := KillThread(s, t);
    forall i | 0 <= i < |s.records|
      ensures Backed(s', s.records[i])
    {
      assert Backed(s, s.records[i]);
    }
    forall u | u in s'.teb
      ensures Registered(s', u)
    {
      assert Registered(s, u);
    }
    assert RecordsOk(s');
  }

  // ---------- The postponed sweep ----------

  /** Of the first n items, those of threads that are still running. */
  function Remaining(items: seq<Postponed>, dead: set<Address>, n: nat): (rest: seq<Postponed>)
    requires n <= |items|
    ensures |rest| <= n
  {
    if n == 0 then []
    else
      var rest := Remaining(items, dead, n - 1);
      if items[n - 1].record.id in dead then rest else rest + [items[n - 1]]
  }

  /** Block x is in an ended thread's snapshot, at the index of a listed entry. */
  predicate Swept(items: seq<Postponed>, dead: set<Address>, entries: seq<Entry>, x: Address) {
    exists q, e :: 0 <= q < |items| && 0 <= e < |entries| && SweptAt(items[q], dead, entries[e], x)
  }

  predicate SweptAt(item: Postponed, dead: set<Address>, entry: Entry, x: Address) {
    && item.record.id in dead
    && entry.index < |item.snapshot|
    && item.snapshot[entry.index] == x
  }

  /** The LDR vectors of those of the first n items whose threads have ended. */
  function DeadVectors(items: seq<Postponed>, dead: set<Address>, n: nat): set<Address>
    requires n <= |items|
  {
    set q | 0 <= q < n && items[q].record.id in dead :: items[q].record.ldr
  }

  /** One pass of the worker, `dead` being the records of the threads that have ended. */
  ghost function Sweep(s: State, dead: set<Address>): State {
    s.(vectors := s.vectors - DeadVectors(s.postponed, dead, |s.postponed|),
       postponed := Remaining(s.postponed, dead, |s.postponed|),
       heap := map x | x in s.heap && !Swept(s.postponed, dead, s.entries, x) :: s.heap[x])
  }

  lemma {:induction false} RemainingFrom(items: seq<Postponed>, dead: set<Address>, n: nat, i: nat)
    returns (q: nat)
    requires n <= |items| && i < |Remaining(items, dead, n)|
    ensures i <= q < n && Remaining(items, dead, n)[i] == items[q] && items[q].record.id !in dead
  {
    if i < |Remaining(items, dead, n - 1)| {
      q := RemainingFrom(items, dead, n - 1, i);
    } else {
      q := n - 1;
    }
  }

  lemma {:induction false} RemainingApart(items: seq<Postponed>, dead: set<Address>, n: nat)
    requires AllApart(items) && n <= |items|
    ensures AllApart(Remaining(items, dead, n))
  {
    if n != 0 {
      var before, rest := Remaining(items, dead, n - 1), Remaining(items, dead, n);
      RemainingApart(items, dead, n - 1);
      forall i, j | 0 <= i < j < |rest|
        ensures ApartItems(rest[i], rest[j])
      {
        if j < |before| {
          assert ApartItems(before[i], before[j]);
        } else {
          var q := RemainingFrom(items, dead, n - 1, i);
          assert ApartItems(items[q], items[n - 1]);
        }
      }
    }
  }

  /** A block at home in a record that is not swept survives the sweep. */
  lemma HomeSurvives(s: State, dead: set<Address>, x: Address)
    requires Safe(s) && x in s.heap && s.heap[x].record !in dead
    ensures x in Sweep(s, dead).heap && Sweep(s, dead).heap[x] == s.heap[x]
  {
    forall q, e | 0 <= q < |s.postponed| && 0 <= e < |s.entries|
      ensures !SweptAt(s.postponed[q], dead, s.entries[e], x)
    {
      assert Owns(s.heap, s.postponed[q].snapshot, s.postponed[q].record.id);
    }
  }

  lemma OwnsSurvives(s: State, dead: set<Address>, v: Vector, id: Address)
    requires Safe(s) && |v| == MAXIMUM_TLS_INDEX && Owns(s.heap, v, id) && id !in dead
    ensures Owns(Sweep(s, dead).heap, v, id)
  {
    forall k | START_TLS_INDEX <= k < MAXIMUM_TLS_INDEX && v[k] != 0
      ensures v[k] in Sweep(s, dead).heap
    {
      HomeSurvives(s, dead, v[k]);
    }
  }

  /** The sweep keeps the invariant: it frees no block that a live thread still holds. */
  lemma SweepKeepsInv(s: State, dead: set<Address>)
    requires Inv(s) && forall i :: 0 <= i < |s.records| ==> s.records[i].id !in dead
    ensures Inv(Sweep(s, dead))
  {
    SweepKeepsSafe(s, dead);
    SweepCovers(s, dead);
  }

  lemma SweepKeepsSafe(s: State, dead: set<Address>)
    requires Safe(s) && forall i :: 0 <= i < |s.records| ==> s.records[i].id !in dead
    ensures Safe(Sweep(s, dead))
  {
    SweepKeepsRecords(s, dead);
    SweepKeepsPostponed(s, dead);
    SweepKeepsMirror(s, Sweep(s, dead), dead);
    SweepKeepsOwned(s, Sweep(s, dead), dead);
  }

  lemma SweepKeepsPostponed(s: State, dead: set<Address>)
    requires Safe(s)
    ensures PostponedOk(Sweep(s, dead))
  {
    var s' := Sweep(s, dead);
    RemainingApart(s.postponed, dead, |s.postponed|);
    forall i | 0 <= i < |s'.postponed|
      ensures |s'.postponed[i].snapshot| == MAXIMUM_TLS_INDEX && s'.postponed[i].record.ldr in s'.vectors
      ensures forall j :: 0 <= j < |s.records| ==> ApartFromPostponed(s.records[j], s'.postponed[i])
    {
      var q := RemainingFrom(s.postponed, dead, |s.postponed|, i);
      RunningKept(s.postponed, dead, q);
    }
  }

  /** The vector of a thread that is still running is not freed. */
  lemma RunningKept(items: seq<Postponed>, dead: set<Address>, q: nat)
    requires AllApart(items) && q < |items| && items[q].record.id !in dead
    ensures items[q].record.ldr !in DeadVectors(items, dead, |items|)
  {
    forall p | 0 <= p < |items| && items[p].record.id in dead
      ensures items[p].record.ldr != items[q].record.ldr
    {
      assert p < q ==> ApartItems(items[p], items[q]);
      assert q < p ==> ApartItems(items[q], items[p]);
    }
  }

  lemma SweepKeepsMirror(s: State, s': State, dead: set<Address>)
    requires Safe(s) && RecordsOk(s') && s' == Sweep(s, dead)
    ensures MirrorOk(s')
  {
    forall i | 0 <= i < |s.records|
      ensures Mirrored(s'.vectors, s.records[i])
    {
      assert Backed(s, s.records[i]) && Backed(s', s.records[i]);
      assert Mirrored(s.vectors, s.records[i]);
    }
  }

  lemma SweepKeepsOwned(s: State, s': State, dead: set<Address>)
    requires Safe(s) && RecordsOk(s') && PostponedOk(s') && s' == Sweep(s, dead)
    requires forall i :: 0 <= i < |s.records| ==> s.records[i].id !in dead
    ensures OwnedOk(s')
  {
    forall i | 0 <= i < |s'.postponed|
      ensures Owns(s'.heap, s'.postponed[i].snapshot, s'.postponed[i].record.id)
    {
      var q := RemainingFrom(s.postponed, dead, |s.postponed|, i);
      OwnsSurvives(s, dead, s.postponed[q].snapshot, s.postponed[q].record.id);
    }
    forall i | 0 <= i < |s.records|
      ensures Owns(s'.heap, s'.vectors[s.records[i].mmp], s.records[i].id)
    {
      assert Backed(s, s.records[i]) && Backed(s', s.records[i]);
      OwnsSurvives(s, dead, s.vectors[s.records[i].mmp], s.records[i].id);
    }
  }

  lemma SweepKeepsRecords(s: State, dead: set<Address>)
    requires Safe(s)
    ensures RecordsOk(Sweep(s, dead))
  {
    var s' := Sweep(s, dead);
    forall i | 0 <= i < |s.records|
      ensures Backed(s', s.records[i])
    {
      assert Backed(s, s.records[i]);
      forall q | 0 <= q < |s.postponed|
        ensures s.postponed[q].record.ldr != s.records[i].mmp
        ensures s.postponed[q].record.ldr != s.records[i].ldr
      {
        assert ApartFromPostponed(s.records[i], s.postponed[q]);
      }
    }
    forall t | t in s'.teb
      ensures Registered(s', t)
    {
      assert Registered(s, t);
    }
  }

  lemma SweepCovers(s: State, dead: set<Address>)
    requires Safe(s) && Covered(s) && forall i :: 0 <= i < |s.records| ==> s.records[i].id !in dead
    requires RecordsOk(Sweep(s, dead))
    ensures Covered(Sweep(s, dead))
  {
    var s' := Sweep(s, dead);
    forall i, e | 0 <= i < |s.records| && s.records[i].thread in s.teb && 0 <= e < |s.entries|
      ensures Holds(s'.heap, s'.vectors[s.records[i].mmp], s.entries[e])
    {
      assert Backed(s, s.records[i]) && Backed(s', s.records[i]);
      assert Holds(s.heap, s.vectors[s.records[i].mmp], s.entries[e]);
      assert Owns(s.heap, s.vectors[s.records[i].mmp], s.records[i].id);
      HomeSurvives(s, dead, s.vectors[s.records[i].mmp][s.entries[e].index]);
    }
  }
}
