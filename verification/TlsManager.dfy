/**
 * MmpTls.cpp and MmpTlsFiber.cpp as a class that updates its lists, vectors and counters in place.
 * Each method's contract is the step of the state machine it carries out.
 */
module TlsManager {
  import opened Sequences
  import opened Wrappers
  import opened TlsState
  import opened TlsHook
  import opened TlsThreads
  import opened TlsModules
  import opened TlsRemap
  import opened TlsLoad
  import Startup = TlsStartup

  class Manager {
    var teb: map<ThreadId, Address>
    var vectors: map<Address, Vector>
    var records: seq<Record>
    var entries: seq<Entry>
    var bitmap: seq<bool>
    var active: Dword
    var postponed: seq<Postponed>

    /** The data blocks that are allocated and not yet freed. */
    ghost var heap: map<Address, Home>

    ghost function Abs(): State
      reads this
    {
      State(teb, vectors, records, entries, bitmap, active, postponed, heap)
    }

    // ---------- The process heap ----------

    /** RtlAllocateHeap: the address it returned is free until now. */
    method AllocateBlock(x: Address, ghost home: Home)
      requires x != 0 && x !in heap
      modifies this`heap
      ensures heap == old(heap)[x := home]
    {
      heap := heap[x := home];
    }

    /** RtlFreeHeap: freeing null does nothing; anything else must be allocated. */
    method FreeBlock(x: Address)
      requires x == 0 || x in heap
      requires 0 !in heap
      modifies this`heap
      ensures heap == old(heap) - {x}
    {
      heap := heap - {x};
    }

    /** RtlFreeHeap of a TLS vector, which must be allocated. */
    method FreeVector(v: Address)
      requires v in vectors
      modifies this`vectors
      ensures vectors == old(vectors) - {v}
    {
      vectors := vectors - {v};
    }

    // ---------- Start-up ----------

    /** PreHookNtSetInformationProcess: `length` is the Length word of the calling thread `t`, and a zero among
        `sent` an allocation that failed. It succeeds even if the kernel refuses. */
    method PreHookNtSetInformationProcess(
      length: nat, t: ThreadId, sent: seq<Address>, ids: seq<Address>, kernel: Option<Choice>)
      returns (ok: bool)
      requires (forall i :: 0 <= i < |sent| ==> sent[i] != 0) ==>
                 Startup.Ready(Abs(), if length == t then 0 else length, sent, ids)
      requires kernel.Some? ==> ValidChoice(Abs(), |sent|, kernel.value)
      modifies this`teb, this`vectors, this`records
      ensures ok <==> forall i :: 0 <= i < |sent| ==> sent[i] != 0
      ensures !ok || kernel.None? ==> Abs() == old(Abs())
      ensures ok && kernel.Some? ==>
                Startup.PreHooked(old(Abs()), Abs(), if length == t then 0 else length, sent, ids, kernel.value)
    {
      var len := if length == t then 0 else length;
      var i := 0;
      while i < |sent|
        invariant i <= |sent| && forall k :: 0 <= k < i ==> sent[k] != 0
      {
        if sent[i] == 0 {
          return false;
        }
        i := i + 1;
      }
      if kernel.Some? {
        ghost var s := Abs();
        var out := KernelReplaceVector(len, sent, ids, kernel.value);
        MakeRecords(sent, ids, out, kernel.value, s);
      }
      return true;
    }

    /** The kernel's ProcessTlsReplaceVector, on vectors that are allocated zeroed. */
    method KernelReplaceVector(len: nat, sent: seq<Address>, ids: seq<Address>, c: Choice) returns (out: seq<Item>)
      requires Startup.Ready(Abs(), len, sent, ids) && ValidChoice(Abs(), |sent|, c)
      modifies this`teb, this`vectors
      ensures Startup.Served(old(Abs()), Abs(), len, sent, ids, c, |c|) && records == old(records)
      ensures Startup.Answered(old(teb), sent, c, out, |c|)
    {
      ghost var s := Abs();
      vectors := vectors + (map v | v in Startup.Sent(sent, |sent|) :: Repeat<Address>(0, MAXIMUM_TLS_INDEX));
      Startup.NothingServed(s, len, sent, ids, c, vectors);
      assert Abs() == s.(vectors := vectors);
      out := KernelMoves(len, sent, ids, c, s);
    }

    method KernelMoves(len: nat, sent: seq<Address>, ids: seq<Address>, c: Choice, ghost s: State)
      returns (out: seq<Item>)
      requires Startup.Ready(s, len, sent, ids) && ValidChoice(s, |sent|, c)
      requires Startup.Served(s, Abs(), len, sent, ids, c, 0) && records == s.records
      modifies this`teb, this`vectors
      ensures Startup.Served(s, Abs(), len, sent, ids, c, |c|) && records == s.records
      ensures Startup.Answered(s.teb, sent, c, out, |c|)
    {
      out := [];
      var n: nat := 0;
      while n < |c|
        invariant n <= |c| == |sent| && Startup.Served(s, Abs(), len, sent, ids, c, n) && records == s.records
        invariant Startup.Answered(s.teb, sent, c, out, n)
      {
        out := KernelMove(len, sent, ids, c, n, out, s);
        n := n + 1;
      }
    }

    method KernelMove(
      len: nat, sent: seq<Address>, ids: seq<Address>, c: Choice, n: nat, out: seq<Item>, ghost s: State)
      returns (out': seq<Item>)
      requires Startup.Ready(s, len, sent, ids) && ValidChoice(s, |sent|, c) && n < |c|
      requires Startup.Served(s, Abs(), len, sent, ids, c, n) && Startup.Answered(s.teb, sent, c, out, n)
      modifies this`teb, this`vectors
      ensures Startup.Served(s, Abs(), len, sent, ids, c, n + 1) && records == old(records)
      ensures Startup.Answered(s.teb, sent, c, out', n + 1)
    {
      ghost var before := Abs();
      if c[n].Some? {
        Startup.NotYetMoved(s, c, n);
        var u := c[n].value;
        out' := out + [Item(ASSIGNED, u, teb[u])];
        vectors := vectors[sent[n] := Startup.Moved(vectors[teb[u]], len)];
        teb := teb[u := sent[n]];
      } else {
        out' := out + [Item(0, 0, sent[n])];
      }
      Startup.ServedNext(s, before, Abs(), len, sent, ids, c, n);
    }

    /** A record for every item, with the vector that came back and the one that was sent. */
    method MakeRecords(
      sent: seq<Address>, ids: seq<Address>, out: seq<Item>, ghost c: Choice, ghost s: State)
      requires |sent| == |ids| == |out| && ValidChoice(s, |sent|, c) && records == []
      requires Startup.Answered(s.teb, sent, c, out, |c|)
      modifies this`records
      ensures Startup.RecordedUpTo(s, Abs(), sent, ids, c, |c|)
    {
      var m: nat := 0;
      while m < |out|
        invariant m <= |out| && Startup.RecordedUpTo(s, Abs(), sent, ids, c, m)
      {
        records := records + [Record(ids[m], out[m].thread, out[m].ptr, sent[m])];
        m := m + 1;
      }
    }

    // ---------- Threads ----------

    /** MmpFindTlspRecordLockHeld. */
    method FindTlspRecord(t: ThreadId) returns (j: nat)
      ensures j <= |records|
      ensures j < |records| ==> records[j].thread == t && Registered(Abs(), t)
      ensures j == |records| ==> !Registered(Abs(), t)
    {
      j := 0;
      while j < |records|
        invariant j <= |records|
        invariant forall k :: 0 <= k < j ==> records[k].thread != t
      {
        if records[j].thread == t {
          return;
        }
        j := j + 1;
      }
    }

    /** MmpAllocateTlsLockHeld, run by the new thread t. */
    method AllocateTls(t: ThreadId, env: StartEnv) returns (ok: bool)
      requires Safe(Abs()) && StartEnvOk(Abs(), t, env)
      modifies this
      ensures (Abs(), ok) == StartThread(old(Abs()), t, env)
      ensures ok <==>
                || Registered(old(Abs()), t)
                || (env.record != 0 && env.vector != 0
                    && forall i :: 0 <= i < |entries| ==> env.blocks[i] != 0 && entries[i].size != 0)
    {
      var j := FindTlspRecord(t);
      if j < |records| {
        teb := teb[t := env.ldr];
        return true;
      }
      if env.record == 0 || env.vector == 0 {
        teb := teb[t := env.ldr];
        return false;
      }
      var v := CopiedVector(vectors[env.ldr], env.length, t);
      teb := teb[t := env.vector];
      records := records + [Record(env.record, t, env.ldr, env.vector)];
      var slots;
      slots, ok := InstallBlocks(v, env);
      vectors := vectors[env.vector := slots];
      if ok {
        active := Wrapped(active + 1);
      }
    }

    /** The walk over MmpTlsList that gives a new thread its blocks. */
    method InstallBlocks(v: Vector, env: StartEnv) returns (slots: Vector, ok: bool)
      requires |v| == MAXIMUM_TLS_INDEX && |env.blocks| == |entries|
      requires forall i :: 0 <= i < |entries| ==> entries[i].index < MAXIMUM_TLS_INDEX
      requires forall i :: 0 <= i < |env.blocks| ==> env.blocks[i] !in heap
      requires forall i, j :: 0 <= i < j < |env.blocks| && env.blocks[i] != 0 ==> env.blocks[i] != env.blocks[j]
      modifies this`heap
      ensures slots == Installed(v, entries, env.blocks, Granted(entries, env.blocks))
      ensures heap == Placed(old(heap), env.record, entries, env.blocks, Granted(entries, env.blocks))
      ensures ok == (Granted(entries, env.blocks) == |entries|)
    {
      var i := 0;
      slots := v;
      while i < |entries| && env.blocks[i] != 0 && entries[i].size != 0
        invariant i <= Granted(entries, env.blocks)
        invariant slots == Installed(v, entries, env.blocks, i)
        invariant heap == Placed(old(heap), env.record, entries, env.blocks, i)
        invariant forall k :: i <= k < |entries| && env.blocks[k] != 0 ==> env.blocks[k] !in heap
      {
        AllocateBlock(env.blocks[i], Home(env.record, entries[i].index, entries[i].owner));
        slots := slots[entries[i].index := env.blocks[i]];
        i := i + 1;
      }
      ok := i == |entries|;
    }

    /** HookLdrShutdownThread with MmpQueuePostponedTls, run by thread t. */
    method ShutdownThread(t: ThreadId)
      requires Safe(Abs()) && t in teb
      modifies this
      ensures exists j: nat :: j < |old(records)| && old(records)[j].thread == t
                               && Abs() == ExitThread(old(Abs()), j)
    {
      assert Registered(Abs(), t);
      var j := FindTlspRecord(t);
      var r := records[j];
      assert Backed(Abs(), r);
      records := records[..j] + records[j + 1..];
      active := Wrapped(active - 1);
      postponed := postponed + [Postponed(r, vectors[r.mmp])];
      FreeVector(teb[t]);
      teb := teb - {t};
      assert Abs() == ExitThread(old(Abs()), j);
    }

    /** One pass of MmpReleasePostponedTlsWorker; `dead` are the records of ended threads. */
    method SweepPostponed(dead: set<Address>)
      requires Safe(Abs())
      modifies this
      ensures Abs() == Sweep(old(Abs()), dead)
    {
      ghost var s := Abs();
      SafeIsSweepable(s);
      ghost var m: nat := 0;
      var i: nat := 0;
      while i < |postponed|
        invariant m <= |s.postponed| && Midway(s, dead, m, i)
        decreases |s.postponed| - m
      {
        i := SweepItem(i, dead, s, m);
        m := m + 1;
      }
      SweptAll(s, dead);
    }

    /** The sweep of state s has looked at m items and stands at position i of what is left. */
    ghost predicate Midway(s: State, dead: set<Address>, m: nat, i: nat)
      requires m <= |s.postponed|
      reads this
    {
      && i == |Remaining(s.postponed, dead, m)|
      && Abs() == s.(vectors := s.vectors - DeadVectors(s.postponed, dead, m),
                     postponed := Left(s, dead, m),
                     heap := HeapAfter(s, dead, m, 0))
    }

    /** One item of the worker's loop: skip a running thread's, or free and erase an ended one's. */
    method SweepItem(i: nat, dead: set<Address>, ghost s: State, ghost m: nat) returns (next: nat)
      requires Sweepable(s) && m <= |s.postponed| && Midway(s, dead, m, i) && i < |postponed|
      modifies this
      ensures m < |s.postponed| && Midway(s, dead, m + 1, next)
    {
      var item := postponed[i];
      assert item == s.postponed[m];
      if item.record.id !in dead {
        SkipItem(s, dead, m);
        next := i + 1;
      } else {
        FreeSnapshot(item.snapshot, s, dead, m);
        TakeItem(s, dead, m);
        NotYetFreed(s, dead, m);
        FreeVector(item.record.ldr);
        postponed := postponed[..i] + postponed[i + 1..];
        next := i;
      }
    }

    /** The worker's walk over MmpTlsList for the snapshot of one ended thread. */
    method FreeSnapshot(snapshot: Vector, ghost s: State, ghost dead: set<Address>, ghost m: nat)
      requires Sweepable(s) && entries == s.entries && m < |s.postponed| && s.postponed[m].record.id in dead
      requires snapshot == s.postponed[m].snapshot && heap == HeapAfter(s, dead, m, 0)
      modifies this`heap
      ensures heap == HeapAfter(s, dead, m + 1, 0)
    {
      var e := 0;
      while e < |entries|
        invariant e <= |entries|
        invariant heap == HeapAfter(s, dead, m, e)
      {
        FreeIsSafe(s, dead, m, e);
        FreeBlock(snapshot[entries[e].index]);
        e := e + 1;
      }
      NextItem(s, dead, m);
    }

    // ---------- The hooked kernel call ----------

    /** The kernel's ProcessTlsReplaceIndex: swap slot `index` of each chosen thread with its item. */
    method KernelReplaceIndex(index: nat, items: seq<Item>, c: Choice) returns (out: seq<Item>)
      requires RecordsOk(Abs()) && index < MAXIMUM_TLS_INDEX && ValidChoice(Abs(), |items|, c)
      modifies this`vectors
      ensures IndexHooked(old(Abs()), Abs(), false, Request(REPLACE_INDEX, index, items), out, c, |c|)
    {
      ghost var s := Abs();
      KernelStart(s, index, items, c);
      out := KernelSwaps(index, items, c, s);
      KernelDone(s, Abs(), index, items, out, c);
    }

    method KernelSwaps(index: nat, items: seq<Item>, c: Choice, ghost s: State) returns (out: seq<Item>)
      requires RecordsOk(s) && index < MAXIMUM_TLS_INDEX && ValidChoice(s, |items|, c)
      requires HasSlot(s, index) && KernelProgress(s, Abs(), index, items, items, c, 0)
      modifies this`vectors
      ensures KernelProgress(s, Abs(), index, items, out, c, |c|)
    {
      out := items;
      var i: nat := 0;
      while i < |items|
        invariant i <= |items| && KernelProgress(s, Abs(), index, items, out, c, i)
      {
        out := KernelSwap(index, items, out, i, c, s);
        i := i + 1;
      }
    }

    method KernelSwap(index: nat, items: seq<Item>, out: seq<Item>, i: nat, c: Choice, ghost s: State)
      returns (out': seq<Item>)
      requires RecordsOk(s) && index < MAXIMUM_TLS_INDEX && ValidChoice(s, |items|, c) && i < |c|
      requires HasSlot(s, index) && KernelProgress(s, Abs(), index, items, out, c, i)
      modifies this`vectors
      ensures KernelProgress(s, Abs(), index, items, out', c, i + 1)
    {
      ghost var before := Abs();
      if c[i].Some? {
        ghost var j := ChosenRecord(s, c, i);
        NotYetSwapped(s, c, i, j);
        var v := teb[c[i].value];
        assert vectors[v] == s.vectors[v];
        out' := out[i := Item(ASSIGNED, c[i].value, vectors[v][index])];
        vectors := vectors[v := vectors[v][index := items[i].ptr]];
        SwappedNow(s, c, i, j);
        KernelSwapped(s, before, Abs(), index, items, out, out', c, i, j);
      } else {
        out' := out;
        KernelIdle(s, before, index, items, out, c, i);
      }
    }

    /** The inner loop of the hook: the first record whose private vector holds p in the slot. */
    method FindSlot(index: nat, p: Address) returns (j: nat)
      requires forall k :: 0 <= k < |records| ==>
                 records[k].mmp in vectors && index < |vectors[records[k].mmp]|
      ensures j <= |records|
      ensures j < |records| ==> vectors[records[j].mmp][index] == p
      ensures forall k :: 0 <= k < j ==> vectors[records[k].mmp][index] != p
    {
      j := 0;
      while j < |records|
        invariant j <= |records|
        invariant forall k :: 0 <= k < j ==> vectors[records[k].mmp][index] != p
      {
        if vectors[records[j].mmp][index] == p {
          return;
        }
        j := j + 1;
      }
    }

    /** The loop that maps a served ReplaceVector request back onto the LDR vectors. */
    method RemapVectors(req: Request, served: seq<Item>, ghost s: State, ghost c: Choice)
      returns (out: seq<Item>)
      requires Safe(s) && Readable(s, req) && req.op == REPLACE_VECTOR && req.arg < START_TLS_INDEX
      requires Fresh(s, req) && ValidChoice(s, |req.items|, c) && Answers(req, served, c)
      requires VectorHooked(s, Abs(), req, req.items, c, 0)
      modifies this`vectors, this`records
      ensures VectorHooked(s, Abs(), req, out, c, |c|)
    {
      out := req.items;
      var i: nat := 0;
      while i < |req.items|
        invariant i <= |req.items| && VectorHooked(s, Abs(), req, out, c, i)
      {
        out := RemapVector(req, served, out, i, s, c);
        i := i + 1;
      }
    }

    method RemapVector(req: Request, served: seq<Item>, items: seq<Item>, i: nat, ghost s: State, ghost c: Choice)
      returns (out: seq<Item>)
      requires Safe(s) && Readable(s, req) && req.op == REPLACE_VECTOR && req.arg < START_TLS_INDEX
      requires Fresh(s, req) && ValidChoice(s, |req.items|, c) && Answers(req, served, c)
      requires i < |c| && VectorHooked(s, Abs(), req, items, c, i)
      modifies this`vectors, this`records
      ensures VectorHooked(s, Abs(), req, out, c, i + 1)
    {
      ghost var before := Abs();
      SlotsAtItem(s, before, req, items, c, i);
      var given := req.items[i].ptr;
      var j := FindSlot(req.arg, vectors[given][req.arg]);
      if j < |records| {
        out := GiveVector(req, served[i], items, i, j, s, c);
      } else {
        out := items[i := Item(served[i].flags, served[i].thread, given)];
        ItemUnused(s, before, req, items, out, c, i);
      }
    }

    /** The item's vector becomes record j's LDR vector, and the item returns the one before it. */
    method GiveVector(
      req: Request, served: Item, items: seq<Item>, i: nat, j: nat, ghost s: State, ghost c: Choice)
      returns (out: seq<Item>)
      requires ItemFound(s, Abs(), req, items, c, i, j)
      requires served.flags == ASSIGNED && served.thread == s.records[j].thread
      modifies this`vectors, this`records
      ensures VectorHooked(s, Abs(), req, out, c, i + 1)
    {
      ghost var before := Abs();
      var given := req.items[i].ptr;
      vectors := vectors[given := vectors[records[j].mmp][..req.arg] + vectors[given][req.arg..]];
      out := items[i := Item(served.flags, served.thread, records[j].ldr)];
      records := records[j := records[j].(ldr := given)];
      ItemGiven(s, before, Abs(), req, items, out, c, i, j);
    }

    /** The loop that maps a served ReplaceIndex request back. */
    method RemapSlots(byNtdll: bool, req: Request, served: seq<Item>, ghost s: State, ghost c: Choice)
      returns (out: seq<Item>)
      requires IndexRequestReady(s, byNtdll, req, c) && Answers(req, served, c) && OldSlots(s, req, served, c)
      requires IndexHooked(s, Abs(), byNtdll, req, req.items, c, 0)
      modifies this`vectors
      ensures IndexHooked(s, Abs(), byNtdll, req, out, c, |c|)
    {
      out := req.items;
      var i: nat := 0;
      while i < |req.items|
        invariant i <= |req.items| && IndexHooked(s, Abs(), byNtdll, req, out, c, i)
      {
        out := RemapSlot(byNtdll, req, served, out, i, s, c);
        i := i + 1;
      }
    }

    method RemapSlot(
      byNtdll: bool, req: Request, served: seq<Item>, items: seq<Item>, i: nat, ghost s: State, ghost c: Choice)
      returns (out: seq<Item>)
      requires IndexRequestReady(s, byNtdll, req, c) && Answers(req, served, c) && OldSlots(s, req, served, c)
      requires i < |c| && IndexHooked(s, Abs(), byNtdll, req, items, c, i)
      modifies this`vectors
      ensures IndexHooked(s, Abs(), byNtdll, req, out, c, i + 1)
    {
      ghost var before := Abs();
      IndexSlotsAtItem(s, before, byNtdll, req, items, c, i);
      var p := req.items[i].ptr;
      var j := FindSlot(req.arg, p);
      if j < |records| {
        if byNtdll {
          LdrSlotAtItem(s, before, req, items, c, i, j);
          vectors := vectors[records[j].ldr := vectors[records[j].ldr][req.arg := p]];
        }
        out := items[i := served[i]];
        SlotPublished(s, before, Abs(), byNtdll, req, items, out, c, i, j);
      } else {
        out := items[i := Item(served[i].flags, served[i].thread, p)];
        SlotUnused(s, before, byNtdll, req, items, out, c, i);
      }
    }

    /** HookNtSetInformationProcess: `bufferOk` says whether the copy of the request could be
        allocated, `kernel` what the kernel does with it. */
    method HookNtSetInformationProcess(byNtdll: bool, req: Request, bufferOk: bool, kernel: Option<Choice>)
      returns (status: NtStatus, items: seq<Item>)
      requires Safe(Abs())
      requires Servable(byNtdll, req) ==> HookReady(Abs(), byNtdll, req, kernel)
      requires kernel.Some? ==> ValidChoice(Abs(), |req.items|, kernel.value)
      modifies this`vectors, this`records
      ensures status == Success <==>
                && bufferOk && kernel.Some?
                && if byNtdll then req.op < 2 && req.arg < 0x80 else req.op == 0 && 0x80 <= req.arg < 0x100
      ensures HookEnds(old(Abs()), Abs(), byNtdll, req, bufferOk, kernel, status, items)
    {
      items := req.items;
      if req.op >= MAX_OPERATION {
        return InvalidParameter, items;
      }
      if !bufferOk {
        return NoMemory, items;
      }
      if req.op == REPLACE_VECTOR {
        if !byNtdll {
          return InvalidParameter, items;
        }
        if req.arg >= START_TLS_INDEX {
          return NoMemory, items;
        }
      } else if byNtdll {
        if req.arg >= START_TLS_INDEX {
          return NoMemory, items;
        }
      } else if req.arg < START_TLS_INDEX || req.arg >= MAXIMUM_TLS_INDEX {
        return NoMemory, items;
      }
      if kernel.None? {
        return KernelRefused, items;
      }
      ghost var s := Abs();
      var c := kernel.value;
      if req.op == REPLACE_VECTOR {
        var pointers := ConvertItems(req);
        var served := KernelReplaceIndex(req.arg, pointers, c);
        KernelServedVector(s, Abs(), req, pointers, served, c);
        items := RemapVectors(req, served, s, c);
      } else {
        var served := KernelReplaceIndex(req.arg, req.items, c);
        KernelServedIndex(s, Abs(), byNtdll, req, served, c);
        items := RemapSlots(byNtdll, req, served, s, c);
      }
      status := Success;
    }

    /** The conversion loop: each vector pointer becomes the pointer in its slot `arg`. */
    method ConvertItems(req: Request) returns (items: seq<Item>)
      requires Readable(Abs(), req) && req.op == REPLACE_VECTOR
      ensures |items| == |req.items|
      ensures forall i :: 0 <= i < |items| ==> items[i] == req.items[i].(ptr := Pointer(Abs(), req, i))
    {
      items := req.items;
      var i := 0;
      while i < |items|
        invariant i <= |items| == |req.items|
        invariant forall k :: 0 <= k < i ==> items[k] == req.items[k].(ptr := Pointer(Abs(), req, k))
        invariant forall k :: i <= k < |items| ==> items[k] == req.items[k]
      {
        items := items[i := items[i].(ptr := vectors[items[i].ptr][req.arg])];
        i := i + 1;
      }
    }

    // ---------- TLS entries ----------

    /** MmpAcquireTlsIndex over RtlFindClearBitsAndSet. */
    method AcquireTlsIndex() returns (index: Option<nat>)
      modifies this`bitmap
      ensures index == FirstClear(old(bitmap), 0)
      ensures bitmap == if index.Some? then old(bitmap)[index.value := true] else old(bitmap)
    {
      var k := 0;
      while k < |bitmap| && bitmap[k]
        invariant k <= |bitmap|
        invariant FirstClear(bitmap, k) == FirstClear(bitmap, 0)
      {
        k := k + 1;
      }
      if k < |bitmap| {
        bitmap := bitmap[k := true];
        return Some(k);
      }
      return None;
    }

    /** MmpAllocateTlsEntry; `memory` says whether the entry itself could be allocated. */
    method AllocateTlsEntry(owner: Address, size: nat, memory: bool) returns (index: Option<nat>)
      modifies this
      ensures index == if memory then FirstClear(old(bitmap), 0) else None
      ensures Abs() == if index.Some? then AddEntry(old(Abs()), owner, size) else old(Abs())
    {
      if !memory {
        return None;
      }
      index := AcquireTlsIndex();
      if index.Some? {
        entries := entries + [Entry(owner, index.value, size)];
      }
    }

    /** MmpReleaseTlsEntry. */
    method ReleaseTlsEntry(owner: Address)
      requires IndexOk(bitmap, entries)
      modifies this
      ensures Abs() == DropEntry(old(Abs()), owner)
    {
      var i := 0;
      while i < |entries| && entries[i].owner != owner
        invariant i <= |entries|
        invariant EntryFrom(entries, owner, i) == EntryOf(entries, owner)
      {
        i := i + 1;
      }
      if i < |entries| {
        bitmap := bitmap[entries[i].index := false];
        entries := entries[..i] + entries[i + 1..];
      }
    }

    // ---------- Module load ----------

    /** The allocation loop of MmpHandleTlsData, with its undo loop. */
    method AllocateBlocks(blocks: seq<Address>, ghost homes: seq<Home>) returns (ok: bool)
      requires |homes| == |blocks| && 0 !in heap
      requires forall i :: 0 <= i < |blocks| ==> blocks[i] !in heap
      requires forall i, j :: 0 <= i < j < |blocks| && blocks[i] != 0 ==> blocks[i] != blocks[j]
      modifies this`heap
      ensures ok <==> forall i :: 0 <= i < |blocks| ==> blocks[i] != 0
      ensures ok ==> GrownBy(old(heap), heap, blocks, homes, 0, |blocks|)
      ensures !ok ==> heap == old(heap)
    {
      var i := 0;
      while i < |blocks|
        invariant i <= |blocks| && 0 !in heap
        invariant forall k :: 0 <= k < i ==> blocks[k] != 0
        invariant GrownBy(old(heap), heap, blocks, homes, 0, i)
      {
        if blocks[i] == 0 {
          FreeBlocks(blocks, homes, i, old(heap));
          return false;
        }
        AllocateBlock(blocks[i], homes[i]);
        i := i + 1;
      }
      return true;
    }

    method FreeBlocks(blocks: seq<Address>, ghost homes: seq<Home>, n: nat, ghost before: map<Address, Home>)
      requires n <= |blocks| == |homes| && 0 !in heap
      requires forall i :: 0 <= i < |blocks| ==> blocks[i] !in before
      requires forall i, j :: 0 <= i < j < |blocks| && blocks[i] != 0 ==> blocks[i] != blocks[j]
      requires GrownBy(before, heap, blocks, homes, 0, n)
      modifies this`heap
      ensures heap == before
    {
      var j := 0;
      while j < n
        invariant j <= n && 0 !in heap && GrownBy(before, heap, blocks, homes, j, n)
      {
        FirstGiven(before, heap, blocks, homes, j, n);
        FreeBlock(blocks[j]);
        j := j + 1;
      }
    }

    /** The last loop of MmpHandleTlsData: count the unused items and free every pointer. */
    method FreeItems(items: seq<Item>) returns (idle: nat)
      requires 0 !in heap
      requires forall i :: 0 <= i < |items| ==> items[i].ptr == 0 || items[i].ptr in heap
      requires forall i, j :: 0 <= i < j < |items| && items[i].ptr != 0 ==> items[i].ptr != items[j].ptr
      modifies this`heap
      ensures heap == old(heap) - Pointers(items, |items|) && idle == Idle(items, |items|)
    {
      idle := 0;
      var i := 0;
      while i < |items|
        invariant i <= |items| && heap == old(heap) - Pointers(items, i) && idle == Idle(items, i)
      {
        if items[i].flags == 0 {
          idle := idle + 1;
        }
        assert Pointers(items, i + 1) == Pointers(items, i) + {items[i].ptr};
        FreeBlock(items[i].ptr);
        i := i + 1;
      }
    }

    /** MmpHandleTlsData; `directory` is the size of the module's TLS template, if it has one. */
    method HandleTlsData(owner: Address, directory: Option<nat>, env: LoadEnv) returns (status: NtStatus)
      requires Safe(Abs()) && LoadEnvOk(Abs(), env)
      modifies this
      ensures directory.None? ==> status == Success && Abs() == old(Abs())
      ensures directory.Some? ==>
                (status == Success <==> env.entry && |old(entries)| < 128 && LoadServed(env))
      ensures directory.Some? && !(env.entry && |old(entries)| < 128) ==> status == InsufficientResources
      ensures directory.Some? && env.entry && |old(entries)| < 128 && !LoadServed(env) ==>
                status == if BlocksGranted(env) && env.buffer then KernelRefused else NoMemory
      ensures directory.Some? ==> status == LoadStatus(old(Abs()), env)
      ensures directory.Some? ==> Handled(old(Abs()), Abs(), owner, directory.value, env)
    {
      ghost var s := Abs();
      if directory.None? {
        return Success;
      }
      AcquireFailsIff(bitmap, entries);
      var index := AllocateTlsEntry(owner, directory.value, env.entry);
      if index.None? {
        return InsufficientResources;
      }
      AddEntryKeepsIndexOk(s, owner, directory.value);
      if !env.request {
        ReleaseTlsEntry(owner);
        return NoMemory;
      }
      ghost var homes := Homes(s, owner, index.value, |env.blocks|, env.kernel);
      var ok := AllocateBlocks(env.blocks, homes);
      if !ok {
        ReleaseTlsEntry(owner);
        return NoMemory;
      }
      status := ReplaceIndexForModule(index.value, env, s, owner, directory.value);
    }

    /** The kernel call of MmpHandleTlsData and what follows it. */
    method ReplaceIndexForModule(index: nat, env: LoadEnv, ghost s: State, ghost owner: Address, ghost size: nat)
      returns (status: NtStatus)
      requires Safe(s) && LoadEnvOk(s, env) && Reached(s, env) && FirstClear(s.bitmap, 0) == Some(index)
      requires Requested(s, Abs(), owner, size, env)
      modifies this
      ensures status == LoadStatus(s, env)
      ensures status == Success ==> Loaded(s, Abs(), owner, size, env.blocks, env.kernel.value)
      ensures status != Success ==> Abs() == LoadRefused(s, owner, size)
    {
      ghost var s1 := Abs();
      var req := RequestFor(index, env.blocks);
      RequestReady(s, s1, owner, size, env, req);
      var items;
      status, items := HookNtSetInformationProcess(false, req, env.buffer, env.kernel);
      FinishRequest(items, status == Success, env, s, s1, owner, size);
    }

    /** Count the unused items, free what the request still holds, and lower the count. */
    method FinishRequest(
      items: seq<Item>, served: bool, ghost env: LoadEnv, ghost s: State, ghost s1: State,
      ghost owner: Address, ghost size: nat)
      requires Safe(s) && LoadEnvOk(s, env) && Reached(s, env)
      requires Requested(s, s1, owner, size, env) && Safe(s1)
      requires FirstClear(s.bitmap, 0).value < MAXIMUM_TLS_INDEX
      requires var req := RequestFor(FirstClear(s.bitmap, 0).value, env.blocks);
               if served then
                 env.kernel.Some? && IndexHooked(s1, Abs(), false, req, items, env.kernel.value, |env.blocks|)
               else Abs() == s1 && items == req.items
      modifies this
      ensures served ==> Loaded(s, Abs(), owner, size, env.blocks, env.kernel.value)
      ensures !served ==> Abs() == LoadRefused(s, owner, size)
    {
      if served {
        FinishServed(items, env, s, s1, owner, size);
      } else {
        FinishRefused(items, env, s, s1, owner, size);
      }
    }

    /** The count goes down by the items that were not used, and what came back is freed. */
    method Settle(items: seq<Item>)
      requires 0 !in heap
      requires forall i :: 0 <= i < |items| ==> items[i].ptr == 0 || items[i].ptr in heap
      requires forall i, j :: 0 <= i < j < |items| && items[i].ptr != 0 ==> items[i].ptr != items[j].ptr
      modifies this`heap, this`active
      ensures Abs() == Settled(old(Abs()), items)
    {
      var idle := FreeItems(items);
      if idle != 0 {
        active := Wrapped(active - idle);
      }
    }

    method FinishServed(
      items: seq<Item>, ghost env: LoadEnv, ghost s: State, ghost s1: State, ghost owner: Address, ghost size: nat)
      requires Safe(s) && LoadEnvOk(s, env) && Reached(s, env)
      requires Requested(s, s1, owner, size, env) && Safe(s1) && env.kernel.Some?
      requires FirstClear(s.bitmap, 0).value < MAXIMUM_TLS_INDEX
      requires IndexHooked(s1, Abs(), false, RequestFor(FirstClear(s.bitmap, 0).value, env.blocks), items,
                           env.kernel.value, |env.blocks|)
      modifies this`heap, this`active
      ensures Loaded(s, Abs(), owner, size, env.blocks, env.kernel.value)
    {
      ghost var req := RequestFor(FirstClear(s.bitmap, 0).value, env.blocks);
      ServedFreeable(s, s1, Abs(), owner, size, env, req, items);
      ServedCompleted(s, s1, Abs(), owner, size, env, req, items);
      Settle(items);
    }

    method FinishRefused(
      items: seq<Item>, ghost env: LoadEnv, ghost s: State, ghost s1: State, ghost owner: Address, ghost size: nat)
      requires Safe(s) && LoadEnvOk(s, env) && Reached(s, env)
      requires Requested(s, s1, owner, size, env) && Safe(s1)
      requires FirstClear(s.bitmap, 0).value < MAXIMUM_TLS_INDEX
      requires Abs() == s1 && items == RequestFor(FirstClear(s.bitmap, 0).value, env.blocks).items
      modifies this`heap, this`active
      ensures Abs() == LoadRefused(s, owner, size)
    {
      RefusedRequest(s, s1, owner, size, env, items);
      Settle(items);
    }
  }

  // ---------- Facts about the sweep ----------

  /** The part of the invariant the sweep rests on. */
  ghost predicate Sweepable(s: State) {
    && 0 !in s.heap
    && AllApart(s.postponed)
    && (forall q :: 0 <= q < |s.postponed| ==>
          |s.postponed[q].snapshot| == MAXIMUM_TLS_INDEX && s.postponed[q].record.ldr in s.vectors
          && Owns(s.heap, s.postponed[q].snapshot, s.postponed[q].record.id))
    && IndexOk(s.bitmap, s.entries)
  }

  lemma SafeIsSweepable(s: State)
    requires Safe(s)
    ensures Sweepable(s)
  {
  }

  /** Block x is freed by the first m items, or by the first n entries of item m. */
  predicate FreedBefore(s: State, dead: set<Address>, m: nat, n: nat, x: Address) {
    exists q, e :: 0 <= q < |s.postponed| && 0 <= e < |s.entries| && (q < m || (q == m && e < n))
                   && SweptAt(s.postponed[q], dead, s.entries[e], x)
  }

  ghost function HeapAfter(s: State, dead: set<Address>, m: nat, n: nat): map<Address, Home> {
    map x | x in s.heap && !FreedBefore(s, dead, m, n, x) :: s.heap[x]
  }

  lemma NotSweptBefore(s: State, dead: set<Address>, m: nat, e: nat, q: nat, f: nat, x: Address)
    requires Sweepable(s) && m < |s.postponed| && e < |s.entries| && q < |s.postponed| && f < |s.entries|
    requires q < m || (q == m && f < e)
    requires s.entries[e].index < MAXIMUM_TLS_INDEX && x != 0 && x == s.postponed[m].snapshot[s.entries[e].index]
    ensures !SweptAt(s.postponed[q], dead, s.entries[f], x)
  {
    assert Owns(s.heap, s.postponed[m].snapshot, s.postponed[m].record.id);
    assert Owns(s.heap, s.postponed[q].snapshot, s.postponed[q].record.id);
    assert q < m ==> ApartItems(s.postponed[q], s.postponed[m]);
  }

  /** The block at the next index of the next ended thread is still allocated. */
  lemma FreeIsSafe(s: State, dead: set<Address>, m: nat, e: nat)
    requires Sweepable(s) && m < |s.postponed| && e < |s.entries| && s.postponed[m].record.id in dead
    ensures |s.postponed[m].snapshot| == MAXIMUM_TLS_INDEX && s.entries[e].index < MAXIMUM_TLS_INDEX
    ensures var x := s.postponed[m].snapshot[s.entries[e].index];
            && (x == 0 || x in HeapAfter(s, dead, m, e))
            && HeapAfter(s, dead, m, e + 1) == HeapAfter(s, dead, m, e) - {x}
  {
    var item, k := s.postponed[m], s.entries[e].index;
    var x := item.snapshot[k];
    assert Owns(s.heap, item.snapshot, item.record.id);
    if x != 0 {
      forall q, f | 0 <= q < |s.postponed| && 0 <= f < |s.entries| && (q < m || (q == m && f < e))
        ensures !SweptAt(s.postponed[q], dead, s.entries[f], x)
      {
        NotSweptBefore(s, dead, m, e, q, f, x);
      }
    }
    forall y | y in s.heap
      ensures FreedBefore(s, dead, m, e + 1, y) <==> FreedBefore(s, dead, m, e, y) || y == x
    {
      if y == x {
        assert SweptAt(item, dead, s.entries[e], y);
      }
    }
  }

  lemma NextItem(s: State, dead: set<Address>, m: nat)
    requires m < |s.postponed|
    ensures HeapAfter(s, dead, m, |s.entries|) == HeapAfter(s, dead, m + 1, 0)
  {
    forall x
      ensures FreedBefore(s, dead, m, |s.entries|, x) <==> FreedBefore(s, dead, m + 1, 0, x)
    {
    }
  }

  /** The vector of items when the first m have been looked at. */
  function Left(s: State, dead: set<Address>, m: nat): seq<Postponed>
    requires m <= |s.postponed|
  {
    Remaining(s.postponed, dead, m) + s.postponed[m..]
  }

  lemma SkipItem(s: State, dead: set<Address>, m: nat)
    requires m < |s.postponed| && s.postponed[m].record.id !in dead
    ensures Left(s, dead, m + 1) == Left(s, dead, m)
    ensures |Remaining(s.postponed, dead, m + 1)| == |Remaining(s.postponed, dead, m)| + 1
    ensures HeapAfter(s, dead, m, 0) == HeapAfter(s, dead, m + 1, 0)
    ensures DeadVectors(s.postponed, dead, m + 1) == DeadVectors(s.postponed, dead, m)
  {
    assert s.postponed[m..] == [s.postponed[m]] + s.postponed[m + 1..];
    forall x
      ensures FreedBefore(s, dead, m, 0, x) <==> FreedBefore(s, dead, m + 1, 0, x)
    {
    }
  }

  lemma TakeItem(s: State, dead: set<Address>, m: nat)
    requires m < |s.postponed| && s.postponed[m].record.id in dead
    ensures DeadVectors(s.postponed, dead, m + 1)
            == DeadVectors(s.postponed, dead, m) + {s.postponed[m].record.ldr}
    ensures var i := |Remaining(s.postponed, dead, m)|;
            && |Remaining(s.postponed, dead, m + 1)| == i
            && Left(s, dead, m + 1) == Left(s, dead, m)[..i] + Left(s, dead, m)[i + 1..]
  {
  }

  /** The LDR vector of the next item is still allocated. */
  lemma NotYetFreed(s: State, dead: set<Address>, m: nat)
    requires Sweepable(s) && m < |s.postponed|
    ensures s.postponed[m].record.ldr in s.vectors - DeadVectors(s.postponed, dead, m)
  {
    forall q | 0 <= q < m
      ensures s.postponed[q].record.ldr != s.postponed[m].record.ldr
    {
      assert ApartItems(s.postponed[q], s.postponed[m]);
    }
  }

  lemma SweptAll(s: State, dead: set<Address>)
    ensures HeapAfter(s, dead, |s.postponed|, 0) == Sweep(s, dead).heap
  {
    forall x
      ensures FreedBefore(s, dead, |s.postponed|, 0, x) <==> Swept(s.postponed, dead, s.entries, x)
    {
    }
  }
}
