/** The heap bookkeeping of MmpHandleTlsData: blocks allocated for a request, installed or freed. */
module TlsLoad {
  import opened Wrappers
  import opened TlsState
  import opened TlsHook
  import opened TlsModules

  /** What a module load meets: whether the entry, the request and the hook's buffer can be
      allocated, what the heap returns for each block (0: failure), and what the kernel does. */
  datatype LoadEnv = LoadEnv(
    entry: bool, request: bool, blocks: seq<Address>, buffer: bool, kernel: Option<Choice>)

  ghost predicate LoadEnvOk(s: State, env: LoadEnv) {
    && |env.blocks| == s.active
    && (forall i :: 0 <= i < |env.blocks| ==> env.blocks[i] !in s.heap)
    && (forall i, j :: 0 <= i < j < |env.blocks| && env.blocks[i] != 0 ==> env.blocks[i] != env.blocks[j])
    && (env.kernel.Some? ==> ValidChoice(s, |env.blocks|, env.kernel.value))
  }

  /** The module's entry is listed. */
  predicate Entered(s: State, env: LoadEnv) {
    env.entry && FirstClear(s.bitmap, 0).Some?
  }

  /** The load gets as far as the kernel call. */
  predicate Reached(s: State, env: LoadEnv) {
    && Entered(s, env) && env.request
    && (forall i :: 0 <= i < |env.blocks| ==> env.blocks[i] != 0)
  }

  /** The request and every block in it could be allocated. */
  predicate BlocksGranted(env: LoadEnv) {
    env.request && forall i :: 0 <= i < |env.blocks| ==> env.blocks[i] != 0
  }

  /** So could the hook's copy, and the kernel serves it. */
  predicate LoadServed(env: LoadEnv) {
    BlocksGranted(env) && env.buffer && env.kernel.Some?
  }

  function LoadStatus(s: State, env: LoadEnv): NtStatus {
    if !Entered(s, env) then InsufficientResources
    else if !Reached(s, env) || !env.buffer then NoMemory
    else if env.kernel.None? then KernelRefused
    else Success
  }

  /** What handling a module's TLS data leaves: the completed load; the entry that stays listed when the hook or
      the kernel fails; the list after an entry has come and one has gone; or, when none came, nothing. */
  ghost predicate Handled(s: State, s': State, owner: Address, size: nat, env: LoadEnv)
    requires Safe(s) && LoadEnvOk(s, env)
  {
    if !Entered(s, env) then s' == s
    else if !Reached(s, env) then s' == Undone(s, owner, size)
    else if LoadStatus(s, env) == Success then Loaded(s, s', owner, size, env.blocks, env.kernel.value)
    else s' == LoadRefused(s, owner, size)
  }

  /** Whatever fails, handling a module's TLS data keeps the records, the mirror, the ownership and the
      indices. */
  lemma HandledKeepsSafe(s: State, s': State, owner: Address, size: nat, env: LoadEnv)
    requires Safe(s) && LoadEnvOk(s, env) && Handled(s, s', owner, size, env)
    ensures Safe(s')
  {
    if Reached(s, env) {
      if LoadStatus(s, env) == Success {
        LoadKeepsSafe(s, s', owner, size, env.blocks, env.kernel.value);
      } else {
        AddEntryKeepsSafe(s, owner, size, 0);
      }
    } else if Entered(s, env) {
      UndoneKeepsSafe(s, owner, size);
    }
  }

  /** Nothing is left half done: the load was served and reached every live thread the kernel had items for, or
      it failed early with nothing listed for the module before. */
  ghost predicate Clean(s: State, owner: Address, env: LoadEnv)
    requires LoadEnvOk(s, env)
  {
    if Reached(s, env) then LoadStatus(s, env) == Success && Complete(s, env.kernel.value)
    else Entered(s, env) ==> !Listed(s.entries, owner)
  }

  lemma CleanKeepsInv(s: State, s': State, owner: Address, size: nat, env: LoadEnv)
    requires Inv(s) && LoadEnvOk(s, env) && Handled(s, s', owner, size, env) && Clean(s, owner, env)
    ensures Inv(s')
  {
    if Reached(s, env) {
      LoadKeepsInv(s, s', owner, size, env.blocks, env.kernel.value);
    } else if Entered(s, env) {
      DropUndoesAddIff(s, owner, size);
    }
  }

  /** The heap has grown by blocks[from..to], each with its home. */
  ghost predicate GrownBy(
    h: map<Address, Home>, h': map<Address, Home>, blocks: seq<Address>, homes: seq<Home>, from: nat, to: nat)
    requires from <= to <= |blocks| == |homes|
  {
    && (forall i :: from <= i < to ==> blocks[i] in h' && h'[blocks[i]] == homes[i])
    && (forall x :: x in h ==> x in h' && h'[x] == h[x])
    && (forall x :: x in h' && x !in h ==> exists i :: from <= i < to && blocks[i] == x)
  }

  lemma FirstGiven(
    h: map<Address, Home>, h': map<Address, Home>, blocks: seq<Address>, homes: seq<Home>, from: nat, to: nat)
    requires from < to <= |blocks| == |homes| && GrownBy(h, h', blocks, homes, from, to)
    requires forall i :: from <= i < to ==> blocks[i] !in h
    requires forall i :: from < i < to ==> blocks[i] != blocks[from]
    ensures blocks[from] in h' && GrownBy(h, h' - {blocks[from]}, blocks, homes, from + 1, to)
  {
    var h1 := h' - {blocks[from]};
    forall x | x in h1 && x !in h
      ensures exists i :: from + 1 <= i < to && blocks[i] == x
    {
      var i :| from <= i < to && blocks[i] == x;
      assert i != from;
    }
  }

  /** Where each block is going to be installed. */
  ghost function Homes(s: State, owner: Address, k: nat, n: nat, c: Option<Choice>): (homes: seq<Home>)
    requires RecordsOk(s) && (c.Some? ==> ValidChoice(s, n, c.value))
    ensures |homes| == n
  {
    seq(n, i requires 0 <= i < n => HomeOf(s, owner, k, n, c, i))
  }

  ghost function HomeOf(s: State, owner: Address, k: nat, n: nat, c: Option<Choice>, i: nat): Home
    requires RecordsOk(s) && (c.Some? ==> ValidChoice(s, n, c.value)) && i < n
  {
    if c.Some? && c.value[i].Some? then
      assert Registered(s, c.value[i].value);
      Home(s.records[Find(s.records, c.value[i].value)].id, k, owner)
    else Home(0, k, owner)
  }

  function Pointers(items: seq<Item>, n: nat): set<Address>
    requires n <= |items|
  {
    set i | 0 <= i < n :: items[i].ptr
  }

  /** How many of the first n items the kernel left unused. */
  function Idle(items: seq<Item>, n: nat): (k: nat)
    requires n <= |items|
    ensures k <= n
  {
    if n == 0 then 0 else Idle(items, n - 1) + (if items[n - 1].flags == 0 then 1 else 0)
  }

  /** The state in which the kernel is called: entry listed, blocks allocated. */
  ghost predicate Requested(s: State, s1: State, owner: Address, size: nat, env: LoadEnv)
    requires RecordsOk(s) && FirstClear(s.bitmap, 0).Some? && LoadEnvOk(s, env)
  {
    var k := FirstClear(s.bitmap, 0).value;
    && s1 == AddEntry(s, owner, size).(heap := s1.heap)
    && GrownBy(s.heap, s1.heap, env.blocks, Homes(s, owner, k, |env.blocks|, env.kernel), 0, |env.blocks|)
  }

  lemma RequestedSafe(s: State, s1: State, owner: Address, size: nat, env: LoadEnv)
    requires Safe(s) && LoadEnvOk(s, env) && Reached(s, env) && Requested(s, s1, owner, size, env)
    ensures Safe(s1)
  {
    AddEntryKeepsSafe(s, owner, size, s.active);
    GrownHeapSafe(AddEntry(s, owner, size), s1);
  }

  /** What is allocated disturbs nothing that is at home. */
  lemma GrownHeapSafe(s: State, s1: State)
    requires Safe(s) && s1 == s.(heap := s1.heap) && 0 !in s1.heap
    requires forall x :: x in s.heap ==> x in s1.heap && s1.heap[x] == s.heap[x]
    ensures Safe(s1)
  {
    forall j | 0 <= j < |s.records|
      ensures Backed(s1, s.records[j])
    {
      assert Backed(s, s.records[j]);
    }
    forall t | t in s1.teb
      ensures Registered(s1, t)
    {
      assert Registered(s, t);
    }
    assert RecordsOk(s1) && PostponedOk(s1);
    GrownHeapOwned(s, s1);
  }

  lemma GrownHeapOwned(s: State, s1: State)
    requires Safe(s) && s1 == s.(heap := s1.heap) && 0 !in s1.heap && RecordsOk(s1) && PostponedOk(s1)
    requires forall x :: x in s.heap ==> x in s1.heap && s1.heap[x] == s.heap[x]
    ensures OwnedOk(s1)
  {
    forall j | 0 <= j < |s.records|
      ensures Owns(s1.heap, s1.vectors[s.records[j].mmp], s.records[j].id)
    {
      assert Owns(s.heap, s.vectors[s.records[j].mmp], s.records[j].id);
    }
    forall q | 0 <= q < |s.postponed|
      ensures Owns(s1.heap, s.postponed[q].snapshot, s.postponed[q].record.id)
    {
      assert Owns(s.heap, s.postponed[q].snapshot, s.postponed[q].record.id);
    }
  }

  /** Newly allocated blocks are in no vector yet. */
  lemma RequestFresh(s: State, s1: State, owner: Address, size: nat, env: LoadEnv, req: Request)
    requires Safe(s) && LoadEnvOk(s, env) && Reached(s, env) && Requested(s, s1, owner, size, env)
    requires RecordsOk(s1) && req.op == REPLACE_INDEX && req.arg == FirstClear(s.bitmap, 0).value
    requires req.arg < MAXIMUM_TLS_INDEX && |req.items| == |env.blocks|
    requires forall i :: 0 <= i < |req.items| ==> req.items[i].ptr == env.blocks[i]
    ensures Fresh(s1, req)
  {
    forall j | 0 <= j < |s.records|
      ensures forall i :: 0 <= i < |req.items| ==> s.vectors[s.records[j].mmp][req.arg] != env.blocks[i]
    {
      assert Owns(s.heap, s.vectors[s.records[j].mmp], s.records[j].id);
    }
  }

  /** The ReplaceIndex request of a memory module. */
  function RequestFor(index: nat, blocks: seq<Address>): Request {
    Request(REPLACE_INDEX, index, seq(|blocks|, i requires 0 <= i < |blocks| => Item(0, 0, blocks[i])))
  }

  lemma RequestReady(s: State, s1: State, owner: Address, size: nat, env: LoadEnv, req: Request)
    requires Safe(s) && LoadEnvOk(s, env) && Reached(s, env) && Requested(s, s1, owner, size, env)
    requires req == RequestFor(FirstClear(s.bitmap, 0).value, env.blocks)
    ensures Safe(s1) && Servable(false, req) && Fresh(s1, req)
    ensures env.kernel.Some? ==> ValidChoice(s1, |req.items|, env.kernel.value)
  {
    AddEntryKeepsIndexOk(s, owner, size);
    RequestedSafe(s, s1, owner, size, env);
    RequestFresh(s, s1, owner, size, env, req);
  }

  /** After a served call, every pointer in the request is null or an allocated block, and no block
      is there twice. */
  lemma ReturnedAllocated(
    s: State, s1: State, s2: State, owner: Address, size: nat, env: LoadEnv, req: Request, items: seq<Item>)
    requires Safe(s) && LoadEnvOk(s, env) && Reached(s, env) && Requested(s, s1, owner, size, env)
    requires env.kernel.Some? && RecordsOk(s1)
    requires req.op == REPLACE_INDEX && req.arg == FirstClear(s.bitmap, 0).value < MAXIMUM_TLS_INDEX
    requires |req.items| == |env.blocks| && forall i :: 0 <= i < |req.items| ==> req.items[i].ptr == env.blocks[i]
    requires IndexHooked(s1, s2, false, req, items, env.kernel.value, |env.kernel.value|)
    ensures forall i :: 0 <= i < |items| ==> items[i].ptr == 0 || items[i].ptr in s1.heap
    ensures forall i, j :: 0 <= i < j < |items| && items[i].ptr != 0 ==> items[i].ptr != items[j].ptr
  {
    var c := env.kernel.value;
    forall i | 0 <= i < |items|
      ensures c[i].None? ==> items[i].ptr == env.blocks[i]
      ensures c[i].Some? && items[i].ptr != 0 ==>
                items[i].ptr in s.heap && exists r :: r in s.records && r.thread == c[i].value
                                                      && s.heap[items[i].ptr].record == r.id
    {
      if c[i].Some? {
        var j := ReturnedOld(s, s1, s2, req, items, c, i);
      }
    }
    forall i, j | 0 <= i < j < |items| && items[i].ptr != 0
      ensures items[i].ptr != items[j].ptr
    {
      if c[i].Some? && c[j].Some? {
        var l := ReturnedOld(s, s1, s2, req, items, c, i);
        var m := ReturnedOld(s, s1, s2, req, items, c, j);
        if items[i].ptr == items[j].ptr {
          RecordUnique(s, l, m);
        }
      }
    }
  }

  /** The block returned in item i was at home in the chosen thread's slot. */
  lemma ReturnedOld(s: State, s1: State, s2: State, req: Request, items: seq<Item>, c: Choice, i: nat)
    returns (j: nat)
    requires Safe(s) && s1 == s.(bitmap := s1.bitmap, entries := s1.entries, heap := s1.heap) && RecordsOk(s1)
    requires req.op == REPLACE_INDEX && START_TLS_INDEX <= req.arg < MAXIMUM_TLS_INDEX
    requires ValidChoice(s, |req.items|, c) && i < |c| && c[i].Some?
    requires IndexHooked(s1, s2, false, req, items, c, |c|)
    ensures Gets(s, c, i, j) && s.records[j] in s.records && s.records[j].thread == c[i].value
    ensures items[i].ptr == s.vectors[s.records[j].mmp][req.arg]
    ensures items[i].ptr != 0 ==>
              && items[i].ptr in s.heap
              && s.heap[items[i].ptr].record == s.records[j].id && s.heap[items[i].ptr].index == req.arg
  {
    j := ChosenRecord(s, c, i);
    assert Gets(s1, c, i, j);
    assert Owns(s.heap, s.vectors[s.records[j].mmp], s.records[j].id);
  }

  lemma {:induction false} IdleIsRest(items: seq<Item>, c: Choice, n: nat)
    requires n <= |items| == |c|
    requires forall i :: 0 <= i < n ==> (items[i].flags == 0 <==> c[i].None?)
    ensures Idle(items, n) == n - Served(c[..n])
  {
    if n != 0 {
      IdleIsRest(items, c, n - 1);
      assert c[..n][..n - 1] == c[..n - 1];
    }
  }

  lemma {:induction false} AllIdle(items: seq<Item>, n: nat)
    requires n <= |items| && forall i :: 0 <= i < n ==> items[i].flags == 0
    ensures Idle(items, n) == n
  {
    if n != 0 {
      AllIdle(items, n - 1);
    }
  }

  /** Freeing everything the request holds after a served call completes the load. */
  lemma LoadCompleted(
    s: State, s1: State, s2: State, s3: State, owner: Address, size: nat, env: LoadEnv, req: Request,
    items: seq<Item>)
    requires Safe(s) && LoadEnvOk(s, env) && Reached(s, env) && Requested(s, s1, owner, size, env)
    requires env.kernel.Some? && RecordsOk(s1)
    requires req.op == REPLACE_INDEX && req.arg == FirstClear(s.bitmap, 0).value < MAXIMUM_TLS_INDEX
    requires |req.items| == |env.blocks|
    requires forall i :: 0 <= i < |req.items| ==> req.items[i] == Item(0, 0, env.blocks[i])
    requires IndexHooked(s1, s2, false, req, items, env.kernel.value, |env.kernel.value|)
    requires s3 == s2.(heap := s3.heap, active := s3.active)
    requires s3.heap == s1.heap - Pointers(items, |items|) && s3.active == s.active - Idle(items, |items|)
    ensures Loaded(s, s3, owner, size, env.blocks, env.kernel.value)
  {
    var c := env.kernel.value;
    IdleCount(s, s1, s2, req, items, c);
    LoadedVectors(s, s1, s2, req, env.blocks, c);
    LoadedHeap(s, s1, s2, s3.heap, owner, req, env.blocks, items, c);
    Assembled(s, s1, s2, s3, owner, size, env.blocks, c, items);
  }

  /** What the heap holds once everything in the request is freed. */
  lemma LoadedHeap(
    s: State, s1: State, s2: State, heap: map<Address, Home>, owner: Address, req: Request, blocks: seq<Address>,
    items: seq<Item>, c: Choice)
    requires Safe(s) && s1 == s.(bitmap := s1.bitmap, entries := s1.entries, heap := s1.heap) && RecordsOk(s1)
    requires req.op == REPLACE_INDEX && START_TLS_INDEX <= req.arg < MAXIMUM_TLS_INDEX
    requires |req.items| == |blocks| && ValidChoice(s, |req.items|, c)
    requires forall i :: 0 <= i < |blocks| ==> req.items[i].ptr == blocks[i]
    requires IndexHooked(s1, s2, false, req, items, c, |c|) && BlocksOk(s, blocks)
    requires GrownBy(s.heap, s1.heap, blocks, Homes(s, owner, req.arg, |blocks|, Some(c)), 0, |blocks|)
    requires heap == s1.heap - Pointers(items, |items|)
    ensures var k := req.arg;
            && (forall i: nat, j: nat :: Gets(s, c, i, j) ==>
                  blocks[i] in heap && heap[blocks[i]] == Home(s.records[j].id, k, owner))
            && (forall i :: 0 <= i < |c| && c[i].None? ==> blocks[i] !in heap)
            && (forall x :: x in s.heap ==>
                  if Replaced(s, c, k, x) then x !in heap else x in heap && heap[x] == s.heap[x])
            && (forall x :: x in heap ==> x in s.heap || x in blocks)
  {
    ReturnedKinds(s, s1, s2, req, items, c);
    LoadedPlaced(s, s1.heap, owner, req.arg, blocks, items, c);
    OldReturned(s, s1, s2, req, items, c, blocks);
    LoadedOldHeap(s, s1.heap, owner, req.arg, blocks, items, c);
  }

  lemma IdleCount(s: State, s1: State, s2: State, req: Request, items: seq<Item>, c: Choice)
    requires Safe(s) && s1 == s.(bitmap := s1.bitmap, entries := s1.entries, heap := s1.heap) && RecordsOk(s1)
    requires req.op == REPLACE_INDEX && START_TLS_INDEX <= req.arg < MAXIMUM_TLS_INDEX
    requires ValidChoice(s, |req.items|, c) && forall i :: 0 <= i < |req.items| ==> req.items[i].flags == 0
    requires IndexHooked(s1, s2, false, req, items, c, |c|)
    ensures Idle(items, |items|) == |c| - Served(c)
  {
    forall i | 0 <= i < |items|
      ensures items[i].flags == 0 <==> c[i].None?
    {
      if c[i].Some? {
        var j := ReturnedOld(s, s1, s2, req, items, c, i);
        assert Gets(s1, c, i, j);
      }
    }
    IdleIsRest(items, c, |c|);
    assert c[..|c|] == c;
  }

  lemma Assembled(
    s: State, s1: State, s2: State, s3: State, owner: Address, size: nat, blocks: seq<Address>, c: Choice,
    items: seq<Item>)
    requires RecordsOk(s) && FirstClear(s.bitmap, 0).Some? && FirstClear(s.bitmap, 0).value < MAXIMUM_TLS_INDEX
    requires |blocks| == |c| == |items| == s.active && Idle(items, |items|) == |c| - Served(c)
    requires s1 == AddEntry(s, owner, size).(heap := s1.heap)
    requires s2 == s1.(vectors := s2.vectors) && s2.vectors.Keys == s.vectors.Keys
    requires s3 == s2.(heap := s3.heap, active := s3.active)
    requires s3.heap == s1.heap - Pointers(items, |items|) && s3.active == s.active - Idle(items, |items|)
    requires var k, heap := FirstClear(s.bitmap, 0).value, s3.heap;
             && (forall i: nat, j: nat :: Gets(s, c, i, j) ==>
                   && s2.vectors[s.records[j].mmp] == s.vectors[s.records[j].mmp][k := blocks[i]]
                   && blocks[i] in heap && heap[blocks[i]] == Home(s.records[j].id, k, owner))
             && (forall v :: v in s.vectors && !SwappedVector(s, c, v) ==> s2.vectors[v] == s.vectors[v])
             && (forall i :: 0 <= i < |c| && c[i].None? ==> blocks[i] !in heap)
             && (forall x :: x in s.heap ==>
                   if Replaced(s, c, k, x) then x !in heap else x in heap && heap[x] == s.heap[x])
             && (forall x :: x in heap ==> x in s.heap || x in blocks)
    ensures Loaded(s, s3, owner, size, blocks, c)
  {
  }

  /** After a refused call, freeing the request leaves the heap as it was before the load. */
  lemma RefusedHeap(s: State, s1: State, owner: Address, size: nat, env: LoadEnv, items: seq<Item>)
    requires RecordsOk(s) && LoadEnvOk(s, env) && Reached(s, env) && Requested(s, s1, owner, size, env)
    requires |items| == |env.blocks| && forall i :: 0 <= i < |items| ==> items[i].ptr == env.blocks[i]
    ensures s1.heap - Pointers(items, |items|) == s.heap
    ensures forall i :: 0 <= i < |items| ==> items[i].ptr in s1.heap
    ensures forall i, j :: 0 <= i < j < |items| && items[i].ptr != 0 ==> items[i].ptr != items[j].ptr
  {
  }

  lemma LoadedVectors(s: State, s1: State, s2: State, req: Request, blocks: seq<Address>, c: Choice)
    requires RecordsOk(s) && RecordsOk(s1) && s1.records == s.records && s1.vectors == s.vectors
    requires req.op == REPLACE_INDEX && req.arg < MAXIMUM_TLS_INDEX && |c| == |req.items| == |blocks|
    requires forall i :: 0 <= i < |req.items| ==> req.items[i].ptr == blocks[i]
    requires s2.vectors.Keys == s1.vectors.Keys && IndexSwapped(s1, s2, req, c)
    requires forall v :: v in s1.vectors && !SwappedVector(s1, c, v) ==> s2.vectors[v] == s1.vectors[v]
    ensures forall i: nat, j: nat :: Gets(s, c, i, j) ==>
              s2.vectors[s.records[j].mmp] == s.vectors[s.records[j].mmp][req.arg := blocks[i]]
    ensures forall v :: v in s.vectors && !SwappedVector(s, c, v) ==> s2.vectors[v] == s.vectors[v]
  {
    forall i: nat, j: nat | Gets(s, c, i, j)
      ensures s2.vectors[s.records[j].mmp] == s.vectors[s.records[j].mmp][req.arg := blocks[i]]
    {
      assert Gets(s1, c, i, j);
    }
    forall v
      ensures SwappedVector(s1, c, v) <==> SwappedVector(s, c, v)
    {
    }
  }

  /** An item that was served comes back with an old block or none, and one that was not comes back as it
      was. */
  lemma ReturnedKinds(
    s: State, s1: State, s2: State, req: Request, items: seq<Item>, c: Choice)
    requires Safe(s) && s1 == s.(bitmap := s1.bitmap, entries := s1.entries, heap := s1.heap) && RecordsOk(s1)
    requires req.op == REPLACE_INDEX && START_TLS_INDEX <= req.arg < MAXIMUM_TLS_INDEX
    requires ValidChoice(s, |req.items|, c) && IndexHooked(s1, s2, false, req, items, c, |c|)
    ensures |items| == |c| == |req.items|
    ensures forall l :: 0 <= l < |c| && c[l].Some? ==> items[l].ptr == 0 || items[l].ptr in s.heap
    ensures forall l :: 0 <= l < |c| && c[l].None? ==> items[l].ptr == req.items[l].ptr
  {
    forall l | 0 <= l < |c| && c[l].Some?
      ensures items[l].ptr == 0 || items[l].ptr in s.heap
    {
      var m := ReturnedOld(s, s1, s2, req, items, c, l);
    }
  }

  lemma NotAmong(blocks: seq<Address>, items: seq<Item>, c: Choice, heap: map<Address, Home>, i: nat)
    requires |items| == |c| == |blocks| && i < |c| && c[i].Some? && blocks[i] !in heap && blocks[i] != 0
    requires forall l, m :: 0 <= l < m < |blocks| ==> blocks[l] != blocks[m]
    requires forall l :: 0 <= l < |c| && c[l].Some? ==> items[l].ptr == 0 || items[l].ptr in heap
    requires forall l :: 0 <= l < |c| && c[l].None? ==> items[l].ptr == blocks[l]
    ensures blocks[i] !in Pointers(items, |items|)
  {
    forall l | 0 <= l < |items|
      ensures items[l].ptr != blocks[i]
    {
      assert l != i && c[l].None? ==> blocks[l] != blocks[i];
    }
  }

  /** What was allocated for the request is at home where it was installed, or freed. */
  lemma LoadedPlaced(
    s: State, heap1: map<Address, Home>, owner: Address, k: nat, blocks: seq<Address>, items: seq<Item>, c: Choice)
    requires RecordsOk(s) && |items| == |c| == |blocks| && ValidChoice(s, |blocks|, c)
    requires GrownBy(s.heap, heap1, blocks, Homes(s, owner, k, |blocks|, Some(c)), 0, |blocks|)
    requires forall l :: 0 <= l < |blocks| ==> blocks[l] !in s.heap && blocks[l] != 0
    requires forall l, m :: 0 <= l < m < |blocks| ==> blocks[l] != blocks[m]
    requires forall l :: 0 <= l < |c| && c[l].Some? ==> items[l].ptr == 0 || items[l].ptr in s.heap
    requires forall l :: 0 <= l < |c| && c[l].None? ==> items[l].ptr == blocks[l]
    ensures var heap := heap1 - Pointers(items, |items|);
            && (forall i: nat, j: nat :: Gets(s, c, i, j) ==>
                  blocks[i] in heap && heap[blocks[i]] == Home(s.records[j].id, k, owner))
            && (forall i :: 0 <= i < |c| && c[i].None? ==> blocks[i] !in heap)
  {
    var heap := heap1 - Pointers(items, |items|);
    forall i: nat, j: nat | Gets(s, c, i, j)
      ensures blocks[i] in heap && heap[blocks[i]] == Home(s.records[j].id, k, owner)
    {
      var j' := ChosenRecord(s, c, i);
      assert j' == j;
      NotAmong(blocks, items, c, s.heap, i);
      assert HomeOf(s, owner, k, |blocks|, Some(c), i) == Home(s.records[j].id, k, owner);
    }
    forall i | 0 <= i < |c| && c[i].None?
      ensures blocks[i] !in heap
    {
      assert items[i].ptr == blocks[i];
    }
  }

  /** Of what was allocated before, exactly the blocks that were replaced are freed. */
  lemma LoadedOldHeap(
    s: State, heap1: map<Address, Home>, owner: Address, k: nat, blocks: seq<Address>, items: seq<Item>, c: Choice)
    requires RecordsOk(s) && |c| == |blocks| && ValidChoice(s, |blocks|, c)
    requires GrownBy(s.heap, heap1, blocks, Homes(s, owner, k, |blocks|, Some(c)), 0, |blocks|)
    requires forall x :: x in s.heap ==> (x in Pointers(items, |items|) <==> Replaced(s, c, k, x))
    ensures var heap := heap1 - Pointers(items, |items|);
            && (forall x :: x in s.heap ==>
                  if Replaced(s, c, k, x) then x !in heap else x in heap && heap[x] == s.heap[x])
            && (forall x :: x in heap ==> x in s.heap || x in blocks)
  {
  }

  lemma OldReturned(
    s: State, s1: State, s2: State, req: Request, items: seq<Item>, c: Choice, blocks: seq<Address>)
    requires Safe(s) && s1 == s.(bitmap := s1.bitmap, entries := s1.entries, heap := s1.heap) && RecordsOk(s1)
    requires req.op == REPLACE_INDEX && START_TLS_INDEX <= req.arg < MAXIMUM_TLS_INDEX
    requires ValidChoice(s, |req.items|, c) && IndexHooked(s1, s2, false, req, items, c, |c|)
    requires |items| == |c| == |blocks|
    requires forall l :: 0 <= l < |c| && c[l].None? ==> items[l].ptr == blocks[l] && blocks[l] !in s.heap
    ensures forall x :: x in s.heap ==> (x in Pointers(items, |items|) <==> Replaced(s, c, req.arg, x))
  {
    forall x | x in s.heap && Replaced(s, c, req.arg, x)
      ensures x in Pointers(items, |items|)
    {
      ReplacedReturns(s, s1, s2, req, items, c, x);
    }
    forall x | x in s.heap && x in Pointers(items, |items|)
      ensures Replaced(s, c, req.arg, x)
    {
      ReturnedReplaced(s, s1, s2, req, items, c, blocks, x);
    }
  }

  lemma ReplacedReturns(
    s: State, s1: State, s2: State, req: Request, items: seq<Item>, c: Choice, x: Address)
    requires Safe(s) && s1 == s.(bitmap := s1.bitmap, entries := s1.entries, heap := s1.heap) && RecordsOk(s1)
    requires req.op == REPLACE_INDEX && START_TLS_INDEX <= req.arg < MAXIMUM_TLS_INDEX
    requires ValidChoice(s, |req.items|, c) && IndexHooked(s1, s2, false, req, items, c, |c|)
    requires Replaced(s, c, req.arg, x)
    ensures x in Pointers(items, |items|)
  {
    var j :| 0 <= j < |s.records| && ReplacedAt(s, c, req.arg, x, s.records[j]);
    var i := ChosenIndex(c, s.records[j].thread);
    SlotReturned(s, s1, s2, req, items, c, i, j);
    assert items[i].ptr == x;
  }

  lemma ChosenIndex(c: Choice, t: ThreadId) returns (i: nat)
    requires Chosen(c, t, |c|)
    ensures i < |c| && c[i] == Some(t)
  {
    i :| i < |c| && c[i] == Some(t);
  }

  lemma SlotReturned(s: State, s1: State, s2: State, req: Request, items: seq<Item>, c: Choice, i: nat, j: nat)
    requires Safe(s) && s1 == s.(bitmap := s1.bitmap, entries := s1.entries, heap := s1.heap) && RecordsOk(s1)
    requires req.op == REPLACE_INDEX && START_TLS_INDEX <= req.arg < MAXIMUM_TLS_INDEX
    requires ValidChoice(s, |req.items|, c) && IndexHooked(s1, s2, false, req, items, c, |c|) && Gets(s, c, i, j)
    ensures i < |items| && s.records[j].mmp in s.vectors && req.arg < |s.vectors[s.records[j].mmp]|
    ensures items[i].ptr == s.vectors[s.records[j].mmp][req.arg]
  {
    var j' := ReturnedOld(s, s1, s2, req, items, c, i);
    RecordUnique(s, j, j');
    assert Backed(s, s.records[j]);
  }

  lemma ReturnedReplaced(
    s: State, s1: State, s2: State, req: Request, items: seq<Item>, c: Choice, blocks: seq<Address>, x: Address)
    requires Safe(s) && s1 == s.(bitmap := s1.bitmap, entries := s1.entries, heap := s1.heap) && RecordsOk(s1)
    requires req.op == REPLACE_INDEX && START_TLS_INDEX <= req.arg < MAXIMUM_TLS_INDEX
    requires ValidChoice(s, |req.items|, c) && IndexHooked(s1, s2, false, req, items, c, |c|)
    requires |items| == |c| == |blocks| && x in s.heap && x != 0 && x in Pointers(items, |items|)
    requires forall l :: 0 <= l < |c| && c[l].None? ==> items[l].ptr == blocks[l] && blocks[l] !in s.heap
    ensures Replaced(s, c, req.arg, x)
  {
    var i :| 0 <= i < |items| && items[i].ptr == x;
    var j := ReturnedOld(s, s1, s2, req, items, c, i);
    assert ReplacedAt(s, c, req.arg, x, s.records[j]);
  }

  // ---------- Settling a request ----------

  /** Everything the request holds is freed, and its unused items are taken off the count. */
  function Settled(s: State, items: seq<Item>): State {
    s.(heap := s.heap - Pointers(items, |items|), active := Wrapped(s.active - Idle(items, |items|)))
  }

  /** With no more items than threads counted, the count does not wrap around. */
  lemma SettledCount(s: State, items: seq<Item>, n: int)
    requires n == s.active && |items| == n
    ensures Settled(s, items).active == n - Idle(items, |items|)
  {
  }

  /** After a served call what the request holds can be freed. */
  lemma ServedFreeable(
    s: State, s1: State, s2: State, owner: Address, size: nat, env: LoadEnv, req: Request, items: seq<Item>)
    requires Safe(s) && LoadEnvOk(s, env) && Reached(s, env) && Requested(s, s1, owner, size, env)
    requires env.kernel.Some? && Safe(s1) && FirstClear(s.bitmap, 0).value < MAXIMUM_TLS_INDEX
    requires req == RequestFor(FirstClear(s.bitmap, 0).value, env.blocks)
    requires IndexHooked(s1, s2, false, req, items, env.kernel.value, |env.kernel.value|)
    ensures 0 !in s2.heap
    ensures forall i :: 0 <= i < |items| ==> items[i].ptr == 0 || items[i].ptr in s2.heap
    ensures forall i, j :: 0 <= i < j < |items| && items[i].ptr != 0 ==> items[i].ptr != items[j].ptr
  {
    ReturnedAllocated(s, s1, s2, owner, size, env, req, items);
  }

  /** Freeing it completes the load. */
  lemma ServedCompleted(
    s: State, s1: State, s2: State, owner: Address, size: nat, env: LoadEnv, req: Request, items: seq<Item>)
    requires Safe(s) && LoadEnvOk(s, env) && Reached(s, env) && Requested(s, s1, owner, size, env)
    requires env.kernel.Some? && RecordsOk(s1) && FirstClear(s.bitmap, 0).value < MAXIMUM_TLS_INDEX
    requires req == RequestFor(FirstClear(s.bitmap, 0).value, env.blocks)
    requires IndexHooked(s1, s2, false, req, items, env.kernel.value, |env.kernel.value|)
    ensures Loaded(s, Settled(s2, items), owner, size, env.blocks, env.kernel.value)
  {
    SettledCount(s2, items, s.active);
    LoadCompleted(s, s1, s2, Settled(s2, items), owner, size, env, req, items);
  }

  /** After a refused call freeing what the request holds leaves the entry, and no thread counted. */
  lemma RefusedRequest(s: State, s1: State, owner: Address, size: nat, env: LoadEnv, items: seq<Item>)
    requires Safe(s) && LoadEnvOk(s, env) && Reached(s, env) && Requested(s, s1, owner, size, env)
    requires Safe(s1) && items == RequestFor(FirstClear(s.bitmap, 0).value, env.blocks).items
    ensures forall i :: 0 <= i < |items| ==> items[i].ptr in s1.heap
    ensures forall i, j :: 0 <= i < j < |items| && items[i].ptr != 0 ==> items[i].ptr != items[j].ptr
    ensures Settled(s1, items) == LoadRefused(s, owner, size)
  {
    AllIdle(items, |items|);
    RefusedHeap(s, s1, owner, size, env, items);
  }
}
