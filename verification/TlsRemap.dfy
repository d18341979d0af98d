/**
 * The loops of the hooked kernel call, one item at a time: what the kernel has swapped, what has
 * been mapped back to the LDR vectors so far, and what is still as it was.
 */
module TlsRemap {
  import opened Wrappers
  import opened TlsState
  import opened TlsHook

  // ---------- Facts about the hook's loops ----------

  /** The private vector of a thread that one of the first n items went to. */
  predicate SwappedBelow(s: State, c: Choice, v: Address, n: nat)
    requires n <= |c|
  {
    exists j :: 0 <= j < |s.records| && s.records[j].mmp == v && Chosen(c, s.records[j].thread, n)
  }

  predicate HasSlot(s: State, index: nat) {
    forall j :: 0 <= j < |s.records| ==> s.records[j].mmp in s.vectors && index < |s.vectors[s.records[j].mmp]|
  }

  /** The kernel has processed the first n items. */
  ghost predicate KernelProgress(
    s: State, s': State, index: nat, items: seq<Item>, out: seq<Item>, c: Choice, n: nat)
    requires HasSlot(s, index) && |c| == |items| && n <= |c|
  {
    && s' == s.(vectors := s'.vectors) && s'.vectors.Keys == s.vectors.Keys && |out| == |items|
    && (forall k: nat, j: nat :: Gets(s, c, k, j) && k < n ==>
          && s'.vectors[s.records[j].mmp] == s.vectors[s.records[j].mmp][index := items[k].ptr]
          && out[k] == Item(ASSIGNED, s.records[j].thread, s.vectors[s.records[j].mmp][index]))
    && (forall k :: 0 <= k < |c| && (n <= k || c[k].None?) ==> out[k] == items[k])
    && (forall v :: v in s.vectors && !SwappedBelow(s, c, v, n) ==> s'.vectors[v] == s.vectors[v])
  }

  lemma KernelStart(s: State, index: nat, items: seq<Item>, c: Choice)
    requires RecordsOk(s) && index < MAXIMUM_TLS_INDEX && |c| == |items|
    ensures HasSlot(s, index) && KernelProgress(s, s, index, items, items, c, 0)
  {
    forall j | 0 <= j < |s.records|
      ensures s.records[j].mmp in s.vectors && |s.vectors[s.records[j].mmp]| == MAXIMUM_TLS_INDEX
    {
      assert Backed(s, s.records[j]);
    }
  }

  lemma KernelSwapped(
    s: State, s1: State, s2: State, index: nat, items: seq<Item>, out1: seq<Item>, out2: seq<Item>, c: Choice,
    i: nat, j: nat)
    requires HasSlot(s, index) && |c| == |items| && Gets(s, c, i, j)
    requires KernelProgress(s, s1, index, items, out1, c, i)
    requires forall v :: SwappedBelow(s, c, v, i + 1) <==> SwappedBelow(s, c, v, i) || v == s.records[j].mmp
    requires forall k: nat, l: nat :: Gets(s, c, k, l) && k < i + 1 ==>
               (k == i && l == j) || (k < i && s.records[l].mmp != s.records[j].mmp)
    requires s2 == s1.(vectors := s1.vectors[s.records[j].mmp := s.vectors[s.records[j].mmp][index := items[i].ptr]])
    requires out2 == out1[i := Item(ASSIGNED, s.records[j].thread, s.vectors[s.records[j].mmp][index])]
    ensures KernelProgress(s, s2, index, items, out2, c, i + 1)
  {
  }

  lemma KernelIdle(s: State, s1: State, index: nat, items: seq<Item>, out: seq<Item>, c: Choice, i: nat)
    requires HasSlot(s, index) && |c| == |items| && i < |c| && c[i].None?
    requires KernelProgress(s, s1, index, items, out, c, i)
    ensures KernelProgress(s, s1, index, items, out, c, i + 1)
  {
    NoOneChosen(s, c, i);
  }

  lemma KernelDone(s: State, s1: State, index: nat, items: seq<Item>, out: seq<Item>, c: Choice)
    requires RecordsOk(s) && index < MAXIMUM_TLS_INDEX && |c| == |items|
    requires KernelProgress(s, s1, index, items, out, c, |c|)
    ensures IndexHooked(s, s1, false, Request(REPLACE_INDEX, index, items), out, c, |c|)
  {
    assert forall v :: SwappedBelow(s, c, v, |c|) <==> SwappedVector(s, c, v);
  }

  lemma NotYetSwapped(s: State, c: Choice, i: nat, j: nat)
    requires RecordsOk(s) && ValidChoice(s, |c|, c) && Gets(s, c, i, j)
    ensures !SwappedBelow(s, c, s.records[j].mmp, i)
    ensures forall k: nat, l: nat :: Gets(s, c, k, l) && k < i + 1 ==>
              (k == i && l == j) || (k < i && s.records[l].mmp != s.records[j].mmp)
  {
    forall l: nat | l < |s.records| && s.records[l].mmp == s.records[j].mmp
      ensures l == j
    {
      RecordUnique(s, l, j);
    }
    forall k: nat, l: nat | Gets(s, c, k, l) && k < i + 1
      ensures (k == i && l == j) || (k < i && s.records[l].mmp != s.records[j].mmp)
    {
      if k == i {
        RecordUnique(s, l, j);
      }
    }
  }

  lemma SwappedNow(s: State, c: Choice, i: nat, j: nat)
    requires RecordsOk(s) && ValidChoice(s, |c|, c) && Gets(s, c, i, j)
    ensures forall v :: SwappedBelow(s, c, v, i + 1) <==> SwappedBelow(s, c, v, i) || v == s.records[j].mmp
  {
    forall v
      ensures SwappedBelow(s, c, v, i + 1) <==> SwappedBelow(s, c, v, i) || v == s.records[j].mmp
    {
      SwappedNowAt(s, c, i, j, v);
    }
  }

  lemma SwappedNowAt(s: State, c: Choice, i: nat, j: nat, v: Address)
    requires RecordsOk(s) && Gets(s, c, i, j)
    ensures SwappedBelow(s, c, v, i + 1) <==> SwappedBelow(s, c, v, i) || v == s.records[j].mmp
  {
    assert Chosen(c, s.records[j].thread, i + 1);
    if SwappedBelow(s, c, v, i) {
      var l :| 0 <= l < |s.records| && s.records[l].mmp == v && Chosen(c, s.records[l].thread, i);
      assert Chosen(c, s.records[l].thread, i + 1);
    }
    if SwappedBelow(s, c, v, i + 1) && v != s.records[j].mmp {
      var l :| 0 <= l < |s.records| && s.records[l].mmp == v && Chosen(c, s.records[l].thread, i + 1);
      OtherThread(s, l, j);
      assert Chosen(c, s.records[l].thread, i);
    }
  }

  lemma OtherThread(s: State, l: nat, j: nat)
    requires RecordsOk(s) && l < |s.records| && j < |s.records| && s.records[l].mmp != s.records[j].mmp
    ensures s.records[l].thread != s.records[j].thread
  {
    assert l < j ==> Apart(s.records[l], s.records[j]);
    assert j < l ==> Apart(s.records[j], s.records[l]);
  }

  /** Before item i is mapped back, exactly its thread's private vector shows its pointer. */
  lemma SlotsAtItem(s: State, s1: State, req: Request, out: seq<Item>, c: Choice, i: nat)
    requires RecordsOk(s) && Readable(s, req) && req.op == REPLACE_VECTOR && req.arg < START_TLS_INDEX
    requires Fresh(s, req) && ValidChoice(s, |req.items|, c) && i < |c|
    requires VectorHooked(s, s1, req, out, c, i)
    ensures s1.vectors[req.items[i].ptr] == s.vectors[req.items[i].ptr]
    ensures forall j :: 0 <= j < |s.records| ==>
              && s1.records[j].mmp == s.records[j].mmp
              && |s1.vectors[s.records[j].mmp]| == MAXIMUM_TLS_INDEX
              && (s1.vectors[s.records[j].mmp][req.arg] == Pointer(s, req, i) <==> Gets(s, c, i, j))
  {
    GivenUntouched(s, req, c, i);
    forall j | 0 <= j < |s.records|
      ensures s1.records[j].mmp == s.records[j].mmp
      ensures !Chosen(c, s.records[j].thread, |c|) ==>
                s1.vectors[s.records[j].mmp] == s.vectors[s.records[j].mmp]
    {
      SameRecordSoFar(s, s1, req, out, c, i, j);
    }
    forall j | 0 <= j < |s.records|
      ensures |s1.vectors[s.records[j].mmp]| == MAXIMUM_TLS_INDEX
      ensures s1.vectors[s.records[j].mmp][req.arg] == Pointer(s, req, i) <==> Gets(s, c, i, j)
    {
      FoundIsChosen(s, s1, req, c, i, j);
    }
  }

  lemma GivenUntouched(s: State, req: Request, c: Choice, i: nat)
    requires RecordsOk(s) && Readable(s, req) && req.op == REPLACE_VECTOR && req.arg < START_TLS_INDEX
    requires Fresh(s, req) && |c| == |req.items| && i < |c|
    ensures !SwappedVector(s, c, req.items[i].ptr) && !GivenVector(req, c, req.items[i].ptr, i)
  {
    assert !InUse(s, req.items[i].ptr);
  }

  lemma SameRecordSoFar(s: State, s1: State, req: Request, out: seq<Item>, c: Choice, n: nat, j: nat)
    requires RecordsOk(s) && Readable(s, req) && req.op == REPLACE_VECTOR && req.arg < START_TLS_INDEX
    requires Fresh(s, req) && ValidChoice(s, |req.items|, c) && n <= |c| && j < |s.records|
    requires VectorHooked(s, s1, req, out, c, n)
    ensures s1.records[j].mmp == s.records[j].mmp
    ensures !Chosen(c, s.records[j].thread, |c|) ==>
              s1.vectors[s.records[j].mmp] == s.vectors[s.records[j].mmp]
  {
    if Chosen(c, s.records[j].thread, n) {
      var k :| 0 <= k < n && c[k] == Some(s.records[j].thread);
      assert Gets(s, c, k, j);
    }
    if !Chosen(c, s.records[j].thread, |c|) {
      forall l | 0 <= l < |s.records| && s.records[l].mmp == s.records[j].mmp
        ensures l == j
      {
        RecordUnique(s, l, j);
      }
      forall k | 0 <= k < |c|
        ensures req.items[k].ptr != s.records[j].mmp
      {
        assert !InUse(s, req.items[k].ptr);
      }
    }
  }

  /** Record j has been found for item i, which has not been mapped back yet. */
  ghost predicate ItemFound(s: State, s1: State, req: Request, out1: seq<Item>, c: Choice, i: nat, j: nat) {
    && RecordsOk(s) && Readable(s, req) && req.op == REPLACE_VECTOR && req.arg < START_TLS_INDEX
    && Fresh(s, req) && ValidChoice(s, |req.items|, c) && Gets(s, c, i, j)
    && VectorHooked(s, s1, req, out1, c, i)
    && s1.vectors[req.items[i].ptr] == s.vectors[req.items[i].ptr]
    && s1.records[j].mmp == s.records[j].mmp && |s1.vectors[s.records[j].mmp]| == MAXIMUM_TLS_INDEX
  }

  /** What mapping item i back to record j does to the state and the request. */
  ghost predicate ItemStep(
    s: State, s1: State, s2: State, req: Request, out1: seq<Item>, out2: seq<Item>, c: Choice, i: nat, j: nat)
  {
    && ItemFound(s, s1, req, out1, c, i, j)
    && s2 == s1.(vectors := s1.vectors[req.items[i].ptr := s1.vectors[s.records[j].mmp][..req.arg]
                                                            + s.vectors[req.items[i].ptr][req.arg..]],
                 records := s1.records[j := s1.records[j].(ldr := req.items[i].ptr)])
    && out2 == out1[i := Item(ASSIGNED, s.records[j].thread, s1.records[j].ldr)]
  }

  /** Items before i are mapped back: what the rest of the proof needs to know of it, and no more. */
  ghost predicate SoFar(s: State, s1: State, req: Request, out1: seq<Item>, c: Choice, i: nat, j: nat) {
    && RecordsOk(s) && Readable(s, req) && req.op == REPLACE_VECTOR && req.arg < START_TLS_INDEX
    && |c| == |req.items| == |out1| && Gets(s, c, i, j)
    && s1 == s.(vectors := s1.vectors, records := s1.records)
    && s1.vectors.Keys == s.vectors.Keys && |s1.records| == |s.records|
    && SlotsSwapped(s, s1, req, c) && ItemsGiven(s, s1, req, out1, c, i) && RestKept(s, s1, req, out1, c, i)
  }

  /** The step changes the vector that is given away, record j and item i. */
  ghost predicate OnlyItem(
    s1: State, s2: State, out1: seq<Item>, out2: seq<Item>, given: Address, i: nat, j: nat)
  {
    && s2 == s1.(vectors := s2.vectors, records := s2.records)
    && s2.vectors.Keys == s1.vectors.Keys && |s2.records| == |s1.records| && |out2| == |out1|
    && (forall v :: v in s1.vectors && v != given ==> s2.vectors[v] == s1.vectors[v])
    && (forall l :: 0 <= l < |s1.records| && l != j ==> s2.records[l] == s1.records[l])
    && (forall k :: 0 <= k < |out1| && k != i ==> out2[k] == out1[k])
  }

  lemma FoundSoFar(s: State, s1: State, req: Request, out1: seq<Item>, c: Choice, i: nat, j: nat)
    requires ItemFound(s, s1, req, out1, c, i, j)
    ensures SoFar(s, s1, req, out1, c, i, j)
  {
  }

  lemma StepIsLocal(
    s1: State, s2: State, out1: seq<Item>, out2: seq<Item>, given: Address, slots: Vector, item: Item, i: nat, j: nat)
    requires given in s1.vectors && j < |s1.records| && i < |out1|
    requires s2 == s1.(vectors := s1.vectors[given := slots],
                       records := s1.records[j := s1.records[j].(ldr := given)])
    requires out2 == out1[i := item]
    ensures OnlyItem(s1, s2, out1, out2, given, i, j)
  {
  }

  lemma ItemGiven(
    s: State, s1: State, s2: State, req: Request, out1: seq<Item>, out2: seq<Item>, c: Choice, i: nat, j: nat)
    requires ItemStep(s, s1, s2, req, out1, out2, c, i, j)
    ensures VectorHooked(s, s2, req, out2, c, i + 1)
  {
    FoundSoFar(s, s1, req, out1, c, i, j);
    var given := req.items[i].ptr;
    StepIsLocal(
      s1, s2, out1, out2, given, s1.vectors[s.records[j].mmp][..req.arg] + s.vectors[given][req.arg..],
      Item(ASSIGNED, s.records[j].thread, s1.records[j].ldr), i, j);
    ItemGivenHere(s, s1, s2, req, out1, out2, c, i, j);
    OthersGiven(s, req, c, i, j);
    ChosenNext(s, c, i, j);
    NewVectorNotPrivate(s, req, i);
    ItemGivenFacts(s, s1, s2, req, out1, out2, c, i, j);
  }

  lemma NewVectorNotPrivate(s: State, req: Request, i: nat)
    requires RecordsOk(s) && Readable(s, req) && req.op == REPLACE_VECTOR && req.arg < START_TLS_INDEX
    requires Fresh(s, req) && i < |req.items|
    ensures forall l :: 0 <= l < |s.records| ==> s.records[l].mmp != req.items[i].ptr
  {
    assert !InUse(s, req.items[i].ptr);
  }

  lemma ItemGivenFacts(
    s: State, s1: State, s2: State, req: Request, out1: seq<Item>, out2: seq<Item>, c: Choice, i: nat, j: nat)
    requires SoFar(s, s1, req, out1, c, i, j) && OnlyItem(s1, s2, out1, out2, req.items[i].ptr, i, j)
    requires ItemHere(s, s2, req, out2, i, j)
    requires forall k: nat, l: nat :: Gets(s, c, k, l) && k < i + 1 ==>
               (k == i && l == j) || (k < i && l != j && req.items[k].ptr != req.items[i].ptr)
    requires forall l :: 0 <= l < |s.records| ==>
               (Chosen(c, s.records[l].thread, i + 1) <==> Chosen(c, s.records[l].thread, i) || l == j)
    requires forall l :: 0 <= l < |s.records| ==> s.records[l].mmp != req.items[i].ptr
    ensures VectorHooked(s, s2, req, out2, c, i + 1)
  {
    ItemGivenSlots(s, s1, s2, req, c, req.items[i].ptr);
    ItemsGivenNext(s, s1, s2, req, out1, out2, c, i, j);
    ItemGivenRest(s, s1, s2, req, out1, out2, c, i, j);
  }

  lemma ItemGivenSlots(s: State, s1: State, s2: State, req: Request, c: Choice, given: Address)
    requires RecordsOk(s) && Readable(s, req) && req.op == REPLACE_VECTOR && req.arg < START_TLS_INDEX
    requires |c| == |req.items| && s1.vectors.Keys == s.vectors.Keys == s2.vectors.Keys
    requires SlotsSwapped(s, s1, req, c)
    requires forall v :: v in s.vectors && v != given ==> s2.vectors[v] == s1.vectors[v]
    requires forall l :: 0 <= l < |s.records| ==> s.records[l].mmp != given
    ensures SlotsSwapped(s, s2, req, c)
  {
  }

  /** The items before i went to other records and have other vectors. */
  lemma OthersGiven(s: State, req: Request, c: Choice, i: nat, j: nat)
    requires RecordsOk(s) && Readable(s, req) && req.op == REPLACE_VECTOR && req.arg < START_TLS_INDEX
    requires Fresh(s, req) && ValidChoice(s, |req.items|, c) && Gets(s, c, i, j)
    ensures forall k: nat, l: nat :: Gets(s, c, k, l) && k < i + 1 ==>
              (k == i && l == j) || (k < i && l != j && req.items[k].ptr != req.items[i].ptr)
  {
    forall k: nat, l: nat | Gets(s, c, k, l) && k < i + 1
      ensures (k == i && l == j) || (k < i && l != j && req.items[k].ptr != req.items[i].ptr)
    {
      if k == i {
        RecordUnique(s, l, j);
      }
    }
  }

  lemma ItemsGivenNext(
    s: State, s1: State, s2: State, req: Request, out1: seq<Item>, out2: seq<Item>, c: Choice, i: nat, j: nat)
    requires RecordsOk(s) && Readable(s, req) && req.op == REPLACE_VECTOR && req.arg < START_TLS_INDEX
    requires |c| == |req.items| == |out1| == |out2| && Gets(s, c, i, j)
    requires s1.vectors.Keys == s.vectors.Keys == s2.vectors.Keys
    requires |s.records| == |s1.records| == |s2.records|
    requires ItemsGiven(s, s1, req, out1, c, i) && ItemHere(s, s2, req, out2, i, j)
    requires forall k: nat, l: nat :: Gets(s, c, k, l) && k < i + 1 ==>
               (k == i && l == j) || (k < i && l != j && req.items[k].ptr != req.items[i].ptr)
    requires forall l :: 0 <= l < |s.records| && l != j ==> s2.records[l] == s1.records[l]
    requires forall k :: 0 <= k < |c| && k != i ==> out2[k] == out1[k]
    requires forall v :: v in s.vectors && v != req.items[i].ptr ==> s2.vectors[v] == s1.vectors[v]
    ensures ItemsGiven(s, s2, req, out2, c, i + 1)
  {
  }

  /** Item i is mapped back to record j. */
  ghost predicate ItemHere(s: State, s2: State, req: Request, out2: seq<Item>, i: nat, j: nat)
    requires RecordsOk(s) && Readable(s, req) && req.op == REPLACE_VECTOR && req.arg < START_TLS_INDEX
    requires i < |req.items| == |out2| && j < |s.records| == |s2.records| && s2.vectors.Keys == s.vectors.Keys
  {
    && s2.records[j] == s.records[j].(ldr := req.items[i].ptr)
    && s2.vectors[req.items[i].ptr]
       == s.vectors[s.records[j].mmp][..req.arg] + s.vectors[req.items[i].ptr][req.arg..]
    && out2[i] == Item(ASSIGNED, s.records[j].thread, s.records[j].ldr)
  }

  lemma ItemGivenHere(
    s: State, s1: State, s2: State, req: Request, out1: seq<Item>, out2: seq<Item>, c: Choice, i: nat, j: nat)
    requires ItemStep(s, s1, s2, req, out1, out2, c, i, j)
    ensures ItemHere(s, s2, req, out2, i, j)
  {
    assert !Chosen(c, s.records[j].thread, i);
    assert s1.records[j] == s.records[j];
    assert s1.vectors[s.records[j].mmp][..req.arg] == s.vectors[s.records[j].mmp][..req.arg];
  }

  lemma ItemGivenRest(
    s: State, s1: State, s2: State, req: Request, out1: seq<Item>, out2: seq<Item>, c: Choice, i: nat, j: nat)
    requires |c| == |req.items| == |out1| == |out2| && Gets(s, c, i, j)
    requires s1.vectors.Keys == s.vectors.Keys == s2.vectors.Keys
    requires |s.records| == |s1.records| == |s2.records|
    requires RestKept(s, s1, req, out1, c, i)
    requires forall l :: 0 <= l < |s.records| ==>
               (Chosen(c, s.records[l].thread, i + 1) <==> Chosen(c, s.records[l].thread, i) || l == j)
    requires forall l :: 0 <= l < |s.records| && l != j ==> s2.records[l] == s1.records[l]
    requires forall k :: 0 <= k < |c| && k != i ==> out2[k] == out1[k]
    requires forall v :: v in s.vectors && v != req.items[i].ptr ==> s2.vectors[v] == s1.vectors[v]
    ensures RestKept(s, s2, req, out2, c, i + 1)
  {
    forall v | v in s.vectors && !SwappedVector(s, c, v) && !GivenVector(req, c, v, i + 1)
      ensures s2.vectors[v] == s.vectors[v]
    {
      assert !GivenVector(req, c, v, i) && v != req.items[i].ptr;
    }
  }

  lemma ChosenNext(s: State, c: Choice, i: nat, j: nat)
    requires RecordsOk(s) && ValidChoice(s, |c|, c) && Gets(s, c, i, j)
    ensures forall l :: 0 <= l < |s.records| ==>
              (Chosen(c, s.records[l].thread, i + 1) <==> Chosen(c, s.records[l].thread, i) || l == j)
  {
    forall l | 0 <= l < |s.records|
      ensures Chosen(c, s.records[l].thread, i + 1) <==> Chosen(c, s.records[l].thread, i) || l == j
    {
      if s.records[l].thread == s.records[j].thread {
        RecordUnique(s, l, j);
      }
    }
  }

  lemma ItemUnused(s: State, s1: State, req: Request, out1: seq<Item>, out2: seq<Item>, c: Choice, i: nat)
    requires RecordsOk(s) && Readable(s, req) && req.op == REPLACE_VECTOR && req.arg < START_TLS_INDEX
    requires Fresh(s, req) && ValidChoice(s, |req.items|, c) && i < |c|
    requires VectorHooked(s, s1, req, out1, c, i)
    requires forall j: nat :: !Gets(s, c, i, j)
    requires c[i].None? ==> out2 == out1[i := req.items[i]]
    ensures VectorHooked(s, s1, req, out2, c, i + 1)
  {
    if c[i].Some? {
      var j := ChosenRecord(s, c, i);
    } else {
      assert out2 == out1;
      assert ItemsGiven(s, s1, req, out1, c, i) && RestKept(s, s1, req, out1, c, i);
      UnusedKeeps(s, s1, req, out1, c, i);
    }
  }

  lemma UnusedKeeps(s: State, s1: State, req: Request, out: seq<Item>, c: Choice, i: nat)
    requires RecordsOk(s) && Readable(s, req) && req.op == REPLACE_VECTOR && req.arg < START_TLS_INDEX
    requires |c| == |req.items| == |out| && i < |c| && c[i].None?
    requires s1.vectors.Keys == s.vectors.Keys && |s1.records| == |s.records|
    requires ItemsGiven(s, s1, req, out, c, i) && RestKept(s, s1, req, out, c, i)
    ensures ItemsGiven(s, s1, req, out, c, i + 1) && RestKept(s, s1, req, out, c, i + 1)
  {
    forall t | Chosen(c, t, i)
      ensures Chosen(c, t, i + 1)
    {
    }
  }

  /** What the hook demands of a caller whose request it passes on. */
  ghost predicate HookReady(s: State, byNtdll: bool, req: Request, kernel: Option<Choice>)
    requires Safe(s) && Servable(byNtdll, req)
  {
    && Readable(s, req) && Fresh(s, req)
    && (byNtdll && req.op == REPLACE_INDEX && kernel.Some? ==> SlotsThere(s, req, kernel.value))
  }

  /** The hook's answer, each by its guard. */
  predicate HookStatus(byNtdll: bool, req: Request, bufferOk: bool, served: bool, status: NtStatus) {
    && (status == Success <==>
          bufferOk && served && if byNtdll then req.op < 2 && req.arg < 0x80
                                else req.op == 0 && 0x80 <= req.arg < 0x100)
    && (req.op >= 2 ==> status == InvalidParameter)
    && (req.op < 2 && !bufferOk ==> status == NoMemory)
    && (req.op == 1 && bufferOk && !byNtdll ==> status == InvalidParameter)
    && (req.op < 2 && bufferOk && byNtdll && req.arg >= 0x80 ==> status == NoMemory)
    && (req.op == 0 && bufferOk && !byNtdll && !(0x80 <= req.arg < 0x100) ==> status == NoMemory)
    && (bufferOk && !served && Servable(byNtdll, req) ==> status == KernelRefused)
  }

  /** How a hooked call ends: refused, with nothing changed, or served by the kernel and mapped back. */
  ghost predicate HookEnds(
    s: State, s': State, byNtdll: bool, req: Request, bufferOk: bool, kernel: Option<Choice>, status: NtStatus,
    items: seq<Item>)
    requires RecordsOk(s) && (Servable(byNtdll, req) ==> Readable(s, req))
    requires kernel.Some? ==> ValidChoice(s, |req.items|, kernel.value)
  {
    && HookStatus(byNtdll, req, bufferOk, kernel.Some?, status)
    && if status != Success then s' == s && items == req.items
       else if req.op == REPLACE_VECTOR then VectorHooked(s, s', req, items, kernel.value, |kernel.value|)
       else IndexHooked(s, s', byNtdll, req, items, kernel.value, |kernel.value|)
  }

  ghost predicate IndexRequestReady(s: State, byNtdll: bool, req: Request, c: Choice) {
    && RecordsOk(s) && req.op == REPLACE_INDEX && req.arg < MAXIMUM_TLS_INDEX
    && Fresh(s, req) && ValidChoice(s, |req.items|, c)
    && (byNtdll ==> SlotsThere(s, req, c))
  }

  /** The kernel sets Flags and ThreadId of the items it used, and leaves the others alone. */
  predicate Answers(req: Request, served: seq<Item>, c: Choice)
    requires |c| == |req.items|
  {
    && |served| == |req.items|
    && (forall i :: 0 <= i < |c| ==>
          if c[i].Some? then served[i].flags == ASSIGNED && served[i].thread == c[i].value
          else served[i].flags == req.items[i].flags && served[i].thread == req.items[i].thread)
  }

  /** The kernel returns the slots it replaced. */
  ghost predicate OldSlots(s: State, req: Request, served: seq<Item>, c: Choice)
    requires RecordsOk(s) && req.arg < MAXIMUM_TLS_INDEX && |c| == |req.items| == |served|
  {
    forall i: nat, j: nat :: Gets(s, c, i, j) ==> served[i].ptr == s.vectors[s.records[j].mmp][req.arg]
  }

  lemma KernelServedVector(
    s: State, s1: State, req: Request, pointers: seq<Item>, served: seq<Item>, c: Choice)
    requires RecordsOk(s) && Readable(s, req) && req.op == REPLACE_VECTOR && req.arg < START_TLS_INDEX
    requires ValidChoice(s, |req.items|, c) && |pointers| == |req.items|
    requires forall i :: 0 <= i < |pointers| ==> pointers[i] == req.items[i].(ptr := Pointer(s, req, i))
    requires IndexHooked(s, s1, false, Request(REPLACE_INDEX, req.arg, pointers), served, c, |c|)
    ensures Answers(req, served, c)
    ensures VectorHooked(s, s1, req, req.items, c, 0)
  {
    forall i | 0 <= i < |c|
      ensures if c[i].Some? then served[i].flags == ASSIGNED && served[i].thread == c[i].value
              else served[i].flags == req.items[i].flags && served[i].thread == req.items[i].thread
    {
      if c[i].Some? {
        var j := ChosenRecord(s, c, i);
      }
    }
  }

  lemma KernelServedIndex(s: State, s1: State, byNtdll: bool, req: Request, served: seq<Item>, c: Choice)
    requires RecordsOk(s) && req.op == REPLACE_INDEX && req.arg < MAXIMUM_TLS_INDEX
    requires ValidChoice(s, |req.items|, c)
    requires IndexHooked(s, s1, false, Request(REPLACE_INDEX, req.arg, req.items), served, c, |c|)
    ensures Answers(req, served, c) && OldSlots(s, req, served, c)
    ensures IndexHooked(s, s1, byNtdll, req, req.items, c, 0)
  {
    forall i | 0 <= i < |c|
      ensures if c[i].Some? then served[i].flags == ASSIGNED && served[i].thread == c[i].value
              else served[i].flags == req.items[i].flags && served[i].thread == req.items[i].thread
    {
      if c[i].Some? {
        var j := ChosenRecord(s, c, i);
      }
    }
  }

  lemma IndexSlotsAtItem(
    s: State, s1: State, byNtdll: bool, req: Request, items: seq<Item>, c: Choice, i: nat)
    requires IndexRequestReady(s, byNtdll, req, c) && i < |c| && IndexHooked(s, s1, byNtdll, req, items, c, i)
    ensures forall j :: 0 <= j < |s.records| ==>
              && |s1.vectors[s.records[j].mmp]| == MAXIMUM_TLS_INDEX
              && (s1.vectors[s.records[j].mmp][req.arg] == req.items[i].ptr <==> Gets(s, c, i, j))
  {
    forall j | 0 <= j < |s.records| && !Chosen(c, s.records[j].thread, |c|)
      ensures s1.vectors[s.records[j].mmp] == s.vectors[s.records[j].mmp]
    {
      PrivateKept(s, c, j, i);
    }
    forall j | 0 <= j < |s.records|
      ensures |s1.vectors[s.records[j].mmp]| == MAXIMUM_TLS_INDEX
      ensures s1.vectors[s.records[j].mmp][req.arg] == req.items[i].ptr <==> Gets(s, c, i, j)
    {
      FoundIsChosen(s, s1, req, c, i, j);
    }
  }

  lemma PrivateKept(s: State, c: Choice, j: nat, n: nat)
    requires RecordsOk(s) && j < |s.records| && n <= |c|
    ensures !PublishedVector(s, c, s.records[j].mmp, n)
    ensures !Chosen(c, s.records[j].thread, |c|) ==> !SwappedVector(s, c, s.records[j].mmp)
  {
    forall l | 0 <= l < |s.records|
      ensures s.records[l].ldr != s.records[j].mmp
      ensures s.records[l].mmp == s.records[j].mmp ==> l == j
    {
      LdrNotPrivate(s, l);
      if s.records[l].mmp == s.records[j].mmp {
        RecordUnique(s, l, j);
      }
    }
  }

  /** A thread's LDR vector is its own: no other record publishes to it. */
  lemma LdrSlotAtItem(s: State, s1: State, req: Request, items: seq<Item>, c: Choice, i: nat, j: nat)
    requires IndexRequestReady(s, true, req, c) && Gets(s, c, i, j) && IndexHooked(s, s1, true, req, items, c, i)
    ensures s1.vectors[s.records[j].ldr] == s.vectors[s.records[j].ldr]
    ensures req.arg < |s.vectors[s.records[j].ldr]|
  {
    LdrNotPrivate(s, j);
    assert !Chosen(c, s.records[j].thread, i);
    assert !PublishedVector(s, c, s.records[j].ldr, i) by {
      forall l | 0 <= l < |s.records| && s.records[l].ldr == s.records[j].ldr
        ensures l == j
      {
        SameLdr(s, l, j);
      }
    }
    assert !SwappedVector(s, c, s.records[j].ldr);
  }

  lemma SameLdr(s: State, l: nat, j: nat)
    requires RecordsOk(s) && l < |s.records| && j < |s.records| && s.records[l].ldr == s.records[j].ldr
    ensures l == j
  {
    assert l < j ==> Apart(s.records[l], s.records[j]);
    assert j < l ==> Apart(s.records[j], s.records[l]);
  }

  lemma SlotPublished(
    s: State, s1: State, s2: State, byNtdll: bool, req: Request, out1: seq<Item>, out2: seq<Item>, c: Choice,
    i: nat, j: nat)
    requires IndexRequestReady(s, byNtdll, req, c) && Gets(s, c, i, j)
    requires IndexHooked(s, s1, byNtdll, req, out1, c, i)
    requires byNtdll ==> s1.vectors[s.records[j].ldr] == s.vectors[s.records[j].ldr]
                         && req.arg < |s.vectors[s.records[j].ldr]|
    requires s2 == s1.(vectors :=
               if byNtdll then s1.vectors[s.records[j].ldr := s.vectors[s.records[j].ldr][req.arg := req.items[i].ptr]]
               else s1.vectors)
    requires out2 == out1[i := Item(ASSIGNED, s.records[j].thread, s.vectors[s.records[j].mmp][req.arg])]
    ensures IndexHooked(s, s2, byNtdll, req, out2, c, i + 1)
  {
    LdrNotPrivate(s, j);
    SlotPublishedSwaps(s, s1, s2, byNtdll, req, c, s.records[j].ldr);
    SlotPublishedItems(s, s1, s2, byNtdll, req, out1, out2, c, i, j);
    ChosenNext(s, c, i, j);
    SlotPublishedRest(s, s1, s2, byNtdll, req, out1, out2, c, i, j);
  }

  lemma SlotPublishedSwaps(
    s: State, s1: State, s2: State, byNtdll: bool, req: Request, c: Choice, ldr: Address)
    requires RecordsOk(s) && req.arg < MAXIMUM_TLS_INDEX && |c| == |req.items| && !Private(s.records, ldr)
    requires s1.vectors.Keys == s.vectors.Keys == s2.vectors.Keys && IndexSwapped(s, s1, req, c)
    requires forall v :: v in s.vectors && !(byNtdll && v == ldr) ==> s2.vectors[v] == s1.vectors[v]
    ensures IndexSwapped(s, s2, req, c)
  {
    forall i: nat, j: nat | Gets(s, c, i, j)
      ensures s2.vectors[s.records[j].mmp] == s.vectors[s.records[j].mmp][req.arg := req.items[i].ptr]
    {
      assert Backed(s, s.records[j]) && s.records[j].mmp != ldr;
    }
  }

  lemma SlotPublishedItems(
    s: State, s1: State, s2: State, byNtdll: bool, req: Request, out1: seq<Item>, out2: seq<Item>, c: Choice,
    i: nat, j: nat)
    requires IndexRequestReady(s, byNtdll, req, c) && Gets(s, c, i, j)
    requires s1.vectors.Keys == s.vectors.Keys && |c| == |out1|
    requires IndexPublished(s, s1, byNtdll, req, out1, c, i)
    requires byNtdll ==> req.arg < |s.vectors[s.records[j].ldr]|
    requires s2.vectors ==
               if byNtdll then s1.vectors[s.records[j].ldr := s.vectors[s.records[j].ldr][req.arg := req.items[i].ptr]]
               else s1.vectors
    requires out2 == out1[i := Item(ASSIGNED, s.records[j].thread, s.vectors[s.records[j].mmp][req.arg])]
    ensures s2.vectors.Keys == s.vectors.Keys && IndexPublished(s, s2, byNtdll, req, out2, c, i + 1)
  {
    LdrNotPrivate(s, j);
    forall k: nat, l: nat | Gets(s, c, k, l) && k < i + 1
      ensures (k == i && l == j) || (k < i && l != j && s.records[l].ldr != s.records[j].ldr)
    {
      if k == i {
        RecordUnique(s, l, j);
      } else if s.records[l].ldr == s.records[j].ldr {
        SameLdr(s, l, j);
      }
    }
  }

  lemma SlotPublishedRest(
    s: State, s1: State, s2: State, byNtdll: bool, req: Request, out1: seq<Item>, out2: seq<Item>, c: Choice,
    i: nat, j: nat)
    requires |c| == |req.items| == |out1| == |out2| && Gets(s, c, i, j)
    requires s1.vectors.Keys == s.vectors.Keys == s2.vectors.Keys
    requires IndexKept(s, s1, byNtdll, req, out1, c, i)
    requires forall l :: 0 <= l < |s.records| ==>
               (Chosen(c, s.records[l].thread, i + 1) <==> Chosen(c, s.records[l].thread, i) || l == j)
    requires forall k :: 0 <= k < |c| && k != i ==> out2[k] == out1[k]
    requires forall v :: v in s.vectors && !(byNtdll && v == s.records[j].ldr) ==> s2.vectors[v] == s1.vectors[v]
    ensures IndexKept(s, s2, byNtdll, req, out2, c, i + 1)
  {
    forall v | v in s.vectors && !SwappedVector(s, c, v) && !(byNtdll && PublishedVector(s, c, v, i + 1))
      ensures s2.vectors[v] == s.vectors[v]
    {
      if byNtdll {
        assert !PublishedVector(s, c, v, i) by {
          forall l | 0 <= l < |s.records| && s.records[l].ldr == v
            ensures !Chosen(c, s.records[l].thread, i)
          {
            assert !Chosen(c, s.records[l].thread, i + 1);
          }
        }
        assert Chosen(c, s.records[j].thread, i + 1);
      }
    }
  }

  lemma SlotUnused(
    s: State, s1: State, byNtdll: bool, req: Request, out1: seq<Item>, out2: seq<Item>, c: Choice, i: nat)
    requires IndexRequestReady(s, byNtdll, req, c) && i < |c| && IndexHooked(s, s1, byNtdll, req, out1, c, i)
    requires forall j: nat :: !Gets(s, c, i, j)
    requires c[i].None? ==> out2 == out1[i := req.items[i]]
    ensures IndexHooked(s, s1, byNtdll, req, out2, c, i + 1)
  {
    if c[i].Some? {
      var j := ChosenRecord(s, c, i);
    } else {
      assert out2 == out1;
      assert IndexPublished(s, s1, byNtdll, req, out1, c, i) && IndexKept(s, s1, byNtdll, req, out1, c, i);
      UnusedSlotKeeps(s, s1, byNtdll, req, out1, c, i);
    }
  }

  lemma UnusedSlotKeeps(s: State, s1: State, byNtdll: bool, req: Request, out: seq<Item>, c: Choice, i: nat)
    requires RecordsOk(s) && req.arg < MAXIMUM_TLS_INDEX
    requires |c| == |req.items| == |out| && i < |c| && c[i].None? && s1.vectors.Keys == s.vectors.Keys
    requires IndexPublished(s, s1, byNtdll, req, out, c, i) && IndexKept(s, s1, byNtdll, req, out, c, i)
    ensures IndexPublished(s, s1, byNtdll, req, out, c, i + 1) && IndexKept(s, s1, byNtdll, req, out, c, i + 1)
  {
    NoOneChosen(s, c, i);
  }

  /** An item that nobody got chooses no thread. */
  lemma NoOneChosen(s: State, c: Choice, i: nat)
    requires i < |c| && c[i].None?
    ensures forall v :: PublishedVector(s, c, v, i) ==> PublishedVector(s, c, v, i + 1)
    ensures forall v :: SwappedBelow(s, c, v, i) ==> SwappedBelow(s, c, v, i + 1)
  {
    forall t | Chosen(c, t, i)
      ensures Chosen(c, t, i + 1)
    {
    }
  }
}
