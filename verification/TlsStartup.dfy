/**
 * The start of TLS virtualisation: the pre-hook moves every running thread to a private vector with the kernel's
 * own ReplaceVector, and records each vector it sent.
 */
module TlsStartup {
  import opened Sequences
  import opened Wrappers
  import opened TlsState
  import opened TlsHook
  import opened TlsThreads
  import opened TlsSystem

  /** The state before: threads on vectors of their own, and nothing recorded, listed or queued; `sent` are the
      vectors the heap returned, one for each thread that the pre-hook counted, and `ids` the records'.  The
      count that is kept was taken before. */
  ghost predicate Ready(s: State, len: nat, sent: seq<Address>, ids: seq<Address>) {
    && s.records == [] && s.entries == [] && s.postponed == [] && s.heap == map[]
    && s.bitmap == seq(MAXIMUM_TLS_INDEX, k => k < START_TLS_INDEX) && |sent| == |ids|
    && len <= START_TLS_INDEX
    && (forall t :: t in s.teb ==> s.teb[t] in s.vectors && len <= |s.vectors[s.teb[t]]| <= START_TLS_INDEX)
    && (forall t, u :: t in s.teb && u in s.teb && t != u ==> s.teb[t] != s.teb[u])
    && (forall i :: 0 <= i < |sent| ==> sent[i] !in s.vectors)
    && (forall i, j :: 0 <= i < j < |sent| ==> sent[i] != sent[j])
    && (forall i, j :: 0 <= i < j < |sent| ==> ids[i] != ids[j])
  }

  /** What the kernel leaves in a sent vector: the chosen thread's first slots, or nothing. */
  function Moved(slots: Vector, len: nat): (v: Vector)
    requires len <= |slots| && len <= MAXIMUM_TLS_INDEX
    ensures |v| == MAXIMUM_TLS_INDEX
  {
    slots[..len] + Repeat<Address>(0, MAXIMUM_TLS_INDEX - len)
  }

  /** The record made for an item: an item that no thread got is recorded as it was sent, under thread id 0. */
  function Recorded(s: State, sent: Address, id: Address, t: Option<ThreadId>): Record
    requires t.Some? ==> t.value in s.teb
  {
    match t
    case None => Record(id, 0, sent, sent)
    case Some(u) => Record(id, u, s.teb[u], sent)
  }

  function Sent(sent: seq<Address>, n: nat): set<Address>
    requires n <= |sent|
  {
    set i | 0 <= i < n :: sent[i]
  }

  /** The threads of the first n items run on the vectors that were sent. */
  ghost predicate ThreadsMoved(
    teb: map<ThreadId, Address>, teb': map<ThreadId, Address>, sent: seq<Address>, c: Choice, n: nat)
    requires |sent| == |c| && n <= |c|
  {
    && teb'.Keys == teb.Keys
    && (forall i :: 0 <= i < n && c[i].Some? ==> c[i].value in teb' && teb'[c[i].value] == sent[i])
    && (forall t :: t in teb && !Chosen(c, t, n) ==> teb'[t] == teb[t])
  }

  /** What vector i that was sent holds once the first n items are served. */
  function Held(s: State, len: nat, c: Choice, i: nat, n: nat): Vector
    requires len <= MAXIMUM_TLS_INDEX && ValidChoice(s, |c|, c) && i < |c|
    requires forall t :: t in s.teb ==> s.teb[t] in s.vectors && len <= |s.vectors[s.teb[t]]|
  {
    if i < n && c[i].Some? then Moved(s.vectors[s.teb[c[i].value]], len) else Repeat<Address>(0, MAXIMUM_TLS_INDEX)
  }

  ghost predicate VectorsFilled(
    s: State, vectors: map<Address, Vector>, len: nat, sent: seq<Address>, c: Choice, n: nat)
    requires len <= MAXIMUM_TLS_INDEX && ValidChoice(s, |sent|, c) && n <= |c|
    requires forall t :: t in s.teb ==> s.teb[t] in s.vectors && len <= |s.vectors[s.teb[t]]|
  {
    && vectors.Keys == s.vectors.Keys + Sent(sent, |sent|)
    && (forall i :: 0 <= i < |sent| ==> sent[i] in vectors && vectors[sent[i]] == Held(s, len, c, i, n))
    && (forall v :: v in s.vectors ==> vectors[v] == s.vectors[v])
  }

  /** The kernel has served the first n items. */
  ghost predicate Served(s: State, s': State, len: nat, sent: seq<Address>, ids: seq<Address>, c: Choice, n: nat)
    requires Ready(s, len, sent, ids) && ValidChoice(s, |sent|, c) && n <= |c|
  {
    && s' == s.(teb := s'.teb, vectors := s'.vectors, records := s'.records)
    && ThreadsMoved(s.teb, s'.teb, sent, c, n)
    && VectorsFilled(s, s'.vectors, len, sent, c, n)
  }

  /** The first n items name the threads that got them and their previous vectors, or are as they were sent. */
  ghost predicate Answered(teb: map<ThreadId, Address>, sent: seq<Address>, c: Choice, out: seq<Item>, n: nat)
    requires n <= |c| == |sent|
  {
    && |out| == n
    && forall i :: 0 <= i < n ==>
         match c[i]
         case None => out[i] == Item(0, 0, sent[i])
         case Some(t) => t in teb && out[i] == Item(ASSIGNED, t, teb[t])
  }

  /** The first m items are recorded. */
  ghost predicate RecordedUpTo(s: State, s': State, sent: seq<Address>, ids: seq<Address>, c: Choice, m: nat)
    requires |sent| == |ids| && ValidChoice(s, |sent|, c) && m <= |c|
  {
    |s'.records| == m && forall i :: 0 <= i < m ==> s'.records[i] == Recorded(s, sent[i], ids[i], c[i])
  }

  /** What a served pre-hook leaves. */
  ghost predicate PreHooked(s: State, s': State, len: nat, sent: seq<Address>, ids: seq<Address>, c: Choice)
    requires Ready(s, len, sent, ids) && ValidChoice(s, |sent|, c)
  {
    Served(s, s', len, sent, ids, c, |c|) && RecordedUpTo(s, s', sent, ids, c, |c|)
  }

  // ---------- One item ----------

  /** Moving item n's thread serves it and disturbs no other. */
  lemma ThreadMoved(
    teb: map<ThreadId, Address>, teb1: map<ThreadId, Address>, teb2: map<ThreadId, Address>, sent: seq<Address>,
    c: Choice, n: nat)
    requires n < |c| == |sent| && ThreadsMoved(teb, teb1, sent, c, n)
    requires forall i :: 0 <= i < n && c[i].Some? && c[n].Some? ==> c[i] != c[n]
    requires c[n].Some? ==> c[n].value in teb
    requires teb2 == if c[n].Some? then teb1[c[n].value := sent[n]] else teb1
    ensures ThreadsMoved(teb, teb2, sent, c, n + 1)
  {
    forall t: ThreadId
      ensures Chosen(c, t, n + 1) <==> Chosen(c, t, n) || c[n] == Some(t)
    {
      ChosenMore(c, t, n);
    }
  }

  lemma ChosenMore(c: Choice, t: ThreadId, n: nat)
    requires n < |c|
    ensures Chosen(c, t, n + 1) <==> Chosen(c, t, n) || c[n] == Some(t)
  {
    if Chosen(c, t, n) {
      var i :| 0 <= i < n && c[i] == Some(t);
      assert c[i] == Some(t) && i < n + 1;
    }
  }

  lemma VectorFilled(
    s: State, v1: map<Address, Vector>, v2: map<Address, Vector>, len: nat, sent: seq<Address>, c: Choice, n: nat)
    requires len <= MAXIMUM_TLS_INDEX && ValidChoice(s, |sent|, c) && n < |c|
    requires forall t :: t in s.teb ==> s.teb[t] in s.vectors && len <= |s.vectors[s.teb[t]]|
    requires forall i :: 0 <= i < |sent| ==> sent[i] !in s.vectors
    requires forall i, j :: 0 <= i < j < |sent| ==> sent[i] != sent[j]
    requires VectorsFilled(s, v1, len, sent, c, n)
    requires v2 == if c[n].Some? then v1[sent[n] := Held(s, len, c, n, n + 1)] else v1
    ensures VectorsFilled(s, v2, len, sent, c, n + 1)
  {
    assert forall i :: 0 <= i < |sent| && i != n ==> sent[i] != sent[n];
    forall i | 0 <= i < |sent|
      ensures v2[sent[i]] == Held(s, len, c, i, n + 1)
    {
      assert v1[sent[i]] == Held(s, len, c, i, n);
    }
  }

  lemma ServedNext(
    s: State, s1: State, s2: State, len: nat, sent: seq<Address>, ids: seq<Address>, c: Choice, n: nat)
    requires Ready(s, len, sent, ids) && ValidChoice(s, |sent|, c) && n < |c|
    requires Served(s, s1, len, sent, ids, c, n)
    requires s2 == if c[n].None? then s1
                   else s1.(teb := s1.teb[c[n].value := sent[n]],
                            vectors := s1.vectors[sent[n] := Held(s, len, c, n, n + 1)])
    ensures Served(s, s2, len, sent, ids, c, n + 1)
  {
    ThreadMoved(s.teb, s1.teb, s2.teb, sent, c, n);
    VectorFilled(s, s1.vectors, s2.vectors, len, sent, c, n);
  }

  lemma NothingServed(
    s: State, len: nat, sent: seq<Address>, ids: seq<Address>, c: Choice, vectors: map<Address, Vector>)
    requires Ready(s, len, sent, ids) && ValidChoice(s, |sent|, c)
    requires vectors == s.vectors + (map v | v in Sent(sent, |sent|) :: Repeat<Address>(0, MAXIMUM_TLS_INDEX))
    ensures Served(s, s.(vectors := vectors), len, sent, ids, c, 0)
  {
    forall i | 0 <= i < |sent|
      ensures sent[i] in vectors && vectors[sent[i]] == Held(s, len, c, i, 0)
    {
      assert sent[i] in Sent(sent, |sent|);
    }
    assert VectorsFilled(s, vectors, len, sent, c, 0);
  }

  lemma NotYetMoved(s: State, c: Choice, n: nat)
    requires ValidChoice(s, |c|, c) && n < |c| && c[n].Some?
    ensures !Chosen(c, c[n].value, n)
  {
  }

  // ---------- When the invariant holds ----------

  /** Every item went to a thread, and every thread got one. */
  ghost predicate AllMoved(s: State, c: Choice) {
    && (forall i :: 0 <= i < |c| ==> c[i].Some?)
    && (forall t :: t in s.teb ==> Chosen(c, t, |c|))
  }

  ghost predicate NoSlotBeyond(s: State, len: nat)
    requires forall t :: t in s.teb ==> s.teb[t] in s.vectors
  {
    forall t, k :: t in s.teb && len <= k < |s.vectors[s.teb[t]]| ==> s.vectors[s.teb[t]][k] == 0
  }

  /** The pre-hook establishes the invariant exactly when every thread that it counted is still there, no thread
      has come since, the count taken before was no lower, and no thread has a slot in use beyond the calling
      thread's vector length. */
  lemma PreHookInvIff(s: State, s': State, len: nat, sent: seq<Address>, ids: seq<Address>, c: Choice)
    requires Ready(s, len, sent, ids) && ValidChoice(s, |sent|, c) && PreHooked(s, s', len, sent, ids, c)
    ensures Inv(s') <==> AllMoved(s, c) && |sent| <= s.active && NoSlotBeyond(s, len)
  {
    if AllMoved(s, c) {
      MovedInvIff(s, s', len, sent, ids, c);
    } else {
      SomeoneMissed(s, s', sent, ids, c);
    }
  }

  lemma SomeoneMissed(s: State, s': State, sent: seq<Address>, ids: seq<Address>, c: Choice)
    requires |sent| == |ids| && ValidChoice(s, |sent|, c) && RecordedUpTo(s, s', sent, ids, c, |c|)
    requires s'.teb.Keys == s.teb.Keys && !AllMoved(s, c)
    ensures !RecordsOk(s')
  {
    if exists i: nat :: i < |c| && c[i].None? {
      var i: nat :| i < |c| && c[i].None?;
      LostItemUnbacked(s, s', sent, ids, c, i);
    } else {
      var t :| t in s.teb && !Chosen(c, t, |c|);
      NewcomerUnregistered(s, s', sent, ids, c, t);
    }
  }

  lemma MovedInvIff(s: State, s': State, len: nat, sent: seq<Address>, ids: seq<Address>, c: Choice)
    requires Ready(s, len, sent, ids) && ValidChoice(s, |sent|, c) && PreHooked(s, s', len, sent, ids, c)
    requires AllMoved(s, c)
    ensures Inv(s') <==> |sent| <= s.active && NoSlotBeyond(s, len)
  {
    MovedIsInitial(s, s', len, sent, ids, c);
    InitialInvIff(s', EarlyOf(s, sent, ids, c), len);
    BeyondEarly(s, len, sent, ids, c);
  }

  /** The record of an item that no thread got names one vector twice. */
  lemma LostItemUnbacked(s: State, s': State, sent: seq<Address>, ids: seq<Address>, c: Choice, i: nat)
    requires |sent| == |ids| && ValidChoice(s, |sent|, c) && RecordedUpTo(s, s', sent, ids, c, |c|)
    requires i < |c| && c[i].None?
    ensures !RecordsOk(s')
  {
    assert s'.records[i] == Recorded(s, sent[i], ids[i], c[i]);
    assert !Backed(s', s'.records[i]);
  }

  lemma NewcomerUnregistered(
    s: State, s': State, sent: seq<Address>, ids: seq<Address>, c: Choice, t: ThreadId)
    requires |sent| == |ids| && ValidChoice(s, |sent|, c) && RecordedUpTo(s, s', sent, ids, c, |c|)
    requires (forall i :: 0 <= i < |c| ==> c[i].Some?) && !Chosen(c, t, |c|)
    ensures !Registered(s', t)
    ensures t in s'.teb ==> !RecordsOk(s')
  {
    forall i | 0 <= i < |s'.records|
      ensures s'.records[i].thread != t
    {
      assert s'.records[i] == Recorded(s, sent[i], ids[i], c[i]);
      assert c[i] != Some(t);
    }
  }

  ghost function EarlyOf(s: State, sent: seq<Address>, ids: seq<Address>, c: Choice): (early: seq<Early>)
    requires |sent| == |ids| && ValidChoice(s, |sent|, c) && forall i :: 0 <= i < |c| ==> c[i].Some?
    requires forall t :: t in s.teb ==> s.teb[t] in s.vectors
    ensures |early| == |c|
  {
    seq(|c|, i requires 0 <= i < |c| =>
      Early(c[i].value, ids[i], s.teb[c[i].value], sent[i], s.vectors[s.teb[c[i].value]]))
  }

  lemma MovedIsInitial(s: State, s': State, len: nat, sent: seq<Address>, ids: seq<Address>, c: Choice)
    requires Ready(s, len, sent, ids) && ValidChoice(s, |sent|, c) && PreHooked(s, s', len, sent, ids, c)
    requires AllMoved(s, c)
    ensures Initial(s', EarlyOf(s, sent, ids, c), len)
  {
    var early := EarlyOf(s, sent, ids, c);
    forall i, j | 0 <= i < j < |early|
      ensures EarlyApart(early[i], early[j])
    {
      assert c[i] != c[j];
    }
    forall i | 0 <= i < |early|
      ensures InitialThread(s', early[i], s'.records[i], len)
    {
      assert s'.records[i] == Recorded(s, sent[i], ids[i], c[i]);
      assert s'.vectors[sent[i]] == Held(s, len, c, i, |c|);
    }
    EveryoneEarly(s, early, c);
  }

  lemma EveryoneEarly(s: State, early: seq<Early>, c: Choice)
    requires ValidChoice(s, |c|, c) && AllMoved(s, c) && |early| == |c|
    requires forall i :: 0 <= i < |c| ==> early[i].thread == c[i].value
    ensures EarlyThreads(early) == s.teb.Keys
  {
    forall t | t in s.teb
      ensures t in EarlyThreads(early)
    {
      assert Chosen(c, t, |c|);
      var i :| 0 <= i < |c| && c[i] == Some(t);
      assert early[i].thread == t;
    }
  }

  lemma BeyondEarly(s: State, len: nat, sent: seq<Address>, ids: seq<Address>, c: Choice)
    requires Ready(s, len, sent, ids) && ValidChoice(s, |sent|, c) && AllMoved(s, c)
    ensures var early := EarlyOf(s, sent, ids, c);
            NoSlotBeyond(s, len)
            <==> forall i, k :: 0 <= i < |early| && len <= k < |early[i].slots| ==> early[i].slots[k] == 0
  {
    var early := EarlyOf(s, sent, ids, c);
    if forall i, k :: 0 <= i < |early| && len <= k < |early[i].slots| ==> early[i].slots[k] == 0 {
      forall t, k | t in s.teb && len <= k < |s.vectors[s.teb[t]]|
        ensures s.vectors[s.teb[t]][k] == 0
      {
        assert Chosen(c, t, |c|);
        var i :| 0 <= i < |c| && c[i] == Some(t);
        assert early[i].slots[k] == 0;
      }
    }
  }

  /** When the kernel refuses, the pre-hook says that it succeeded, and leaves the threads as they were: without
      records, which is no state to start from unless no thread uses TLS. */
  lemma RefusedPreHookInvIff(s: State, len: nat, sent: seq<Address>, ids: seq<Address>)
    requires Ready(s, len, sent, ids)
    ensures Inv(s) <==> s.teb == map[]
  {
    if s.teb != map[] {
      var t :| t in s.teb;
      assert !Registered(s, t);
    }
  }
}
