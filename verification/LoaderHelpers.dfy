/**
 * What the load's helpers answer and leave, read off their own models: the inverted function table, the TLS
 * handling, and the base-address index. A load's bookkeeping sees of them who is in each structure, and how often.
 */
module LoaderHelpers {
  import BaseAddressTree
  import InvertedTable
  import opened Lifecycle
  import opened Sequences
  import TlsLoad
  import TlsModules
  import TlsState
  import opened Wrappers

  // ---------- Keys of a list ----------

  /** How often each key is in the list. */
  function Keys<T>(s: seq<T>, key: T -> nat): multiset<nat> {
    multiset(seq(|s|, i requires 0 <= i < |s| => key(s[i])))
  }

  lemma KeysInserted<T>(s: seq<T>, key: T -> nat, k: nat, e: T)
    requires k <= |s|
    ensures Keys(s[..k] + [e] + s[k..], key) == Keys(s, key) + multiset{key(e)}
  {
    var ks, all := seq(|s|, i requires 0 <= i < |s| => key(s[i])), s[..k] + [e] + s[k..];
    assert seq(|all|, i requires 0 <= i < |all| => key(all[i])) == ks[..k] + [key(e)] + ks[k..];
    assert ks == ks[..k] + ks[k..];
  }

  lemma KeysRemoved<T>(s: seq<T>, key: T -> nat, k: nat)
    requires k < |s|
    ensures Keys(RemoveAt(s, k), key) == Keys(s, key) - multiset{key(s[k])}
  {
    var ks, rest := seq(|s|, i requires 0 <= i < |s| => key(s[i])), RemoveAt(s, k);
    assert seq(|rest|, i requires 0 <= i < |rest| => key(rest[i])) == ks[..k] + ks[k + 1..];
    assert ks == ks[..k] + [ks[k]] + ks[k + 1..];
  }

  lemma KeysWithout<T>(s: seq<T>, key: T -> nat, x: nat)
    requires forall i :: 0 <= i < |s| ==> key(s[i]) != x
    ensures Keys(s, key) - multiset{x} == Keys(s, key)
  {
    var ks := seq(|s|, i requires 0 <= i < |s| => key(s[i]));
    assert x !in ks;
  }

  // ---------- The inverted function table ----------

  function Images(t: InvertedTable.Table): multiset<nat> {
    Keys(t.entries, (e: InvertedTable.Entry) => e.imageBase)
  }

  /** The answers of a table in state t. */
  function TableOf(t: InvertedTable.Table, protect: InvertedTable.Protect): TableAnswers {
    TableAnswers(true, |t.entries| < t.maxCount, protect)
  }

  /** The public insertion gives these answers, and the image is in the table once more afterwards if they say so. */
  lemma InsertionAnswers(t: InvertedTable.Table, e: InvertedTable.Entry, protect: InvertedTable.Protect)
    requires InvertedTable.Ordered(t)
    ensures var call, a := InvertedTable.InsertCall(e, protect), TableOf(t, protect);
            && InvertedTable.InsertStatus(t, call) == InsertStatus(a)
            && Images(InvertedTable.After(t, call)) == Plus(Images(t), e.imageBase, Inserts(a))
  {
    if Inserts(TableOf(t, protect)) {
      KeysInserted(t.entries, (x: InvertedTable.Entry) => x.imageBase,
                   InvertedTable.Slot(t.entries, t.First(), e.imageBase), e);
    }
  }

  /** A removal between granted protections takes the image out once, if it is in the table at all. */
  lemma RemovalTakesOut(t: InvertedTable.Table, base: nat)
    ensures Images(InvertedTable.Remove(t, base)) == Images(t) - multiset{base}
  {
    var k, key := InvertedTable.Find(t.entries, 0, base), (e: InvertedTable.Entry) => e.imageBase;
    if k < |t.entries| {
      KeysRemoved(t.entries, key, k);
    } else {
      KeysWithout(t.entries, key, base);
    }
  }

  /** The insertion fails and leaves the image in the table once more exactly when the pages were opened, there was a
      free slot, and the pages refused to be closed. */
  lemma LeftInTableIff(
    t: InvertedTable.Table, e: InvertedTable.Entry, protect: InvertedTable.Protect, c: Call, o: Helpers, win8: bool)
    requires InvertedTable.Ordered(t) && o.table == TableOf(t, protect) && Promises(o)
    ensures var call := InvertedTable.InsertCall(e, protect);
            LeavesInTable(c, o, win8)
            <==> && ReachesInsert(c, o, win8) && !NtSuccess(InvertedTable.InsertStatus(t, call))
                 && Images(InvertedTable.After(t, call)) == Images(t) + multiset{e.imageBase}
  {
    InsertionAnswers(t, e, protect);
    assert (Images(t) + multiset{e.imageBase})[e.imageBase] != Images(t)[e.imageBase];
  }

  // ---------- TLS ----------

  function Owners(s: TlsState.State): multiset<nat> {
    Keys(s.entries, (e: TlsState.Entry) => e.owner)
  }

  predicate AllBlocks(env: TlsLoad.LoadEnv) {
    forall i :: 0 <= i < |env.blocks| ==> env.blocks[i] != 0
  }

  /** The answers of a module's TLS handling in TLS state s. */
  function TlsOf(s: TlsState.State, env: TlsLoad.LoadEnv): TlsAnswers {
    TlsAnswers(env.entry, TlsModules.FirstClear(s.bitmap, 0).Some?, env.request, AllBlocks(env), env.buffer,
               env.kernel.Some?)
  }

  lemma EntryAdded(s: TlsState.State, owner: nat, size: nat)
    requires TlsModules.FirstClear(s.bitmap, 0).Some?
    ensures Owners(TlsModules.AddEntry(s, owner, size)) == Owners(s) + multiset{owner}
  {
    var e := TlsState.Entry(owner, TlsModules.FirstClear(s.bitmap, 0).value, size);
    KeysInserted(s.entries, (x: TlsState.Entry) => x.owner, |s.entries|, e);
    assert s.entries[..|s.entries|] + [e] + s.entries[|s.entries|..] == s.entries + [e];
  }

  /** The release takes one of the module's entries off the list, if it has one at all. */
  lemma ReleaseTakesOff(s: TlsState.State, owner: nat)
    requires forall i :: 0 <= i < |s.entries| ==> s.entries[i].index < |s.bitmap|
    ensures Owners(TlsModules.DropEntry(s, owner)) == Owners(s) - multiset{owner}
  {
    var k, key := TlsModules.EntryOf(s.entries, owner), (e: TlsState.Entry) => e.owner;
    if k < |s.entries| {
      KeysRemoved(s.entries, key, k);
    } else {
      KeysWithout(s.entries, key, owner);
    }
  }

  /** The TLS handling of a module with a TLS directory gives these answers, and the module is listed once more
      afterwards if they say so. */
  lemma TlsHandlingAnswers(
    s: TlsState.State, s': TlsState.State, owner: nat, size: nat, env: TlsLoad.LoadEnv, c: Call)
    requires TlsState.Safe(s) && TlsLoad.LoadEnvOk(s, env) && c.hasTls
    requires TlsLoad.Handled(s, s', owner, size, env)
    ensures TlsLoad.LoadStatus(s, env) == HandleStatus(c, TlsOf(s, env))
    ensures Owners(s') == Plus(Owners(s), owner, ListsTls(c, TlsOf(s, env)))
  {
    if TlsLoad.Entered(s, env) {
      EntryAdded(s, owner, size);
      var added := TlsModules.AddEntry(s, owner, size);
      if TlsLoad.Reached(s, env) {
        assert s'.entries == added.entries;
      } else {
        TlsModules.AddEntryKeepsIndexOk(s, owner, size);
        ReleaseTakesOff(added, owner);
        PutAndTaken(Owners(s), owner);
      }
    }
  }

  /** The handling fails and leaves the module listed once more exactly when the request could be built and then the
      hook had no memory for its copy or the kernel refused. */
  lemma LeftTlsIff(
    s: TlsState.State, s': TlsState.State, owner: nat, size: nat, env: TlsLoad.LoadEnv,
    c: Call, o: Helpers, win8: bool)
    requires TlsState.Safe(s) && TlsLoad.LoadEnvOk(s, env) && TlsLoad.Handled(s, s', owner, size, env)
    requires c.hasTls && o.tls == TlsOf(s, env)
    ensures LeavesTls(c, o, win8)
            <==> ReachesTls(c, o, win8) && TlsLoad.Reached(s, env) && (!env.buffer || env.kernel.None?)
    ensures LeavesTls(c, o, win8)
            <==> && ReachesTls(c, o, win8) && TlsLoad.LoadStatus(s, env) != Success
                 && Owners(s') == Owners(s) + multiset{owner}
  {
    TlsHandlingAnswers(s, s', owner, size, env, c);
    assert (Owners(s) + multiset{owner})[owner] != Owners(s)[owner];
  }

  // ---------- The base-address index ----------

  /** Sorted insertion puts the base into the index, and takes nothing out. */
  lemma IndexEntered(bases: seq<nat>, bases1: seq<nat>, b: nat)
    requires BaseAddressTree.SortedInsertion(bases, bases1, b)
    ensures (set x | x in bases1) == (set x | x in bases) + {b}
  {
    var k :| BaseAddressTree.InsertedAt(bases, bases1, b, k);
    assert bases == bases[..k] + bases[k..];
    assert bases1[k] == b;
    forall x
      ensures x in bases1 <==> x in bases || x == b
    {
    }
  }

  // ---------- A failed load and what it undoes ----------

  /** The table after a failed load: what the insertion left, taken out again if the load's flag says so. */
  function TableAfterFailure(
    t: InvertedTable.Table, e: InvertedTable.Entry, protect: InvertedTable.Protect, c: Call, o: Helpers, win8: bool)
    : InvertedTable.Table
    requires t.First() <= |t.entries|
  {
    var t1 := InvertedTable.After(t, InvertedTable.InsertCall(e, protect));
    if !ReachesInsert(c, o, win8) then t
    else if StageFlags(c, o, win8).insertInvertedFunctionTableEntry then InvertedTable.Remove(t1, e.imageBase)
    else t1
  }

  /** A failed load leaves each image as often in the table as the load's own model says. */
  lemma TableAfterFailureIs(
    t: InvertedTable.Table, e: InvertedTable.Entry, protect: InvertedTable.Protect, c: Call, o: Helpers, win8: bool,
    l: State)
    requires InvertedTable.Ordered(t) && o.table == TableOf(t, protect) && Promises(o) && e.imageBase == o.base
    requires !NtSuccess(LoadStatus(c, o, win8)) && l.inverted == Images(t)
    ensures Images(TableAfterFailure(t, e, protect, c, o, win8)) == Failed(l, c, o, win8).inverted
  {
    var t1 := InvertedTable.After(t, InvertedTable.InsertCall(e, protect));
    InsertionAnswers(t, e, protect);
    RemovalTakesOut(t1, e.imageBase);
    TakenOutKeys(Images(t), Images(t1), c, o, win8, l);
  }

  /** The rollback of the insertion, in terms of how often an image is in the table. */
  lemma TakenOutKeys(before: multiset<nat>, after: multiset<nat>, c: Call, o: Helpers, win8: bool, l: State)
    requires Promises(o) && !NtSuccess(LoadStatus(c, o, win8)) && l.inverted == before
    requires after == Plus(before, o.base, Inserts(o.table))
    ensures Failed(l, c, o, win8).inverted
            == (if !ReachesInsert(c, o, win8) then before
                else if StageFlags(c, o, win8).insertInvertedFunctionTableEntry then after - multiset{o.base}
                else after)
  {
    PutAndTaken(before, o.base);
  }

  lemma PutAndTaken(m: multiset<nat>, x: nat)
    ensures (m + multiset{x}) - multiset{x} == m
  {
  }

  /** A failed load leaves the entries of a table that did not have the image as they were, order included, unless
      the pages were opened, a slot was free, and the pages refused to be closed. */
  lemma FailedLoadRestoresTableIff(
    t: InvertedTable.Table, e: InvertedTable.Entry, protect: InvertedTable.Protect, c: Call, o: Helpers, win8: bool)
    requires InvertedTable.Ordered(t) && o.table == TableOf(t, protect) && Promises(o)
    requires forall j :: 0 <= j < |t.entries| ==> t.entries[j].imageBase != e.imageBase
    requires !NtSuccess(LoadStatus(c, o, win8))
    ensures TableAfterFailure(t, e, protect, c, o, win8).entries == t.entries <==> !LeavesInTable(c, o, win8)
  {
    InvertedTable.StatusTellsInsertion(t, InvertedTable.InsertCall(e, protect));
    InsertionAnswers(t, e, protect);
    if ReachesInsert(c, o, win8) && NtSuccess(InsertStatus(o.table)) {
      InvertedTable.RemoveUndoesInsert(t, e);
    }
  }

  /** The TLS state after a failed load: what the handling left, released again if the load's flag says so. */
  ghost function TlsAfterFailure(
    s: TlsState.State, s': TlsState.State, owner: nat, c: Call, o: Helpers, win8: bool): TlsState.State
    requires forall i :: 0 <= i < |s'.entries| ==> s'.entries[i].index < |s'.bitmap|
  {
    if !ReachesTls(c, o, win8) then s
    else if StageFlags(c, o, win8).tlsHandled then TlsModules.DropEntry(s', owner)
    else s'
  }

  /** The handling of a module with a TLS directory, or of one without, which changes nothing. */
  ghost predicate HandledData(
    s: TlsState.State, s': TlsState.State, owner: nat, size: nat, env: TlsLoad.LoadEnv, c: Call)
    requires TlsState.Safe(s) && TlsLoad.LoadEnvOk(s, env)
  {
    if c.hasTls then TlsLoad.Handled(s, s', owner, size, env) else s' == s
  }

  lemma HandledIndexOk(s: TlsState.State, s': TlsState.State, owner: nat, size: nat, env: TlsLoad.LoadEnv)
    requires TlsState.Safe(s) && TlsLoad.LoadEnvOk(s, env) && TlsLoad.Handled(s, s', owner, size, env)
    ensures TlsState.IndexOk(s'.bitmap, s'.entries)
  {
    TlsLoad.HandledKeepsSafe(s, s', owner, size, env);
  }

  /** A failed load leaves each loader entry's address as often in the TLS list as the load's own model says. */
  lemma TlsAfterFailureIs(
    s: TlsState.State, s': TlsState.State, owner: nat, size: nat, env: TlsLoad.LoadEnv,
    c: Call, o: Helpers, win8: bool, l: State)
    requires TlsState.Safe(s) && TlsLoad.LoadEnvOk(s, env) && HandledData(s, s', owner, size, env, c)
    requires o.tls == TlsOf(s, env) && Promises(o) && o.ldrEntry == owner && !NtSuccess(LoadStatus(c, o, win8))
    requires l.tls == Owners(s)
    ensures TlsState.IndexOk(s'.bitmap, s'.entries)
    ensures Owners(TlsAfterFailure(s, s', owner, c, o, win8)) == Failed(l, c, o, win8).tls
  {
    if c.hasTls {
      HandledIndexOk(s, s', owner, size, env);
      TlsHandlingAnswers(s, s', owner, size, env, c);
    }
    ReleaseTakesOff(s', owner);
    ReleasedKeys(Owners(s), Owners(s'), owner, c, o, win8, l);
  }

  /** The rollback of the TLS handling, in terms of how often an address is in the list. */
  lemma ReleasedKeys(
    before: multiset<nat>, after: multiset<nat>, owner: nat, c: Call, o: Helpers, win8: bool, l: State)
    requires Promises(o) && o.ldrEntry == owner && !NtSuccess(LoadStatus(c, o, win8)) && l.tls == before
    requires after == Plus(before, owner, ListsTls(c, o.tls))
    ensures Failed(l, c, o, win8).tls
            == (if !ReachesTls(c, o, win8) then before
                else if StageFlags(c, o, win8).tlsHandled then after - multiset{owner}
                else after)
  {
    PutAndTaken(before, owner);
  }

  /** A failed load of a module with a TLS directory leaves the TLS list and the index bitmap, if the list did not
      have the module, as they were, unless the request was built and then the hook had no memory for its copy or
      the kernel refused. */
  lemma FailedLoadRestoresTlsIff(
    s: TlsState.State, s': TlsState.State, owner: nat, size: nat, env: TlsLoad.LoadEnv,
    c: Call, o: Helpers, win8: bool)
    requires TlsState.Safe(s) && TlsLoad.LoadEnvOk(s, env) && TlsLoad.Handled(s, s', owner, size, env)
    requires c.hasTls && o.tls == TlsOf(s, env) && Promises(o) && !NtSuccess(LoadStatus(c, o, win8))
    requires !TlsModules.Listed(s.entries, owner)
    ensures TlsState.IndexOk(s'.bitmap, s'.entries)
    ensures var after := TlsAfterFailure(s, s', owner, c, o, win8);
            after.entries == s.entries && after.bitmap == s.bitmap <==> !LeavesTls(c, o, win8)
  {
    HandledIndexOk(s, s', owner, size, env);
    LeftTlsIff(s, s', owner, size, env, c, o, win8);
    HandledLists(s, s', owner, size, env);
    if TlsLoad.Reached(s, env) && NtSuccess(TlsLoad.LoadStatus(s, env)) {
      SameListsDrop(TlsModules.AddEntry(s, owner, size), s', owner);
    }
  }

  /** The list and the bitmap after the handling are those after listing the entry, or as before; and releasing what
      was listed leaves them as before. */
  lemma HandledLists(s: TlsState.State, s': TlsState.State, owner: nat, size: nat, env: TlsLoad.LoadEnv)
    requires TlsState.Safe(s) && TlsLoad.LoadEnvOk(s, env) && TlsLoad.Handled(s, s', owner, size, env)
    requires !TlsModules.Listed(s.entries, owner)
    ensures TlsLoad.Reached(s, env) ==>
              var added := TlsModules.AddEntry(s, owner, size);
              && s'.entries == added.entries && s'.bitmap == added.bitmap && s'.entries != s.entries
              && TlsState.IndexOk(added.bitmap, added.entries) && TlsModules.DropEntry(added, owner) == s
    ensures !TlsLoad.Reached(s, env) ==> s' == s
  {
    if TlsLoad.Entered(s, env) {
      TlsModules.AddEntryKeepsIndexOk(s, owner, size);
      TlsModules.DropUndoesAddIff(s, owner, size);
    }
  }

  /** A release sees the list and the bitmap alone. */
  lemma SameListsDrop(s: TlsState.State, t: TlsState.State, owner: nat)
    requires s.entries == t.entries && s.bitmap == t.bitmap
    requires forall i :: 0 <= i < |s.entries| ==> s.entries[i].index < |s.bitmap|
    ensures TlsModules.DropEntry(s, owner).entries == TlsModules.DropEntry(t, owner).entries
    ensures TlsModules.DropEntry(s, owner).bitmap == TlsModules.DropEntry(t, owner).bitmap
  {
  }
}
