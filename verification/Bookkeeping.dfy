/**
 * The bookkeeping of loads and unloads: how often a memory module is in each structure, whatever fails and whatever
 * address is used again, and when that is exactly as often as its flags say.
 */
module Bookkeeping {
  import InvertedTable
  import opened Lifecycle
  import opened Wrappers

  ghost predicate IsListed(s: State, base: nat) {
    exists i :: 0 <= i < |s.entries| && s.entries[i].base == base
  }

  // ---------- What the flags say ----------

  /** The inverted function table and the index know images by their bases, the TLS list by the addresses of their
      loader entries. */
  datatype Place = InTable | InTlsList | InIndex

  function Flagged(modules: map<nat, Loaded>, b: nat): nat {
    if b in modules && modules[b].insertInvertedFunctionTableEntry then 1 else 0
  }

  predicate OwnsTls(m: Loaded, p: nat) {
    m.mappedDll && m.tlsHandled && m.hasTls && m.ldrEntry == p
  }

  ghost function TlsOwned(modules: map<nat, Loaded>, p: nat): nat {
    if exists b :: b in modules && OwnsTls(modules[b], p) then 1 else 0
  }

  function Indexed(modules: map<nat, Loaded>, b: nat, win8: bool): nat {
    if b in modules && modules[b].mappedDll && win8 then 1 else 0
  }

  /** How much more often k is in the place than the modules' flags say. */
  ghost function Surplus(s: State, place: Place, k: nat, win8: bool): int {
    match place
    case InTable => s.inverted[k] - Flagged(s.modules, k)
    case InTlsList => s.tls[k] - TlsOwned(s.modules, k)
    case InIndex => (if k in s.index then 1 else 0) - Indexed(s.modules, k, win8)
  }

  ghost predicate ModuleSound(s: State, b: nat)
    requires b in s.modules
  {
    var m := s.modules[b];
    && m.count >= 1 && (m.count > 1 ==> m.mappedDll && m.useReferenceCount)
    && (IsListed(s, b) <==> m.mappedDll)
    && (!m.mappedDll ==> !m.insertInvertedFunctionTableEntry && !m.tlsHandled)
  }

  predicate EntriesApart(m: Loaded, n: Loaded) {
    m.mappedDll && n.mappedDll ==> m.ldrEntry != n.ldrEntry
  }

  /** What holds whatever fails: the loader lists know exactly the mapped modules and the natively loaded ones, and
      every module is at least where its flags say. */
  ghost predicate Sound(s: State, native: set<nat>, win8: bool) {
    && (forall b :: b in s.modules ==> b !in native && ModuleSound(s, b))
    && (forall b, c :: b in s.modules && c in s.modules && b != c ==> EntriesApart(s.modules[b], s.modules[c]))
    && (forall i :: 0 <= i < |s.entries| ==> s.entries[i].base in s.modules || s.entries[i].base in native)
    && (forall place, k :: Surplus(s, place, k, win8) >= 0)
  }

  /** The natively loaded images in the table and the index are not the memory loader's. */
  predicate Ours(native: set<nat>, place: Place, k: nat) {
    place.InTlsList? || k !in native
  }

  /** A memory module is in each structure exactly when its flag says so, and then once, and whoever else is in one
      is one of the natively loaded modules. */
  ghost predicate Consistent(s: State, native: set<nat>, win8: bool) {
    Sound(s, native, win8) && forall place, k :: Ours(native, place, k) ==> Surplus(s, place, k, win8) == 0
  }

  /** In a consistent state the flags of a module tell where it is. */
  lemma ConsistentMeans(s: State, native: set<nat>, win8: bool, b: nat)
    requires Consistent(s, native, win8) && b in s.modules
    ensures var m := s.modules[b];
            && (IsListed(s, b) <==> m.mappedDll)
            && s.inverted[b] == (if m.insertInvertedFunctionTableEntry then 1 else 0)
            && (m.mappedDll ==> s.tls[m.ldrEntry] == if m.tlsHandled && m.hasTls then 1 else 0)
            && (b in s.index <==> m.mappedDll && win8)
  {
    var m := s.modules[b];
    assert ModuleSound(s, b);
    assert Surplus(s, InTable, b, win8) == 0 && Surplus(s, InIndex, b, win8) == 0;
    if m.mappedDll {
      assert Surplus(s, InTlsList, m.ldrEntry, win8) == 0;
      OnlyOwner(s.modules, b);
    }
  }

  /** No other module answers for a mapped module's TLS entry. */
  lemma OnlyOwner(modules: map<nat, Loaded>, b: nat)
    requires b in modules && modules[b].mappedDll
    requires forall c :: c in modules && c != b ==> EntriesApart(modules[b], modules[c])
    ensures TlsOwned(modules, modules[b].ldrEntry) == if modules[b].tlsHandled && modules[b].hasTls then 1 else 0
  {
    var p := modules[b].ldrEntry;
    assert modules[b].tlsHandled && modules[b].hasTls ==> OwnsTls(modules[b], p);
    forall c | c in modules && c != b
      ensures !OwnsTls(modules[c], p)
    {
      assert EntriesApart(modules[b], modules[c]);
    }
  }

  // ---------- Who is listed ----------

  lemma ListedAfter(s: State, e: Entry, b: nat)
    ensures IsListed(s.(entries := s.entries + [e]), b) <==> IsListed(s, b) || e.base == b
  {
    var t := s.(entries := s.entries + [e]);
    if IsListed(s, b) {
      var i :| 0 <= i < |s.entries| && s.entries[i].base == b;
      assert t.entries[i].base == b;
    }
    assert t.entries[|s.entries|] == e;
  }

  lemma ListedWithout(s: State, base: nat, b: nat)
    ensures IsListed(s.(entries := Unlisted(s.entries, base)), b) <==> IsListed(s, b) && b != base
  {
    var u := Unlisted(s.entries, base);
    assert s.entries[..|s.entries|] == s.entries;
    if b != base && IsListed(s, b) {
      var i :| 0 <= i < |s.entries| && s.entries[i].base == b;
      KeptMembers(s.entries, |s.entries|, base, s.entries[i]);
      var j :| 0 <= j < |u| && u[j] == s.entries[i];
    }
    forall j | 0 <= j < |u| && u[j].base == b
      ensures IsListed(s, b) && b != base
    {
      KeptMembers(s.entries, |s.entries|, base, u[j]);
      assert u[j] in u;
    }
  }

  // ---------- A module comes ----------

  lemma OwnedWithNew(modules: map<nat, Loaded>, base: nat, m: Loaded, p: nat)
    requires base !in modules
    requires forall b :: b in modules && modules[b].mappedDll && m.mappedDll ==> modules[b].ldrEntry != m.ldrEntry
    ensures TlsOwned(modules[base := m], p) == TlsOwned(modules, p) + (if OwnsTls(m, p) then 1 else 0)
  {
    var more := modules[base := m];
    assert more[base] == m;
    if b :| b in modules && OwnsTls(modules[b], p) {
      assert more[b] == modules[b];
    }
  }

  lemma AddKeepsSurplus(s: State, c: Call, o: Helpers, win8: bool, place: Place, k: nat)
    requires o.base !in s.modules && o.base !in s.index && NewEntry(s, o.ldrEntry)
    requires c.flags.notMapDll || MapsEntry(o, win8)
    ensures Surplus(WithModule(s, c, o, win8), place, k, win8) == Surplus(s, place, k, win8)
  {
    OwnedWithNew(s.modules, o.base, NewModule(c, o, win8), k);
  }

  lemma AddKeepsModules(s: State, c: Call, o: Helpers, win8: bool, native: set<nat>)
    requires Sound(s, native, win8) && Free(s, o.base) && o.base !in native && NewEntry(s, o.ldrEntry)
    requires c.flags.notMapDll || MapsEntry(o, win8)
    ensures var t := WithModule(s, c, o, win8); forall b :: b in t.modules ==> ModuleSound(t, b)
  {
    var t := WithModule(s, c, o, win8);
    forall b | b in t.modules
      ensures ModuleSound(t, b)
    {
      if !c.flags.notMapDll {
        ListedAfter(s, Entry(o.base, o.mapping.name.value, c.headers, false), b);
      }
      assert IsListed(t, b) <==> IsListed(s, b) || (!c.flags.notMapDll && b == o.base);
      assert b != o.base ==> ModuleSound(s, b);
    }
  }

  lemma AddKeepsSound(s: State, c: Call, o: Helpers, win8: bool, native: set<nat>)
    requires Sound(s, native, win8) && Free(s, o.base) && o.base !in native && NewEntry(s, o.ldrEntry)
    requires c.flags.notMapDll || MapsEntry(o, win8)
    ensures Sound(WithModule(s, c, o, win8), native, win8)
  {
    var t := WithModule(s, c, o, win8);
    AddKeepsModules(s, c, o, win8, native);
    forall place, k
      ensures Surplus(t, place, k, win8) >= 0
    {
      AddKeepsSurplus(s, c, o, win8, place, k);
    }
    forall b, d | b in t.modules && d in t.modules && b != d
      ensures EntriesApart(t.modules[b], t.modules[d])
    {
      assert b != o.base && d != o.base ==> EntriesApart(s.modules[b], s.modules[d]);
    }
  }

  // ---------- A module goes ----------

  /** The teardown of such a module releases a TLS entry that names p, although none was listed for it. */
  predicate TakesAt(m: Loaded, p: nat) {
    m.mappedDll && m.tlsHandled && !m.hasTls && m.ldrEntry == p
  }

  lemma OwnedWithout(modules: map<nat, Loaded>, base: nat, p: nat)
    requires base in modules
    requires forall c :: c in modules && c != base ==> EntriesApart(modules[base], modules[c])
    ensures TlsOwned(modules - {base}, p) == TlsOwned(modules, p) - (if OwnsTls(modules[base], p) then 1 else 0)
    ensures TakesAt(modules[base], p) ==> TlsOwned(modules, p) == 0
  {
    if modules[base].mappedDll && modules[base].ldrEntry == p {
      OnlyOwner(modules, base);
      forall c | c in modules && c != base
        ensures !OwnsTls(modules[c], p)
      {
        assert EntriesApart(modules[base], modules[c]);
      }
    } else if b :| b in modules && OwnsTls(modules[b], p) {
      assert b in modules - {base};
    }
  }

  /** A surplus grows by what is left behind, and shrinks by what is taken, if there is any. */
  function Next(x: int, leaves: bool, takes: bool): int {
    if leaves then x + 1 else if takes && x > 0 then x - 1 else x
  }

  lemma GoneSurplus(s: State, base: nat, win8: bool, native: set<nat>, place: Place, k: nat)
    requires Sound(s, native, win8) && base in s.modules
    ensures Surplus(Gone(s, base, win8), place, k, win8)
            == Next(Surplus(s, place, k, win8), false, place.InTlsList? && TakesAt(s.modules[base], k))
  {
    assert ModuleSound(s, base) && Surplus(s, place, k, win8) >= 0;
    match place
    case InTable => GoneFromTable(s, base, win8, k);
    case InTlsList => GoneFromTls(s, base, win8, k);
    case InIndex => GoneFromIndex(s, base, win8, k);
  }

  lemma GoneFromTable(s: State, base: nat, win8: bool, k: nat)
    requires base in s.modules && Surplus(s, InTable, k, win8) >= 0
    requires !s.modules[base].mappedDll ==> !s.modules[base].insertInvertedFunctionTableEntry
    ensures Surplus(Gone(s, base, win8), InTable, k, win8) == Surplus(s, InTable, k, win8)
  {
  }

  lemma GoneFromTls(s: State, base: nat, win8: bool, p: nat)
    requires base in s.modules && Surplus(s, InTlsList, p, win8) >= 0
    requires forall c :: c in s.modules && c != base ==> EntriesApart(s.modules[base], s.modules[c])
    ensures Surplus(Gone(s, base, win8), InTlsList, p, win8)
            == Next(Surplus(s, InTlsList, p, win8), false, TakesAt(s.modules[base], p))
  {
    OwnedWithout(s.modules, base, p);
    ReleasedFrom(s.modules[base], s.tls, p);
  }

  lemma GoneFromIndex(s: State, base: nat, win8: bool, k: nat)
    requires base in s.modules && Surplus(s, InIndex, k, win8) >= 0
    ensures Surplus(Gone(s, base, win8), InIndex, k, win8) == Surplus(s, InIndex, k, win8)
  {
  }

  lemma ReleasedFrom(m: Loaded, tls: multiset<nat>, p: nat)
    requires OwnsTls(m, p) ==> tls[p] >= 1
    ensures Minus(tls, m.ldrEntry, m.mappedDll && m.tlsHandled)[p]
            == tls[p] - (if OwnsTls(m, p) || (TakesAt(m, p) && tls[p] > 0) then 1 else 0)
  {
  }

  lemma GoneEntries(s: State, base: nat, win8: bool, native: set<nat>)
    requires Sound(s, native, win8) && base in s.modules
    ensures var t := Gone(s, base, win8);
            forall i :: 0 <= i < |t.entries| ==> t.entries[i].base in t.modules || t.entries[i].base in native
  {
    var t := Gone(s, base, win8);
    assert ModuleSound(s, base);
    assert s.entries[..|s.entries|] == s.entries;
    forall i | 0 <= i < |t.entries|
      ensures t.entries[i].base in t.modules || t.entries[i].base in native
    {
      if s.modules[base].mappedDll {
        KeptMembers(s.entries, |s.entries|, base, t.entries[i]);
        assert t.entries[i] in t.entries;
      } else {
        assert !IsListed(s, base);
      }
    }
  }

  lemma GoneKeepsSound(s: State, base: nat, win8: bool, native: set<nat>)
    requires Sound(s, native, win8) && base in s.modules
    ensures Sound(Gone(s, base, win8), native, win8)
  {
    var t := Gone(s, base, win8);
    forall b | b in t.modules
      ensures ModuleSound(t, b)
    {
      assert ModuleSound(s, b);
      ListedWithout(s, base, b);
      assert IsListed(t, b) <==> IsListed(s, b);
    }
    GoneEntries(s, base, win8, native);
    forall place, k
      ensures Surplus(t, place, k, win8) >= 0
    {
      GoneSurplus(s, base, win8, native, place, k);
    }
  }

  // ---------- A count changes ----------

  function Recounted(s: State, base: nat, count: nat): State
    requires base in s.modules
  {
    s.(modules := s.modules[base := s.modules[base].(count := count)])
  }

  lemma CountKeepsSurplus(s: State, base: nat, count: nat, win8: bool, place: Place, k: nat)
    requires base in s.modules
    ensures Surplus(Recounted(s, base, count), place, k, win8) == Surplus(s, place, k, win8)
  {
    var m := s.modules[base := s.modules[base].(count := count)];
    forall b
      ensures (b in m && OwnsTls(m[b], k)) <==> (b in s.modules && OwnsTls(s.modules[b], k))
    {
    }
    assert TlsOwned(m, k) == TlsOwned(s.modules, k);
  }

  lemma CountKeepsSound(s: State, base: nat, count: nat, win8: bool, native: set<nat>)
    requires Sound(s, native, win8) && base in s.modules && count >= 1
    requires s.modules[base].mappedDll && s.modules[base].useReferenceCount
    ensures Sound(Recounted(s, base, count), native, win8)
  {
    var t := Recounted(s, base, count);
    forall b | b in t.modules
      ensures ModuleSound(t, b)
    {
      assert ModuleSound(s, b);
      assert IsListed(t, b) <==> IsListed(s, b);
    }
    forall b, c | b in t.modules && c in t.modules && b != c
      ensures EntriesApart(t.modules[b], t.modules[c])
    {
      assert EntriesApart(s.modules[b], s.modules[c]);
    }
    forall place, k
      ensures Surplus(t, place, k, win8) >= 0
    {
      CountKeepsSurplus(s, base, count, win8, place, k);
    }
  }

  // ---------- What a load leaves behind ----------

  /** The call gets as far as mapping an image, and the image is mapped. */
  ghost predicate MapsImage(s: State, c: Call, o: Helpers) {
    && !c.bufferSizeGiven && (c.imageValid || c.flags.passImageCheck)
    && !(!c.flags.notMapDll && c.flags.useDllName && (c.name.None? || !c.fullNameGiven))
    && (Name(c).Some? ==> c.headers.Some? && FindSame(s, 0, Name(c).value, c.headers.value) == |s.entries|)
    && NtSuccess(o.mapImage) && !o.mapImage.MachineTypeMismatch?
  }

  /** A load that maps an image leaves k behind in the place. */
  predicate LeavesAt(c: Call, o: Helpers, win8: bool, place: Place, k: nat) {
    match place
    case InTable => LeavesInTable(c, o, win8) && o.base == k
    case InTlsList => LeavesTls(c, o, win8) && o.ldrEntry == k
    case InIndex => LeavesInIndex(c, o, win8) && o.base == k
  }

  lemma LeaksSurplus(s: State, c: Call, o: Helpers, win8: bool, place: Place, k: nat)
    requires Promises(o) && o.base !in s.index
    ensures Surplus(Leaks(s, c, o, win8), place, k, win8)
            == Next(Surplus(s, place, k, win8), LeavesAt(c, o, win8, place, k), false)
  {
    LeaksAre(s, c, o, win8);
  }

  lemma SameModulesSound(s: State, t: State, win8: bool, native: set<nat>)
    requires Sound(s, native, win8) && t.modules == s.modules && t.entries == s.entries
    requires forall place, k :: Surplus(t, place, k, win8) >= 0
    ensures Sound(t, native, win8)
  {
    forall b | b in t.modules
      ensures ModuleSound(t, b)
    {
      assert ModuleSound(s, b);
      assert IsListed(t, b) <==> IsListed(s, b);
    }
  }

  lemma LeaksKeepSound(s: State, c: Call, o: Helpers, win8: bool, native: set<nat>)
    requires Sound(s, native, win8) && Promises(o) && o.base !in s.index
    ensures Sound(Leaks(s, c, o, win8), native, win8)
  {
    forall place, k
      ensures Surplus(Leaks(s, c, o, win8), place, k, win8) >= 0
    {
      LeaksSurplus(s, c, o, win8, place, k);
      assert Surplus(s, place, k, win8) >= 0;
    }
    SameModulesSound(s, Leaks(s, c, o, win8), win8, native);
  }

  lemma FailedSurplus(s: State, c: Call, o: Helpers, win8: bool, place: Place, k: nat)
    requires Promises(o) && o.base !in s.index && NewEntry(s, o.ldrEntry) && !NtSuccess(LoadStatus(c, o, win8))
    ensures Surplus(Failed(s, c, o, win8), place, k, win8)
            == Next(Surplus(s, place, k, win8), LeavesAt(c, o, win8, place, k),
                    place.InTlsList? && Unbacked(c, o, win8) && o.ldrEntry == k)
  {
    LeaksSurplus(s, c, o, win8, place, k);
    assert TlsOwned(s.modules, o.ldrEntry) == 0;
  }

  lemma FailedKeepsSound(s: State, c: Call, o: Helpers, win8: bool, native: set<nat>)
    requires Sound(s, native, win8) && Promises(o) && o.base !in s.index && NewEntry(s, o.ldrEntry)
    requires !NtSuccess(LoadStatus(c, o, win8))
    ensures Sound(Failed(s, c, o, win8), native, win8)
  {
    forall place, k
      ensures Surplus(Failed(s, c, o, win8), place, k, win8) >= 0
    {
      FailedSurplus(s, c, o, win8, place, k);
      assert Surplus(s, place, k, win8) >= 0;
    }
    SameModulesSound(s, Failed(s, c, o, win8), win8, native);
  }

  // ---------- Events ----------

  datatype Event =
    | LoadEvent(call: Call, helpers: Helpers)
    | UnloadEvent(base: nat, getCount: NtStatus, updateCount: NtStatus)

  /** A call and its answer: an image is mapped where no image is. */
  ghost predicate Occurs(s: State, e: Event, win8: bool, t: State, r: Result) {
    match e
    case LoadEvent(c, o) => o.base !in s.modules && Loads(s, c, o, win8, t, r)
    case UnloadEvent(base, getCount, updateCount) =>
      Unloads(s, base, getCount, updateCount, win8, t, r.status) && r.base == Some(base)
  }

  /** A call that does not follow a freed node of the index; the addresses of images and of loader entries may be
      those of earlier ones that are gone, and of what these have left in the table and the TLS list. */
  ghost predicate Happens(s: State, e: Event, win8: bool, native: set<nat>, t: State, r: Result) {
    && Occurs(s, e, win8, t, r)
    && (e.LoadEvent? ==>
          && Promises(e.helpers) && Free(s, e.helpers.base) && e.helpers.base !in native
          && NewEntry(s, e.helpers.ldrEntry))
  }

  /** The event leaves k behind in the place. */
  ghost predicate Leaves(s: State, e: Event, win8: bool, place: Place, k: nat) {
    e.LoadEvent? && MapsImage(s, e.call, e.helpers) && LeavesAt(e.call, e.helpers, win8, place, k)
  }

  /** The event tears down a module without TLS directory that counts as handled and whose loader entry is at k:
      after the load failed later on, or at its last unload. */
  ghost predicate Takes(s: State, e: Event, win8: bool, t: State, place: Place, k: nat) {
    place.InTlsList? &&
    match e
    case LoadEvent(c, o) =>
      MapsImage(s, c, o) && !NtSuccess(LoadStatus(c, o, win8)) && Unbacked(c, o, win8) && o.ldrEntry == k
    case UnloadEvent(base, _, _) =>
      base in s.modules && base !in t.modules && TakesAt(s.modules[base], k)
  }

  lemma NewLoadSurplus(
    s: State, c: Call, o: Helpers, win8: bool, native: set<nat>, t: State, r: Result, place: Place, k: nat)
    requires Sound(s, native, win8) && Promises(o) && Free(s, o.base) && NewEntry(s, o.ldrEntry)
    requires Attaches(s, c, o, win8, t, r)
    ensures Surplus(t, place, k, win8)
            == Next(Surplus(s, place, k, win8), LeavesAt(c, o, win8, place, k),
                    place.InTlsList? && !NtSuccess(LoadStatus(c, o, win8)) && Unbacked(c, o, win8) && o.ldrEntry == k)
  {
    if NtSuccess(LoadStatus(c, o, win8)) {
      LeaksAre(s, c, o, win8);
      LeaksSurplus(s, c, o, win8, place, k);
      AddKeepsSurplus(Leaks(s, c, o, win8), c, o, win8, place, k);
    } else {
      FailedSurplus(s, c, o, win8, place, k);
    }
  }

  lemma NewLoadSound(s: State, c: Call, o: Helpers, win8: bool, native: set<nat>, t: State, r: Result)
    requires Sound(s, native, win8) && Promises(o) && Free(s, o.base) && o.base !in native && NewEntry(s, o.ldrEntry)
    requires Attaches(s, c, o, win8, t, r)
    ensures Sound(t, native, win8)
  {
    if NtSuccess(LoadStatus(c, o, win8)) {
      LeaksAre(s, c, o, win8);
      LeaksKeepSound(s, c, o, win8, native);
      AddKeepsSound(Leaks(s, c, o, win8), c, o, win8, native);
    } else {
      FailedKeepsSound(s, c, o, win8, native);
    }
  }

  lemma AttachesWhenMapping(s: State, c: Call, o: Helpers, win8: bool, t: State, r: Result)
    requires Loads(s, c, o, win8, t, r) && MapsImage(s, c, o)
    ensures Attaches(s, c, o, win8, t, r)
  {
  }

  /** A load that maps nothing changes nothing, or counts a reference to a module that counts them. */
  lemma OtherLoad(s: State, c: Call, o: Helpers, win8: bool, t: State, r: Result) returns (base: nat)
    requires Loads(s, c, o, win8, t, r) && !MapsImage(s, c, o)
    ensures t == s || (base in s.modules && IsListed(s, base) && s.modules[base].useReferenceCount
                       && t == Recounted(s, base, s.modules[base].count + 1))
  {
    base := 0;
    if Name(c).Some? && c.headers.Some? {
      var k := FindSame(s, 0, Name(c).value, c.headers.value);
      if k < |s.entries| {
        base := s.entries[k].base;
        assert IsListed(s, base);
      }
    }
  }

  lemma OtherLoadKeepsSound(s: State, c: Call, o: Helpers, win8: bool, native: set<nat>, t: State, r: Result)
    requires Sound(s, native, win8) && Loads(s, c, o, win8, t, r) && !MapsImage(s, c, o)
    ensures Sound(t, native, win8)
  {
    var base := OtherLoad(s, c, o, win8, t, r);
    if t != s {
      OneMoreKeepsSound(s, base, win8, native);
    }
  }

  lemma OneMoreKeepsSound(s: State, base: nat, win8: bool, native: set<nat>)
    requires Sound(s, native, win8) && base in s.modules && IsListed(s, base) && s.modules[base].useReferenceCount
    ensures Sound(Recounted(s, base, s.modules[base].count + 1), native, win8)
  {
    assert ModuleSound(s, base);
    CountKeepsSound(s, base, s.modules[base].count + 1, win8, native);
  }

  lemma StepKeepsSound(s: State, e: Event, win8: bool, native: set<nat>, t: State, r: Result)
    requires Sound(s, native, win8) && Happens(s, e, win8, native, t, r)
    ensures Sound(t, native, win8)
  {
    match e
    case LoadEvent(c, o) =>
      if MapsImage(s, c, o) {
        AttachesWhenMapping(s, c, o, win8, t, r);
        NewLoadSound(s, c, o, win8, native, t, r);
      } else {
        OtherLoadKeepsSound(s, c, o, win8, native, t, r);
      }
    case UnloadEvent(base, getCount, updateCount) =>
      UnloadKeepsSound(s, base, getCount, updateCount, win8, native, t, r.status);
  }

  lemma UnloadKeepsSound(
    s: State, base: nat, getCount: NtStatus, updateCount: NtStatus, win8: bool, native: set<nat>, t: State,
    status: NtStatus)
    requires Sound(s, native, win8) && Unloads(s, base, getCount, updateCount, win8, t, status)
    ensures Sound(t, native, win8)
  {
    if base in s.modules && t == Gone(s, base, win8) {
      GoneKeepsSound(s, base, win8, native);
    } else if t != s {
      CountKeepsSound(s, base, s.modules[base].count - 1, win8, native);
    }
  }

  lemma StepSurplus(
    s: State, e: Event, win8: bool, native: set<nat>, t: State, r: Result, place: Place, k: nat)
    requires Sound(s, native, win8) && Happens(s, e, win8, native, t, r)
    ensures Surplus(t, place, k, win8)
            == Next(Surplus(s, place, k, win8), Leaves(s, e, win8, place, k), Takes(s, e, win8, t, place, k))
  {
    match e
    case LoadEvent(c, o) =>
      if MapsImage(s, c, o) {
        AttachesWhenMapping(s, c, o, win8, t, r);
        NewLoadSurplus(s, c, o, win8, native, t, r, place, k);
      } else {
        var base := OtherLoad(s, c, o, win8, t, r);
        if t != s {
          CountKeepsSurplus(s, base, s.modules[base].count + 1, win8, place, k);
        }
      }
    case UnloadEvent(base, getCount, updateCount) =>
      if base in s.modules && t == Gone(s, base, win8) {
        GoneSurplus(s, base, win8, native, place, k);
      } else if t != s {
        CountKeepsSurplus(s, base, s.modules[base].count - 1, win8, place, k);
      }
  }

  // ---------- One call ----------

  /** In a consistent state an address that no image has is in none of the structures, and neither is one that no
      mapped module's loader entry has. */
  lemma NewAddressIsFree(s: State, win8: bool, native: set<nat>, base: nat, p: nat)
    requires Consistent(s, native, win8) && base !in s.modules && base !in native && NewEntry(s, p)
    ensures Free(s, base) && base !in s.inverted && p !in s.tls
  {
    assert Surplus(s, InTable, base, win8) == 0 && Surplus(s, InIndex, base, win8) == 0;
    assert Surplus(s, InTlsList, p, win8) == 0 && TlsOwned(s.modules, p) == 0;
  }

  /** A load, whether it succeeds or fails, keeps the bookkeeping unless it maps an image and then the last page
      protection, the hook or kernel, or the allocation of the node fails it. */
  lemma LoadKeepsConsistentIff(
    s: State, c: Call, o: Helpers, win8: bool, t: State, r: Result, native: set<nat>)
    requires Consistent(s, native, win8) && Happens(s, LoadEvent(c, o), win8, native, t, r)
    ensures Consistent(t, native, win8) <==> !(MapsImage(s, c, o) && LeavesBehind(c, o, win8))
  {
    var e := LoadEvent(c, o);
    StepKeepsSound(s, e, win8, native, t, r);
    forall place, k
      ensures Ours(native, place, k) ==>
                Surplus(t, place, k, win8) == if Leaves(s, e, win8, place, k) then 1 else 0
    {
      StepSurplus(s, e, win8, native, t, r, place, k);
    }
    if MapsImage(s, c, o) && LeavesBehind(c, o, win8) {
      assert Leaves(s, e, win8, InTable, o.base) || Leaves(s, e, win8, InTlsList, o.ldrEntry)
             || Leaves(s, e, win8, InIndex, o.base);
      assert Ours(native, InTable, o.base) && Ours(native, InTlsList, o.ldrEntry) && Ours(native, InIndex, o.base);
    }
  }

  lemma UnloadKeepsConsistent(
    s: State, base: nat, getCount: NtStatus, updateCount: NtStatus, win8: bool, t: State, r: Result,
    native: set<nat>)
    requires Consistent(s, native, win8)
    requires Happens(s, UnloadEvent(base, getCount, updateCount), win8, native, t, r)
    ensures Consistent(t, native, win8)
  {
    var e := UnloadEvent(base, getCount, updateCount);
    StepKeepsSound(s, e, win8, native, t, r);
    forall place, k | Ours(native, place, k)
      ensures Surplus(t, place, k, win8) == 0
    {
      StepSurplus(s, e, win8, native, t, r, place, k);
    }
  }

  /** A load that is told not to fail on TLS succeeds although the hook or the kernel failed, and leaves the TLS
      entry listed without saying so; the unload frees the image and leaves the entry listed still. */
  lemma SkippedTlsOutlivesModule(
    s: State, c: Call, o: Helpers, win8: bool, t: State, r: Result, native: set<nat>,
    getCount: NtStatus, updateCount: NtStatus, u: State, status: NtStatus)
    requires Consistent(s, native, win8) && Happens(s, LoadEvent(c, o), win8, native, t, r) && MapsImage(s, c, o)
    requires LeavesTls(c, o, win8) && c.flags.notFailIfHandleTls && o.executeTls && o.initializers
    requires Unloads(t, o.base, getCount, updateCount, win8, u, status) && NtSuccess(getCount)
    ensures r.status == TlsSkipped && NtSuccess(r.status) && r.base == Some(o.base)
    ensures o.base in t.modules && !t.modules[o.base].tlsHandled && o.ldrEntry in t.tls
    ensures !Consistent(t, native, win8)
    ensures status == Success && o.base !in u.modules && o.ldrEntry in u.tls
  {
    AttachesWhenMapping(s, c, o, win8, t, r);
    LeaksAre(s, c, o, win8);
    LoadKeepsConsistentIff(s, c, o, win8, t, r, native);
  }

  // ---------- Runs ----------

  /** A run: the states that loads and unloads go through, and what they answered. */
  ghost predicate IsRun(states: seq<State>, events: seq<Event>, results: seq<Result>, win8: bool, native: set<nat>) {
    && |states| == |events| + 1 && |results| == |events|
    && forall i :: 0 <= i < |events| ==> Happens(states[i], events[i], win8, native, states[i + 1], results[i])
  }

  lemma RunStep(
    states: seq<State>, events: seq<Event>, results: seq<Result>, win8: bool, native: set<nat>, n: nat)
    requires IsRun(states, events, results, win8, native) && 0 < n <= |events|
    ensures Happens(states[n - 1], events[n - 1], win8, native, states[n], results[n - 1])
  {
    assert Happens(states[n - 1], events[n - 1], win8, native, states[n - 1 + 1], results[n - 1]);
  }

  // ---------- Bookkeeping over runs ----------

  /** How much more often than the flags say k is in the place after n calls: one more for each load that left it
      there, one less for each teardown that took it, if there was one to take. */
  ghost function Leftover(states: seq<State>, events: seq<Event>, win8: bool, place: Place, k: nat, n: nat): int
    requires n <= |events| == |states| - 1
  {
    if n == 0 then Surplus(states[0], place, k, win8)
    else
      Next(Leftover(states, events, win8, place, k, n - 1),
           Leaves(states[n - 1], events[n - 1], win8, place, k),
           Takes(states[n - 1], events[n - 1], win8, states[n], place, k))
  }

  /** Over every run, whatever fails and whatever address is used again, every module is at least where its flags
      say, and the loader lists know exactly the mapped modules and the natively loaded ones. */
  lemma {:induction false} RunKeepsSound(
    states: seq<State>, events: seq<Event>, results: seq<Result>, win8: bool, native: set<nat>, n: nat)
    requires IsRun(states, events, results, win8, native) && n <= |events| && Sound(states[0], native, win8)
    ensures Sound(states[n], native, win8)
  {
    if n != 0 {
      RunKeepsSound(states, events, results, win8, native, n - 1);
      RunStep(states, events, results, win8, native, n);
      StepKeepsSound(states[n - 1], events[n - 1], win8, native, states[n], results[n - 1]);
    }
  }

  /** Over every run the difference between a structure and the flags is what loads have left there and no
      teardown has taken. */
  lemma {:induction false} RunLeftovers(
    states: seq<State>, events: seq<Event>, results: seq<Result>, win8: bool, native: set<nat>,
    place: Place, k: nat, n: nat)
    requires IsRun(states, events, results, win8, native) && n <= |events| && Sound(states[0], native, win8)
    ensures Surplus(states[n], place, k, win8) == Leftover(states, events, win8, place, k, n) >= 0
  {
    RunKeepsSound(states, events, results, win8, native, n);
    assert Surplus(states[n], place, k, win8) >= 0;
    if n != 0 {
      RunLeftovers(states, events, results, win8, native, place, k, n - 1);
      RunKeepsSound(states, events, results, win8, native, n - 1);
      RunStep(states, events, results, win8, native, n);
      StepSurplus(states[n - 1], events[n - 1], win8, native, states[n], results[n - 1], place, k);
    }
  }

  /** What was left behind in the table or the index is never taken; in the TLS list it stays until a module without
      TLS directory that counts as handled is torn down whose loader entry has the address. */
  lemma {:induction false} LeftoverStays(
    states: seq<State>, events: seq<Event>, win8: bool, place: Place, k: nat, i: nat, n: nat)
    requires i <= n <= |events| == |states| - 1
    requires forall j :: i <= j < n ==> !Takes(states[j], events[j], win8, states[j + 1], place, k)
    ensures Leftover(states, events, win8, place, k, n) >= Leftover(states, events, win8, place, k, i)
    ensures forall j :: i <= j < n && Leaves(states[j], events[j], win8, place, k) ==>
              Leftover(states, events, win8, place, k, n) > Leftover(states, events, win8, place, k, i)
    decreases n - i
  {
    if i < n {
      LeftoverStays(states, events, win8, place, k, i, n - 1);
      assert !Takes(states[n - 1], events[n - 1], win8, states[n - 1 + 1], place, k);
    }
  }

  /** The load leaves something in the table or the index. */
  ghost predicate LeavesForGood(s: State, e: Event, win8: bool) {
    && e.LoadEvent? && MapsImage(s, e.call, e.helpers)
    && (LeavesInTable(e.call, e.helpers, win8) || LeavesInIndex(e.call, e.helpers, win8))
  }

  /** None of the first n calls leaves anything in the table or the index. */
  ghost predicate NoneForGood(states: seq<State>, events: seq<Event>, win8: bool, n: nat)
    requires n <= |events| == |states| - 1
  {
    forall i :: 0 <= i < n ==> !LeavesForGood(states[i], events[i], win8)
  }

  /** Whatever the first n calls have left in the TLS list has been taken. */
  ghost predicate AllTaken(states: seq<State>, events: seq<Event>, win8: bool, n: nat)
    requires n <= |events| == |states| - 1
  {
    forall p :: Leftover(states, events, win8, InTlsList, p, n) == 0
  }

  lemma {:induction false} NothingLeft(
    states: seq<State>, events: seq<Event>, win8: bool, place: Place, k: nat, n: nat)
    requires n <= |events| == |states| - 1 && Surplus(states[0], place, k, win8) == 0 && !place.InTlsList?
    requires NoneForGood(states, events, win8, n)
    ensures Leftover(states, events, win8, place, k, n) == 0
  {
    if n != 0 {
      NothingLeft(states, events, win8, place, k, n - 1);
      assert !LeavesForGood(states[n - 1], events[n - 1], win8);
    }
  }

  /** Over every run of loads and unloads from a consistent state, whatever fails and whatever address is used again,
      every memory module is in each structure exactly as often as its flags say, and nothing else is, if and only
      if no load so far has left its image in the table or the index, and every entry that loads have left in the
      TLS list has been taken. */
  lemma RunConsistentIff(
    states: seq<State>, events: seq<Event>, results: seq<Result>, win8: bool, native: set<nat>, n: nat)
    requires IsRun(states, events, results, win8, native) && n <= |events|
    requires Consistent(states[0], native, win8)
    ensures Consistent(states[n], native, win8)
            <==> NoneForGood(states, events, win8, n) && AllTaken(states, events, win8, n)
  {
    RunKeepsSound(states, events, results, win8, native, n);
    if NoneForGood(states, events, win8, n) {
      NothingLeftForGood(states, events, results, win8, native, n);
      TlsListIs(states, events, results, win8, native, n);
      ByParts(states[n], native, win8);
    } else {
      var i: nat :| i < n && LeavesForGood(states[i], events[i], win8);
      LeftForGood(states, events, results, win8, native, i, n);
    }
  }

  lemma ByParts(s: State, native: set<nat>, win8: bool)
    requires Sound(s, native, win8)
    requires forall place: Place, k ::
               !place.InTlsList? && Ours(native, place, k) ==> Surplus(s, place, k, win8) == 0
    ensures Consistent(s, native, win8) <==> forall p :: Surplus(s, InTlsList, p, win8) == 0
  {
    assert forall p :: Ours(native, InTlsList, p);
  }

  lemma TlsListIs(
    states: seq<State>, events: seq<Event>, results: seq<Result>, win8: bool, native: set<nat>, n: nat)
    requires IsRun(states, events, results, win8, native) && n <= |events| && Sound(states[0], native, win8)
    ensures AllTaken(states, events, win8, n) <==> forall p :: Surplus(states[n], InTlsList, p, win8) == 0
  {
    forall p
      ensures Surplus(states[n], InTlsList, p, win8) == Leftover(states, events, win8, InTlsList, p, n)
    {
      RunLeftovers(states, events, results, win8, native, InTlsList, p, n);
    }
  }

  lemma LeftForGood(
    states: seq<State>, events: seq<Event>, results: seq<Result>, win8: bool, native: set<nat>, i: nat, n: nat)
    requires IsRun(states, events, results, win8, native) && i < n <= |events|
    requires Consistent(states[0], native, win8) && LeavesForGood(states[i], events[i], win8)
    ensures !Consistent(states[n], native, win8)
  {
    var place := if LeavesInTable(events[i].call, events[i].helpers, win8) then InTable else InIndex;
    var k := events[i].helpers.base;
    RunStep(states, events, results, win8, native, i + 1);
    assert Leaves(states[i], events[i], win8, place, k) && Ours(native, place, k);
    assert Surplus(states[0], place, k, win8) == 0;
    LeftoverStays(states, events, win8, place, k, 0, n);
    RunLeftovers(states, events, results, win8, native, place, k, n);
  }

  lemma NothingLeftForGood(
    states: seq<State>, events: seq<Event>, results: seq<Result>, win8: bool, native: set<nat>, n: nat)
    requires IsRun(states, events, results, win8, native) && n <= |events| && Consistent(states[0], native, win8)
    requires NoneForGood(states, events, win8, n)
    ensures forall place: Place, k ::
              !place.InTlsList? && Ours(native, place, k) ==> Surplus(states[n], place, k, win8) == 0
  {
    forall place: Place, k | !place.InTlsList? && Ours(native, place, k)
      ensures Surplus(states[n], place, k, win8) == 0
    {
      assert Surplus(states[0], place, k, win8) == 0;
      NothingLeft(states, events, win8, place, k, n);
      RunLeftovers(states, events, results, win8, native, place, k, n);
    }
  }
}
