/**
 * Loading and unloading a module from memory as a state machine: what a call changes when it succeeds, and what it
 * leaves when it fails.
 */
module Lifecycle {
  import InvertedTable
  import opened Sequences
  import opened Wrappers

  /** An entry of the loader lists; headers are the code and header sizes of its image, if it has any. */
  datatype Entry = Entry(base: nat, name: string, headers: Option<(nat, nat)>, unloading: bool)

  /** The bookkeeping kept in a memory module; ldrEntry is the address of its entry in the loader lists, if it is
      mapped, and count what the reference-count helpers keep. */
  datatype Loaded = Loaded(
    mappedDll: bool, useReferenceCount: bool, insertInvertedFunctionTableEntry: bool, tlsHandled: bool,
    hasTls: bool, initialized: bool, ldrEntry: nat, count: nat)

  /** The loader lists, the memory modules, how often an image is in the inverted function table and a loader
      entry's address in the TLS list, and which bases are in the base-address index. */
  datatype State = State(
    entries: seq<Entry>, modules: map<nat, Loaded>, inverted: multiset<nat>, tls: multiset<nat>, index: set<nat>)

  datatype Flags = Flags(
    notMapDll: bool, notFailIfHandleTls: bool, passImageCheck: bool, notAddInverted: bool,
    notUseReferenceCount: bool, useDllName: bool, notHandleTls: bool)

  /** A call: its flags and names, and what the file's headers say. */
  datatype Call = Call(
    bufferSizeGiven: bool, flags: Flags, name: Option<string>, fullNameGiven: bool,
    imageValid: bool, headers: Option<(nat, nat)>, noSeh: bool, hasTls: bool)

  /** What the steps of LdrMapDllMemory meet: headers in the mapped image, memory for the entry, the resolved
      name, ntdll's base-address index, and memory for the dependency node. */
  datatype MapAnswers = MapAnswers(headers: bool, entry: bool, name: Option<string>, index: bool, node: bool)

  /** What the inverted function table insertion meets: a known table, a free slot, and the page protection. */
  datatype TableAnswers = TableAnswers(found: bool, room: bool, protect: InvertedTable.Protect)

  /** What the TLS handling meets: memory for the entry, a free index, memory for the request and for all of its
      blocks, memory for the hook's copy, and a kernel that serves the call. */
  datatype TlsAnswers = TlsAnswers(
    entry: bool, freeIndex: bool, request: bool, blocks: bool, buffer: bool, kernel: bool)

  /** What a load meets on its way; ldrEntry is the address the heap returns for its entry. */
  datatype Helpers = Helpers(
    mapImage: NtStatus, base: nat, ldrEntry: nat, mapping: MapAnswers, imports: NtStatus, protection: NtStatus,
    table: TableAnswers, tls: TlsAnswers, executeTls: bool, initializers: bool, getCount: NtStatus)

  predicate NtSuccess(s: NtStatus) {
    s.Success? || s.TlsSkipped? || s.MachineTypeMismatch?
  }

  /** A helper answers no success but the plain one. */
  predicate Plain(s: NtStatus) {
    NtSuccess(s) ==> s.Success?
  }

  /** What the unseen helpers promise. */
  predicate Promises(o: Helpers) {
    && Plain(o.imports) && Plain(o.protection) && NtSuccess(o.getCount)
    && (o.table.protect.Asked? ==> Plain(o.table.protect.open) && Plain(o.table.protect.close))
  }

  /** No image has the address that the mapping hands out, and neither the lists nor the index know it. */
  ghost predicate Free(s: State, base: nat) {
    && base !in s.modules && base !in s.index
    && forall i :: 0 <= i < |s.entries| ==> s.entries[i].base != base
  }

  /** No mapped module's loader entry is at the address that the heap returns for the new one. */
  ghost predicate NewEntry(s: State, p: nat) {
    forall b :: b in s.modules && s.modules[b].mappedDll ==> s.modules[b].ldrEntry != p
  }

  // ---------- What the helpers do ----------

  /** The base address enters the index before the dependency node is allocated. */
  predicate EntersIndex(o: Helpers, win8: bool) {
    o.mapping.headers && o.mapping.entry && o.mapping.name.Some? && win8 && o.mapping.index
  }

  /** Every step of the mapping of the entry succeeds. */
  predicate MapsEntry(o: Helpers, win8: bool) {
    o.mapping.headers && o.mapping.entry && o.mapping.name.Some? && (win8 ==> o.mapping.index && o.mapping.node)
  }

  function MapStatus(o: Helpers, win8: bool): NtStatus {
    if !o.mapping.headers then InvalidImageFormat
    else if !o.mapping.entry || o.mapping.name.None? then NoMemory
    else if MapsEntry(o, win8) then Success
    else Unsuccessful
  }

  /** The lists and the index after the mapping of the entry. */
  function AfterMapping(s: State, c: Call, o: Helpers, win8: bool): State {
    s.(entries := if MapsEntry(o, win8) then s.entries + [Entry(o.base, o.mapping.name.value, c.headers, false)]
                  else s.entries,
       index := if EntersIndex(o, win8) then s.index + {o.base} else s.index)
  }

  /** The image enters the table, whatever the insertion answers. */
  predicate Inserts(a: TableAnswers) {
    a.found && InvertedTable.Opens(a.protect) && a.room
  }

  function InsertStatus(a: TableAnswers): NtStatus {
    if !a.found then NotSupported
    else if !InvertedTable.Opens(a.protect) then a.protect.open
    else if !InvertedTable.Closes(a.protect) then a.protect.close
    else if !a.room then NoMemory
    else Success
  }

  /** The module's TLS entry is listed, whatever the handling answers. */
  predicate ListsTls(c: Call, a: TlsAnswers) {
    c.hasTls && a.entry && a.freeIndex && a.request && a.blocks
  }

  function HandleStatus(c: Call, a: TlsAnswers): NtStatus {
    if !c.hasTls then Success
    else if !a.entry || !a.freeIndex then InsufficientResources
    else if !a.request || !a.blocks || !a.buffer then NoMemory
    else if !a.kernel then KernelRefused
    else Success
  }

  // ---------- The entry that is already there ----------

  /** The entry is called what the caller says, or that with a four-letter suffix. */
  predicate NameMatches(e: Entry, name: string) {
    (|e.name| == |name| || |e.name| == |name| + 4) && SameName(e.name[..|name|], name)
  }

  /** The entry is the module being loaded: a memory module of that name with the same header sizes. */
  predicate IsSame(s: State, e: Entry, name: string, headers: (nat, nat)) {
    !e.unloading && NameMatches(e, name) && e.headers == Some(headers) && e.base in s.modules
  }

  /** The first such entry from i on, or the length. */
  function FindSame(s: State, i: nat, name: string, headers: (nat, nat)): (k: nat)
    requires i <= |s.entries|
    ensures i <= k <= |s.entries|
    ensures k < |s.entries| ==> IsSame(s, s.entries[k], name, headers)
    ensures forall j :: i <= j < k ==> !IsSame(s, s.entries[j], name, headers)
    decreases |s.entries| - i
  {
    if i < |s.entries| && !IsSame(s, s.entries[i], name, headers) then FindSame(s, i + 1, name, headers) else i
  }

  // ---------- What a load does ----------

  datatype Result = Result(status: NtStatus, base: Option<nat>, entry: Option<nat>)

  function Refused(status: NtStatus): Result {
    Result(status, None, None)
  }

  /** The names and flags that count: without mapping, all other flags and the names are ignored. */
  function Name(c: Call): Option<string> {
    if c.flags.notMapDll then None else c.name
  }

  /** The insertion is left out when the caller or the image says so. */
  predicate SkipsInsert(c: Call) {
    c.flags.notAddInverted || c.noSeh
  }

  /** The status of the last steps, that run the module's code. */
  function InitStatus(o: Helpers): NtStatus {
    if !o.executeTls || !o.initializers then DllInitFailed else Success
  }

  /** The first failure after the image is mapped, or what a full load answers. */
  function LoadStatus(c: Call, o: Helpers, win8: bool): NtStatus {
    if c.flags.notMapDll then
      if !NtSuccess(o.imports) then o.imports
      else if !NtSuccess(o.protection) then o.protection
      else InitStatus(o)
    else if !MapsEntry(o, win8) then MapStatus(o, win8)
    else if !NtSuccess(o.imports) then o.imports
    else if !NtSuccess(o.protection) then o.protection
    else if !SkipsInsert(c) && !NtSuccess(InsertStatus(o.table)) then InsertStatus(o.table)
    else if !c.flags.notHandleTls && !NtSuccess(HandleStatus(c, o.tls)) && !c.flags.notFailIfHandleTls then
      HandleStatus(c, o.tls)
    else if !NtSuccess(InitStatus(o)) then InitStatus(o)
    else if !c.flags.notHandleTls && !NtSuccess(HandleStatus(c, o.tls)) then TlsSkipped
    else Success
  }

  /** The load gets as far as the insertion, or as far as the TLS handling. */
  predicate ReachesInsert(c: Call, o: Helpers, win8: bool) {
    !c.flags.notMapDll && MapsEntry(o, win8) && NtSuccess(o.imports) && NtSuccess(o.protection) && !SkipsInsert(c)
  }

  predicate ReachesTls(c: Call, o: Helpers, win8: bool) {
    && !c.flags.notMapDll && MapsEntry(o, win8) && NtSuccess(o.imports) && NtSuccess(o.protection)
    && (SkipsInsert(c) || NtSuccess(InsertStatus(o.table))) && !c.flags.notHandleTls
  }

  /** What failing helpers leave behind on the way, whatever happens later. */
  function Leaks(s: State, c: Call, o: Helpers, win8: bool): State {
    s.(inverted := Plus(s.inverted, o.base,
                        ReachesInsert(c, o, win8) && !NtSuccess(InsertStatus(o.table)) && Inserts(o.table)),
       tls := Plus(s.tls, o.ldrEntry,
                   ReachesTls(c, o, win8) && !NtSuccess(HandleStatus(c, o.tls)) && ListsTls(c, o.tls)),
       index := s.index + (if !c.flags.notMapDll && !MapsEntry(o, win8) && EntersIndex(o, win8) then {o.base} else {}))
  }

  /** m with x once more, or with x once less, if so it is. */
  function Plus(m: multiset<nat>, x: nat, so: bool): multiset<nat> {
    if so then m + multiset{x} else m
  }

  function Minus(m: multiset<nat>, x: nat, so: bool): multiset<nat> {
    if so then m - multiset{x} else m
  }

  /** The module has no TLS directory and counts as handled: nothing is listed for it, and its teardown still
      releases whichever TLS entry names its loader entry's address. */
  predicate Unbacked(c: Call, o: Helpers, win8: bool) {
    ReachesTls(c, o, win8) && !c.hasTls
  }

  /** What a failed load leaves. */
  function Failed(s: State, c: Call, o: Helpers, win8: bool): State {
    var l := Leaks(s, c, o, win8);
    l.(tls := Minus(l.tls, o.ldrEntry, Unbacked(c, o, win8)))
  }

  /** What a successful load adds. */
  function NewModule(c: Call, o: Helpers, win8: bool): Loaded {
    if c.flags.notMapDll then Loaded(false, false, false, false, c.hasTls, true, 0, 1)
    else Loaded(true, !c.flags.notUseReferenceCount, !SkipsInsert(c),
                !c.flags.notHandleTls && NtSuccess(HandleStatus(c, o.tls)), c.hasTls, true, o.ldrEntry, 1)
  }

  function WithModule(s: State, c: Call, o: Helpers, win8: bool): State
    requires c.flags.notMapDll || MapsEntry(o, win8)
  {
    var m := NewModule(c, o, win8);
    var t := s.(modules := s.modules[o.base := m]);
    if c.flags.notMapDll then t
    else t.(entries := s.entries + [Entry(o.base, o.mapping.name.value, c.headers, false)],
            inverted := Plus(s.inverted, o.base, m.insertInvertedFunctionTableEntry),
            tls := Plus(s.tls, o.ldrEntry, m.tlsHandled && c.hasTls),
            index := s.index + (if win8 then {o.base} else {}))
  }

  /** What a load answers and leaves once its image is in memory. */
  ghost predicate Attaches(s: State, c: Call, o: Helpers, win8: bool, t: State, r: Result) {
    var status := LoadStatus(c, o, win8);
    if NtSuccess(status) then
      && (c.flags.notMapDll || MapsEntry(o, win8))
      && t == WithModule(Leaks(s, c, o, win8), c, o, win8)
      && r == Result(status, Some(o.base), if c.flags.notMapDll then None else Some(o.base))
    else
      && t == Failed(s, c, o, win8)
      && r == Result(status, if c.flags.notMapDll then Some(o.base) else None, None)
  }

  /** What a load that maps a new image answers and leaves. */
  ghost predicate LoadsNew(s: State, c: Call, o: Helpers, win8: bool, t: State, r: Result) {
    if !NtSuccess(o.mapImage) || o.mapImage.MachineTypeMismatch? then t == s && r == Refused(o.mapImage)
    else Attaches(s, c, o, win8, t, r)
  }

  /** What a load call answers and leaves. A call that does not map and fails still hands out the address it
      has freed. */
  ghost predicate Loads(s: State, c: Call, o: Helpers, win8: bool, t: State, r: Result) {
    if c.bufferSizeGiven then t == s && r == Refused(InvalidParameter5)
    else if !c.imageValid && !c.flags.passImageCheck then t == s && r == Refused(InvalidImageFormat)
    else if !c.flags.notMapDll && c.flags.useDllName && (c.name.None? || !c.fullNameGiven) then
      t == s && r == Refused(InvalidParameter3)
    else if Name(c).Some? && c.headers.None? then t == s && r == Refused(InvalidImageFormat)
    else
      var k := if Name(c).Some? then FindSame(s, 0, Name(c).value, c.headers.value) else |s.entries|;
      if k < |s.entries| then
        var base := s.entries[k].base;
        if !s.modules[base].useReferenceCount || c.flags.notUseReferenceCount then
          t == s && r == Refused(InvalidParameter3)
        else
          && t == s.(modules := s.modules[base := s.modules[base].(count := s.modules[base].count + 1)])
          && r == Result(Success, Some(base), Some(base))
      else LoadsNew(s, c, o, win8, t, r)
  }

  // ---------- What an unload does ----------

  /** The first n entries without those of a base. */
  function Kept(entries: seq<Entry>, n: nat, base: nat): seq<Entry>
    requires n <= |entries|
  {
    if n == 0 then []
    else
      var rest := Kept(entries, n - 1, base);
      if entries[n - 1].base == base then rest else rest + [entries[n - 1]]
  }

  function Unlisted(entries: seq<Entry>, base: nat): seq<Entry> {
    Kept(entries, |entries|, base)
  }

  lemma {:induction false} KeptMembers(entries: seq<Entry>, n: nat, base: nat, e: Entry)
    requires n <= |entries|
    ensures e in Kept(entries, n, base) <==> e in entries[..n] && e.base != base
  {
    if n != 0 {
      KeptMembers(entries, n - 1, base, e);
      assert entries[..n] == entries[..n - 1] + [entries[n - 1]];
    }
  }

  function Gone(s: State, base: nat, win8: bool): State
    requires base in s.modules
  {
    var m := s.modules[base];
    State(if m.mappedDll then Unlisted(s.entries, base) else s.entries,
          s.modules - {base},
          Minus(s.inverted, base, m.mappedDll && m.insertInvertedFunctionTableEntry),
          Minus(s.tls, m.ldrEntry, m.mappedDll && m.tlsHandled),
          if m.mappedDll && win8 then s.index - {base} else s.index)
  }

  /** What an unload call answers and leaves; getCount and updateCount are the helpers' answers. */
  ghost predicate Unloads(
    s: State, base: nat, getCount: NtStatus, updateCount: NtStatus, win8: bool, t: State, status: NtStatus)
  {
    if base !in s.modules then t == s && status == InvalidHandle
    else
      var m := s.modules[base];
      if !m.mappedDll then t == Gone(s, base, win8) && status == Success
      else if m.useReferenceCount && !NtSuccess(getCount) then t == s && status == getCount
      else if m.useReferenceCount && m.count > 1 then
        && status == updateCount
        && t == if NtSuccess(updateCount) then s.(modules := s.modules[base := m.(count := m.count - 1)]) else s
      else t == Gone(s, base, win8) && status == Success
  }

  // ---------- The loader ----------

  class Loader {
    var entries: seq<Entry>
    var modules: map<nat, Loaded>
    var inverted: multiset<nat>
    var tls: multiset<nat>
    var index: set<nat>
    const win8: bool

    constructor (entries: seq<Entry>, inverted: multiset<nat>, index: set<nat>, win8: bool)
      ensures Now() == State(entries, map[], inverted, multiset{}, index) && this.win8 == win8
    {
      this.entries, this.modules, this.inverted, this.tls, this.index := entries, map[], inverted, multiset{}, index;
      this.win8 := win8;
    }

    function Now(): State
      reads this
    {
      State(entries, modules, inverted, tls, index)
    }

    /** The part of RtlInitializeLdrDataTableEntry that can fail: the index is entered before the node is
        allocated. */
    method RtlInitializeLdrDataTableEntry(o: Helpers) returns (ok: bool)
      modifies this`index
      ensures ok <==> win8 ==> o.mapping.index && o.mapping.node
      ensures index == if win8 && o.mapping.index then old(index) + {o.base} else old(index)
    {
      if win8 {
        if !o.mapping.index {
          return false;
        }
        index := index + {o.base};
        if !o.mapping.node {
          return false;
        }
      }
      return true;
    }

    /** The mapping of the entry: into the index first, into the lists last. */
    method LdrMapDllMemory(c: Call, o: Helpers) returns (status: NtStatus)
      modifies this`entries, this`index
      ensures status == MapStatus(o, win8) && Now() == AfterMapping(old(Now()), c, o, win8)
    {
      if !o.mapping.headers {
        return InvalidImageFormat;
      }
      if !o.mapping.entry {
        return NoMemory;
      }
      if o.mapping.name.None? {
        return NoMemory;
      }
      var ok := RtlInitializeLdrDataTableEntry(o);
      if !ok {
        return Unsuccessful;
      }
      entries := entries + [Entry(o.base, o.mapping.name.value, c.headers, false)];
      return Success;
    }

    /** The insertion into the inverted function table, between two page protections. */
    method RtlInsertInvertedFunctionTable(a: TableAnswers, base: nat) returns (status: NtStatus)
      modifies this`inverted
      ensures status == InsertStatus(a)
      ensures inverted == Plus(old(inverted), base, Inserts(a))
    {
      if !a.found {
        return NotSupported;
      }
      if a.protect.Asked? && !a.protect.open.Success? {
        return a.protect.open;
      }
      if a.room {
        inverted := inverted + multiset{base};
      }
      if a.protect.Asked? && !a.protect.close.Success? {
        return a.protect.close;
      }
      return if a.room then Success else NoMemory;
    }

    /** The TLS handling: the entry is unlisted again when the request cannot be built, but not when the hook or
        the kernel fails. */
    method MmpHandleTlsData(c: Call, a: TlsAnswers, ldrEntry: nat) returns (status: NtStatus)
      modifies this`tls
      ensures status == HandleStatus(c, a)
      ensures tls == Plus(old(tls), ldrEntry, ListsTls(c, a))
    {
      if !c.hasTls {
        return Success;
      }
      if !a.entry || !a.freeIndex {
        return InsufficientResources;
      }
      tls := tls + multiset{ldrEntry};
      if !a.request || !a.blocks {
        tls := tls - multiset{ldrEntry};
        return NoMemory;
      }
      if !a.buffer {
        return NoMemory;
      }
      return if a.kernel then Success else KernelRefused;
    }

    /** The walk over the loader list for a module of that name. */
    method FindLoaded(name: string, headers: (nat, nat)) returns (k: nat)
      ensures k == FindSame(Now(), 0, name, headers)
    {
      k := 0;
      while k < |entries|
        invariant k <= |entries| && FindSame(Now(), 0, name, headers) == FindSame(Now(), k, name, headers)
      {
        var e := entries[k];
        if !e.unloading {
          if |e.name| == |name| || |e.name| == |name| + 4 {
            if SameName(e.name[..|name|], name) {
              if e.headers.Some? && e.base in modules {
                if e.headers.value == headers {
                  return;
                }
              }
            }
          }
        }
        k := k + 1;
      }
    }

    /** The steps up to the protection of the sections. */
    method Prepare(c: Call, o: Helpers, ghost s: State) returns (status: NtStatus)
      requires Now() == s.(modules := s.modules[o.base := Fresh(c)])
      modifies this
      ensures status == PrepareStatus(o, win8)
      ensures Reached(s, c, o, win8, Prepared(c, o, win8), false, false, Now())
    {
      status := LdrMapDllMemory(c, o);
      if !NtSuccess(status) {
        return;
      }
      modules := modules[o.base := modules[o.base].(mappedDll := true, ldrEntry := o.ldrEntry)];
      status := o.imports;
      if !NtSuccess(status) {
        return;
      }
      status := o.protection;
      if !NtSuccess(status) {
        return;
      }
      status := Success;
      if !c.flags.notUseReferenceCount {
        modules := modules[o.base := modules[o.base].(useReferenceCount := true)];
      }
    }

    method InsertInTable(c: Call, o: Helpers, ghost s: State, ghost m: Loaded) returns (status: NtStatus)
      requires Reached(s, c, o, win8, m, false, false, Now()) && !m.insertInvertedFunctionTableEntry
      modifies this
      ensures status == if SkipsInsert(c) then Success else InsertStatus(o.table)
      ensures Reached(
                s, c, o, win8,
                m.(insertInvertedFunctionTableEntry := !SkipsInsert(c) && NtSuccess(InsertStatus(o.table))),
                !SkipsInsert(c), false, Now())
    {
      status := Success;
      if !SkipsInsert(c) {
        status := RtlInsertInvertedFunctionTable(o.table, o.base);
        if !NtSuccess(status) {
          return;
        }
        modules := modules[o.base := modules[o.base].(insertInvertedFunctionTableEntry := true)];
      }
    }

    method HandleTls(c: Call, o: Helpers, ghost s: State, ghost m: Loaded) returns (status: NtStatus)
      requires Reached(s, c, o, win8, m, !SkipsInsert(c), false, Now()) && !m.tlsHandled
      modifies this
      ensures status == TlsStatus(c, o)
      ensures Reached(s, c, o, win8, m.(tlsHandled := !c.flags.notHandleTls && NtSuccess(HandleStatus(c, o.tls))),
                      !SkipsInsert(c), !c.flags.notHandleTls, Now())
    {
      status := Success;
      if !c.flags.notHandleTls {
        status := MmpHandleTlsData(c, o.tls, o.ldrEntry);
        if !NtSuccess(status) {
          if c.flags.notFailIfHandleTls {
            status := TlsSkipped;
          }
        } else {
          status := Success;
          modules := modules[o.base := modules[o.base].(tlsHandled := true)];
        }
      }
    }

    method Initialize(c: Call, o: Helpers, ghost s: State, ghost m: Loaded) returns (status: NtStatus)
      requires Reached(s, c, o, win8, m, !SkipsInsert(c), !c.flags.notHandleTls, Now()) && !m.initialized
      modifies this
      ensures status == InitStatus(o)
      ensures Reached(s, c, o, win8, m.(initialized := NtSuccess(status)),
                      !SkipsInsert(c), !c.flags.notHandleTls, Now())
    {
      if !o.executeTls || !o.initializers {
        return DllInitFailed;
      }
      modules := modules[o.base := modules[o.base].(initialized := true)];
      return Success;
    }

    /** The body of the load's do-while: each step may end it; the flags record what was done. */
    method Stages(c: Call, o: Helpers, ghost s: State) returns (status: NtStatus)
      requires Now() == s.(modules := s.modules[o.base := Fresh(c)])
      requires Promises(o) && !c.flags.notMapDll
      modifies this
      ensures status == LoadStatus(c, o, win8)
      ensures Reached(s, c, o, win8, StageFlags(c, o, win8), ReachesInsert(c, o, win8), ReachesTls(c, o, win8), Now())
    {
      status := Prepare(c, o, s);
      if !NtSuccess(status) {
        EndsInPrepare(c, o, win8);
        return;
      }
      ghost var m := Prepared(c, o, win8);
      status := InsertInTable(c, o, s, m);
      if !NtSuccess(status) {
        EndsInInsert(c, o, win8);
        return;
      }
      status := LastStages(c, o, s, m.(insertInvertedFunctionTableEntry := !SkipsInsert(c)));
      EndsAfterInsert(c, o, win8);
    }

    /** The steps from the TLS handling on. */
    method LastStages(c: Call, o: Helpers, ghost s: State, ghost m: Loaded) returns (status: NtStatus)
      requires Reached(s, c, o, win8, m, !SkipsInsert(c), false, Now()) && !m.tlsHandled && !m.initialized
      modifies this
      ensures status == if !NtSuccess(TlsStatus(c, o)) then TlsStatus(c, o)
                        else if !NtSuccess(InitStatus(o)) then InitStatus(o) else TlsStatus(c, o)
      ensures Reached(s, c, o, win8,
                      m.(tlsHandled := !c.flags.notHandleTls && NtSuccess(HandleStatus(c, o.tls)),
                         initialized := NtSuccess(TlsStatus(c, o)) && NtSuccess(InitStatus(o))),
                      !SkipsInsert(c), !c.flags.notHandleTls, Now())
    {
      status := HandleTls(c, o, s, m);
      if !NtSuccess(status) {
        return;
      }
      ghost var handled := m.(tlsHandled := !c.flags.notHandleTls && NtSuccess(HandleStatus(c, o.tls)));
      var initStatus := Initialize(c, o, s, handled);
      if !NtSuccess(initStatus) {
        status := initStatus;
      }
    }

    /** RtlFreeLdrDataTableEntry, as far as these structures go. */
    method RtlFreeLdrDataTableEntry(base: nat)
      modifies this
      ensures Now() == old(Now()).(entries := Unlisted(old(entries), base),
                                   index := if win8 then old(index) - {base} else old(index))
    {
      var kept, i := [], 0;
      while i < |entries|
        invariant i <= |entries| && kept == Kept(entries, i, base)
        invariant Now() == old(Now())
      {
        if entries[i].base != base {
          kept := kept + [entries[i]];
        }
        i := i + 1;
      }
      entries := kept;
      if win8 {
        index := index - {base};
      }
    }

    method LdrUnloadDllMemory(base: nat, getCount: NtStatus, updateCount: NtStatus) returns (status: NtStatus)
      modifies this
      ensures Unloads(old(Now()), base, getCount, updateCount, win8, Now(), status)
    {
      if base !in modules {
        return InvalidHandle;
      }
      var m := modules[base];
      if !m.mappedDll {
        modules := modules - {base};
        assert Now() == Gone(old(Now()), base, win8);
        return Success;
      }
      var count := 0;
      if m.useReferenceCount {
        if !NtSuccess(getCount) {
          return getCount;
        }
        count := m.count;
      }
      if count / 2 != 0 {
        if NtSuccess(updateCount) {
          modules := modules[base := m.(count := m.count - 1)];
        }
        return updateCount;
      }
      TearDown(base);
      return Success;
    }

    /** Each structure the module's flags name gives it up, and its memory is freed. */
    method TearDown(base: nat)
      requires base in modules && modules[base].mappedDll
      modifies this
      ensures Now() == Gone(old(Now()), base, win8)
    {
      var m := modules[base];
      if m.insertInvertedFunctionTableEntry {
        inverted := inverted - multiset{base};
      }
      if m.tlsHandled {
        tls := tls - multiset{m.ldrEntry};
      }
      RtlFreeLdrDataTableEntry(base);
      modules := modules - {base};
    }

    /** The load once the image is in memory. */
    method Attach(c: Call, o: Helpers) returns (r: Result)
      requires Promises(o) && Free(Now(), o.base)
      modifies this
      ensures Attaches(old(Now()), c, o, win8, Now(), r)
      ensures !NtSuccess(r.status) ==> o.base !in modules && (r.base == Some(o.base) <==> c.flags.notMapDll)
    {
      ghost var s := Now();
      modules := modules[o.base := Fresh(c)];
      if c.flags.notMapDll {
        r := AttachUnmapped(c, o, s);
      } else {
        r := AttachMapped(c, o, s);
      }
    }

    method AttachUnmapped(c: Call, o: Helpers, ghost s: State) returns (r: Result)
      requires Promises(o) && Free(s, o.base) && c.flags.notMapDll
      requires Now() == s.(modules := s.modules[o.base := Fresh(c)])
      modifies this`modules
      ensures Attaches(s, c, o, win8, Now(), r)
      ensures r.base == Some(o.base) && (!NtSuccess(r.status) ==> o.base !in modules)
    {
      var status := if !NtSuccess(o.imports) then o.imports else if !NtSuccess(o.protection) then o.protection
                    else if !o.executeTls || !o.initializers then DllInitFailed else Success;
      if NtSuccess(status) {
        modules := modules[o.base := modules[o.base].(initialized := true)];
      } else {
        modules := modules - {o.base};
        assert modules == s.modules;
      }
      return Result(status, Some(o.base), None);
    }

    method AttachMapped(c: Call, o: Helpers, ghost s: State) returns (r: Result)
      requires Promises(o) && Free(s, o.base) && !c.flags.notMapDll
      requires Now() == s.(modules := s.modules[o.base := Fresh(c)])
      modifies this
      ensures Attaches(s, c, o, win8, Now(), r)
      ensures !NtSuccess(r.status) ==> o.base !in modules && r.base.None?
    {
      var status := Stages(c, o, s);
      if NtSuccess(status) {
        SuccessIs(s, c, o, win8, Now());
        return Result(status, Some(o.base), Some(o.base));
      }
      FailureIs(s, c, o, win8, Now());
      var undone := LdrUnloadDllMemory(o.base, o.getCount, Success);
      return Result(status, None, None);
    }

    method LdrLoadDllMemoryExW(c: Call, o: Helpers) returns (r: Result)
      requires Promises(o) && Free(Now(), o.base)
      modifies this
      ensures Loads(old(Now()), c, o, win8, Now(), r)
      ensures !NtSuccess(r.status) && r.base.Some? ==> c.flags.notMapDll && r.base.value !in modules
    {
      if c.bufferSizeGiven {
        return Refused(InvalidParameter5);
      }
      if !c.imageValid && !c.flags.passImageCheck {
        return Refused(InvalidImageFormat);
      }
      if !c.flags.notMapDll && c.flags.useDllName && (c.name.None? || !c.fullNameGiven) {
        return Refused(InvalidParameter3);
      }
      if !c.flags.notMapDll && c.name.Some? {
        if c.headers.None? {
          return Refused(InvalidImageFormat);
        }
        var k := FindLoaded(c.name.value, c.headers.value);
        if k < |entries| {
          var base := entries[k].base;
          if !modules[base].useReferenceCount || c.flags.notUseReferenceCount {
            return Refused(InvalidParameter3);
          }
          modules := modules[base := modules[base].(count := modules[base].count + 1)];
          return Result(Success, Some(base), Some(base));
        }
      }
      if !NtSuccess(o.mapImage) || o.mapImage.MachineTypeMismatch? {
        return Refused(o.mapImage);
      }
      r := Attach(c, o);
    }
  }

  /** The module's flags after the first steps. */
  function Prepared(c: Call, o: Helpers, win8: bool): Loaded {
    Fresh(c).(mappedDll := MapsEntry(o, win8), ldrEntry := if MapsEntry(o, win8) then o.ldrEntry else 0,
              useReferenceCount := NtSuccess(PrepareStatus(o, win8)) && !c.flags.notUseReferenceCount)
  }

  lemma EndsInPrepare(c: Call, o: Helpers, win8: bool)
    requires !c.flags.notMapDll && !NtSuccess(PrepareStatus(o, win8))
    ensures LoadStatus(c, o, win8) == PrepareStatus(o, win8) && StageFlags(c, o, win8) == Prepared(c, o, win8)
    ensures !ReachesInsert(c, o, win8) && !ReachesTls(c, o, win8)
  {
  }

  lemma EndsInInsert(c: Call, o: Helpers, win8: bool)
    requires !c.flags.notMapDll && NtSuccess(PrepareStatus(o, win8))
    requires !SkipsInsert(c) && !NtSuccess(InsertStatus(o.table))
    requires Promises(o)
    ensures LoadStatus(c, o, win8) == InsertStatus(o.table) && ReachesInsert(c, o, win8) && !ReachesTls(c, o, win8)
    ensures StageFlags(c, o, win8) == Prepared(c, o, win8).(insertInvertedFunctionTableEntry := false)
  {
  }

  lemma EndsAfterInsert(c: Call, o: Helpers, win8: bool)
    requires !c.flags.notMapDll && NtSuccess(PrepareStatus(o, win8))
    requires SkipsInsert(c) || NtSuccess(InsertStatus(o.table))
    requires Promises(o)
    ensures LoadStatus(c, o, win8) == if !NtSuccess(TlsStatus(c, o)) then TlsStatus(c, o)
                                else if !NtSuccess(InitStatus(o)) then InitStatus(o) else TlsStatus(c, o)
    ensures ReachesInsert(c, o, win8) == !SkipsInsert(c) && ReachesTls(c, o, win8) == !c.flags.notHandleTls
    ensures StageFlags(c, o, win8) == Prepared(c, o, win8).(
              insertInvertedFunctionTableEntry := !SkipsInsert(c),
              tlsHandled := !c.flags.notHandleTls && NtSuccess(HandleStatus(c, o.tls)),
              initialized := NtSuccess(TlsStatus(c, o)) && NtSuccess(InitStatus(o)))
  {
  }

  /** t is s with the module being loaded in it: its flags m, and what the steps taken so far really did. */
  ghost predicate Reached(
    s: State, c: Call, o: Helpers, win8: bool, m: Loaded, insertTried: bool, tlsTried: bool, t: State) {
    t == State(if MapsEntry(o, win8) then s.entries + [Entry(o.base, o.mapping.name.value, c.headers, false)]
               else s.entries,
               s.modules[o.base := m],
               Plus(s.inverted, o.base, insertTried && Inserts(o.table)),
               Plus(s.tls, o.ldrEntry, tlsTried && ListsTls(c, o.tls)),
               s.index + (if EntersIndex(o, win8) then {o.base} else {}))
  }

  /** A module that has just been mapped. */
  function Fresh(c: Call): Loaded {
    Loaded(false, false, false, false, c.hasTls, false, 0, 1)
  }

  function PrepareStatus(o: Helpers, win8: bool): NtStatus {
    if !MapsEntry(o, win8) then MapStatus(o, win8)
    else if !NtSuccess(o.imports) then o.imports
    else if !NtSuccess(o.protection) then o.protection
    else Success
  }

  function TlsStatus(c: Call, o: Helpers): NtStatus {
    if c.flags.notHandleTls || NtSuccess(HandleStatus(c, o.tls)) then Success
    else if c.flags.notFailIfHandleTls then TlsSkipped
    else HandleStatus(c, o.tls)
  }

  /** The flags of the module being loaded, after the stages have run. */
  function StageFlags(c: Call, o: Helpers, win8: bool): Loaded {
    var mapped := MapsEntry(o, win8);
    var ready := mapped && NtSuccess(o.imports) && NtSuccess(o.protection);
    Loaded(mapped, ready && !c.flags.notUseReferenceCount,
           ReachesInsert(c, o, win8) && NtSuccess(InsertStatus(o.table)),
           ReachesTls(c, o, win8) && NtSuccess(HandleStatus(c, o.tls)), c.hasTls, NtSuccess(LoadStatus(c, o, win8)),
           if mapped then o.ldrEntry else 0, 1)
  }

  lemma {:induction false} KeptAll(entries: seq<Entry>, e: Entry, n: nat)
    requires n <= |entries| && forall i :: 0 <= i < n ==> entries[i].base != e.base
    ensures Kept(entries + [e], n, e.base) == entries[..n]
  {
    if n != 0 {
      KeptAll(entries, e, n - 1);
    }
  }

  lemma UnlistedLast(entries: seq<Entry>, e: Entry)
    requires forall i :: 0 <= i < |entries| ==> entries[i].base != e.base
    ensures Unlisted(entries + [e], e.base) == entries
  {
    KeptAll(entries, e, |entries|);
    assert entries[..|entries|] == entries;
  }

  /** The mapping succeeds exactly when its entry is listed afterwards, and freeing the entry then restores the
      lists and the index; a mapping that fails changes nothing, unless all that failed was the allocation of the
      dependency node. */
  lemma MappingAllOrNothing(s: State, c: Call, o: Helpers, win8: bool)
    requires Free(s, o.base)
    ensures var t := AfterMapping(s, c, o, win8);
            && (MapStatus(o, win8).Success? <==> exists e :: e in t.entries && e.base == o.base)
            && (MapStatus(o, win8).Success? ==>
                  t.(entries := Unlisted(t.entries, o.base),
                     index := if win8 then t.index - {o.base} else t.index) == s)
            && (!MapStatus(o, win8).Success? ==> (t == s <==> (EntersIndex(o, win8) ==> o.mapping.node)))
  {
    var t := AfterMapping(s, c, o, win8);
    if MapsEntry(o, win8) {
      var e := Entry(o.base, o.mapping.name.value, c.headers, false);
      assert t.entries[|s.entries|] == e;
      UnlistedLast(s.entries, e);
    } else {
      assert t.entries == s.entries;
      assert EntersIndex(o, win8) ==> o.base in t.index;
    }
  }

  /** A failed load is undone by the unload: what is left is what failing helpers left, less a TLS entry that
      already named the loader entry's address when nothing was listed for the module itself. */
  lemma FailureIs(s: State, c: Call, o: Helpers, win8: bool, t: State)
    requires Promises(o) && Free(s, o.base) && !c.flags.notMapDll && !NtSuccess(LoadStatus(c, o, win8))
    requires Reached(s, c, o, win8, StageFlags(c, o, win8), ReachesInsert(c, o, win8), ReachesTls(c, o, win8), t)
    ensures o.base in t.modules && t.modules[o.base] == StageFlags(c, o, win8)
    ensures Gone(t, o.base, win8) == Failed(s, c, o, win8)
  {
    var g, l := Gone(t, o.base, win8), Failed(s, c, o, win8);
    if MapsEntry(o, win8) {
      UnlistedLast(s.entries, Entry(o.base, o.mapping.name.value, c.headers, false));
    }
    assert g.modules == s.modules;
    TableUndone(s, c, o, win8, t);
    TlsUndone(s, c, o, win8, t);
    assert g.index == l.index;
  }

  lemma TableUndone(s: State, c: Call, o: Helpers, win8: bool, t: State)
    requires Promises(o) && !c.flags.notMapDll && !NtSuccess(LoadStatus(c, o, win8))
    requires Reached(s, c, o, win8, StageFlags(c, o, win8), ReachesInsert(c, o, win8), ReachesTls(c, o, win8), t)
    ensures Gone(t, o.base, win8).inverted == Failed(s, c, o, win8).inverted
  {
  }

  lemma TlsUndone(s: State, c: Call, o: Helpers, win8: bool, t: State)
    requires Promises(o) && !c.flags.notMapDll && !NtSuccess(LoadStatus(c, o, win8))
    requires Reached(s, c, o, win8, StageFlags(c, o, win8), ReachesInsert(c, o, win8), ReachesTls(c, o, win8), t)
    ensures Gone(t, o.base, win8).tls == Failed(s, c, o, win8).tls
  {
  }

  lemma SuccessIs(s: State, c: Call, o: Helpers, win8: bool, t: State)
    requires Promises(o) && !c.flags.notMapDll && NtSuccess(LoadStatus(c, o, win8))
    requires Reached(s, c, o, win8, StageFlags(c, o, win8), ReachesInsert(c, o, win8), ReachesTls(c, o, win8), t)
    ensures MapsEntry(o, win8) && t == WithModule(Leaks(s, c, o, win8), c, o, win8)
  {
    SuccessFlags(c, o, win8);
    SuccessCounts(s, c, o, win8, t);
    assert t.index == WithModule(Leaks(s, c, o, win8), c, o, win8).index;
  }

  lemma SuccessFlags(c: Call, o: Helpers, win8: bool)
    requires Promises(o) && !c.flags.notMapDll && NtSuccess(LoadStatus(c, o, win8))
    ensures MapsEntry(o, win8) && StageFlags(c, o, win8) == NewModule(c, o, win8)
  {
  }

  lemma SuccessCounts(s: State, c: Call, o: Helpers, win8: bool, t: State)
    requires Promises(o) && !c.flags.notMapDll && NtSuccess(LoadStatus(c, o, win8)) && MapsEntry(o, win8)
    requires t.inverted == Plus(s.inverted, o.base, ReachesInsert(c, o, win8) && Inserts(o.table))
    requires t.tls == Plus(s.tls, o.ldrEntry, ReachesTls(c, o, win8) && ListsTls(c, o.tls))
    ensures var w := WithModule(Leaks(s, c, o, win8), c, o, win8); t.inverted == w.inverted && t.tls == w.tls
  {
  }

  // ---------- What failing loads leave ----------

  /** A free slot of the table was filled, and then the pages refused their last protection. */
  predicate LeavesInTable(c: Call, o: Helpers, win8: bool) {
    var a := o.table;
    && ReachesInsert(c, o, win8) && a.found && a.room
    && a.protect.Asked? && a.protect.open.Success? && !a.protect.close.Success?
  }

  /** The TLS entry was listed and its request built, and then the hook had no memory or the kernel refused. */
  predicate LeavesTls(c: Call, o: Helpers, win8: bool) {
    var a := o.tls;
    && ReachesTls(c, o, win8) && c.hasTls && a.entry && a.freeIndex && a.request && a.blocks
    && (!a.buffer || !a.kernel)
  }

  /** The index was entered, and then there was no memory for the dependency node. */
  predicate LeavesInIndex(c: Call, o: Helpers, win8: bool) {
    var a := o.mapping;
    !c.flags.notMapDll && win8 && a.headers && a.entry && a.name.Some? && a.index && !a.node
  }

  predicate LeavesBehind(c: Call, o: Helpers, win8: bool) {
    LeavesInTable(c, o, win8) || LeavesTls(c, o, win8) || LeavesInIndex(c, o, win8)
  }

  /** What the load leaves behind is there, and nothing else is changed. */
  lemma LeaksAre(s: State, c: Call, o: Helpers, win8: bool)
    requires Promises(o)
    ensures Leaks(s, c, o, win8).inverted == Plus(s.inverted, o.base, LeavesInTable(c, o, win8))
    ensures Leaks(s, c, o, win8).tls == Plus(s.tls, o.ldrEntry, LeavesTls(c, o, win8))
    ensures Leaks(s, c, o, win8).index == if LeavesInIndex(c, o, win8) then s.index + {o.base} else s.index
  {
    assert s.index + {} == s.index;
  }

  /** A load that maps an image and then fails, at whatever stage, restores every structure unless the last page
      protection, the hook or kernel, or the allocation of the node failed it, or it has no TLS directory and its
      rollback releases a TLS entry that an earlier load left at its loader entry's address. */
  lemma FailedLoadRestoresIff(s: State, c: Call, o: Helpers, win8: bool, t: State, r: Result)
    requires Promises(o) && Free(s, o.base) && NtSuccess(o.mapImage) && !o.mapImage.MachineTypeMismatch?
    requires LoadsNew(s, c, o, win8, t, r) && !NtSuccess(r.status)
    ensures t == s <==> !LeavesBehind(c, o, win8) && !(Unbacked(c, o, win8) && o.ldrEntry in s.tls)
  {
    LeaksAre(s, c, o, win8);
    FailedCounts(s, c, o, win8);
    if !LeavesBehind(c, o, win8) && !(Unbacked(c, o, win8) && o.ldrEntry in s.tls) {
      assert t.inverted == s.inverted && t.tls == s.tls;
    }
  }

  /** How often the load's image and its loader entry are in the table and in the TLS list after a failure. */
  lemma FailedCounts(s: State, c: Call, o: Helpers, win8: bool)
    requires Promises(o)
    ensures var t := Failed(s, c, o, win8);
            && t.inverted[o.base] == s.inverted[o.base] + (if LeavesInTable(c, o, win8) then 1 else 0)
            && t.tls[o.ldrEntry] == (if LeavesTls(c, o, win8) then s.tls[o.ldrEntry] + 1
                                     else if Unbacked(c, o, win8) && o.ldrEntry in s.tls then s.tls[o.ldrEntry] - 1
                                     else s.tls[o.ldrEntry])
            && (forall b :: b != o.base ==> t.inverted[b] == s.inverted[b])
            && (forall p :: p != o.ldrEntry ==> t.tls[p] == s.tls[p])
  {
    LeaksAre(s, c, o, win8);
  }

  /** A failing call that does not map hands out an address where there is no module. */
  lemma UnmappedFailureDangles(s: State, c: Call, o: Helpers, win8: bool, t: State, r: Result)
    requires Free(s, o.base) && NtSuccess(o.mapImage) && !o.mapImage.MachineTypeMismatch?
    requires LoadsNew(s, c, o, win8, t, r) && !NtSuccess(r.status)
    ensures r.base.Some? <==> c.flags.notMapDll
    ensures r.base.Some? ==> r.base.value !in t.modules
  {
  }
}
