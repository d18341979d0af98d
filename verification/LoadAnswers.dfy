/**
 * What the caller of a load or an unload is told, guard by guard, and how a load finds the module that is already
 * there.
 */
module LoadAnswers {
  import opened Lifecycle
  import Sequences
  import opened Wrappers

  // ---------- The module that is already there ----------

  /** The base name is the given name, or the given name and four characters more, upper and lower case aside. */
  predicate Called(baseName: string, name: string) {
    && (|baseName| == |name| || |baseName| == |name| + 4)
    && forall i :: 0 <= i < |name| ==> Sequences.SameLetter(baseName[i], name[i])
  }

  /** The entry is a memory module's that is not being unloaded, is called so, and has these header sizes. */
  predicate Qualifies(s: State, e: Entry, name: string, headers: (nat, nat)) {
    !e.unloading && Called(e.name, name) && e.headers == Some(headers) && e.base in s.modules
  }

  lemma CalledIs(e: Entry, name: string)
    ensures Called(e.name, name) <==> NameMatches(e, name)
  {
    if |e.name| == |name| || |e.name| == |name| + 4 {
      Sequences.SameNameIs(e.name[..|name|], name);
      assert forall i :: 0 <= i < |name| ==> e.name[..|name|][i] == e.name[i];
    }
  }

  lemma QualifiesIs(s: State, e: Entry, name: string, headers: (nat, nat))
    ensures Qualifies(s, e, name, headers) <==> IsSame(s, e, name, headers)
  {
    CalledIs(e, name);
  }

  /** The call asks for a mapped module of that name, and its arguments are in order. */
  predicate Asks(c: Call, name: string, headers: (nat, nat)) {
    && !c.bufferSizeGiven && (c.imageValid || c.flags.passImageCheck)
    && !c.flags.notMapDll && (c.flags.useDllName ==> c.fullNameGiven)
    && c.name == Some(name) && c.headers == Some(headers)
  }

  /** The first entry that qualifies, if it and the call count references, gets one more: the call succeeds with its
      base, and nothing else changes.  If one of them does not, the call is refused. */
  lemma LoadAgainCounts(
    s: State, c: Call, o: Helpers, win8: bool, t: State, r: Result, name: string, headers: (nat, nat), k: nat)
    requires Loads(s, c, o, win8, t, r) && Asks(c, name, headers)
    requires k < |s.entries| && Qualifies(s, s.entries[k], name, headers)
    requires forall j :: 0 <= j < k ==> !Qualifies(s, s.entries[j], name, headers)
    ensures var base := s.entries[k].base; var m := s.modules[base];
            if m.useReferenceCount && !c.flags.notUseReferenceCount then
              && r.status == Success && r.base == Some(base) && r.entry == Some(base)
              && t.modules.Keys == s.modules.Keys && t.modules[base] == m.(count := m.count + 1)
              && (forall b :: b in s.modules && b != base ==> t.modules[b] == s.modules[b])
              && t.entries == s.entries && t.inverted == s.inverted && t.tls == s.tls && t.index == s.index
            else t == s && r.status == InvalidParameter3 && r.base.None? && r.entry.None?
  {
    FirstFound(s, name, headers, k);
  }

  lemma FirstFound(s: State, name: string, headers: (nat, nat), k: nat)
    requires k < |s.entries| && Qualifies(s, s.entries[k], name, headers)
    requires forall j :: 0 <= j < k ==> !Qualifies(s, s.entries[j], name, headers)
    ensures FindSame(s, 0, name, headers) == k
  {
    var f := FindSame(s, 0, name, headers);
    QualifiesIs(s, s.entries[k], name, headers);
    if f < k {
      QualifiesIs(s, s.entries[f], name, headers);
    }
  }

  lemma NoneFound(s: State, name: string, headers: (nat, nat))
    requires forall j :: 0 <= j < |s.entries| ==> !Qualifies(s, s.entries[j], name, headers)
    ensures FindSame(s, 0, name, headers) == |s.entries|
  {
    var f := FindSame(s, 0, name, headers);
    if f < |s.entries| {
      QualifiesIs(s, s.entries[f], name, headers);
    }
  }

  /** What a load that succeeds in mapping a new image adds, and that it is at the address of that image. */
  ghost predicate MapsNew(s: State, c: Call, o: Helpers, t: State, r: Result) {
    && r.base == Some(o.base) && r.entry == Some(o.base) && o.mapping.name.Some?
    && t.entries == s.entries + [Entry(o.base, o.mapping.name.value, c.headers, false)]
    && t.modules.Keys == s.modules.Keys + {o.base}
    && (forall b :: b in s.modules && b != o.base ==> t.modules[b] == s.modules[b])
    && var m := t.modules[o.base];
       && m.mappedDll && m.initialized && m.count == 1 && m.ldrEntry == o.ldrEntry && m.hasTls == c.hasTls
       && m.useReferenceCount == !c.flags.notUseReferenceCount
       && m.insertInvertedFunctionTableEntry == !(c.flags.notAddInverted || c.noSeh)
       && m.tlsHandled == (!c.flags.notHandleTls && r.status != TlsSkipped)
  }

  /** When no entry qualifies, a new image is mapped. */
  lemma LoadOtherwiseMaps(
    s: State, c: Call, o: Helpers, win8: bool, t: State, r: Result, name: string, headers: (nat, nat))
    requires Promises(o) && Loads(s, c, o, win8, t, r) && Asks(c, name, headers)
    requires forall j :: 0 <= j < |s.entries| ==> !Qualifies(s, s.entries[j], name, headers)
    ensures LoadsNew(s, c, o, win8, t, r)
    ensures NtSuccess(r.status) && r.status != MachineTypeMismatch ==> MapsNew(s, c, o, t, r)
  {
    NoneFound(s, name, headers);
    if NtSuccess(r.status) && r.status != MachineTypeMismatch {
      NewModuleIs(s, c, o, win8, t, r);
    }
  }

  lemma NewModuleIs(s: State, c: Call, o: Helpers, win8: bool, t: State, r: Result)
    requires Promises(o) && Attaches(s, c, o, win8, t, r) && !c.flags.notMapDll
    requires NtSuccess(r.status) && r.status != MachineTypeMismatch
    ensures MapsNew(s, c, o, t, r)
  {
  }

  /** Loading the same image twice, by its base name or without its four-character suffix, gives one module with two
      references. */
  lemma LoadedTwiceIsCountedTwice(
    s: State, c1: Call, o1: Helpers, c2: Call, o2: Helpers, win8: bool, t1: State, r1: Result, t2: State, r2: Result,
    name1: string, name2: string, headers: (nat, nat))
    requires Promises(o1) && Free(s, o1.base) && Asks(c1, name1, headers) && Asks(c2, name2, headers)
    requires forall j :: 0 <= j < |s.entries| ==> !Qualifies(s, s.entries[j], name1, headers)
    requires forall j :: 0 <= j < |s.entries| ==> !Qualifies(s, s.entries[j], name2, headers)
    requires !c1.flags.notUseReferenceCount && !c2.flags.notUseReferenceCount
    requires Loads(s, c1, o1, win8, t1, r1) && NtSuccess(r1.status) && r1.status != MachineTypeMismatch
    requires o1.mapping.name.Some? && Called(o1.mapping.name.value, name2)
    requires Loads(t1, c2, o2, win8, t2, r2)
    ensures r2.status == Success && r2.base == r1.base == Some(o1.base)
    ensures o1.base in t2.modules && t2.modules[o1.base].count == 2 && t2.entries == t1.entries
  {
    LoadOtherwiseMaps(s, c1, o1, win8, t1, r1, name1, headers);
    var k := |s.entries|;
    assert t1.entries[k] == Entry(o1.base, o1.mapping.name.value, Some(headers), false);
    forall j | 0 <= j < k
      ensures !Qualifies(t1, t1.entries[j], name2, headers)
    {
      assert t1.entries[j] == s.entries[j] && !Qualifies(s, s.entries[j], name2, headers);
    }
    LoadAgainCounts(t1, c2, o2, win8, t2, r2, name2, headers, k);
  }

  // ---------- Answers by guard ----------

  /** What the argument checks answer, if they refuse. */
  lemma ArgumentsAnswer(s: State, c: Call, o: Helpers, win8: bool, t: State, r: Result)
    requires Loads(s, c, o, win8, t, r)
    ensures c.bufferSizeGiven ==> r.status == InvalidParameter5
    ensures !c.bufferSizeGiven && !c.imageValid && !c.flags.passImageCheck ==> r.status == InvalidImageFormat
    ensures !c.bufferSizeGiven && (c.imageValid || c.flags.passImageCheck) && !c.flags.notMapDll ==>
              && (c.flags.useDllName && (c.name.None? || !c.fullNameGiven) ==> r.status == InvalidParameter3)
              && (!c.flags.useDllName && c.name.Some? && c.headers.None? ==> r.status == InvalidImageFormat)
    ensures (|| c.bufferSizeGiven || (!c.imageValid && !c.flags.passImageCheck)
             || (!c.flags.notMapDll && c.flags.useDllName && (c.name.None? || !c.fullNameGiven))
             || (!c.flags.notMapDll && c.name.Some? && c.headers.None?)) ==>
              t == s && r.base.None? && r.entry.None?
  {
  }

  /** What mapping the entry answers. */
  function MapAnswer(a: MapAnswers, win8: bool): NtStatus {
    if !a.headers then InvalidImageFormat
    else if !a.entry then NoMemory
    else if a.name.None? then NoMemory
    else if win8 && !a.index then Unsuccessful
    else if win8 && !a.node then Unsuccessful
    else Success
  }

  /** What the insertion into the table answers. */
  function TableAnswer(a: TableAnswers): NtStatus {
    if !a.found then NotSupported
    else if a.protect.Asked? && a.protect.open != Success then a.protect.open
    else if a.protect.Asked? && a.protect.close != Success then a.protect.close
    else if !a.room then NoMemory
    else Success
  }

  /** What the TLS handling of a module with a TLS directory answers. */
  function TlsAnswer(a: TlsAnswers): NtStatus {
    if !a.entry then InsufficientResources
    else if !a.freeIndex then InsufficientResources
    else if !a.request then NoMemory
    else if !a.blocks then NoMemory
    else if !a.buffer then NoMemory
    else if !a.kernel then KernelRefused
    else Success
  }

  /** What a load that maps a new image answers: the first step that fails decides, except that the TLS handling may
      be allowed to. */
  function NewAnswer(c: Call, o: Helpers, win8: bool): NtStatus {
    var tls := if c.flags.notHandleTls || !c.hasTls then Success else TlsAnswer(o.tls);
    if o.mapImage != Success && o.mapImage != TlsSkipped then o.mapImage
    else if !c.flags.notMapDll && MapAnswer(o.mapping, win8) != Success then MapAnswer(o.mapping, win8)
    else if o.imports != Success then o.imports
    else if o.protection != Success then o.protection
    else if !c.flags.notMapDll && !c.flags.notAddInverted && !c.noSeh && TableAnswer(o.table) != Success then
      TableAnswer(o.table)
    else if !c.flags.notMapDll && tls != Success && !c.flags.notFailIfHandleTls then tls
    else if !o.executeTls || !o.initializers then DllInitFailed
    else if !c.flags.notMapDll && tls != Success then TlsSkipped
    else Success
  }

  lemma NewLoadAnswers(s: State, c: Call, o: Helpers, win8: bool, t: State, r: Result)
    requires Promises(o) && LoadsNew(s, c, o, win8, t, r)
    ensures r.status == NewAnswer(c, o, win8)
  {
    if o.mapImage == Success || o.mapImage == TlsSkipped {
      if c.flags.notMapDll {
        UnmappedAnswersSo(c, o, win8);
      } else {
        MappedAnswersSo(c, o, win8);
      }
    }
  }

  lemma UnmappedAnswersSo(c: Call, o: Helpers, win8: bool)
    requires Promises(o) && c.flags.notMapDll && (o.mapImage == Success || o.mapImage == TlsSkipped)
    ensures LoadStatus(c, o, win8) == NewAnswer(c, o, win8)
  {
  }

  lemma MappedAnswersSo(c: Call, o: Helpers, win8: bool)
    requires Promises(o) && !c.flags.notMapDll && (o.mapImage == Success || o.mapImage == TlsSkipped)
    ensures LoadStatus(c, o, win8) == NewAnswer(c, o, win8)
  {
    MapAnswersSo(o, win8);
    TableAnswersSo(o.table);
    TlsAnswersSo(c, o.tls);
  }

  lemma TlsAnswersSo(c: Call, a: TlsAnswers)
    ensures HandleStatus(c, a) == if c.hasTls then TlsAnswer(a) else Success
  {
  }

  lemma MapAnswersSo(o: Helpers, win8: bool)
    ensures MapStatus(o, win8) == MapAnswer(o.mapping, win8)
    ensures MapsEntry(o, win8) <==> MapAnswer(o.mapping, win8) == Success
  {
  }

  lemma TableAnswersSo(a: TableAnswers)
    ensures InsertStatus(a) == TableAnswer(a)
  {
  }

  /** What an unload answers, and when the module goes: at its last reference, or at once if it counts none. */
  lemma UnloadAnswers(
    s: State, base: nat, getCount: NtStatus, updateCount: NtStatus, win8: bool, t: State, status: NtStatus)
    requires Unloads(s, base, getCount, updateCount, win8, t, status)
    ensures base !in s.modules ==> status == InvalidHandle && t == s
    ensures base in s.modules ==>
              var m := s.modules[base];
              && (m.mappedDll && m.useReferenceCount && !NtSuccess(getCount) ==> status == getCount && t == s)
              && (m.mappedDll && m.useReferenceCount && NtSuccess(getCount) && m.count >= 2 ==>
                    status == updateCount
                    && t.modules.Keys == s.modules.Keys
                    && t.modules[base].count == (if NtSuccess(updateCount) then m.count - 1 else m.count)
                    && t.entries == s.entries)
              && (!m.mappedDll || !m.useReferenceCount || (NtSuccess(getCount) && m.count < 2) ==>
                    status == Success && base !in t.modules)
  {
  }
}
