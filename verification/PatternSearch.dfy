/**
 * The resumable search for a byte pattern in a module section, and the recovery of the base-address
 * index that is built on it.
 */
module PatternSearch {
  import opened Bytes
  import opened Sequences
  import opened Wrappers

  /** A module's section headers; None stands for a handle without image headers. */
  datatype Section = Section(name: string, virtualAddress: nat, virtualSize: nat)
  datatype Module = Module(base: nat, sections: Option<seq<Section>>)

  // ---------- Occurrences ----------

  /** The pattern occurs at a. */
  predicate Hit(mem: seq<byte>, pattern: seq<byte>, a: nat) {
    a + |pattern| <= |mem| && mem[a..a + |pattern|] == pattern
  }

  /** All occurrences that start at or after `from` and end by `end`, in order. */
  function Hits(mem: seq<byte>, pattern: seq<byte>, from: nat, end: nat): (hits: seq<nat>)
    ensures hits != [] ==> from <= hits[0] && hits[0] + |pattern| <= end
    decreases end - from
  {
    if from + |pattern| > end || from >= end then []
    else (if Hit(mem, pattern, from) then [from] else []) + Hits(mem, pattern, from + 1, end)
  }

  /** The list holds every occurrence and nothing else. */
  lemma HitsAreAll(mem: seq<byte>, pattern: seq<byte>, from: nat, end: nat)
    requires pattern != []
    ensures forall a: nat :: a in Hits(mem, pattern, from, end)
                        <==> from <= a && a + |pattern| <= end && Hit(mem, pattern, a)
  {
    forall a: nat
      ensures a in Hits(mem, pattern, from, end)
              <==> from <= a && a + |pattern| <= end && Hit(mem, pattern, a)
    {
      ListedIff(mem, pattern, from, end, a);
    }
  }

  lemma {:induction false} ListedIff(mem: seq<byte>, pattern: seq<byte>, from: nat, end: nat, a: nat)
    requires pattern != []
    ensures a in Hits(mem, pattern, from, end) <==> from <= a && a + |pattern| <= end && Hit(mem, pattern, a)
    decreases end - from
  {
    if from + |pattern| <= end {
      ListedIff(mem, pattern, from + 1, end, a);
    }
  }

  /** The list is strictly increasing: each occurrence is in it once. */
  lemma {:induction false} HitsIncrease(mem: seq<byte>, pattern: seq<byte>, from: nat, end: nat, i: nat, j: nat)
    requires pattern != [] && i < j < |Hits(mem, pattern, from, end)|
    ensures from <= Hits(mem, pattern, from, end)[i] < Hits(mem, pattern, from, end)[j]
    decreases end - from
  {
    var all, rest := Hits(mem, pattern, from, end), Hits(mem, pattern, from + 1, end);
    if !Hit(mem, pattern, from) {
      HitsIncrease(mem, pattern, from + 1, end, i, j);
    } else {
      assert all == [from] + rest;
      assert all[j] == rest[j - 1];
      if i > 0 {
        HitsIncrease(mem, pattern, from + 1, end, i - 1, j - 1);
        assert all[i] == rest[i - 1];
      } else {
        HitsAreAll(mem, pattern, from + 1, end);
        assert rest[j - 1] in rest;
      }
    }
  }

  lemma AfterFirst(first: nat, rest: seq<nat>, i: nat)
    requires 0 < i <= |rest|
    ensures ([first] + rest)[i] == rest[i - 1] && ([first] + rest)[i + 1..] == rest[i..]
  {
  }

  /** The occurrences after one of them, a, are those that remain. */
  lemma {:induction false} HitsAfter(mem: seq<byte>, pattern: seq<byte>, from: nat, end: nat, i: nat, a: nat)
    requires pattern != [] && i < |Hits(mem, pattern, from, end)| && a == Hits(mem, pattern, from, end)[i]
    ensures Hits(mem, pattern, a + 1, end) == Hits(mem, pattern, from, end)[i + 1..]
    ensures from <= a < end
    decreases end - from
  {
    var all, rest := Hits(mem, pattern, from, end), Hits(mem, pattern, from + 1, end);
    if !Hit(mem, pattern, from) {
      assert all == rest;
      HitsAfter(mem, pattern, from + 1, end, i, a);
    } else {
      assert all == [from] + rest;
      if i == 0 {
        assert all[1..] == rest;
      } else {
        AfterFirst(from, rest, i);
        HitsAfter(mem, pattern, from + 1, end, i - 1, a);
      }
    }
  }

  // ---------- The search context ----------

  /** Where the last occurrence was found, and how much of the section is left from there. */
  datatype Context = Context(result: Option<nat>, blockSize: nat)

  const RESET := Context(None, 0)

  /** The section of that name, if it can hold the pattern. */
  function FirstNamed(sections: seq<Section>, i: nat, name: string): (k: nat)
    requires i <= |sections|
    ensures i <= k <= |sections|
    ensures k < |sections| ==> SameName(sections[k].name, name)
    ensures forall j :: i <= j < k ==> !SameName(sections[j].name, name)
    decreases |sections| - i
  {
    if i < |sections| && !SameName(sections[i].name, name) then FirstNamed(sections, i + 1, name) else i
  }

  /** The address range of the section that a search starts in; None if no search can. */
  function Range(m: Module, name: string, size: nat): Option<(nat, nat)> {
    if m.sections.None? then None
    else
      var s := m.sections.value;
      var k := FirstNamed(s, 0, name);
      if k == |s| || m.base + s[k].virtualAddress == 0 || s[k].virtualSize == 0 || s[k].virtualSize < size then None
      else Some((m.base + s[k].virtualAddress, m.base + s[k].virtualAddress + s[k].virtualSize))
  }

  /** The occurrences a call has still to report: after the last one, or in the whole section. */
  function Ahead(mem: seq<byte>, pattern: seq<byte>, m: Module, name: string, c: Context): seq<nat> {
    match c.result
    case Some(a) => Hits(mem, pattern, a + 1, a + c.blockSize)
    case None =>
      match Range(m, name, |pattern|)
      case Some(r) => Hits(mem, pattern, r.0, r.1)
      case None => []
  }

  /** Where the section that the context is in ends. */
  function End(m: Module, name: string, size: nat, c: Context): nat {
    match c.result
    case Some(a) => a + c.blockSize
    case None => match Range(m, name, size) case Some(r) => r.1 case None => 0
  }

  /** What a call answers. */
  function Status(mem: seq<byte>, pattern: seq<byte>, m: Module, name: string, c: Context): NtStatus {
    if pattern == [] then InvalidParameter
    else if c.result.None? && m.sections.None? then InvalidParameter1
    else if Ahead(mem, pattern, m, name, c) == [] then NotFound
    else Success
  }

  /** What a call leaves behind: the next occurrence, or a reset context. */
  function Next(mem: seq<byte>, pattern: seq<byte>, m: Module, name: string, c: Context): Context {
    match Status(mem, pattern, m, name, c)
    case Success =>
      var a := Ahead(mem, pattern, m, name, c)[0];
      Context(Some(a), End(m, name, |pattern|, c) - a)
    case InvalidParameter1 => c
    case _ => RESET
  }

  /** The context after n calls. */
  function After(mem: seq<byte>, pattern: seq<byte>, m: Module, name: string, n: nat): Context {
    if n == 0 then RESET else Next(mem, pattern, m, name, After(mem, pattern, m, name, n - 1))
  }

  /** Repeated calls report every occurrence in the section, overlapping ones included, in increasing
      order and each once, keeping result + blockSize at the section's end; the next call says NotFound
      and leaves a reset context. */
  lemma {:induction false} CallsEnumerate(mem: seq<byte>, pattern: seq<byte>, m: Module, name: string, n: nat)
    requires pattern != [] && m.sections.Some?
    requires n <= |Ahead(mem, pattern, m, name, RESET)|
    ensures var all, c := Ahead(mem, pattern, m, name, RESET), After(mem, pattern, m, name, n);
            && (n > 0 ==> c.result == Some(all[n - 1]) && all[n - 1] + c.blockSize == End(m, name, |pattern|, RESET))
            && Ahead(mem, pattern, m, name, c) == all[n..]
            && Status(mem, pattern, m, name, c) == (if n < |all| then Success else NotFound)
            && (n == |all| ==> After(mem, pattern, m, name, n + 1) == RESET)
  {
    if n > 0 {
      CallsEnumerate(mem, pattern, m, name, n - 1);
      var r := Range(m, name, |pattern|).value;
      NextHit(mem, pattern, m, name, r, n - 1, After(mem, pattern, m, name, n - 1));
    }
  }

  /** One call moves on to the next occurrence. */
  lemma NextHit(mem: seq<byte>, pattern: seq<byte>, m: Module, name: string, r: (nat, nat), i: nat, c: Context)
    requires pattern != [] && m.sections.Some? && Range(m, name, |pattern|) == Some(r)
    requires var all := Hits(mem, pattern, r.0, r.1);
             && i < |all| && Ahead(mem, pattern, m, name, c) == all[i..]
             && End(m, name, |pattern|, c) == r.1
    ensures var all, d := Hits(mem, pattern, r.0, r.1), Next(mem, pattern, m, name, c);
            && d.result == Some(all[i]) && all[i] + d.blockSize == r.1
            && Ahead(mem, pattern, m, name, d) == all[i + 1..]
  {
    HitsAfter(mem, pattern, r.0, r.1, i, Hits(mem, pattern, r.0, r.1)[i]);
  }
  // ---------- The search as it runs ----------

  class SearchContext {
    const pattern: seq<byte>
    var result: Option<nat>
    var memoryBlockSize: nat

    constructor (pattern: seq<byte>)
      ensures this.pattern == pattern && State() == RESET
    {
      this.pattern := pattern;
      result, memoryBlockSize := None, 0;
    }

    function State(): Context
      reads this
    {
      Context(result, memoryBlockSize)
    }

    /** The loop over the section headers. */
    method Begin(m: Module, sectionName: string) returns (status: NtStatus)
      requires result.None?
      modifies this
      ensures m.sections.None? ==> status == InvalidParameter1 && State() == old(State())
      ensures m.sections.Some? ==>
                match Range(m, sectionName, |pattern|)
                case None => status == NotFound && State() == RESET
                case Some(r) => status == Success && State() == Context(Some(r.0), r.1 - r.0)
    {
      if m.sections.None? {
        return InvalidParameter1;
      }
      var sections, i := m.sections.value, 0;
      memoryBlockSize := 0;
      var start := 0;
      while i < |sections|
        invariant i <= |sections| && start == 0 && memoryBlockSize == 0 && result.None?
        invariant FirstNamed(sections, 0, sectionName) == FirstNamed(sections, i, sectionName)
      {
        if SameName(sections[i].name, sectionName) {
          start := m.base + sections[i].virtualAddress;
          memoryBlockSize := sections[i].virtualSize;
          break;
        }
        i := i + 1;
      }
      if start == 0 || memoryBlockSize == 0 || memoryBlockSize < |pattern| {
        result, memoryBlockSize := None, 0;
        return NotFound;
      }
      result := Some(start);
      return Success;
    }

    /** The search proper: the rest of the section has to be readable. */
    method RtlFindMemoryBlockFromModuleSection(mem: seq<byte>, m: Module, sectionName: string)
      returns (status: NtStatus)
      requires pattern != [] && (result.Some? || m.sections.Some?) ==> End(m, sectionName, |pattern|, State()) <= |mem|
      requires result.Some? ==> memoryBlockSize > 0
      modifies this
      ensures status == Status(mem, pattern, m, sectionName, old(State()))
      ensures State() == Next(mem, pattern, m, sectionName, old(State()))
      ensures status.Success? ==> memoryBlockSize > 0
    {
      if pattern == [] {
        result, memoryBlockSize := None, 0;
        return InvalidParameter;
      }
      if result.Some? {
        result, memoryBlockSize := Some(result.value + 1), memoryBlockSize - 1;
      } else {
        status := Begin(m, sectionName);
        if !status.Success? {
          return;
        }
      }
      SearchedFrom(mem, m, sectionName, old(State()), result.value, result.value + memoryBlockSize);
      status := Scan(mem);
    }

    /** What a call answers and leaves, once it is clear where it searches. */
    lemma SearchedFrom(mem: seq<byte>, m: Module, sectionName: string, c: Context, from: nat, end: nat)
      requires pattern != []
      requires match c.result
               case Some(a) => from == a + 1 && end == a + c.blockSize
               case None => Range(m, sectionName, |pattern|) == Some((from, end))
      ensures var hits := Hits(mem, pattern, from, end);
              && Status(mem, pattern, m, sectionName, c) == (if hits == [] then NotFound else Success)
              && Next(mem, pattern, m, sectionName, c)
                 == if hits == [] then RESET else Context(Some(hits[0]), end - hits[0])
    {
    }

    /** The linear search from result on. */
    method Scan(mem: seq<byte>) returns (status: NtStatus)
      requires pattern != [] && result.Some? && result.value + memoryBlockSize <= |mem|
      modifies this
      ensures var hits := Hits(mem, pattern, old(result.value), old(result.value + memoryBlockSize));
              if hits == [] then status == NotFound && State() == RESET
              else status == Success && State() == Context(Some(hits[0]), old(result.value + memoryBlockSize) - hits[0])
    {
      var at := result.value;
      var last := at + memoryBlockSize - |pattern|;
      ghost var from, end := at, at + memoryBlockSize;
      while at <= last
        invariant from <= at <= end && at + memoryBlockSize == end
        invariant Hits(mem, pattern, from, end) == Hits(mem, pattern, at, end)
      {
        if mem[at..at + |pattern|] == pattern {
          result := Some(at);
          return Success;
        }
        assert !Hit(mem, pattern, at);
        at, memoryBlockSize := at + 1, memoryBlockSize - 1;
      }
      result, memoryBlockSize := None, 0;
      return NotFound;
    }
  }

  // ---------- Recovery of the base-address index ----------

  /** Where a balanced node keeps its parent, with the colour in the lowest bit, and what a tree
      keeps: its root and its leftmost node. */
  const PARENT_VALUE: nat := 16
  const MIN: nat := 8

  /** The node's parent: its ParentValue without the three low bits. */
  function Parent(mem: seq<byte>, node: nat): nat
    requires node + PARENT_VALUE + 8 <= |mem|
  {
    var v := Read(mem, node + PARENT_VALUE, 8);
    v - v % 8
  }

  predicate IsRed(mem: seq<byte>, node: nat)
    requires node + PARENT_VALUE + 8 <= |mem|
  {
    Read(mem, node + PARENT_VALUE, 8) % 2 == 1
  }

  /** The next node on the path is this one's parent. */
  predicate Climbs(mem: seq<byte>, path: seq<nat>, i: nat)
    requires i + 1 < |path|
  {
    path[i] + PARENT_VALUE + 8 <= |mem| && Parent(mem, path[i]) == path[i + 1] && path[i + 1] != 0
  }

  /** The nodes from `node` up to the root of its tree. */
  ghost predicate IsPath(mem: seq<byte>, node: nat, path: seq<nat>) {
    && path != [] && path[0] == node
    && (forall i :: 0 <= i < |path| - 1 ==> Climbs(mem, path, i))
    && path[|path| - 1] + PARENT_VALUE + 8 <= |mem| && Parent(mem, path[|path| - 1]) == 0
  }

  /** The bytes of a pointer. */
  function PointerBytes(p: nat): seq<byte> {
    Write(seq(8, _ => 0), 0, 8, p)
  }

  method RootOf(mem: seq<byte>, node: nat, ghost path: seq<nat>) returns (root: nat)
    requires IsPath(mem, node, path)
    ensures root == path[|path| - 1]
  {
    root := node;
    ghost var i := 0;
    assert 0 < |path| - 1 ==> Climbs(mem, path, 0);
    while Parent(mem, root) != 0
      invariant 0 <= i < |path| && root == path[i] && root + PARENT_VALUE + 8 <= |mem|
      invariant i < |path| - 1 ==> Climbs(mem, path, i)
      decreases |path| - i
    {
      assert i + 1 < |path| - 1 ==> Climbs(mem, path, i + 1);
      root := Parent(mem, root);
      i := i + 1;
    }
  }

  /** What the search for the root comes to. */
  ghost function FoundIndex(mem: seq<byte>, ntdll: Module, root: nat, index: Option<nat>): Option<nat>
    requires root + PARENT_VALUE + 8 <= |mem| && ntdll.sections.Some?
    requires End(ntdll, ".data", 8, RESET) + 16 <= |mem|
  {
    var hits := Ahead(mem, PointerBytes(root), ntdll, ".data", RESET);
    if !IsRed(mem, root) && |hits| == 1 && Read(mem, hits[0], 8) != 0 && Read(mem, hits[0] + MIN, 8) != 0
    then Some(hits[0]) else index
  }

  /** The index is taken to be at the only place in ntdll's data that points to the root of the tree its
      own entry is in, and is left alone when there is no such place, when there are several, when the
      node found is red, or when the tree has no leftmost node. */
  method FindLdrpModuleBaseAddressIndex(
    mem: seq<byte>, ntdll: Module, node: nat, ghost path: seq<nat>, index: Option<nat>) returns (found: Option<nat>)
    requires IsPath(mem, node, path) && ntdll.sections.Some?
    requires End(ntdll, ".data", 8, RESET) + 16 <= |mem|
    ensures found == FoundIndex(mem, ntdll, path[|path| - 1], index)
  {
    var root := RootOf(mem, node, path);
    found := index;
    if !IsRed(mem, root) {
      var context := new SearchContext(PointerBytes(root));
      ghost var all := Ahead(mem, PointerBytes(root), ntdll, ".data", RESET);
      var count, tmp := 0, 0;
      CallsEnumerate(mem, context.pattern, ntdll, ".data", 0);
      var status := context.RtlFindMemoryBlockFromModuleSection(mem, ntdll, ".data");
      while status.Success?
        invariant context.pattern == PointerBytes(root) && count <= 1 && found == index
        invariant status
                  == Status(mem, context.pattern, ntdll, ".data", After(mem, context.pattern, ntdll, ".data", count))
        invariant context.State() == After(mem, context.pattern, ntdll, ".data", count + 1)
        invariant status.Success? ==> context.memoryBlockSize > 0
        invariant count <= |all| && (status.Success? <==> count < |all|) && (count == 1 ==> tmp == all[0])
        decreases 1 - count
      {
        if count != 0 {
          return;
        }
        tmp := context.result.value;
        CallsEnumerate(mem, context.pattern, ntdll, ".data", 1);
        status := context.RtlFindMemoryBlockFromModuleSection(mem, ntdll, ".data");
        count := count + 1;
      }
      if count != 0 && Read(mem, tmp, 8) != 0 && Read(mem, tmp + MIN, 8) != 0 {
        found := Some(tmp);
      }
    }
  }
}
