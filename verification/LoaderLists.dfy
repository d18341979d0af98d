/**
 * The loader's hash table and module lists: entering and leaving them, and recovering the hash table's
 * address from the module list.
 */
module LoaderLists {
  import opened LinkedLists
  import opened Sequences
  import opened Wrappers

  const LDR_HASH_TABLE_ENTRIES: nat := 32
  const LIST_ENTRY_SIZE: nat := 16

  /** Where a module's record has its links. */
  const IN_LOAD_ORDER: nat := 0
  const IN_MEMORY_ORDER: nat := 16
  const IN_INIT_ORDER: nat := 32
  const HASH_LINKS: nat := 112

  /** The list heads: the hash table's first bucket and the three module lists. */
  datatype Heads = Heads(hashTable: nat, inLoad: nat, inMemory: nat, inInit: nat)

  type hash = h: nat | h < 32

  function Bucket(table: nat, h: nat): nat {
    table + LIST_ENTRY_SIZE * h
  }

  ghost predicate HasHeads(rings: map<nat, seq<nat>>, heads: Heads) {
    && (forall h: hash :: Bucket(heads.hashTable, h) in rings)
    && heads.inLoad in rings && heads.inMemory in rings && heads.inInit in rings
    && (forall h: hash :: heads.inLoad != Bucket(heads.hashTable, h)
                          && heads.inMemory != Bucket(heads.hashTable, h)
                          && heads.inInit != Bucket(heads.hashTable, h))
    && heads.inLoad != heads.inMemory && heads.inLoad != heads.inInit && heads.inMemory != heads.inInit
  }

  /** The entry's name can be read and hashes to h. */
  predicate HashesTo(e: nat, hashOf: map<nat, hash>, h: nat) {
    e >= HASH_LINKS && e - HASH_LINKS in hashOf && hashOf[e - HASH_LINKS] == h
  }

  /** Each entry of the ring belongs to a module whose name hashes to h. */
  predicate AllHashTo(s: seq<nat>, hashOf: map<nat, hash>, h: nat) {
    forall i :: 0 <= i < |s| ==> HashesTo(s[i], hashOf, h)
  }

  /** Every bucket holds only modules whose names hash to it. */
  ghost predicate Hashed(rings: map<nat, seq<nat>>, heads: Heads, hashOf: map<nat, hash>)
    requires HasHeads(rings, heads)
  {
    forall h: hash :: AllHashTo(rings[Bucket(heads.hashTable, h)], hashOf, h)
  }

  /** The rings with a module at the end of its bucket and of the three lists. */
  ghost function Entered(rings: map<nat, seq<nat>>, heads: Heads, m: nat, h: hash): map<nat, seq<nat>>
    requires HasHeads(rings, heads)
  {
    Tail(Tail(Tail(Tail(rings, Bucket(heads.hashTable, h), m + HASH_LINKS),
                   heads.inLoad, m + IN_LOAD_ORDER),
              heads.inMemory, m + IN_MEMORY_ORDER),
         heads.inInit, m + IN_INIT_ORDER)
  }

  /** None of the module's links is in a list. */
  ghost predicate Absent(rings: map<nat, seq<nat>>, m: nat) {
    && Unlisted(rings, m + HASH_LINKS) && Unlisted(rings, m + IN_LOAD_ORDER)
    && Unlisted(rings, m + IN_MEMORY_ORDER) && Unlisted(rings, m + IN_INIT_ORDER)
  }

  /** All of the module's links are in their lists. */
  ghost predicate Listed(rings: map<nat, seq<nat>>, heads: Heads, m: nat, h: hash)
    requires HasHeads(rings, heads)
  {
    && m + HASH_LINKS in rings[Bucket(heads.hashTable, h)] && m + IN_LOAD_ORDER in rings[heads.inLoad]
    && m + IN_MEMORY_ORDER in rings[heads.inMemory] && m + IN_INIT_ORDER in rings[heads.inInit]
  }

  /** The rings without a module. */
  ghost function Left(rings: map<nat, seq<nat>>, heads: Heads, m: nat, h: hash): map<nat, seq<nat>>
    requires HasHeads(rings, heads) && Listed(rings, heads, m, h)
  {
    Cut(Cut(Cut(Cut(rings, heads.inLoad, m + IN_LOAD_ORDER),
                heads.inMemory, m + IN_MEMORY_ORDER),
            heads.inInit, m + IN_INIT_ORDER),
        Bucket(heads.hashTable, h), m + HASH_LINKS)
  }

  lemma EnteredHashed(rings: map<nat, seq<nat>>, heads: Heads, hashOf: map<nat, hash>, m: nat)
    requires HasHeads(rings, heads) && Hashed(rings, heads, hashOf) && m in hashOf
    ensures HasHeads(Entered(rings, heads, m, hashOf[m]), heads)
    ensures Hashed(Entered(rings, heads, m, hashOf[m]), heads, hashOf)
  {
    forall h: hash
      ensures AllHashTo(Entered(rings, heads, m, hashOf[m])[Bucket(heads.hashTable, h)], hashOf, h)
    {
      assert AllHashTo(rings[Bucket(heads.hashTable, h)], hashOf, h);
    }
  }

  lemma LeftHashed(rings: map<nat, seq<nat>>, heads: Heads, hashOf: map<nat, hash>, m: nat)
    requires HasHeads(rings, heads) && Hashed(rings, heads, hashOf) && m in hashOf && Listed(rings, heads, m, hashOf[m])
    ensures HasHeads(Left(rings, heads, m, hashOf[m]), heads)
    ensures Hashed(Left(rings, heads, m, hashOf[m]), heads, hashOf)
  {
    forall h: hash
      ensures AllHashTo(Left(rings, heads, m, hashOf[m])[Bucket(heads.hashTable, h)], hashOf, h)
    {
      assert AllHashTo(rings[Bucket(heads.hashTable, h)], hashOf, h);
    }
  }

  /** A bucket takes 16 bytes. */
  function BucketAt(table: nat, h: nat): nat {
    table + 16 * h
  }

  /** r1 is r0 with the module's links appended: at 0x70 of its record for the bucket, 16 bytes a bucket, and at 0,
      0x10 and 0x20 for the lists in load, memory and initialisation order. */
  ghost predicate Grows(r0: map<nat, seq<nat>>, r1: map<nat, seq<nat>>, heads: Heads, m: nat, h: hash)
    requires HasHeads(r0, heads)
  {
    var b := BucketAt(heads.hashTable, h);
    && r1.Keys == r0.Keys && b in r0
    && r1[b] == r0[b] + [m + 0x70]
    && r1[heads.inLoad] == r0[heads.inLoad] + [m]
    && r1[heads.inMemory] == r0[heads.inMemory] + [m + 0x10]
    && r1[heads.inInit] == r0[heads.inInit] + [m + 0x20]
    && forall k :: k in r0 && k != b && k != heads.inLoad && k != heads.inMemory && k != heads.inInit ==> r1[k] == r0[k]
  }

  /** s without its first e. */
  function Minus(s: seq<nat>, e: nat): seq<nat>
    requires e in s
  {
    RemoveAt(s, Position(s, e, 0))
  }

  /** r1 is r0 with the module's links taken out. */
  ghost predicate Shrinks(r0: map<nat, seq<nat>>, r1: map<nat, seq<nat>>, heads: Heads, m: nat, h: hash)
    requires HasHeads(r0, heads) && Listed(r0, heads, m, h)
  {
    var b := BucketAt(heads.hashTable, h);
    && r1.Keys == r0.Keys && b in r0
    && m + 0x70 in r0[b] && m in r0[heads.inLoad] && m + 0x10 in r0[heads.inMemory] && m + 0x20 in r0[heads.inInit]
    && r1[b] == Minus(r0[b], m + 0x70)
    && r1[heads.inLoad] == Minus(r0[heads.inLoad], m)
    && r1[heads.inMemory] == Minus(r0[heads.inMemory], m + 0x10)
    && r1[heads.inInit] == Minus(r0[heads.inInit], m + 0x20)
    && forall k :: k in r0 && k != b && k != heads.inLoad && k != heads.inMemory && k != heads.inInit ==> r1[k] == r0[k]
  }

  lemma EnteredGrows(rings: map<nat, seq<nat>>, heads: Heads, m: nat, h: hash)
    requires HasHeads(rings, heads)
    ensures Grows(rings, Entered(rings, heads, m, h), heads, m, h) && HasHeads(Entered(rings, heads, m, h), heads)
    ensures Listed(Entered(rings, heads, m, h), heads, m, h)
  {
  }

  lemma LeftShrinks(rings: map<nat, seq<nat>>, heads: Heads, m: nat, h: hash)
    requires HasHeads(rings, heads) && Listed(rings, heads, m, h)
    ensures Shrinks(rings, Left(rings, heads, m, h), heads, m, h)
  {
  }

  lemma ShrinkUndoesGrow(
    r0: map<nat, seq<nat>>, r1: map<nat, seq<nat>>, r2: map<nat, seq<nat>>, heads: Heads, m: nat, h: hash, b: nat)
    requires HasHeads(r0, heads) && HasHeads(r1, heads) && Listed(r1, heads, m, h)
    requires Grows(r0, r1, heads, m, h) && Shrinks(r1, r2, heads, m, h) && b == BucketAt(heads.hashTable, h)
    requires m + 0x70 !in r0[b] && m !in r0[heads.inLoad]
    requires m + 0x10 !in r0[heads.inMemory] && m + 0x20 !in r0[heads.inInit]
    ensures r2 == r0
  {
    CutUndoesTail(r0[b], m + 0x70);
    CutUndoesTail(r0[heads.inLoad], m);
    CutUndoesTail(r0[heads.inMemory], m + 0x10);
    CutUndoesTail(r0[heads.inInit], m + 0x20);
  }

  lemma AbsentNotIn(rings: map<nat, seq<nat>>, heads: Heads, m: nat, h: hash)
    requires HasHeads(rings, heads) && Absent(rings, m)
    ensures m + HASH_LINKS !in rings[Bucket(heads.hashTable, h)] && m + IN_LOAD_ORDER !in rings[heads.inLoad]
    ensures m + IN_MEMORY_ORDER !in rings[heads.inMemory] && m + IN_INIT_ORDER !in rings[heads.inInit]
  {
    UnlistedNotIn(rings, Bucket(heads.hashTable, h), m + HASH_LINKS);
    UnlistedNotIn(rings, heads.inLoad, m + IN_LOAD_ORDER);
    UnlistedNotIn(rings, heads.inMemory, m + IN_MEMORY_ORDER);
    UnlistedNotIn(rings, heads.inInit, m + IN_INIT_ORDER);
  }

  /** Leaving right after entering restores every list. */
  lemma LeaveUndoesEnter(
    rings: map<nat, seq<nat>>, entered: map<nat, seq<nat>>, left: map<nat, seq<nat>>, heads: Heads, m: nat, h: hash)
    requires HasHeads(rings, heads) && Absent(rings, m) && entered == Entered(rings, heads, m, h)
    requires HasHeads(entered, heads) && Listed(entered, heads, m, h) ==> left == Left(entered, heads, m, h)
    ensures HasHeads(entered, heads) && Listed(entered, heads, m, h) && left == rings
  {
    AbsentNotIn(rings, heads, m, h);
    EnteredGrows(rings, heads, m, h);
    LeftShrinks(entered, heads, m, h);
    ShrinkUndoesGrow(rings, entered, left, heads, m, h, BucketAt(heads.hashTable, h));
  }

  /** RtlInsertMemoryTableEntry: the module becomes the last of its bucket and of the three lists, and a
      valid table stays valid. */
  method RtlInsertMemoryTableEntry(
    links: Links, heads: Heads, m: nat, hashOf: map<nat, hash>, ghost rings: map<nat, seq<nat>>)
    requires WellFormed(links.flink, links.blink, rings) && HasHeads(rings, heads) && Hashed(rings, heads, hashOf)
    requires Absent(rings, m) && m in hashOf
    modifies links
    ensures WellFormed(links.flink, links.blink, Entered(rings, heads, m, hashOf[m]))
    ensures HasHeads(Entered(rings, heads, m, hashOf[m]), heads)
    ensures Hashed(Entered(rings, heads, m, hashOf[m]), heads, hashOf)
  {
    EnteredHashed(rings, heads, hashOf, m);
    var b := Bucket(heads.hashTable, hashOf[m]);
    Enter(links, b, m + HASH_LINKS, rings, {m + IN_LOAD_ORDER, m + IN_MEMORY_ORDER, m + IN_INIT_ORDER});
    ghost var r1 := Tail(rings, b, m + HASH_LINKS);
    Enter(links, heads.inLoad, m + IN_LOAD_ORDER, r1, {m + IN_MEMORY_ORDER, m + IN_INIT_ORDER});
    ghost var r2 := Tail(r1, heads.inLoad, m + IN_LOAD_ORDER);
    Enter(links, heads.inMemory, m + IN_MEMORY_ORDER, r2, {m + IN_INIT_ORDER});
    ghost var r3 := Tail(r2, heads.inMemory, m + IN_MEMORY_ORDER);
    Enter(links, heads.inInit, m + IN_INIT_ORDER, r3, {});
  }

  /** One insertion, which leaves the module's other links out of the lists. */
  method Enter(links: Links, head: nat, e: nat, ghost rings: map<nat, seq<nat>>, ghost others: set<nat>)
    requires WellFormed(links.flink, links.blink, rings) && head in rings && Unlisted(rings, e)
    requires forall x :: x in others ==> x != e && Unlisted(rings, x)
    modifies links
    ensures WellFormed(links.flink, links.blink, Tail(rings, head, e))
    ensures forall x :: x in others ==> Unlisted(Tail(rings, head, e), x)
  {
    links.InsertTailList(head, e, rings);
    forall x | x in others
      ensures Unlisted(Tail(rings, head, e), x)
    {
      UnlistedAfterTail(rings, head, e, x);
    }
  }

  /** The list part of RtlFreeLdrDataTableEntry: the module leaves the four lists, whose other members keep
      their order, and a valid table stays valid. */
  method RemoveMemoryTableEntry(
    links: Links, heads: Heads, m: nat, ghost hashOf: map<nat, hash>, ghost rings: map<nat, seq<nat>>)
    requires WellFormed(links.flink, links.blink, rings) && HasHeads(rings, heads) && Hashed(rings, heads, hashOf)
    requires m in hashOf && Listed(rings, heads, m, hashOf[m])
    modifies links
    ensures WellFormed(links.flink, links.blink, Left(rings, heads, m, hashOf[m]))
    ensures HasHeads(Left(rings, heads, m, hashOf[m]), heads)
    ensures Hashed(Left(rings, heads, m, hashOf[m]), heads, hashOf)
  {
    LeftHashed(rings, heads, hashOf, m);
    links.RemoveEntryList(m + IN_LOAD_ORDER, rings, heads.inLoad);
    ghost var r1 := Cut(rings, heads.inLoad, m + IN_LOAD_ORDER);
    links.RemoveEntryList(m + IN_MEMORY_ORDER, r1, heads.inMemory);
    ghost var r2 := Cut(r1, heads.inMemory, m + IN_MEMORY_ORDER);
    links.RemoveEntryList(m + IN_INIT_ORDER, r2, heads.inInit);
    ghost var r3 := Cut(r2, heads.inInit, m + IN_INIT_ORDER);
    links.RemoveEntryList(m + HASH_LINKS, r3, Bucket(heads.hashTable, hashOf[m]));
  }

  // ---------- Finding the hash table ----------

  /** Following the forward links from the head leads through the members back to the head. */
  ghost predicate Walk(flink: map<nat, nat>, head: nat, members: seq<nat>) {
    && head !in members
    && forall k {:trigger Node(head, members, k)} :: 0 <= k <= |members| ==>
         Node(head, members, k) in flink && flink[Node(head, members, k)] == Following(head, members, k)
  }

  lemma RingWalks(f: map<nat, nat>, b: map<nat, nat>, rings: map<nat, seq<nat>>, head: nat)
    requires WellFormed(f, b, rings) && head in rings
    ensures Walk(f, head, rings[head])
  {
    var s := rings[head];
    forall k | 0 <= k < |s|
      ensures s[k] != head
    {
      assert Node(head, s, k + 1) == s[k] && Node(head, s, 0) == head;
    }
    forall k {:trigger Node(head, s, k)} | 0 <= k <= |s|
      ensures Node(head, s, k) in f && f[Node(head, s, k)] == Following(head, s, k)
    {
      assert LinkedAt(f, b, Node(head, s, k), Following(head, s, k));
    }
  }

  /** Following the forward links from the head leads through the members, whose names hash to h. */
  ghost predicate Leads(flink: map<nat, nat>, head: nat, members: seq<nat>, hashOf: map<nat, hash>, h: nat) {
    && head !in members && AllHashTo(members, hashOf, h)
    && forall k {:trigger Node(head, members, k)} :: 0 <= k < |members| ==>
         Node(head, members, k) in flink && flink[Node(head, members, k)] == members[k]
  }

  /** From the last member the links lead back to the head. */
  predicate Closes(flink: map<nat, nat>, head: nat, members: seq<nat>) {
    var last := Node(head, members, |members|);
    last in flink && flink[last] == head
  }

  /** The next link cannot be read, or it leads to an entry whose name cannot be read or hashes elsewhere. */
  predicate Breaks(flink: map<nat, nat>, head: nat, members: seq<nat>, hashOf: map<nat, hash>, h: nat) {
    var last := Node(head, members, |members|);
    last in flink ==> flink[last] != head && !HashesTo(flink[last], hashOf, h)
  }

  /** What a walk through the bucket meets before it ends, in one way or the other. */
  ghost predicate Walked(flink: map<nat, nat>, head: nat, members: seq<nat>, hashOf: map<nat, hash>, h: nat) {
    && Leads(flink, head, members, hashOf, h)
    && (Closes(flink, head, members) || Breaks(flink, head, members, hashOf, h))
  }

  /** The first n buckets close, holding only modules whose names hash to them. */
  predicate BucketsClose(flink: map<nat, nat>, table: nat, walks: seq<seq<nat>>, n: nat)
    requires n <= |walks| == LDR_HASH_TABLE_ENTRIES
  {
    forall h: hash :: h < n ==> Closes(flink, Bucket(table, h), walks[h])
  }

  /** The walks through the buckets end, up to the first that does not close. */
  ghost predicate Walkable(flink: map<nat, nat>, table: nat, walks: seq<seq<nat>>, hashOf: map<nat, hash>) {
    && |walks| == LDR_HASH_TABLE_ENTRIES
    && (forall h: hash :: BucketsClose(flink, table, walks, h) ==>
          Walked(flink, Bucket(table, h), walks[h], hashOf, h))
  }

  /** The inner loop of IsValidLdrpHashTable; an address that cannot be read ends it, too. */
  method BucketValid(flink: map<nat, nat>, head: nat, h: hash, hashOf: map<nat, hash>, ghost walk: seq<nat>)
    returns (valid: bool)
    requires Walked(flink, head, walk, hashOf, h)
    ensures valid <==> Closes(flink, head, walk)
  {
    var entry := head;
    ghost var k := 0;
    while true
      invariant 0 <= k <= |walk| && entry == Node(head, walk, k)
      decreases |walk| - k
    {
      if entry !in flink {
        return false;
      }
      entry := flink[entry];
      if entry == head {
        return true;
      }
      if entry < HASH_LINKS || entry - HASH_LINKS !in hashOf || hashOf[entry - HASH_LINKS] != h {
        return false;
      }
      k := k + 1;
    }
  }

  /** The table's address may come out below zero, where nothing can be read. */
  method IsValidLdrpHashTable(
    flink: map<nat, nat>, table: int, hashOf: map<nat, hash>, ghost walks: seq<seq<nat>>) returns (valid: bool)
    requires table >= 0 ==> Walkable(flink, table, walks, hashOf)
    ensures valid <==> table >= 0 && BucketsClose(flink, table, walks, LDR_HASH_TABLE_ENTRIES)
    ensures valid <==> table >= 0 && forall h: hash :: Closes(flink, BucketAt(table, h), walks[h])
  {
    if table < 0 {
      return false;
    }
    var i := 0;
    while i < LDR_HASH_TABLE_ENTRIES
      invariant 0 <= i <= LDR_HASH_TABLE_ENTRIES && BucketsClose(flink, table, walks, i)
    {
      var h: hash := i;
      valid := BucketValid(flink, Bucket(table, h), h, hashOf, walks[h]);
      if !valid {
        return;
      }
      i := i + 1;
    }
    return true;
  }

  /** The entry and one other node make up a whole ring. */
  predicate Alone(flink: map<nat, nat>, e: nat) {
    e in flink && flink[e] != e && flink[e] in flink && flink[flink[e]] == e
  }

  lemma AloneIff(f: map<nat, nat>, b: map<nat, nat>, rings: map<nat, seq<nat>>, head: nat, j: nat)
    requires WellFormed(f, b, rings) && head in rings && j < |rings[head]|
    ensures Alone(f, rings[head][j]) <==> |rings[head]| == 1
    ensures rings[head][j] in f && f[rings[head][j]] in f
    ensures |rings[head]| == 1 ==> f[rings[head][j]] == head
  {
    var s := rings[head];
    var next: nat := if j + 1 == |s| then 0 else j + 2;
    assert LinkedAt(f, b, Node(head, s, j + 1), Following(head, s, j + 1));
    assert Following(head, s, j + 1) == Node(head, s, next);
    assert LinkedAt(f, b, Node(head, s, next), Following(head, s, next));
    assert Following(head, s, next) == Node(head, s, if next == |s| then 0 else next + 1);
    assert Node(head, s, j + 1) == s[j];
  }

  /** The walked module's hash link, and the table address it stands for if it is alone. */
  function HashLink(init: nat): nat
    requires init >= IN_INIT_ORDER
  {
    init - IN_INIT_ORDER + HASH_LINKS
  }

  function Candidate(flink: map<nat, nat>, init: nat, hashOf: map<nat, hash>): int
    requires init >= IN_INIT_ORDER && HashLink(init) in flink && init - IN_INIT_ORDER in hashOf
  {
    flink[HashLink(init)] - LIST_ENTRY_SIZE * hashOf[init - IN_INIT_ORDER]
  }

  /** The modules of the initialisation list have hash links and names. */
  predicate ModulesIn(flink: map<nat, nat>, modules: seq<nat>, hashOf: map<nat, hash>) {
    forall i :: 0 <= i < |modules| ==>
      modules[i] >= IN_INIT_ORDER && modules[i] - IN_INIT_ORDER in hashOf
      && HashLink(modules[i]) in flink && flink[HashLink(modules[i])] in flink
  }

  /** The first of the modules, from i on, that is alone in its bucket. */
  function FirstAlone(flink: map<nat, nat>, modules: seq<nat>, hashOf: map<nat, hash>, i: nat): (k: nat)
    requires i <= |modules| && ModulesIn(flink, modules, hashOf)
    ensures i <= k <= |modules|
    ensures forall j :: i <= j < k ==> !Alone(flink, HashLink(modules[j]))
    ensures k < |modules| ==> Alone(flink, HashLink(modules[k]))
    decreases |modules| - i
  {
    if i < |modules| && !Alone(flink, HashLink(modules[i])) then FirstAlone(flink, modules, hashOf, i + 1) else i
  }

  /** The table of the first module that is alone, if it is valid. */
  ghost function TableFound(
    flink: map<nat, nat>, modules: seq<nat>, hashOf: map<nat, hash>, walks: seq<seq<nat>>): Option<nat>
    requires ModulesIn(flink, modules, hashOf) && |walks| == LDR_HASH_TABLE_ENTRIES
  {
    var k := FirstAlone(flink, modules, hashOf, 0);
    if k == |modules| then None
    else
      var t := Candidate(flink, modules[k], hashOf);
      if t >= 0 && BucketsClose(flink, t, walks, LDR_HASH_TABLE_ENTRIES) then Some(t) else None
  }

  /** It returns the table of the first module that is alone, if all the buckets there close with entries that hash
      to them, and no table if one does not or cannot be read. The ghost walks say what the buckets hold. */
  method FindLdrpHashTable(
    flink: map<nat, nat>, inInit: nat, hashOf: map<nat, hash>, ghost modules: seq<nat>, ghost walks: seq<seq<nat>>)
    returns (table: Option<nat>)
    requires Walk(flink, inInit, modules) && ModulesIn(flink, modules, hashOf)
    requires |walks| == LDR_HASH_TABLE_ENTRIES
    requires var k := FirstAlone(flink, modules, hashOf, 0);
             k < |modules| ==>
               var t := Candidate(flink, modules[k], hashOf); t >= 0 ==> Walkable(flink, t, walks, hashOf)
    ensures table == TableFound(flink, modules, hashOf, walks)
  {
    assert Node(inInit, modules, 0) in flink;
    var entry := flink[inInit];
    ghost var k := 0;
    while inInit != entry
      invariant 0 <= k <= |modules| && entry == Following(inInit, modules, k)
      invariant FirstAlone(flink, modules, hashOf, 0) == FirstAlone(flink, modules, hashOf, k)
      decreases |modules| - k
    {
      assert entry == modules[k] && Node(inInit, modules, k + 1) == entry;
      var hashEntry := HashLink(entry);
      if flink[hashEntry] != hashEntry && flink[flink[hashEntry]] == hashEntry {
        var t := Candidate(flink, entry, hashOf);
        var valid := IsValidLdrpHashTable(flink, t, hashOf, walks);
        return if valid then Some(t) else None;
      }
      entry := flink[entry];
      k := k + 1;
    }
    return None;
  }

  /** The buckets of the table, as one walks them. */
  ghost function BucketWalks(rings: map<nat, seq<nat>>, heads: Heads): seq<seq<nat>>
    requires HasHeads(rings, heads)
  {
    seq(LDR_HASH_TABLE_ENTRIES, h requires 0 <= h < LDR_HASH_TABLE_ENTRIES => rings[Bucket(heads.hashTable, h)])
  }

  /** Every module of the list is in the bucket its name hashes to. */
  ghost predicate ModulesHashed(rings: map<nat, seq<nat>>, heads: Heads, modules: seq<nat>, hashOf: map<nat, hash>)
    requires HasHeads(rings, heads)
  {
    forall i :: 0 <= i < |modules| ==>
      modules[i] >= IN_INIT_ORDER && modules[i] - IN_INIT_ORDER in hashOf
      && HashLink(modules[i]) in rings[Bucket(heads.hashTable, hashOf[modules[i] - IN_INIT_ORDER])]
  }

  lemma ModuleAlone(
    f: map<nat, nat>, b: map<nat, nat>, rings: map<nat, seq<nat>>, heads: Heads, hashOf: map<nat, hash>, init: nat)
    requires WellFormed(f, b, rings) && HasHeads(rings, heads)
    requires init >= IN_INIT_ORDER && init - IN_INIT_ORDER in hashOf
    requires HashLink(init) in rings[Bucket(heads.hashTable, hashOf[init - IN_INIT_ORDER])]
    ensures HashLink(init) in f && f[HashLink(init)] in f
    ensures Alone(f, HashLink(init)) <==> |rings[Bucket(heads.hashTable, hashOf[init - IN_INIT_ORDER])]| == 1
    ensures Alone(f, HashLink(init)) ==> Candidate(f, init, hashOf) == heads.hashTable
  {
    var head := Bucket(heads.hashTable, hashOf[init - IN_INIT_ORDER]);
    var j :| 0 <= j < |rings[head]| && rings[head][j] == HashLink(init);
    AloneIff(f, b, rings, head, j);
  }

  /** For a well-formed and validly hashed table, FindLdrpHashTable is defined, and it returns the true
      table if and only if some module of the list is alone in its bucket. */
  lemma RecoversTheTable(
    f: map<nat, nat>, b: map<nat, nat>, rings: map<nat, seq<nat>>, heads: Heads, hashOf: map<nat, hash>)
    requires WellFormed(f, b, rings) && HasHeads(rings, heads) && Hashed(rings, heads, hashOf)
    requires ModulesHashed(rings, heads, rings[heads.inInit], hashOf)
    ensures Walk(f, heads.inInit, rings[heads.inInit]) && ModulesIn(f, rings[heads.inInit], hashOf)
    ensures Walkable(f, heads.hashTable, BucketWalks(rings, heads), hashOf)
    ensures BucketsClose(f, heads.hashTable, BucketWalks(rings, heads), LDR_HASH_TABLE_ENTRIES)
    ensures var modules := rings[heads.inInit];
            var k := FirstAlone(f, modules, hashOf, 0);
            && (k < |modules| ==> Candidate(f, modules[k], hashOf) == heads.hashTable)
            && (k < |modules| <==>
                exists i :: 0 <= i < |modules|
                            && |rings[Bucket(heads.hashTable, hashOf[modules[i] - IN_INIT_ORDER])]| == 1)
  {
    var modules := rings[heads.inInit];
    RingWalks(f, b, rings, heads.inInit);
    forall i | 0 <= i < |modules|
      ensures HashLink(modules[i]) in f && f[HashLink(modules[i])] in f
      ensures Alone(f, HashLink(modules[i]))
              <==> |rings[Bucket(heads.hashTable, hashOf[modules[i] - IN_INIT_ORDER])]| == 1
      ensures Alone(f, HashLink(modules[i])) ==> Candidate(f, modules[i], hashOf) == heads.hashTable
    {
      ModuleAlone(f, b, rings, heads, hashOf, modules[i]);
    }
    BucketsWalk(f, b, rings, heads, hashOf);
  }

  /** The lists of a process: each module's record is on the initialisation list by its link at 0x20, and by the one
      at 0x70 in the bucket its name hashes to. */
  ghost predicate ProcessLists(
    rings: map<nat, seq<nat>>, heads: Heads, hashOf: map<nat, hash>, modules: seq<nat>)
    requires HasHeads(rings, heads)
  {
    && |rings[heads.inInit]| == |modules|
    && forall i :: 0 <= i < |modules| ==>
         && rings[heads.inInit][i] == modules[i] + 0x20 && modules[i] in hashOf
         && BucketAt(heads.hashTable, hashOf[modules[i]]) in rings
         && modules[i] + 0x70 in rings[BucketAt(heads.hashTable, hashOf[modules[i]])]
  }

  /** FindLdrpHashTable finds the table of such a process exactly when some module has a bucket of 16 bytes to
      itself, and nothing else ever. */
  lemma FindsTheTable(
    f: map<nat, nat>, b: map<nat, nat>, rings: map<nat, seq<nat>>, heads: Heads, hashOf: map<nat, hash>,
    modules: seq<nat>)
    requires WellFormed(f, b, rings) && HasHeads(rings, heads) && Hashed(rings, heads, hashOf)
    requires ProcessLists(rings, heads, hashOf, modules)
    ensures ModulesIn(f, rings[heads.inInit], hashOf)
    ensures TableFound(f, rings[heads.inInit], hashOf, BucketWalks(rings, heads)) ==
              if exists i :: 0 <= i < |modules| && |rings[BucketAt(heads.hashTable, hashOf[modules[i]])]| == 1
              then Some(heads.hashTable) else None
  {
    var inits := rings[heads.inInit];
    ListsAreHashed(rings, heads, hashOf, modules, inits);
    RecoversTheTable(f, b, rings, heads, hashOf);
    SomeAlone(rings, heads, hashOf, modules, inits);
  }

  lemma ListsAreHashed(
    rings: map<nat, seq<nat>>, heads: Heads, hashOf: map<nat, hash>, modules: seq<nat>, inits: seq<nat>)
    requires HasHeads(rings, heads) && ProcessLists(rings, heads, hashOf, modules) && inits == rings[heads.inInit]
    ensures ModulesHashed(rings, heads, inits, hashOf)
  {
    forall i | 0 <= i < |inits|
      ensures inits[i] >= IN_INIT_ORDER && inits[i] - IN_INIT_ORDER == modules[i]
      ensures HashLink(inits[i]) in rings[Bucket(heads.hashTable, hashOf[modules[i]])]
    {
    }
  }

  lemma SomeAlone(
    rings: map<nat, seq<nat>>, heads: Heads, hashOf: map<nat, hash>, modules: seq<nat>, inits: seq<nat>)
    requires HasHeads(rings, heads) && |inits| == |modules|
    requires forall i :: 0 <= i < |modules| ==> inits[i] == modules[i] + 0x20 && modules[i] in hashOf
    ensures (exists i :: 0 <= i < |inits| && inits[i] >= IN_INIT_ORDER && inits[i] - IN_INIT_ORDER in hashOf
                         && |rings[Bucket(heads.hashTable, hashOf[inits[i] - IN_INIT_ORDER])]| == 1)
            <==> exists i :: 0 <= i < |modules| && BucketAt(heads.hashTable, hashOf[modules[i]]) in rings
                             && |rings[BucketAt(heads.hashTable, hashOf[modules[i]])]| == 1
  {
    forall i | 0 <= i < |modules|
      ensures inits[i] - IN_INIT_ORDER == modules[i]
      ensures Bucket(heads.hashTable, hashOf[modules[i]]) == BucketAt(heads.hashTable, hashOf[modules[i]])
    {
    }
  }

  lemma BucketsWalk(
    f: map<nat, nat>, b: map<nat, nat>, rings: map<nat, seq<nat>>, heads: Heads, hashOf: map<nat, hash>)
    requires WellFormed(f, b, rings) && HasHeads(rings, heads) && Hashed(rings, heads, hashOf)
    ensures Walkable(f, heads.hashTable, BucketWalks(rings, heads), hashOf)
    ensures BucketsClose(f, heads.hashTable, BucketWalks(rings, heads), LDR_HASH_TABLE_ENTRIES)
  {
    var walks := BucketWalks(rings, heads);
    forall h: hash
      ensures Leads(f, Bucket(heads.hashTable, h), walks[h], hashOf, h)
      ensures Closes(f, Bucket(heads.hashTable, h), walks[h])
    {
      RingWalks(f, b, rings, Bucket(heads.hashTable, h));
      assert AllHashTo(rings[Bucket(heads.hashTable, h)], hashOf, h);
      WalkLeads(f, Bucket(heads.hashTable, h), walks[h], hashOf, h);
    }
  }

  lemma WalkLeads(f: map<nat, nat>, head: nat, members: seq<nat>, hashOf: map<nat, hash>, h: nat)
    requires Walk(f, head, members) && AllHashTo(members, hashOf, h)
    ensures Leads(f, head, members, hashOf, h) && Closes(f, head, members)
  {
    forall k {:trigger Node(head, members, k)} | 0 <= k < |members|
      ensures Node(head, members, k) in f && f[Node(head, members, k)] == members[k]
    {
      assert Following(head, members, k) == members[k];
    }
    assert Following(head, members, |members|) == head;
  }
}
