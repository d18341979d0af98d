/**
 * What the section search reports and answers, and which base-address index is found, in terms of the bytes that are
 * in memory.
 */
module SearchAnswers {
  import opened Bytes
  import opened PatternSearch
  import opened PeFormat
  import Sequences
  import opened Wrappers

  // ---------- What is reported ----------

  /** Section k is the first of that name, upper and lower case aside. */
  predicate FirstCalled(sections: seq<Section>, k: nat, name: string) {
    k < |sections| && Called(sections[k].name, name) && forall j :: 0 <= j < k ==> !Called(sections[j].name, name)
  }

  predicate Called(sectionName: string, name: string) {
    |sectionName| == |name| && forall i :: 0 <= i < |name| ==> Sequences.SameLetter(sectionName[i], name[i])
  }

  lemma FirstCalledIs(sections: seq<Section>, k: nat, name: string)
    requires FirstCalled(sections, k, name)
    ensures FirstNamed(sections, 0, name) == k
  {
    var f := FirstNamed(sections, 0, name);
    Sequences.SameNameIs(sections[k].name, name);
    if f < k {
      Sequences.SameNameIs(sections[f].name, name);
    }
  }

  lemma NoneCalledIs(sections: seq<Section>, name: string)
    requires forall j :: 0 <= j < |sections| ==> !Called(sections[j].name, name)
    ensures FirstNamed(sections, 0, name) == |sections|
  {
    var f := FirstNamed(sections, 0, name);
    if f < |sections| {
      Sequences.SameNameIs(sections[f].name, name);
    }
  }

  /** A search through a section reports exactly the places, wholly inside it, where the pattern's bytes are; in the
      first section of the name and in no other. */
  lemma ReportsAll(mem: seq<byte>, pattern: seq<byte>, m: Module, name: string, k: nat)
    requires pattern != [] && m.sections.Some? && FirstCalled(m.sections.value, k, name)
    ensures var s := m.sections.value[k];
            var from := m.base + s.virtualAddress;
            forall a: nat :: a in Ahead(mem, pattern, m, name, RESET) <==>
              from != 0 && from <= a && a + |pattern| <= from + s.virtualSize && At(mem, a, pattern)
  {
    FirstCalledIs(m.sections.value, k, name);
    var s := m.sections.value[k];
    var from := m.base + s.virtualAddress;
    ReportsFrom(mem, pattern, m, name, s, from, from + s.virtualSize);
  }

  lemma ReportsFrom(mem: seq<byte>, pattern: seq<byte>, m: Module, name: string, s: Section, from: nat, end: nat)
    requires pattern != [] && m.sections.Some?
    requires FirstNamed(m.sections.value, 0, name) < |m.sections.value|
    requires s == m.sections.value[FirstNamed(m.sections.value, 0, name)]
    requires from == m.base + s.virtualAddress && end == from + s.virtualSize
    ensures forall a: nat :: a in Ahead(mem, pattern, m, name, RESET) <==>
              from != 0 && from <= a && a + |pattern| <= end && At(mem, a, pattern)
  {
    HitsAreThere(mem, pattern, from, end);
    AheadIs(mem, pattern, m, name, s, from, end, Hits(mem, pattern, from, end));
  }

  lemma HitsAreThere(mem: seq<byte>, pattern: seq<byte>, from: nat, end: nat)
    requires pattern != []
    ensures forall a: nat :: a in Hits(mem, pattern, from, end) <==>
              from <= a && a + |pattern| <= end && At(mem, a, pattern)
  {
    HitsAreAll(mem, pattern, from, end);
    forall a: nat
      ensures Hit(mem, pattern, a) <==> At(mem, a, pattern)
    {
    }
  }

  /** A section at address 0, or one that the pattern does not fit, is not searched. */
  lemma AheadIs(
    mem: seq<byte>, pattern: seq<byte>, m: Module, name: string, s: Section, from: nat, end: nat, hits: seq<nat>)
    requires pattern != [] && m.sections.Some?
    requires FirstNamed(m.sections.value, 0, name) < |m.sections.value|
    requires s == m.sections.value[FirstNamed(m.sections.value, 0, name)]
    requires from == m.base + s.virtualAddress && end == from + s.virtualSize && hits == Hits(mem, pattern, from, end)
    ensures Ahead(mem, pattern, m, name, RESET) == if from == 0 then [] else hits
  {
  }

  /** Without a section of that name nothing is reported. */
  lemma ReportsNothing(mem: seq<byte>, pattern: seq<byte>, m: Module, name: string)
    requires m.sections.Some? && forall j :: 0 <= j < |m.sections.value| ==> !Called(m.sections.value[j].name, name)
    ensures Ahead(mem, pattern, m, name, RESET) == []
  {
    NoneCalledIs(m.sections.value, name);
  }

  /** What a call answers and leaves, guard by guard. */
  lemma SearchAnswersSo(mem: seq<byte>, pattern: seq<byte>, m: Module, name: string, c: Context)
    ensures var status, next := Status(mem, pattern, m, name, c), Next(mem, pattern, m, name, c);
            var ahead := Ahead(mem, pattern, m, name, c);
            && (pattern == [] ==> status == InvalidParameter && next == Context(None, 0))
            && (pattern != [] && c.result.None? && m.sections.None? ==> status == InvalidParameter1 && next == c)
            && (pattern != [] && (c.result.Some? || m.sections.Some?) ==>
                  if ahead == [] then status == NotFound && next == Context(None, 0)
                  else status == Success && next.result == Some(ahead[0]))
  {
  }

  // ---------- The base-address index ----------

  /** A balanced node: its two children, and its parent with the colour and a balance in the low three bits. */
  function NodeBytes(left: nat, right: nat, parent: nat, bits: nat): seq<byte> {
    Le64(left) + Le64(right) + Le64(parent + bits)
  }

  /** A tree: its root and its leftmost node. */
  function TreeBytes(root: nat, min: nat): seq<byte> {
    Le64(root) + Le64(min)
  }

  lemma NodeRead(mem: seq<byte>, node: nat, left: nat, right: nat, parent: nat, bits: nat)
    requires At(mem, node, NodeBytes(left, right, parent, bits))
    requires parent % 8 == 0 && bits < 8 && parent + bits < 0x1_0000_0000_0000_0000
    ensures node + 24 <= |mem| && Parent(mem, node) == parent && (IsRed(mem, node) <==> bits % 2 == 1)
  {
    AtParts(mem, node, Le64(left) + Le64(right), Le64(parent + bits));
    Read64(mem, node + 16, parent + bits);
    LowBits(parent, bits);
  }

  lemma LowBits(parent: nat, bits: nat)
    requires parent % 8 == 0 && bits < 8
    ensures (parent + bits) % 8 == bits && (parent + bits) % 2 == bits % 2
  {
    var q := parent / 8;
    assert parent == 8 * q;
    ModUnique(8, q, bits);
    assert parent + bits == 2 * (4 * q + bits / 2) + bits % 2;
    ModUnique(2, 4 * q + bits / 2, bits % 2);
  }

  /** One node of a climb, as it was written. */
  datatype Node = Node(address: nat, left: nat, right: nat, bits: nat)

  /** The nodes are in memory, each the child of the next, and the last one the root. */
  predicate Climb(mem: seq<byte>, nodes: seq<Node>) {
    && nodes != []
    && forall i :: 0 <= i < |nodes| ==>
         && nodes[i].bits < 8 && nodes[i].address % 8 == 0
         && 0 < nodes[i].address && nodes[i].address + 8 < 0x1_0000_0000_0000_0000
         && At(mem, nodes[i].address, NodeBytes(nodes[i].left, nodes[i].right, ParentOf(nodes, i), nodes[i].bits))
  }

  function ParentOf(nodes: seq<Node>, i: nat): nat
    requires i < |nodes|
  {
    if i + 1 < |nodes| then nodes[i + 1].address else 0
  }

  function Addresses(nodes: seq<Node>): seq<nat> {
    seq(|nodes|, i requires 0 <= i < |nodes| => nodes[i].address)
  }

  /** The climb from a node ends at its root. */
  lemma ClimbIsPath(mem: seq<byte>, nodes: seq<Node>)
    requires Climb(mem, nodes)
    ensures IsPath(mem, nodes[0].address, Addresses(nodes))
    ensures var root := nodes[|nodes| - 1];
            root.address + 24 <= |mem| && (IsRed(mem, root.address) <==> root.bits % 2 == 1)
  {
    forall i | 0 <= i < |nodes|
      ensures Linked(mem, nodes, i)
    {
      ClimbNode(mem, nodes, i);
    }
    LinkedIsPath(mem, nodes);
  }

  /** What the loop reads at node i. */
  predicate Linked(mem: seq<byte>, nodes: seq<Node>, i: nat)
    requires i < |nodes|
  {
    && nodes[i].address + 24 <= |mem| && nodes[i].address != 0
    && Parent(mem, nodes[i].address) == ParentOf(nodes, i) && (IsRed(mem, nodes[i].address) <==> nodes[i].bits % 2 == 1)
  }

  lemma LinkedIsPath(mem: seq<byte>, nodes: seq<Node>)
    requires nodes != [] && forall i :: 0 <= i < |nodes| ==> Linked(mem, nodes, i)
    ensures IsPath(mem, nodes[0].address, Addresses(nodes))
    ensures var root := nodes[|nodes| - 1];
            root.address + 24 <= |mem| && (IsRed(mem, root.address) <==> root.bits % 2 == 1)
  {
    var path := Addresses(nodes);
    assert Linked(mem, nodes, |nodes| - 1);
    forall i | 0 <= i < |path| - 1
      ensures Climbs(mem, path, i)
    {
      assert Linked(mem, nodes, i) && Linked(mem, nodes, i + 1);
    }
  }

  lemma ClimbNode(mem: seq<byte>, nodes: seq<Node>, i: nat)
    requires Climb(mem, nodes) && i < |nodes|
    ensures Linked(mem, nodes, i)
  {
    var n := nodes[i];
    assert ParentOf(nodes, i) % 8 == 0 && ParentOf(nodes, i) + 8 < 0x1_0000_0000_0000_0000;
    NodeRead(mem, n.address, n.left, n.right, ParentOf(nodes, i), n.bits);
  }

  lemma PointerIs(p: nat)
    requires p < 0x1_0000_0000_0000_0000
    ensures PointerBytes(p) == Le64(p)
  {
    var zeros: seq<byte> := seq(8, _ => 0);
    var a: nat := 0;
    WrittenIs(zeros, a, p);
    assert PointerBytes(p)[a..a + 8] == PointerBytes(p);
  }

  lemma WrittenIs(m: seq<byte>, a: nat, p: nat)
    requires a + 8 <= |m| && p < 0x1_0000_0000_0000_0000
    ensures At(Write(m, a, 8, p), a, Le64(p))
  {
    ReadWrite(m, a, 8, p);
    QwordBytes(Write(m, a, 8, p), a, p);
  }

  /** Memory holds a tree with that root at a, in ntdll's ".data", and the root's address nowhere else there. */
  ghost predicate OnlyTree(mem: seq<byte>, ntdll: Module, k: nat, root: nat, min: nat, a: nat) {
    && ntdll.sections.Some? && FirstCalled(ntdll.sections.value, k, ".data")
    && root < 0x1_0000_0000_0000_0000 && min < 0x1_0000_0000_0000_0000
    && At(mem, a, TreeBytes(root, min))
    && forall b :: InData(ntdll, k, b) ==> (At(mem, b, Le64(root)) <==> a == b)
  }

  /** A pointer can be at b, in that section. */
  predicate InData(ntdll: Module, k: nat, b: nat)
    requires ntdll.sections.Some? && k < |ntdll.sections.value|
  {
    var s := ntdll.sections.value[k];
    var from := ntdll.base + s.virtualAddress;
    from != 0 && from <= b && b + 8 <= from + s.virtualSize
  }

  /** The index is found there when the root is black and the tree has a leftmost node, and is left alone if not. */
  lemma FindsTheIndex(
    mem: seq<byte>, nodes: seq<Node>, ntdll: Module, k: nat, min: nat, a: nat, index: Option<nat>)
    requires Climb(mem, nodes) && OnlyTree(mem, ntdll, k, nodes[|nodes| - 1].address, min, a) && InData(ntdll, k, a)
    requires End(ntdll, ".data", 8, RESET) + 16 <= |mem|
    ensures IsPath(mem, nodes[0].address, Addresses(nodes)) && nodes[|nodes| - 1].address + 24 <= |mem|
    ensures FoundIndex(mem, ntdll, nodes[|nodes| - 1].address, index) ==
              if nodes[|nodes| - 1].bits % 2 == 0 && min != 0 then Some(a) else index
  {
    var root := nodes[|nodes| - 1].address;
    ClimbIsPath(mem, nodes);
    PointerIs(root);
    ReportsAll(mem, Le64(root), ntdll, ".data", k);
    var hits := Ahead(mem, Le64(root), ntdll, ".data", RESET);
    AtParts(mem, a, Le64(root), Le64(min));
    OneReported(mem, Le64(root), ntdll, k, a, hits);
    Read64(mem, a, root);
    Read64(mem, a + 8, min);
    FoundAt(mem, ntdll, root, min, a, a + 8, index);
  }

  lemma FoundAt(
    mem: seq<byte>, ntdll: Module, root: nat, min: nat, a: nat, at: nat, index: Option<nat>)
    requires root + 24 <= |mem| && ntdll.sections.Some? && End(ntdll, ".data", 8, RESET) + 16 <= |mem|
    requires Ahead(mem, PatternSearch.PointerBytes(root), ntdll, ".data", RESET) == [a] && at == a + 8
    requires at + 8 <= |mem| && Read(mem, a, 8) == root && Read(mem, at, 8) == min && root != 0
    ensures FoundIndex(mem, ntdll, root, index) == if !IsRed(mem, root) && min != 0 then Some(a) else index
  {
  }

  lemma OneReported(mem: seq<byte>, pattern: seq<byte>, ntdll: Module, k: nat, a: nat, hits: seq<nat>)
    requires |pattern| == 8 && ntdll.sections.Some? && FirstCalled(ntdll.sections.value, k, ".data")
    requires hits == Ahead(mem, pattern, ntdll, ".data", RESET)
    requires InData(ntdll, k, a) && forall b :: InData(ntdll, k, b) ==> (At(mem, b, pattern) <==> a == b)
    ensures hits == [a]
  {
    ReportsAll(mem, pattern, ntdll, ".data", k);
    forall i | 0 <= i < |hits|
      ensures hits[i] == a
    {
      assert hits[i] in hits;
    }
    assert a in hits;
    FirstCalledIs(ntdll.sections.value, k, ".data");
    var s := ntdll.sections.value[k];
    var from := ntdll.base + s.virtualAddress;
    if |hits| > 1 {
      HitsIncrease(mem, pattern, from, from + s.virtualSize, 0, 1);
    }
  }

  /** Without a place that holds the root's address, or with two, the index is left alone. */
  lemma KeepsTheIndex(mem: seq<byte>, ntdll: Module, k: nat, root: nat, index: Option<nat>)
    requires root + 24 <= |mem| && root < 0x1_0000_0000_0000_0000
    requires ntdll.sections.Some? && FirstCalled(ntdll.sections.value, k, ".data")
    requires End(ntdll, ".data", 8, RESET) + 16 <= |mem|
    requires (forall b :: InData(ntdll, k, b) ==> !At(mem, b, Le64(root)))
             || exists b, b' :: b != b' && InData(ntdll, k, b) && InData(ntdll, k, b')
                                && At(mem, b, Le64(root)) && At(mem, b', Le64(root))
    ensures FoundIndex(mem, ntdll, root, index) == index
  {
    PointerIs(root);
    ReportsAll(mem, Le64(root), ntdll, ".data", k);
    var hits := Ahead(mem, Le64(root), ntdll, ".data", RESET);
    if b, b' :| b != b' && InData(ntdll, k, b) && InData(ntdll, k, b')
                && At(mem, b, Le64(root)) && At(mem, b', Le64(root)) {
      TwoMembers(hits, b, b');
    } else {
      SomeMember(hits);
    }
  }

  lemma SomeMember(s: seq<nat>)
    ensures s == [] || s[0] in s
  {
  }

  lemma TwoMembers(s: seq<nat>, x: nat, y: nat)
    requires x in s && y in s && x != y
    ensures |s| > 1
  {
  }
}
