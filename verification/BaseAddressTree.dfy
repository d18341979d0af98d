/** The base-address index: a binary search tree of module entries, entered at a free child slot. */
module BaseAddressTree {
  import opened Wrappers

  class LdrNode {
    const dllBase: nat
    var left: LdrNode?
    var right: LdrNode?
    /** LoadCount of the entry's DdagNode, and the entry's own ReferenceCount. */
    var loadCount: nat
    var referenceCount: nat

    constructor (dllBase: nat)
      ensures this.dllBase == dllBase && left == null && right == null
    {
      this.dllBase := dllBase;
      left, right := null, null;
      loadCount, referenceCount := 1, 1;
    }
  }

  /** RTL_RB_TREE, which ntdll keeps: the index is published only with a root, and ntdll's own entry stays in it. */
  class RbTree {
    var root: LdrNode?

    constructor (root: LdrNode?)
      ensures this.root == root
    {
      this.root := root;
    }
  }

  /** The shape that the child pointers make. */
  datatype Tree = Leaf | Branch(left: Tree, node: LdrNode, right: Tree)

  ghost function Nodes(t: Tree): set<LdrNode> {
    match t
    case Leaf => {}
    case Branch(l, n, r) => Nodes(l) + {n} + Nodes(r)
  }

  /** The child pointers, by node. */
  ghost function Lefts(nodes: set<LdrNode>): map<LdrNode, LdrNode?>
    reads nodes
  {
    map n | n in nodes :: n.left
  }

  ghost function Rights(nodes: set<LdrNode>): map<LdrNode, LdrNode?>
    reads nodes
  {
    map n | n in nodes :: n.right
  }

  ghost predicate Shape(t: Tree, root: LdrNode?, lefts: map<LdrNode, LdrNode?>, rights: map<LdrNode, LdrNode?>) {
    match t
    case Leaf => root == null
    case Branch(l, n, r) =>
      root == n && n in lefts && n in rights && Shape(l, lefts[n], lefts, rights) && Shape(r, rights[n], lefts, rights)
  }

  /** The bases from left to right. */
  function InOrder(t: Tree): seq<nat> {
    match t
    case Leaf => []
    case Branch(l, n, r) => InOrder(l) + [n.dllBase] + InOrder(r)
  }

  predicate Increasing(s: seq<nat>) {
    forall i, j :: 0 <= i < j < |s| ==> s[i] < s[j]
  }

  /** s1 is s with b put where it belongs. */
  ghost predicate SortedInsertion(s: seq<nat>, s1: seq<nat>, b: nat) {
    exists k :: InsertedAt(s, s1, b, k)
  }

  ghost predicate InsertedAt(s: seq<nat>, s1: seq<nat>, b: nat, k: int) {
    && 0 <= k <= |s| && s1 == s[..k] + [b] + s[k..]
    && (forall i :: 0 <= i < k ==> s[i] < b) && (forall i :: k <= i < |s| ==> b < s[i])
  }

  /** Where the descent for a base ends. */
  datatype Place = Found(node: LdrNode) | Free(parent: LdrNode, right: bool)

  function Descend(t: Tree, base: nat): Place
    requires t.Branch?
  {
    var n := t.node;
    if base < n.dllBase then (if t.left.Leaf? then Free(n, false) else Descend(t.left, base))
    else if base > n.dllBase then (if t.right.Leaf? then Free(n, true) else Descend(t.right, base))
    else Found(n)
  }

  /** The tree with a new leaf where the descent for its base ends. */
  function Attached(t: Tree, x: LdrNode): Tree {
    match t
    case Leaf => Branch(Leaf, x, Leaf)
    case Branch(l, n, r) =>
      if x.dllBase < n.dllBase then Branch(Attached(l, x), n, r)
      else if x.dllBase > n.dllBase then Branch(l, n, Attached(r, x))
      else t
  }

  lemma SplitIncreasing(a: seq<nat>, b: nat, c: seq<nat>)
    requires Increasing(a + [b] + c)
    ensures Increasing(a) && Increasing(c)
    ensures forall x :: x in a ==> x < b
    ensures forall x :: x in c ==> b < x
  {
    var s := a + [b] + c;
    forall i | 0 <= i < |a|
      ensures a[i] < b
    {
      assert s[i] < s[|a|];
    }
    forall i | 0 <= i < |c|
      ensures b < c[i]
    {
      assert s[|a|] < s[|a| + 1 + i];
    }
    forall i, j | 0 <= i < j < |a|
      ensures a[i] < a[j]
    {
      assert s[i] < s[j];
    }
    forall i, j | 0 <= i < j < |c|
      ensures c[i] < c[j]
    {
      assert s[|a| + 1 + i] < s[|a| + 1 + j];
    }
  }

  /** The descent finds a base exactly when it is in the tree. */
  lemma {:induction false} DescendFinds(t: Tree, base: nat)
    requires t.Branch? && Increasing(InOrder(t))
    ensures Descend(t, base).Found? <==> base in InOrder(t)
    ensures Descend(t, base).Found? ==> Descend(t, base).node in Nodes(t) && Descend(t, base).node.dllBase == base
    ensures Descend(t, base).Free? ==> Descend(t, base).parent in Nodes(t)
  {
    SplitIncreasing(InOrder(t.left), t.node.dllBase, InOrder(t.right));
    if base < t.node.dllBase && t.left.Branch? {
      DescendFinds(t.left, base);
    } else if base > t.node.dllBase && t.right.Branch? {
      DescendFinds(t.right, base);
    }
  }

  /** Attaching a new base is sorted insertion into the in-order sequence. */
  lemma {:induction false} AttachedInOrder(t: Tree, x: LdrNode)
    requires Increasing(InOrder(t)) && x.dllBase !in InOrder(t)
    ensures SortedInsertion(InOrder(t), InOrder(Attached(t, x)), x.dllBase)
  {
    var b := x.dllBase;
    match t
    case Leaf =>
      assert InsertedAt([], [b], b, 0);
    case Branch(l, n, r) =>
      var sl, sr := InOrder(l), InOrder(r);
      SplitIncreasing(sl, n.dllBase, sr);
      assert InOrder(t)[|sl|] == n.dllBase;
      if b < n.dllBase {
        AttachedInOrder(l, x);
        InsertedLeft(sl, InOrder(Attached(l, x)), n.dllBase, sr, b);
      } else {
        AttachedInOrder(r, x);
        InsertedRight(sl, n.dllBase, sr, InOrder(Attached(r, x)), b);
      }
  }

  lemma InsertedLeft(a: seq<nat>, a1: seq<nat>, m: nat, c: seq<nat>, b: nat)
    requires SortedInsertion(a, a1, b) && b < m && forall x :: x in c ==> m < x
    ensures SortedInsertion(a + [m] + c, a1 + [m] + c, b)
  {
    var k :| InsertedAt(a, a1, b, k);
    var s, s1 := a + [m] + c, a1 + [m] + c;
    assert s[..k] == a[..k] && s[k..] == a[k..] + [m] + c;
    assert s1 == s[..k] + [b] + s[k..];
    forall i | k <= i < |s|
      ensures b < s[i]
    {
      if i < |a| {
        assert s[i] == a[i];
      } else if i > |a| {
        assert s[i] == c[i - |a| - 1] && s[i] in c;
      }
    }
    assert InsertedAt(s, s1, b, k);
  }

  lemma InsertedRight(a: seq<nat>, m: nat, c: seq<nat>, c1: seq<nat>, b: nat)
    requires SortedInsertion(c, c1, b) && m < b && forall x :: x in a ==> x < m
    ensures SortedInsertion(a + [m] + c, a + [m] + c1, b)
  {
    var k :| InsertedAt(c, c1, b, k);
    var d := a + [m];
    forall i | 0 <= i < |d|
      ensures d[i] < b
    {
      assert i < |a| ==> a[i] in a;
    }
    InsertedBehind(d, c, c1, b, k);
    assert d + c == a + [m] + c && d + c1 == a + [m] + c1;
  }

  lemma InsertedBehind(d: seq<nat>, c: seq<nat>, c1: seq<nat>, b: nat, k: int)
    requires InsertedAt(c, c1, b, k) && forall i :: 0 <= i < |d| ==> d[i] < b
    ensures InsertedAt(d + c, d + c1, b, |d| + k)
  {
    var s, j := d + c, |d| + k;
    assert s[..j] == d + c[..k] && s[j..] == c[k..];
    assert d + c1 == s[..j] + [b] + s[j..];
  }

  /** The sequence stays a search order, whatever rebalancing makes of the tree afterwards, as long as that
      keeps the in-order sequence. */
  lemma RebalancedIsSearchTree(s: seq<nat>, t: Tree, b: nat)
    requires Increasing(s) && SortedInsertion(s, InOrder(t), b)
    ensures Increasing(InOrder(t)) && b in InOrder(t) && forall x :: x in s ==> x in InOrder(t)
  {
    var s1 := InOrder(t);
    var k :| InsertedAt(s, s1, b, k);
    assert s1[k] == b;
    forall i | 0 <= i < |s|
      ensures s[i] in s1
    {
      assert s[i] == s1[if i < k then i else i + 1];
    }
    forall i, j | 0 <= i < j < |s1|
      ensures s1[i] < s1[j]
    {
      InsertedElement(s, s1, b, k, i);
      InsertedElement(s, s1, b, k, j);
    }
  }

  lemma InsertedElement(s: seq<nat>, s1: seq<nat>, b: nat, k: int, i: nat)
    requires InsertedAt(s, s1, b, k) && i < |s1|
    ensures s1[i] == if i < k then s[i] else if i == k then b else s[i - 1]
  {
  }

  lemma {:induction false} BasesOfNodes(t: Tree, n: LdrNode)
    requires n in Nodes(t)
    ensures n.dllBase in InOrder(t)
  {
    if n != t.node {
      if n in Nodes(t.left) {
        BasesOfNodes(t.left, n);
      } else {
        BasesOfNodes(t.right, n);
      }
    }
  }

  lemma SubtreesApart(t: Tree)
    requires t.Branch? && Increasing(InOrder(t))
    ensures Increasing(InOrder(t.left)) && Increasing(InOrder(t.right))
    ensures forall m :: m in Nodes(t.left) ==> m.dllBase < t.node.dllBase
    ensures forall m :: m in Nodes(t.right) ==> m.dllBase > t.node.dllBase
  {
    SplitIncreasing(InOrder(t.left), t.node.dllBase, InOrder(t.right));
    forall m | m in Nodes(t.left)
      ensures m.dllBase < t.node.dllBase
    {
      BasesOfNodes(t.left, m);
    }
    forall m | m in Nodes(t.right)
      ensures m.dllBase > t.node.dllBase
    {
      BasesOfNodes(t.right, m);
    }
  }

  /** Nodes of a subtree keep their shape when no link of theirs changes. */
  lemma {:induction false} SameShape(
    t: Tree, root: LdrNode?, l0: map<LdrNode, LdrNode?>, r0: map<LdrNode, LdrNode?>,
    l1: map<LdrNode, LdrNode?>, r1: map<LdrNode, LdrNode?>)
    requires Shape(t, root, l0, r0)
    requires forall n :: n in Nodes(t) && n in l0 ==> n in l1 && l1[n] == l0[n]
    requires forall n :: n in Nodes(t) && n in r0 ==> n in r1 && r1[n] == r0[n]
    ensures Shape(t, root, l1, r1)
  {
    if t.Branch? {
      SameShape(t.left, l0[t.node], l0, r0, l1, r1);
      SameShape(t.right, r0[t.node], l0, r0, l1, r1);
    }
  }

  /** The links with x put at the free place. */
  ghost function LeftsWith(p: Place, x: LdrNode, lefts: map<LdrNode, LdrNode?>): map<LdrNode, LdrNode?>
    requires p.Free?
  {
    var l := lefts[x := null];
    if p.right then l else l[p.parent := x]
  }

  ghost function RightsWith(p: Place, x: LdrNode, rights: map<LdrNode, LdrNode?>): map<LdrNode, LdrNode?>
    requires p.Free?
  {
    var r := rights[x := null];
    if p.right then r[p.parent := x] else r
  }

  /** Linking the new leaf at the end of the descent makes the attached shape. */
  lemma {:induction false} LinkedShape(
    t: Tree, root: LdrNode, x: LdrNode, lefts: map<LdrNode, LdrNode?>, rights: map<LdrNode, LdrNode?>)
    requires t.Branch? && Shape(t, root, lefts, rights) && Increasing(InOrder(t)) && x !in Nodes(t)
    requires Descend(t, x.dllBase).Free?
    ensures var p := Descend(t, x.dllBase);
            Shape(Attached(t, x), root, LeftsWith(p, x, lefts), RightsWith(p, x, rights))
    decreases t
  {
    var p := Descend(t, x.dllBase);
    var l1, r1 := LeftsWith(p, x, lefts), RightsWith(p, x, rights);
    var n := t.node;
    SubtreesApart(t);
    if x.dllBase < n.dllBase {
      if t.left.Branch? {
        ParentWithin(t.left, x.dllBase);
        LinkedShape(t.left, lefts[n], x, lefts, rights);
      }
      SameShape(t.right, rights[n], lefts, rights, l1, r1);
    } else {
      if t.right.Branch? {
        ParentWithin(t.right, x.dllBase);
        LinkedShape(t.right, rights[n], x, lefts, rights);
      }
      SameShape(t.left, lefts[n], lefts, rights, l1, r1);
    }
  }

  lemma {:induction false} ParentWithin(t: Tree, base: nat)
    requires t.Branch?
    ensures Descend(t, base).Free? ==> Descend(t, base).parent in Nodes(t)
  {
    if base < t.node.dllBase && t.left.Branch? {
      ParentWithin(t.left, base);
    } else if base > t.node.dllBase && t.right.Branch? {
      ParentWithin(t.right, base);
    }
  }

  /** The loop of the insertion: down to the base, or to a free child slot. */
  method FindPlace(root: LdrNode, baseAddress: nat, ghost t: Tree, ghost nodes: set<LdrNode>)
    returns (node: LdrNode, found: bool, right: bool)
    requires Shape(t, root, Lefts(nodes), Rights(nodes))
    ensures t.Branch? && Descend(t, baseAddress) == if found then Found(node) else Free(node, right)
  {
    node, found, right := root, false, false;
    ghost var rest := t;
    while true
      invariant rest.Branch? && Shape(rest, node, Lefts(nodes), Rights(nodes)) && !found && !right
      invariant Descend(t, baseAddress) == Descend(rest, baseAddress)
      decreases rest
    {
      if baseAddress < node.dllBase {
        if node.left == null {
          break;
        }
        rest := rest.left;
        node := node.left;
      } else if baseAddress > node.dllBase {
        if node.right == null {
          right := true;
          break;
        }
        rest := rest.right;
        node := node.right;
      } else {
        found := true;
        break;
      }
    }
  }

  /** RtlInsertModuleBaseAddressIndexNode, up to the rebalancing that follows the link. An absent index is an
      error; a base that is there only has its counters raised; a new base is linked in at a free slot. */
  method RtlInsertModuleBaseAddressIndexNode(
    index: RbTree?, entry: LdrNode, win10: bool, ghost t: Tree, ghost nodes: set<LdrNode>) returns (status: NtStatus)
    requires index != null ==>
               && t.Branch? && Shape(t, index.root, Lefts(nodes), Rights(nodes)) && Increasing(InOrder(t))
               && nodes == Nodes(t) && entry !in nodes
    requires entry.left == null && entry.right == null
    modifies if index == null then {} else nodes
    ensures status == if index == null then Unsuccessful else Success
    ensures index != null && entry.dllBase in InOrder(t) ==>
              && Shape(t, index.root, Lefts(nodes), Rights(nodes))
              && exists n :: n in nodes && n.dllBase == entry.dllBase
                      && n.loadCount == old(n.loadCount) + 1
                      && n.referenceCount == old(n.referenceCount) + (if win10 then 1 else 0)
                      && forall m :: m in nodes && m != n ==>
                           m.loadCount == old(m.loadCount) && m.referenceCount == old(m.referenceCount)
    ensures index != null && entry.dllBase !in InOrder(t) ==>
              && Shape(Attached(t, entry), index.root, Lefts(nodes + {entry}), Rights(nodes + {entry}))
              && SortedInsertion(InOrder(t), InOrder(Attached(t, entry)), entry.dllBase)
              && forall m :: m in nodes ==>
                   m.loadCount == old(m.loadCount) && m.referenceCount == old(m.referenceCount)
  {
    if index == null {
      return Unsuccessful;
    }
    var node, found, right := FindPlace(index.root, entry.dllBase, t, nodes);
    DescendFinds(t, entry.dllBase);
    if found {
      RaiseCounts(node, win10, nodes);
    } else {
      LinkAt(node, right, entry, t, index.root, nodes);
      AttachedInOrder(t, entry);
    }
    return Success;
  }

  method RaiseCounts(node: LdrNode, win10: bool, ghost nodes: set<LdrNode>)
    requires node in nodes
    modifies node
    ensures Lefts(nodes) == old(Lefts(nodes)) && Rights(nodes) == old(Rights(nodes))
    ensures node.loadCount == old(node.loadCount) + 1
    ensures node.referenceCount == old(node.referenceCount) + (if win10 then 1 else 0)
  {
    node.loadCount := node.loadCount + 1;
    if win10 {
      node.referenceCount := node.referenceCount + 1;
    }
  }

  /** What RtlRbInsertNodeEx does before it rebalances. */
  method LinkAt(
    node: LdrNode, right: bool, entry: LdrNode, ghost t: Tree, ghost root: LdrNode, ghost nodes: set<LdrNode>)
    requires Shape(t, root, Lefts(nodes), Rights(nodes)) && Increasing(InOrder(t)) && t.Branch?
    requires nodes == Nodes(t) && node in nodes && entry !in nodes && entry.left == null && entry.right == null
    requires Descend(t, entry.dllBase) == Free(node, right)
    modifies node`left, node`right
    ensures Shape(Attached(t, entry), root, Lefts(nodes + {entry}), Rights(nodes + {entry}))
  {
    LinkedShape(t, root, entry, Lefts(nodes), Rights(nodes));
    if right {
      node.right := entry;
    } else {
      node.left := entry;
    }
    assert Lefts(nodes + {entry}) == LeftsWith(Free(node, right), entry, old(Lefts(nodes)));
    assert Rights(nodes + {entry}) == RightsWith(Free(node, right), entry, old(Rights(nodes)));
  }
}
