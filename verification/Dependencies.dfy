/**
 * Unloading a module's dependency edges.  Each edge is recorded in the owner's circular list of
 * dependents and in the target's circular list of incoming edges.
 */
module Dependencies {
  import opened Sequences

  class DdagNode {
    var dependencies: Dependent?
    var incoming: Incoming?
    var loadCount: nat
    var referenceCount: nat
    var dependencyCount: nat

    /** The modules on the node's Modules list. */
    const modules: seq<Module>
  }

  class Module {
    const ddagNode: DdagNode?
  }

  /** LDRP_CSLIST_DEPENDENT; no code here relinks one. */
  class Dependent {
    const next: Dependent?
    const node: DdagNode?
  }

  /** LDRP_CSLIST_INCOMMING: `node` without its tag bit, and the node whose list the record is on. */
  class Incoming {
    var next: Incoming?
    const node: DdagNode?
    ghost const target: DdagNode?

    constructor (node: DdagNode, target: DdagNode)
      ensures this.node == node && this.target == target
    {
      this.node, this.target := node, target;
    }
  }

  datatype Outcome = Done | FastFail

  /** A node's counters. */
  datatype Counts = Counts(load: nat, reference: nat, dependency: nat)

  /** Windows 8 unloads a target when this was the last thing that held it. */
  predicate LastHolder(c: Counts) {
    c.load == 0 && c.reference == 1 && c.dependency == 1
  }

  /** What releasing a target does to its counters. */
  function Released(c: Counts, isWin8: bool): Counts {
    if !isWin8 || c.dependency == 0 then c
    else c.(dependency := c.dependency - 1, load := if LastHolder(c) then 1 else c.load)
  }

  /** The targets of the first n edges that are unloaded. */
  function Unloaded(counts: map<DdagNode, Counts>, deps: seq<Dependent>, isWin8: bool, n: nat): seq<DdagNode?>
    requires n <= |deps|
  {
    if n == 0 then []
    else
      var t := deps[n - 1].node;
      Unloaded(counts, deps, isWin8, n - 1)
      + (if !isWin8 || (t != null && t in counts && LastHolder(counts[t])) then [t] else [])
  }

  /** Each edge from the owner is recorded once on either side, and passes the integrity checks. */
  ghost predicate Mirrored(
    rings: map<DdagNode, seq<Incoming>>, counts: map<DdagNode, Counts>, owner: DdagNode, deps: seq<Dependent>,
    isWin8: bool)
  {
    && (forall i :: 0 <= i < |deps| ==> deps[i].node != null && deps[i].node in rings && deps[i].node in counts)
    && (forall i, j :: 0 <= i < j < |deps| ==> deps[i].node != deps[j].node)
    && (forall i :: 0 <= i < |deps| ==> exists k :: OnlyAt(rings[deps[i].node], owner, k))
    && (forall i :: 0 <= i < |deps| ==>
          && |deps[i].node.modules| == 1
          && deps[i].node.modules[0].ddagNode == deps[i].node
          && (isWin8 ==> counts[deps[i].node].dependency > 0))
  }

  /** Position after i on a ring of n records. */
  function Succ(i: nat, n: nat): (j: nat)
    requires i < n
    ensures j < n
  {
    if i + 1 == n then 0 else i + 1
  }

  /** The records of r that another node than `owner` put there, in their cyclic order. */
  function Without(r: seq<Incoming>, owner: DdagNode): seq<Incoming> {
    if |r| == 0 then [] else
      (if r[0].node == owner then [] else [r[0]]) + Without(r[1..], owner)
  }

  /** Position k is the one place where `owner` is recorded. */
  ghost predicate OnlyAt(r: seq<Incoming>, owner: DdagNode, k: nat) {
    k < |r| && forall i :: 0 <= i < |r| ==> (r[i].node == owner <==> i == k)
  }

  lemma {:induction false} WithoutIsRemoveAt(r: seq<Incoming>, owner: DdagNode, k: nat)
    requires OnlyAt(r, owner, k)
    ensures Without(r, owner) == RemoveAt(r, k)
  {
    if k == 0 {
      WithoutNone(r[1..], owner);
    } else {
      assert OnlyAt(r[1..], owner, k - 1);
      WithoutIsRemoveAt(r[1..], owner, k - 1);
      assert RemoveAt(r, k) == [r[0]] + RemoveAt(r[1..], k - 1);
    }
  }

  lemma {:induction false} WithoutNone(r: seq<Incoming>, owner: DdagNode)
    requires forall i :: 0 <= i < |r| ==> r[i].node != owner
    ensures Without(r, owner) == r
  {
    if |r| != 0 {
      WithoutNone(r[1..], owner);
    }
  }

  /** The records of r, headed by `head`, form a ring of target's incoming edges. */
  ghost predicate IncomingRing(
    nexts: map<Incoming, Incoming?>, head: Incoming?, r: seq<Incoming>, target: DdagNode) {
    && head == (if |r| == 0 then null else r[0])
    && (forall i {:trigger r[i].target} :: 0 <= i < |r| ==> r[i].target == target)
    && (forall i :: 0 <= i < |r| ==> Follows(nexts, r, i))
    && (forall i, j :: 0 <= i < j < |r| ==> r[i] != r[j])
  }

  /** Record i leads to the one after it. */
  ghost predicate Follows(nexts: map<Incoming, Incoming?>, r: seq<Incoming>, i: int)
    requires 0 <= i < |r|
  {
    r[i] in nexts && nexts[r[i]] == r[Succ(i, |r|)]
  }

  ghost predicate DependentRing(head: Dependent?, d: seq<Dependent>)
  {
    && head == (if |d| == 0 then null else d[0])
    && (forall i {:trigger d[i].next} :: 0 <= i < |d| ==> d[i].next == d[Succ(i, |d|)])
    && (forall i, j :: 0 <= i < j < |d| ==> d[i] != d[j])
  }

  lemma RingNext(nexts: map<Incoming, Incoming?>, head: Incoming?, r: seq<Incoming>, target: DdagNode, i: nat)
    requires IncomingRing(nexts, head, r, target) && i < |r|
    ensures r[i] in nexts && nexts[r[i]] == r[Succ(i, |r|)] && r[i].target == target
  {
    assert Follows(nexts, r, i);
  }

  /** Positions on a ring of n records, and on the ring without record k, whose predecessor is p. */
  lemma SuccWithout(n: nat, k: nat, p: nat, i: nat)
    requires k < n && p < n && n > 1 && Succ(p, n) == k && i < n - 1
    ensures var o := if i < k then i else i + 1;
            var next := if o == p then Succ(k, n) else Succ(o, n);
            next != k && Succ(i, n - 1) == if next < k then next else next - 1
  {
  }

  /** Taking record k out of a ring of at least two by redirecting its predecessor. */
  lemma RemovedFrom(
    nexts: map<Incoming, Incoming?>, head: Incoming?, r: seq<Incoming>, target: DdagNode, k: nat, p: nat)
    requires IncomingRing(nexts, head, r, target) && k < |r| && p < |r| && |r| > 1 && Succ(p, |r|) == k
    ensures r[k] in nexts
    ensures var q := RemoveAt(r, k);
            IncomingRing(nexts[r[p] := nexts[r[k]]], q[0], q, target)
  {
    RingNext(nexts, head, r, target, k);
    var q, nexts1 := RemoveAt(r, k), nexts[r[p] := nexts[r[k]]];
    assert forall i :: 0 <= i < |q| ==> q[i] == r[if i < k then i else i + 1];
    forall i | 0 <= i < |q|
      ensures q[i].target == target && Follows(nexts1, q, i)
    {
      var o := if i < k then i else i + 1;
      RingNext(nexts, head, r, target, o);
      SuccWithout(|r|, k, p, i);
    }
  }

  /** Every node's incoming records form its ring. */
  ghost predicate Rings(
    rings: map<DdagNode, seq<Incoming>>, heads: map<DdagNode, Incoming?>, nexts: map<Incoming, Incoming?>) {
    rings.Keys == heads.Keys && forall n :: n in rings ==> IncomingRing(nexts, heads[n], rings[n], n)
  }

  /** A change to target's ring leaves the rings of other nodes alone. */
  lemma Relinked(
    rings: map<DdagNode, seq<Incoming>>, heads: map<DdagNode, Incoming?>, nexts: map<Incoming, Incoming?>,
    target: DdagNode, q: seq<Incoming>, head: Incoming?, nexts1: map<Incoming, Incoming?>)
    requires Rings(rings, heads, nexts) && target in rings && IncomingRing(nexts1, head, q, target)
    requires nexts1.Keys == nexts.Keys && forall x :: x in nexts && x.target != target ==> nexts1[x] == nexts[x]
    ensures Rings(rings[target := q], heads[target := head], nexts1)
  {
    forall n | n in rings && n != target
      ensures IncomingRing(nexts1, heads[n], rings[n], n)
    {
      var r := rings[n];
      forall i | 0 <= i < |r|
        ensures Follows(nexts1, r, i)
      {
        RingNext(nexts, heads[n], r, n, i);
      }
    }
  }

  /** Leading the last record to the second takes the first off the ring. */
  lemma HeadRemoved(
    rings: map<DdagNode, seq<Incoming>>, heads: map<DdagNode, Incoming?>, nexts: map<Incoming, Incoming?>,
    target: DdagNode)
    requires Rings(rings, heads, nexts) && target in rings && |rings[target]| > 1
    ensures var r := rings[target];
            && heads[target] == r[0] && r[0] in nexts && nexts[r[0]] == r[1] && r[|r| - 1] in nexts
            && Rings(rings[target := RemoveAt(r, 0)], heads[target := r[1]], nexts[r[|r| - 1] := r[1]])
  {
    var r := rings[target];
    assert IncomingRing(nexts, heads[target], r, target);
    RingNext(nexts, heads[target], r, target, 0);
    RingNext(nexts, heads[target], r, target, |r| - 1);
    RemovedFrom(nexts, heads[target], r, target, 0, |r| - 1);
    Relinked(rings, heads, nexts, target, RemoveAt(r, 0), r[1], nexts[r[|r| - 1] := r[1]]);
  }

  /** Leading the record before record k past it takes record k off the ring. */
  lemma InnerRemoved(
    rings: map<DdagNode, seq<Incoming>>, heads: map<DdagNode, Incoming?>, nexts: map<Incoming, Incoming?>,
    target: DdagNode, k: nat)
    requires Rings(rings, heads, nexts) && target in rings && 0 < k < |rings[target]|
    ensures var r := rings[target];
            && r[k] in nexts && r[k - 1] in nexts
            && Rings(rings[target := RemoveAt(r, k)], heads, nexts[r[k - 1] := nexts[r[k]]])
  {
    var r := rings[target];
    assert IncomingRing(nexts, heads[target], r, target);
    RingNext(nexts, heads[target], r, target, k);
    RingNext(nexts, heads[target], r, target, k - 1);
    RemovedFrom(nexts, heads[target], r, target, k, k - 1);
    Relinked(rings, heads, nexts, target, RemoveAt(r, k), heads[target], nexts[r[k - 1] := nexts[r[k]]]);
    assert heads[target := heads[target]] == heads;
  }

  class Graph {
    /** All nodes, and all incoming records that were ever linked. */
    ghost const nodes: set<DdagNode>
    ghost const records: set<Incoming>

    /** The incoming ring of every node. */
    ghost var rings: map<DdagNode, seq<Incoming>>

    /** The dependent records that are allocated and not yet freed. */
    ghost var live: set<Dependent>

    /** The nodes whose module was passed to LdrUnloadDll, in order. */
    var unloads: seq<DdagNode?>

    /** The counters of every node. */
    ghost var counts: map<DdagNode, Counts>

    ghost function Heads(): map<DdagNode, Incoming?>
      reads nodes`incoming
    {
      map n | n in nodes :: n.incoming
    }

    ghost function Nexts(): map<Incoming, Incoming?>
      reads records`next
    {
      map r | r in records :: r.next
    }

    ghost predicate Valid()
      reads this`rings, nodes`incoming, records`next
    {
      Rings(rings, Heads(), Nexts())
    }

    ghost predicate Counted()
      reads this`counts, nodes`loadCount, nodes`referenceCount, nodes`dependencyCount
    {
      && counts.Keys == nodes
      && (forall n :: n in nodes ==> counts[n] == Counts(n.loadCount, n.referenceCount, n.dependencyCount))
    }

    /** LdrUnloadDll, which leaves the modelled lists alone. */
    method LdrUnloadDll(n: DdagNode?)
      modifies this`unloads
      ensures unloads == old(unloads) + [n]
    {
      unloads := unloads + [n];
    }

    /** RtlFreeHeap of a dependent record. */
    method Free(d: Dependent)
      requires d in live
      modifies this`live
      ensures live == old(live) - {d}
    {
      live := live - {d};
    }

    /** Reading a dependent record requires that it has not been freed. */
    function Next(d: Dependent): Dependent?
      requires d in live
      reads this
    {
      d.next
    }

    function NodeOf(d: Dependent): DdagNode?
      requires d in live
      reads this
    {
      d.node
    }

    /** The search through the target's ring for the owner's edge: the record and the one before it. */
    method FindEdge(owner: DdagNode, target: DdagNode, ghost k: nat) returns (last: Incoming, entry: Incoming)
      requires Valid() && target in rings && OnlyAt(rings[target], owner, k)
      ensures entry == rings[target][k] && last == rings[target][if k == 0 then 0 else k - 1]
    {
      ghost var r, nexts := rings[target], Nexts();
      assert IncomingRing(nexts, Heads()[target], r, target);
      last, entry := target.incoming, target.incoming;
      ghost var i := 0;
      var more := true;
      while more
        invariant more && i <= k
        invariant entry == r[i]
        invariant last == r[if i == 0 then 0 else i - 1]
        decreases k - i
      {
        if entry.node == owner {
          return;
        }
        RingNext(nexts, Heads()[target], r, target, i);
        if i > 0 {
          RingNext(nexts, Heads()[target], r, target, i - 1);
        }
        if last != entry {
          last := last.next;
        }
        entry := entry.next;
        i := i + 1;
        more := entry != last;
      }
    }

    /** The removal of the owner's edge from the target's ring. */
    method Unlink(owner: DdagNode, target: DdagNode, ghost k: nat)
      requires Valid() && target in rings && OnlyAt(rings[target], owner, k)
      modifies this`rings, target`incoming, records`next
      ensures rings == old(rings)[target := RemoveAt(old(rings)[target], k)]
      ensures Valid()
    {
      assert IncomingRing(Nexts(), Heads()[target], rings[target], target);
      var last, entry := FindEdge(owner, target, k);
      if entry == target.incoming {
        RemoveHead(target);
      } else {
        RemoveAfter(target, last, entry, k);
      }
    }

    /** The last record of a ring of at least two, which leads back to its head. */
    method FindLast(target: DdagNode) returns (last: Incoming)
      requires Valid() && target in rings && |rings[target]| > 1
      ensures last == rings[target][|rings[target]| - 1]
    {
      ghost var r, nexts := rings[target], Nexts();
      var entry := target.incoming;
      assert IncomingRing(nexts, Heads()[target], r, target);
      RingNext(nexts, Heads()[target], r, target, 0);
      last := entry.next;
      ghost var p := 1;
      RingNext(nexts, Heads()[target], r, target, 1);
      while last.next != entry
        invariant 1 <= p < |r| && last == r[p] && last in records && last.next == r[Succ(p, |r|)]
        decreases |r| - p
      {
        last := last.next;
        p := p + 1;
        RingNext(nexts, Heads()[target], r, target, p);
      }
    }

    lemma ValidWith(
      rings1: map<DdagNode, seq<Incoming>>, heads1: map<DdagNode, Incoming?>, nexts1: map<Incoming, Incoming?>)
      requires Rings(rings1, heads1, nexts1) && rings == rings1 && Heads() == heads1 && Nexts() == nexts1
      ensures Valid()
    {
    }

    method SetHead(target: DdagNode, head: Incoming?)
      requires target in nodes
      modifies target`incoming
      ensures Heads() == old(Heads())[target := head] && target.incoming == head
    {
      target.incoming := head;
    }

    method SetNext(entry: Incoming, next: Incoming?)
      requires entry in records
      modifies entry`next
      ensures Nexts() == old(Nexts())[entry := next] && entry.next == next
    {
      entry.next := next;
    }

    method SkipHead(target: DdagNode, last: Incoming, next: Incoming?)
      requires target in nodes && last in records
      modifies target`incoming, last`next
      ensures Heads() == old(Heads())[target := next] && Nexts() == old(Nexts())[last := next]
    {
      SetNext(last, next);
      SetHead(target, next);
    }

    /** The owner's edge heads the ring. */
    method RemoveHead(target: DdagNode)
      requires Valid() && target in rings && |rings[target]| > 0
      modifies this`rings, target`incoming, records`next
      ensures rings == old(rings)[target := RemoveAt(old(rings)[target], 0)]
      ensures Valid()
    {
      var entry := target.incoming;
      assert IncomingRing(Nexts(), Heads()[target], rings[target], target);
      RingNext(Nexts(), Heads()[target], rings[target], target, 0);
      if entry.next == target.incoming {
        RemoveOnly(target);
      } else {
        RemoveFirst(target);
      }
    }

    method RemoveOnly(target: DdagNode)
      requires Valid() && target in rings && |rings[target]| == 1
      modifies this`rings, target`incoming
      ensures rings == old(rings)[target := []]
      ensures Valid()
    {
      ghost var rings1, heads1, nexts1 := rings[target := []], Heads()[target := null], Nexts();
      Relinked(rings, Heads(), nexts1, target, [], null, nexts1);
      SetHead(target, null);
      rings := rings1;
      ValidWith(rings1, heads1, nexts1);
    }

    method RemoveFirst(target: DdagNode)
      requires Valid() && target in rings && |rings[target]| > 1
      modifies this`rings, target`incoming, records`next
      ensures rings == old(rings)[target := RemoveAt(old(rings)[target], 0)]
      ensures Valid()
    {
      HeadRemoved(rings, Heads(), Nexts(), target);
      var entry := target.incoming;
      var i := FindLast(target);
      ghost var rings1 := rings[target := RemoveAt(rings[target], 0)];
      RelinkHead(target, i, entry.next, rings1);
    }

    /** The last record and the head lead to `next`, and that makes up the given rings. */
    method RelinkHead(
      target: DdagNode, last: Incoming, next: Incoming?, ghost rings1: map<DdagNode, seq<Incoming>>)
      requires target in nodes && last in records
      requires Rings(rings1, Heads()[target := next], Nexts()[last := next])
      modifies this`rings, target`incoming, records`next
      ensures rings == rings1 && Valid()
    {
      ghost var heads1, nexts1 := Heads()[target := next], Nexts()[last := next];
      SkipHead(target, last, next);
      rings := rings1;
      ValidWith(rings1, heads1, nexts1);
    }

    /** The owner's edge follows `last`. */
    method RemoveAfter(target: DdagNode, last: Incoming, entry: Incoming, ghost k: nat)
      requires Valid() && target in rings && 0 < k < |rings[target]|
      requires last == rings[target][k - 1] && entry == rings[target][k]
      modifies this`rings, records`next
      ensures rings == old(rings)[target := RemoveAt(old(rings)[target], k)]
      ensures Valid()
    {
      ghost var rings1 := rings[target := RemoveAt(rings[target], k)];
      ghost var heads1, nexts1 := Heads(), Nexts()[last := entry.next];
      InnerRemoved(rings, heads1, Nexts(), target, k);
      SetNext(last, entry.next);
      rings := rings1;
      ValidWith(rings1, heads1, nexts1);
    }

    // ---------- RtlFreeDependencies ----------

    /** One pass of the outer loop: unlink edge i, release its target, free its record. */
    method FreeDependency(owner: DdagNode, entry: Dependent, head: Dependent, isWin8: bool,
                          ghost deps: seq<Dependent>, ghost i: nat)
      returns (next: Dependent?, outcome: Outcome)
      requires Valid() && Counted() && owner in rings && i < |deps|
      requires deps[i] == entry == owner.dependencies && deps[0] == head
      requires entry in live && entry.next == deps[Succ(i, |deps|)]
      requires entry.node != null && entry.node in rings
      requires exists k :: OnlyAt(rings[entry.node], owner, k)
      requires |entry.node.modules| == 1 && entry.node.modules[0].ddagNode == entry.node
      requires isWin8 ==> counts[entry.node].dependency > 0
      modifies this`rings, this`live, this`unloads, this`counts, owner`dependencies
      modifies entry.node`incoming, entry.node`dependencyCount, entry.node`loadCount, records`next
      ensures outcome == Done && Valid() && Counted() && next == deps[Succ(i, |deps|)]
      ensures owner.dependencies == if next == head then null else next
      ensures live == old(live) - {entry}
      ensures rings == old(rings)[entry.node := Without(old(rings)[entry.node], owner)]
      ensures unloads == old(unloads)
                         + (if !isWin8 || LastHolder(old(counts)[entry.node]) then [entry.node] else [])
      ensures counts == old(counts)[entry.node := Released(old(counts)[entry.node], isWin8)]
    {
      outcome := UnlinkTarget(owner, NodeOf(entry));
      if outcome == FastFail {
        return;
      }
      next, outcome := Settle(owner, entry, head, isWin8);
      assert Rings(rings, Heads(), Nexts());
    }

    /** Release the target and free the edge's record. */
    method Settle(owner: DdagNode, entry: Dependent, head: Dependent, isWin8: bool)
      returns (next: Dependent?, outcome: Outcome)
      requires Counted() && entry in live && entry == owner.dependencies
      requires entry.node != null && entry.node in nodes
      requires isWin8 ==> counts[entry.node].dependency > 0
      modifies this`live, this`unloads, this`counts, owner`dependencies
      modifies entry.node`dependencyCount, entry.node`loadCount
      ensures Counted() && outcome == Done && next == entry.next
      ensures Heads() == old(Heads()) && Nexts() == old(Nexts())
      ensures owner.dependencies == if next == head then null else next
      ensures live == old(live) - {entry}
      ensures unloads == old(unloads) + (if !isWin8 || LastHolder(old(counts)[entry.node]) then [entry.node] else [])
      ensures counts == old(counts)[entry.node := Released(old(counts)[entry.node], isWin8)]
    {
      next := Next(entry);
      outcome := ReleaseTarget(NodeOf(entry), isWin8);
      if outcome == FastFail {
        return;
      }
      FreeHead(owner, next, head);
    }

    /** The owner's first edge is freed, and the next one heads its list, if there is one. */
    method FreeHead(owner: DdagNode, next: Dependent?, head: Dependent)
      requires owner.dependencies != null && owner.dependencies in live
      modifies this`live, owner`dependencies
      ensures Heads() == old(Heads()) && Nexts() == old(Nexts())
      ensures live == old(live) - {old(owner.dependencies)}
      ensures owner.dependencies == if next == head then null else next
    {
      Free(owner.dependencies);
      owner.dependencies := if next == head then null else next;
    }

    /** The integrity checks, and the removal of the owner's edge from the target's ring. */
    method UnlinkTarget(owner: DdagNode, node: DdagNode) returns (outcome: Outcome)
      requires Valid() && node in rings
      requires exists k :: OnlyAt(rings[node], owner, k)
      requires |node.modules| == 1 && node.modules[0].ddagNode == node
      modifies this`rings, node`incoming, records`next
      ensures outcome == Done && Valid()
      ensures rings == old(rings)[node := Without(old(rings)[node], owner)]
    {
      if |node.modules| > 1 {
        return FastFail;
      }
      if node.modules[0].ddagNode != node {
        return FastFail;
      }
      if node.incoming == null {
        return FastFail;
      }
      ghost var k :| OnlyAt(rings[node], owner, k);
      WithoutIsRemoveAt(rings[node], owner, k);
      Unlink(owner, node, k);
      return Done;
    }

    /** Give up the owner's hold on the target. */
    method ReleaseTarget(node: DdagNode, isWin8: bool) returns (outcome: Outcome)
      requires Counted() && node in nodes
      modifies this`unloads, this`counts, node`dependencyCount, node`loadCount
      ensures Counted() && Heads() == old(Heads()) && Nexts() == old(Nexts())
      ensures outcome == FastFail <==> isWin8 && old(node.dependencyCount) == 0
      ensures node.dependencyCount == old(node.dependencyCount) - if isWin8 && outcome == Done then 1 else 0
      ensures isWin8 ==>
                var unheld := outcome == Done && node.dependencyCount == 0 && node.referenceCount == 1
                              && old(node.loadCount) == 0;
                && unloads == old(unloads) + (if unheld then [node] else [])
                && node.loadCount == if unheld then 1 else old(node.loadCount)
      ensures !isWin8 ==> unloads == old(unloads) + [node] && node.loadCount == old(node.loadCount)
      ensures unloads == old(unloads) + (if !isWin8 || LastHolder(old(counts)[node]) then [node] else [])
      ensures counts == old(counts)[node := Released(old(counts)[node], isWin8)]
    {
      if isWin8 {
        if node.dependencyCount == 0 {
          return FastFail;
        }
        node.dependencyCount := node.dependencyCount - 1;
        if node.loadCount == 0 && node.referenceCount == 1 && node.dependencyCount == 0 {
          node.loadCount := 1;
          LdrUnloadDll(node);
        }
      } else {
        LdrUnloadDll(node);
      }
      counts := counts[node := Counts(node.loadCount, node.referenceCount, node.dependencyCount)];
      return Done;
    }

    ghost function Now(): Snapshot
      reads this
    {
      Snapshot(rings, live, unloads, counts)
    }

    /** RtlFreeDependencies: every edge of the owner is unlinked from its target's ring, which keeps
        the order of its other records; every target is released once; every record is freed once. */
    method FreeDependencies(owner: DdagNode, isWin8: bool, ghost deps: seq<Dependent>) returns (outcome: Outcome)
      requires Valid() && Counted() && owner in rings
      requires DependentRing(owner.dependencies, deps) && forall i :: 0 <= i < |deps| ==> deps[i] in live
      requires Mirrored(rings, counts, owner, deps, isWin8)
      modifies this`rings, this`live, this`unloads, this`counts, owner`dependencies
      modifies nodes`incoming, nodes`dependencyCount, nodes`loadCount, records`next
      ensures outcome == Done && Valid() && Counted() && owner.dependencies == null
      ensures Progress(old(Now()), Now(), owner, deps, isWin8, |deps|)
      ensures old(unloads) <= unloads
      ensures isWin8 ==>
                forall t :: t in nodes ==>
                  if Targeted(deps, t, |deps|) then
                    && t.dependencyCount == old(t.dependencyCount) - 1
                    && t.loadCount == (if t.dependencyCount == 0 && old(t.loadCount) == 0 && t.referenceCount == 1
                                       then 1 else old(t.loadCount))
                    && (t in unloads[|old(unloads)|..] <==>
                          t.dependencyCount == 0 && old(t.loadCount) == 0 && t.referenceCount == 1)
                  else
                    && t.dependencyCount == old(t.dependencyCount) && t.loadCount == old(t.loadCount)
                    && t !in unloads[|old(unloads)|..]
      ensures !isWin8 ==> unloads == old(unloads) + Targets(deps) && counts == old(counts)
      ensures isWin8 ==> InEdgeOrder(unloads[|old(unloads)|..], deps)
    {
      ghost var s := Now();
      NothingYet(s, owner, deps, isWin8);
      outcome := Done;
      if owner.dependencies != null {
        outcome := FreeEdges(owner, owner.dependencies, isWin8, deps);
      }
      if isWin8 {
        AllGivenUp(s, Now(), owner, deps);
      } else {
        AllPassedOn(s, Now(), owner, deps);
      }
    }

    /** The outer loop. */
    method FreeEdges(owner: DdagNode, head: Dependent, isWin8: bool, ghost deps: seq<Dependent>)
      returns (outcome: Outcome)
      requires Valid() && Counted() && owner in rings && |deps| > 0 && owner.dependencies == head
      requires DependentRing(head, deps) && forall i :: 0 <= i < |deps| ==> deps[i] in live
      requires Mirrored(rings, counts, owner, deps, isWin8)
      requires Progress(Now(), Now(), owner, deps, isWin8, 0)
      modifies this`rings, this`live, this`unloads, this`counts, owner`dependencies
      modifies nodes`incoming, nodes`dependencyCount, nodes`loadCount, records`next
      ensures outcome == Done && Valid() && Counted() && owner.dependencies == null
      ensures Progress(old(Now()), Now(), owner, deps, isWin8, |deps|)
    {
      ghost var s := Now();
      var entry := head;
      ghost var i: nat := 0;
      var more := true;
      outcome := Done;
      while more
        invariant i <= |deps| && (more <==> i < |deps|)
        invariant outcome == Done && owner.dependencies == if more then entry else null
        invariant more ==> entry == deps[i]
        invariant Valid() && Counted() && Progress(s, Now(), owner, deps, isWin8, i)
        decreases |deps| - i
      {
        var next;
        next, outcome := FreeNext(owner, entry, head, isWin8, s, deps, i);
        entry := next;
        i := i + 1;
        more := entry != head;
      }
    }

    /** The next edge of the outer loop. */
    method FreeNext(owner: DdagNode, entry: Dependent, head: Dependent, isWin8: bool,
                    ghost s: Snapshot, ghost deps: seq<Dependent>, ghost i: nat)
      returns (next: Dependent?, outcome: Outcome)
      requires Valid() && Counted() && owner in rings && i < |deps|
      requires deps[i] == entry == owner.dependencies && deps[0] == head
      requires DependentRing(head, deps) && forall l :: 0 <= l < |deps| ==> deps[l] in s.live
      requires Mirrored(s.rings, s.counts, owner, deps, isWin8) && Progress(s, Now(), owner, deps, isWin8, i)
      requires deps[i].node != null
      modifies this`rings, this`live, this`unloads, this`counts, owner`dependencies
      modifies deps[i].node`incoming, deps[i].node`dependencyCount, deps[i].node`loadCount, records`next
      ensures outcome == Done && Valid() && Counted() && next == deps[Succ(i, |deps|)]
      ensures owner.dependencies == if next == head then null else next
      ensures Progress(s, Now(), owner, deps, isWin8, i + 1)
      ensures next == head <==> i + 1 == |deps|
      ensures i + 1 < |deps| ==> next == deps[i + 1]
    {
      ghost var before := Now();
      NotYet(s, before, owner, deps, isWin8, i);
      next, outcome := FreeDependency(owner, entry, head, isWin8, deps, i);
      NextProgress(s, before, Now(), owner, deps, isWin8, i);
    }
  }

  /** The state before the first edge is freed. */
  datatype Snapshot = Snapshot(
    rings: map<DdagNode, seq<Incoming>>, live: set<Dependent>, unloads: seq<DdagNode?>, counts: map<DdagNode, Counts>)

  /** One of the first n edges leads to t. */
  predicate Targeted(deps: seq<Dependent>, t: DdagNode, n: nat)
    requires n <= |deps|
  {
    exists i :: 0 <= i < n && deps[i].node == t
  }

  /** The rings after the first n edges have been unlinked. */
  ghost predicate UnlinkedRings(
    before: map<DdagNode, seq<Incoming>>, after: map<DdagNode, seq<Incoming>>, owner: DdagNode,
    deps: seq<Dependent>, n: nat)
    requires n <= |deps|
  {
    && after.Keys == before.Keys
    && (forall t :: t in before ==>
          after[t] == if Targeted(deps, t, n) then Without(before[t], owner) else before[t])
  }

  /** The counters after the targets of the first n edges have been released. */
  ghost function ReleasedCounts(counts: map<DdagNode, Counts>, deps: seq<Dependent>, isWin8: bool, n: nat)
    : map<DdagNode, Counts>
    requires n <= |deps|
  {
    map t | t in counts :: if Targeted(deps, t, n) then Released(counts[t], isWin8) else counts[t]
  }

  /** The first n edges have been unlinked, their targets released, their records freed. */
  ghost predicate Progress(
    s: Snapshot, now: Snapshot, owner: DdagNode, deps: seq<Dependent>, isWin8: bool, n: nat)
    requires n <= |deps|
  {
    && UnlinkedRings(s.rings, now.rings, owner, deps, n)
    && now.live == s.live - FirstOf(deps, n)
    && now.unloads == s.unloads + Unloaded(s.counts, deps, isWin8, n)
    && now.counts == ReleasedCounts(s.counts, deps, isWin8, n)
  }

  lemma NothingYet(s: Snapshot, owner: DdagNode, deps: seq<Dependent>, isWin8: bool)
    ensures Progress(s, s, owner, deps, isWin8, 0)
  {
  }

  lemma NextProgress(
    s: Snapshot, before: Snapshot, now: Snapshot, owner: DdagNode, deps: seq<Dependent>, isWin8: bool, i: nat)
    requires i < |deps| && Progress(s, before, owner, deps, isWin8, i)
    requires deps[i].node != null && deps[i].node in s.rings && deps[i].node in s.counts
    requires !Targeted(deps, deps[i].node, i)
    requires now.rings == before.rings[deps[i].node := Without(before.rings[deps[i].node], owner)]
    requires now.live == before.live - {deps[i]}
    requires now.unloads == before.unloads
                            + (if !isWin8 || LastHolder(before.counts[deps[i].node]) then [deps[i].node] else [])
    requires now.counts == before.counts[deps[i].node := Released(before.counts[deps[i].node], isWin8)]
    ensures Progress(s, now, owner, deps, isWin8, i + 1)
  {
    assert before.counts[deps[i].node] == s.counts[deps[i].node];
    assert now.unloads == s.unloads + Unloaded(s.counts, deps, isWin8, i + 1);
    NextRings(s.rings, before.rings, now.rings, owner, deps, i);
    NextCounts(s.counts, deps, isWin8, i);
    NextFirst(deps, i);
    assert now.live == s.live - FirstOf(deps, i + 1);
  }

  lemma NextFirst(deps: seq<Dependent>, i: nat)
    requires i < |deps|
    ensures FirstOf(deps, i + 1) == FirstOf(deps, i) + {deps[i]}
  {
  }

  /** Edge i is still in place before its turn. */
  lemma NotYet(s: Snapshot, now: Snapshot, owner: DdagNode, deps: seq<Dependent>, isWin8: bool, i: nat)
    requires i < |deps| && Mirrored(s.rings, s.counts, owner, deps, isWin8)
    requires Progress(s, now, owner, deps, isWin8, i)
    ensures !Targeted(deps, deps[i].node, i)
    ensures deps[i].node in s.rings && deps[i].node in now.rings && deps[i].node in now.counts
    ensures now.rings[deps[i].node] == s.rings[deps[i].node] && now.counts[deps[i].node] == s.counts[deps[i].node]
    ensures exists k :: OnlyAt(now.rings[deps[i].node], owner, k)
    ensures s.live >= FirstOf(deps, |deps|) ==> deps[i] in s.live
  {
  }

  lemma NextCounts(counts: map<DdagNode, Counts>, deps: seq<Dependent>, isWin8: bool, i: nat)
    requires i < |deps| && deps[i].node != null && deps[i].node in counts && !Targeted(deps, deps[i].node, i)
    ensures ReleasedCounts(counts, deps, isWin8, i + 1)
            == ReleasedCounts(counts, deps, isWin8, i)[deps[i].node := Released(counts[deps[i].node], isWin8)]
    ensures ReleasedCounts(counts, deps, isWin8, i)[deps[i].node] == counts[deps[i].node]
  {
  }

  lemma NextRings(
    start: map<DdagNode, seq<Incoming>>, before: map<DdagNode, seq<Incoming>>, after: map<DdagNode, seq<Incoming>>,
    owner: DdagNode, deps: seq<Dependent>, i: nat)
    requires i < |deps| && deps[i].node != null && deps[i].node in start && !Targeted(deps, deps[i].node, i)
    requires UnlinkedRings(start, before, owner, deps, i)
    requires after == before[deps[i].node := Without(before[deps[i].node], owner)]
    ensures UnlinkedRings(start, after, owner, deps, i + 1)
  {
    forall t | t in start
      ensures Targeted(deps, t, i + 1) <==> Targeted(deps, t, i) || t == deps[i].node
    {
    }
  }

  // ---------- Which targets are unloaded ----------

  /** The unloads follow the order of the edges, none twice. */
  ghost predicate InEdgeOrder(unloaded: seq<DdagNode?>, deps: seq<Dependent>) {
    forall a, b, i, j :: 0 <= a < b < |unloaded| && 0 <= i < |deps| && 0 <= j < |deps| ==>
      (deps[i].node == unloaded[a] && deps[j].node == unloaded[b] ==> i < j)
  }

  /** Of the first n edges' targets, those are unloaded that nothing holds any more, in order. */
  lemma {:induction false} UnloadedAre(counts: map<DdagNode, Counts>, deps: seq<Dependent>, n: nat)
    requires n <= |deps|
    requires forall i :: 0 <= i < |deps| ==> deps[i].node != null && deps[i].node in counts
    requires forall i, j :: 0 <= i < j < |deps| ==> deps[i].node != deps[j].node
    ensures var u := Unloaded(counts, deps, true, n);
            && InEdgeOrder(u, deps)
            && (forall t: DdagNode? :: t in u <==>
                  t != null && t in counts && counts[t] == Counts(0, 1, 1) && Targeted(deps, t, n))
  {
    if n != 0 {
      UnloadedAre(counts, deps, n - 1);
      NextUnloaded(counts, deps, n - 1, Unloaded(counts, deps, true, n - 1), Unloaded(counts, deps, true, n));
    }
  }

  lemma NextUnloaded(
    counts: map<DdagNode, Counts>, deps: seq<Dependent>, n: nat, u: seq<DdagNode?>, u': seq<DdagNode?>)
    requires n < |deps|
    requires forall i :: 0 <= i < |deps| ==> deps[i].node != null && deps[i].node in counts
    requires forall i, j :: 0 <= i < j < |deps| ==> deps[i].node != deps[j].node
    requires u' == u + (if counts[deps[n].node] == Counts(0, 1, 1) then [deps[n].node] else [])
    requires InEdgeOrder(u, deps)
    requires forall t: DdagNode? :: t in u <==>
               t != null && t in counts && counts[t] == Counts(0, 1, 1) && Targeted(deps, t, n)
    ensures InEdgeOrder(u', deps)
    ensures forall t: DdagNode? :: t in u' <==>
              t != null && t in counts && counts[t] == Counts(0, 1, 1) && Targeted(deps, t, n + 1)
  {
    forall t: DdagNode
      ensures Targeted(deps, t, n + 1) <==> Targeted(deps, t, n) || t == deps[n].node
    {
      assert t == deps[n].node ==> Targeted(deps, t, n + 1);
    }
  }

  lemma {:induction false} AllUnloaded(counts: map<DdagNode, Counts>, deps: seq<Dependent>, n: nat)
    requires n <= |deps|
    ensures |Unloaded(counts, deps, false, n)| == n
    ensures forall i :: 0 <= i < n ==> Unloaded(counts, deps, false, n)[i] == deps[i].node
  {
    if n != 0 {
      AllUnloaded(counts, deps, n - 1);
    }
  }

  /** A target's counters after all edges are freed, and whether it was unloaded. */
  lemma TargetGivenUp(counts: map<DdagNode, Counts>, deps: seq<Dependent>, t: DdagNode)
    requires forall i :: 0 <= i < |deps| ==> deps[i].node != null && deps[i].node in counts
    requires forall i, j :: 0 <= i < j < |deps| ==> deps[i].node != deps[j].node
    requires Targeted(deps, t, |deps|) && counts[t].dependency > 0
    ensures var c, c' := counts[t], ReleasedCounts(counts, deps, true, |deps|)[t];
            && c'.reference == c.reference && c'.dependency == c.dependency - 1
            && c'.load == (if c'.dependency == 0 && c.load == 0 && c.reference == 1 then 1 else c.load)
            && (t in Unloaded(counts, deps, true, |deps|) <==> c'.dependency == 0 && c.load == 0 && c.reference == 1)
  {
    UnloadedAre(counts, deps, |deps|);
  }

  /** What freeing all edges does to the counters on Windows 8, and whom it unloads. */
  ghost predicate HoldsGivenUp(
    counts: map<DdagNode, Counts>, counts': map<DdagNode, Counts>, unloaded: seq<DdagNode?>, deps: seq<Dependent>)
  {
    && counts'.Keys == counts.Keys
    && (forall t :: t in counts ==>
          var c, c' := counts[t], counts'[t];
          if Targeted(deps, t, |deps|) then
            && c'.reference == c.reference && c'.dependency == c.dependency - 1
            && c'.load == (if c'.dependency == 0 && c.load == 0 && c.reference == 1 then 1 else c.load)
            && (t in unloaded <==> c'.dependency == 0 && c.load == 0 && c.reference == 1)
          else c' == c && t !in unloaded)
    && InEdgeOrder(unloaded, deps)
  }

  lemma AllGivenUp(s: Snapshot, now: Snapshot, owner: DdagNode, deps: seq<Dependent>)
    requires Mirrored(s.rings, s.counts, owner, deps, true) && Progress(s, now, owner, deps, true, |deps|)
    ensures s.unloads <= now.unloads && HoldsGivenUp(s.counts, now.counts, now.unloads[|s.unloads|..], deps)
  {
    assert now.unloads[|s.unloads|..] == Unloaded(s.counts, deps, true, |deps|);
    UnloadedAre(s.counts, deps, |deps|);
    forall t | t in s.counts && Targeted(deps, t, |deps|)
      ensures s.counts[t].dependency > 0
    {
    }
    forall t | t in s.counts && Targeted(deps, t, |deps|)
    {
      TargetGivenUp(s.counts, deps, t);
    }
  }

  /** Before Windows 8 every target is unloaded, in order, and no counter changes. */
  lemma AllPassedOn(s: Snapshot, now: Snapshot, owner: DdagNode, deps: seq<Dependent>)
    requires Progress(s, now, owner, deps, false, |deps|)
    ensures now.unloads == s.unloads + Targets(deps) && now.counts == s.counts
  {
    AllUnloaded(s.counts, deps, |deps|);
    assert Unloaded(s.counts, deps, false, |deps|) == Targets(deps);
    NoneReleased(s.counts, deps, |deps|);
  }

  lemma NoneReleased(counts: map<DdagNode, Counts>, deps: seq<Dependent>, n: nat)
    requires n <= |deps|
    ensures ReleasedCounts(counts, deps, false, n) == counts
  {
  }

  function Targets(deps: seq<Dependent>): seq<DdagNode?> {
    seq(|deps|, i requires 0 <= i < |deps| => deps[i].node)
  }

  // ---------- Successive unloads of a target's dependents ----------

  /** The counters after the owners of the first n lists of edges have been unloaded on Windows 8. */
  ghost function CountsAfter(counts: map<DdagNode, Counts>, lists: seq<seq<Dependent>>, n: nat)
    : map<DdagNode, Counts>
    requires n <= |lists|
  {
    if n == 0 then counts
    else ReleasedCounts(CountsAfter(counts, lists, n - 1), lists[n - 1], true, |lists[n - 1]|)
  }

  /** How many of the first n owners depend on t. */
  ghost function Dependents(lists: seq<seq<Dependent>>, t: DdagNode, n: nat): (k: nat)
    requires n <= |lists|
    ensures k <= n
  {
    if n == 0 then 0
    else Dependents(lists, t, n - 1) + (if Targeted(lists[n - 1], t, |lists[n - 1]|) then 1 else 0)
  }

  lemma {:induction false} MoreDependents(lists: seq<seq<Dependent>>, t: DdagNode, m: nat, n: nat)
    requires m <= n <= |lists|
    ensures Dependents(lists, t, m) <= Dependents(lists, t, n)
  {
    if m < n {
      MoreDependents(lists, t, m, n - 1);
    }
  }

  /** Each dependent that goes takes one off the target's DependencyCount; the last one, if nothing else holds the
      target, sets its LoadCount. */
  lemma {:induction false} DependentsGone(
    counts: map<DdagNode, Counts>, lists: seq<seq<Dependent>>, t: DdagNode, n: nat)
    requires n <= |lists| && t in counts && Dependents(lists, t, |lists|) <= counts[t].dependency
    ensures var c, k := counts[t], Dependents(lists, t, n);
            && k <= c.dependency && t in CountsAfter(counts, lists, n)
            && CountsAfter(counts, lists, n)[t]
               == Counts(if 0 < k == c.dependency && c.load == 0 && c.reference == 1 then 1 else c.load,
                         c.reference, c.dependency - k)
  {
    if n != 0 {
      DependentsGone(counts, lists, t, n - 1);
      MoreDependents(lists, t, n, |lists|);
    } else {
      MoreDependents(lists, t, 0, |lists|);
    }
  }

  /** Over the unloads of any number of modules, a target is unloaded exactly when the one that goes depends on it,
      nobody else does any more, and it was neither loaded by itself nor referenced otherwise: once, at the last. */
  lemma UnloadedAtTheLast(counts: map<DdagNode, Counts>, lists: seq<seq<Dependent>>, t: DdagNode, m: nat)
    requires m < |lists| && t in counts && Dependents(lists, t, |lists|) <= counts[t].dependency
    requires forall i :: 0 <= i < |lists[m]| ==> lists[m][i].node != null && lists[m][i].node in counts
    requires forall i, j :: 0 <= i < j < |lists[m]| ==> lists[m][i].node != lists[m][j].node
    ensures t in Unloaded(CountsAfter(counts, lists, m), lists[m], true, |lists[m]|) <==>
              && Targeted(lists[m], t, |lists[m]|)
              && counts[t] == Counts(0, 1, Dependents(lists, t, m + 1))
  {
    SameNodes(counts, lists, m);
    UnloadedAre(CountsAfter(counts, lists, m), lists[m], |lists[m]|);
    DependentsGone(counts, lists, t, m);
  }

  lemma {:induction false} SameNodes(counts: map<DdagNode, Counts>, lists: seq<seq<Dependent>>, n: nat)
    requires n <= |lists|
    ensures CountsAfter(counts, lists, n).Keys == counts.Keys
  {
    if n != 0 {
      SameNodes(counts, lists, n - 1);
    }
  }

  function FirstOf(deps: seq<Dependent>, n: nat): set<Dependent>
    requires n <= |deps|
  {
    set i | 0 <= i < n :: deps[i]
  }

  // ---------- When the search ends ----------

  /** Positions of `_last` and `_entry` on a ring of n records after i rounds without a match. */
  function AfterRounds(n: nat, i: nat): (p: (nat, nat))
    requires n > 0
    ensures p.0 < n && p.1 < n
  {
    if i == 0 then (0, 0)
    else
      var (last, entry) := AfterRounds(n, i - 1);
      (if last != entry then Succ(last, n) else last, Succ(entry, n))
  }

  /** Round i is the last: it finds the owner, or `_entry` has caught up with `_last` before it. */
  predicate EndsAt(r: seq<Incoming>, owner: DdagNode, i: nat)
    requires |r| > 0
  {
    var (last, entry) := AfterRounds(|r|, i);
    r[entry].node == owner || (i > 0 && last == entry)
  }

  lemma {:induction false} LastTrailsEntry(n: nat, i: nat)
    requires n > 1
    ensures var (last, entry) := AfterRounds(n, i);
            && (i == 0 ==> last == entry == 0)
            && (i > 0 ==> entry == Succ(last, n))
            && (i < n ==> entry == i)
  {
    if i != 0 {
      LastTrailsEntry(n, i - 1);
    }
  }

  /** The search ends exactly when the owner is on the ring or the ring has a single record. */
  lemma SearchEndsIff(r: seq<Incoming>, owner: DdagNode)
    requires |r| > 0
    ensures (exists i :: EndsAt(r, owner, i)) <==> |r| == 1 || exists k :: 0 <= k < |r| && r[k].node == owner
  {
    if |r| == 1 {
      assert AfterRounds(1, 1) == (0, 0) by {
        assert AfterRounds(1, 0) == (0, 0);
      }
      assert EndsAt(r, owner, 1);
    } else {
      if k :| 0 <= k < |r| && r[k].node == owner {
        LastTrailsEntry(|r|, k);
        assert EndsAt(r, owner, k);
      }
      forall i: nat | EndsAt(r, owner, i)
        ensures exists k :: 0 <= k < |r| && r[k].node == owner
      {
        LastTrailsEntry(|r|, i);
      }
    }
  }

  /** Two other modules depend on the target and the owner does not: no round of the search is its last. */
  method EndlessSearchExample() returns (target: DdagNode, r: seq<Incoming>, owner: DdagNode)
    ensures |r| == 2 && target.incoming == r[0] && r[0].next == r[1] && r[1].next == r[0]
    ensures forall i: nat :: !EndsAt(r, owner, i)
  {
    owner := new DdagNode;
    target := new DdagNode;
    var other, another := new DdagNode, new DdagNode;
    var a := new Incoming(other, target);
    var b := new Incoming(another, target);
    a.next, b.next, target.incoming := b, a, a;
    r := [a, b];
    SearchEndsIff(r, owner);
  }
}
