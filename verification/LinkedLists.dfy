/**
 * Circular doubly linked lists in memory, as the loader's LIST_ENTRY lists are: links by address, and
 * the insertion and removal that rewire them.
 */
module LinkedLists {
  import opened Sequences

  /** Node number k of the ring: its head, then its members. */
  function Node(head: nat, members: seq<nat>, k: nat): nat
    requires k <= |members|
  {
    if k == 0 then head else members[k - 1]
  }

  /** The node after number k. */
  function Following(head: nat, members: seq<nat>, k: nat): nat
    requires k <= |members|
  {
    if k == |members| then head else members[k]
  }

  predicate LinkedAt(flink: map<nat, nat>, blink: map<nat, nat>, a: nat, b: nat) {
    a in flink && flink[a] == b && b in blink && blink[b] == a
  }

  /** The members are linked in order into a ring through the head, in both directions. */
  ghost predicate Ring(flink: map<nat, nat>, blink: map<nat, nat>, head: nat, members: seq<nat>) {
    forall k {:trigger Node(head, members, k)} :: 0 <= k <= |members| ==>
      LinkedAt(flink, blink, Node(head, members, k), Following(head, members, k))
  }

  /** Every list entry is in one place of one ring. */
  ghost predicate Distinct(rings: map<nat, seq<nat>>) {
    forall h1, h2, k1: nat, k2: nat {:trigger Node(h1, rings[h1], k1), Node(h2, rings[h2], k2)} ::
      (&& h1 in rings && h2 in rings && k1 <= |rings[h1]| && k2 <= |rings[h2]|
       && Node(h1, rings[h1], k1) == Node(h2, rings[h2], k2)) ==> h1 == h2 && k1 == k2
  }

  ghost predicate WellFormed(flink: map<nat, nat>, blink: map<nat, nat>, rings: map<nat, seq<nat>>) {
    && (forall h :: h in rings ==> Ring(flink, blink, h, rings[h]))
    && Distinct(rings)
  }

  /** The entry is in none of the rings. */
  ghost predicate Unlisted(rings: map<nat, seq<nat>>, e: nat) {
    forall h, k: nat {:trigger Node(h, rings[h], k)} :: h in rings && k <= |rings[h]| ==> Node(h, rings[h], k) != e
  }

  /** The rings with e as the last member of the one at head. */
  ghost function Tail(rings: map<nat, seq<nat>>, head: nat, e: nat): map<nat, seq<nat>>
    requires head in rings
  {
    rings[head := rings[head] + [e]]
  }

  /** Where e is in s, or the length. */
  function Position(s: seq<nat>, e: nat, i: nat): (j: nat)
    requires i <= |s|
    ensures i <= j <= |s| && (j < |s| ==> s[j] == e)
    ensures forall k :: i <= k < j ==> s[k] != e
    decreases |s| - i
  {
    if i < |s| && s[i] != e then Position(s, e, i + 1) else i
  }

  /** The rings with e taken out of the one at head. */
  ghost function Cut(rings: map<nat, seq<nat>>, head: nat, e: nat): map<nat, seq<nat>>
    requires head in rings && e in rings[head]
  {
    rings[head := RemoveAt(rings[head], Position(rings[head], e, 0))]
  }

  // ---------- Insertion at the tail ----------

  lemma InsertedInto(
    f0: map<nat, nat>, b0: map<nat, nat>, rings: map<nat, seq<nat>>, head: nat, e: nat,
    f1: map<nat, nat>, b1: map<nat, nat>)
    requires WellFormed(f0, b0, rings) && head in rings && Unlisted(rings, e)
    requires head in b0 && f1 == f0[e := head][b0[head] := e] && b1 == b0[e := b0[head]][head := e]
    ensures Ring(f1, b1, head, rings[head] + [e])
  {
    var s := rings[head];
    var t := s + [e];
    assert Ring(f0, b0, head, s);
    assert LinkedAt(f0, b0, Node(head, s, |s|), Following(head, s, |s|));
    forall k {:trigger Node(head, t, k)} | 0 <= k <= |t|
      ensures LinkedAt(f1, b1, Node(head, t, k), Following(head, t, k))
    {
      if k < |s| {
        assert Node(head, t, k) == Node(head, s, k);
        assert Following(head, t, k) == Following(head, s, k) == Node(head, s, k + 1);
        assert Node(head, s, k) != Node(head, s, |s|) && Node(head, s, k + 1) != Node(head, s, 0);
      } else if k == |s| {
        assert Node(head, t, k) == Node(head, s, k) == b0[head];
        assert Node(head, s, 0) != e;
      } else {
        assert Node(head, t, k) == e;
        assert Node(head, s, |s|) != e;
      }
    }
  }

  lemma OtherRing(
    f0: map<nat, nat>, b0: map<nat, nat>, f1: map<nat, nat>, b1: map<nat, nat>, h: nat, s: seq<nat>)
    requires Ring(f0, b0, h, s)
    requires forall k: nat {:trigger Node(h, s, k)} :: k <= |s| ==>
               (Node(h, s, k) in f0 ==> Node(h, s, k) in f1 && f1[Node(h, s, k)] == f0[Node(h, s, k)])
               && (Node(h, s, k) in b0 ==> Node(h, s, k) in b1 && b1[Node(h, s, k)] == b0[Node(h, s, k)])
    ensures Ring(f1, b1, h, s)
  {
    forall k {:trigger Node(h, s, k)} | 0 <= k <= |s|
      ensures LinkedAt(f1, b1, Node(h, s, k), Following(h, s, k))
    {
      assert LinkedAt(f0, b0, Node(h, s, k), Following(h, s, k));
      assert Following(h, s, k) == Node(h, s, if k == |s| then 0 else k + 1);
    }
  }

  lemma InsertKeepsDistinct(rings: map<nat, seq<nat>>, head: nat, e: nat)
    requires Distinct(rings) && head in rings && Unlisted(rings, e)
    ensures Distinct(rings[head := rings[head] + [e]])
  {
    var s := rings[head];
    var r1 := rings[head := s + [e]];
    forall h1, h2, k1: nat, k2: nat {:trigger Node(h1, r1[h1], k1), Node(h2, r1[h2], k2)} |
      h1 in r1 && h2 in r1 && k1 <= |r1[h1]| && k2 <= |r1[h2]| && Node(h1, r1[h1], k1) == Node(h2, r1[h2], k2)
      ensures h1 == h2 && k1 == k2
    {
      InsertNode(rings, head, e, h1, k1);
      InsertNode(rings, head, e, h2, k2);
    }
  }

  lemma InsertNode(rings: map<nat, seq<nat>>, head: nat, e: nat, h: nat, k: nat)
    requires head in rings && h in rings
    requires var r1 := rings[head := rings[head] + [e]]; k <= |r1[h]|
    ensures var r1 := rings[head := rings[head] + [e]];
            Node(h, r1[h], k) == if h == head && k == |rings[head]| + 1 then e else Node(h, rings[h], k)
  {
  }

  /** InsertTailList makes the entry the last one of its ring and touches no other ring. */
  lemma InsertKeepsWellFormed(
    f0: map<nat, nat>, b0: map<nat, nat>, rings: map<nat, seq<nat>>, head: nat, e: nat,
    f1: map<nat, nat>, b1: map<nat, nat>)
    requires WellFormed(f0, b0, rings) && head in rings && Unlisted(rings, e)
    requires head in b0 && f1 == f0[e := head][b0[head] := e] && b1 == b0[e := b0[head]][head := e]
    ensures WellFormed(f1, b1, rings[head := rings[head] + [e]])
  {
    InsertKeepsDistinct(rings, head, e);
    InsertedInto(f0, b0, rings, head, e, f1, b1);
    var s := rings[head];
    assert LinkedAt(f0, b0, Node(head, s, |s|), Following(head, s, |s|));
    forall h | h in rings && h != head
      ensures Ring(f1, b1, h, rings[h])
    {
      forall k: nat {:trigger Node(h, rings[h], k)} | k <= |rings[h]|
        ensures Node(h, rings[h], k) != e && Node(h, rings[h], k) != b0[head] && Node(h, rings[h], k) != head
      {
        assert Node(head, s, |s|) == b0[head] && Node(head, s, 0) == head;
      }
      OtherRing(f0, b0, f1, b1, h, rings[h]);
    }
  }

  // ---------- Removal ----------

  lemma RemovedFrom(
    f0: map<nat, nat>, b0: map<nat, nat>, rings: map<nat, seq<nat>>, head: nat, j: nat,
    f1: map<nat, nat>, b1: map<nat, nat>)
    requires WellFormed(f0, b0, rings) && head in rings && j < |rings[head]|
    requires var e := rings[head][j];
             e in f0 && e in b0 && f1 == f0[b0[e] := f0[e]] && b1 == b0[f0[e] := b0[e]]
    ensures Ring(f1, b1, head, RemoveAt(rings[head], j))
  {
    var s := rings[head];
    var e, t := s[j], RemoveAt(s, j);
    assert Ring(f0, b0, head, s);
    assert LinkedAt(f0, b0, Node(head, s, j), Following(head, s, j));
    assert LinkedAt(f0, b0, Node(head, s, j + 1), Following(head, s, j + 1));
    forall k {:trigger Node(head, t, k)} | 0 <= k <= |t|
      ensures LinkedAt(f1, b1, Node(head, t, k), Following(head, t, k))
    {
      var k0 := if k <= j then k else k + 1;
      assert Node(head, t, k) == Node(head, s, k0);
      assert LinkedAt(f0, b0, Node(head, s, k0), Following(head, s, k0));
      if k == j {
        assert Following(head, t, k) == Following(head, s, j + 1);
      } else {
        assert Following(head, t, k) == Following(head, s, k0) == Node(head, s, if k0 == |s| then 0 else k0 + 1);
        assert Following(head, s, j + 1) == Node(head, s, if j + 1 == |s| then 0 else j + 2);
        assert Node(head, s, k0) != Node(head, s, j);
      }
    }
  }

  lemma RemoveNode(rings: map<nat, seq<nat>>, head: nat, j: nat, h: nat, k: nat)
    requires head in rings && j < |rings[head]| && h in rings
    requires var r1 := rings[head := RemoveAt(rings[head], j)]; k <= |r1[h]|
    ensures var r1 := rings[head := RemoveAt(rings[head], j)];
            var k0: nat := if h == head && k > j then k + 1 else k;
            k0 <= |rings[h]| && Node(h, r1[h], k) == Node(h, rings[h], k0)
  {
  }

  lemma RemoveKeepsDistinct(rings: map<nat, seq<nat>>, head: nat, j: nat)
    requires Distinct(rings) && head in rings && j < |rings[head]|
    ensures Distinct(rings[head := RemoveAt(rings[head], j)])
    ensures Unlisted(rings[head := RemoveAt(rings[head], j)], rings[head][j])
  {
    var r1 := rings[head := RemoveAt(rings[head], j)];
    forall h1, h2, k1: nat, k2: nat {:trigger Node(h1, r1[h1], k1), Node(h2, r1[h2], k2)} |
      h1 in r1 && h2 in r1 && k1 <= |r1[h1]| && k2 <= |r1[h2]| && Node(h1, r1[h1], k1) == Node(h2, r1[h2], k2)
      ensures h1 == h2 && k1 == k2
    {
      RemoveNode(rings, head, j, h1, k1);
      RemoveNode(rings, head, j, h2, k2);
    }
    forall h, k: nat {:trigger Node(h, r1[h], k)} | h in r1 && k <= |r1[h]|
      ensures Node(h, r1[h], k) != rings[head][j]
    {
      RemoveNode(rings, head, j, h, k);
      assert rings[head][j] == Node(head, rings[head], j + 1);
    }
  }

  /** RemoveEntryList takes the entry out of its ring, keeps the order of the others, and touches no other
      ring. */
  lemma RemoveKeepsWellFormed(
    f0: map<nat, nat>, b0: map<nat, nat>, rings: map<nat, seq<nat>>, head: nat, j: nat,
    f1: map<nat, nat>, b1: map<nat, nat>)
    requires WellFormed(f0, b0, rings) && head in rings && j < |rings[head]|
    requires var e := rings[head][j];
             e in f0 && e in b0 && f1 == f0[b0[e] := f0[e]] && b1 == b0[f0[e] := b0[e]]
    ensures WellFormed(f1, b1, rings[head := RemoveAt(rings[head], j)])
    ensures Unlisted(rings[head := RemoveAt(rings[head], j)], rings[head][j])
  {
    RemoveKeepsDistinct(rings, head, j);
    RemovedFrom(f0, b0, rings, head, j, f1, b1);
    var s := rings[head];
    assert LinkedAt(f0, b0, Node(head, s, j), Following(head, s, j));
    assert LinkedAt(f0, b0, Node(head, s, j + 1), Following(head, s, j + 1));
    forall h | h in rings && h != head
      ensures Ring(f1, b1, h, rings[h])
    {
      forall k: nat {:trigger Node(h, rings[h], k)} | k <= |rings[h]|
        ensures Node(h, rings[h], k) != b0[s[j]] && Node(h, rings[h], k) != f0[s[j]]
      {
        assert Node(head, s, j) == b0[s[j]] && Node(head, s, if j + 1 == |s| then 0 else j + 2) == f0[s[j]];
      }
      OtherRing(f0, b0, f1, b1, h, rings[h]);
    }
  }

  /** A member of a ring is linked both ways. */
  lemma MemberLinked(f: map<nat, nat>, b: map<nat, nat>, rings: map<nat, seq<nat>>, head: nat, j: nat)
    requires WellFormed(f, b, rings) && head in rings && j < |rings[head]|
    ensures rings[head][j] in f && rings[head][j] in b
  {
    var s := rings[head];
    assert LinkedAt(f, b, Node(head, s, j), Following(head, s, j));
    assert LinkedAt(f, b, Node(head, s, j + 1), Following(head, s, j + 1));
  }

  // ---------- In memory ----------

  class Links {
    var flink: map<nat, nat>
    var blink: map<nat, nat>

    constructor (flink: map<nat, nat>, blink: map<nat, nat>)
      ensures this.flink == flink && this.blink == blink
    {
      this.flink, this.blink := flink, blink;
    }

    method InsertTailList(head: nat, e: nat, ghost rings: map<nat, seq<nat>>)
      requires WellFormed(flink, blink, rings) && head in rings && Unlisted(rings, e)
      modifies this
      ensures WellFormed(flink, blink, Tail(rings, head, e))
    {
      assert LinkedAt(flink, blink, Node(head, rings[head], |rings[head]|), head);
      var last := blink[head];
      ghost var f0, b0 := flink, blink;
      flink := flink[e := head];
      blink := blink[e := last];
      flink := flink[last := e];
      blink := blink[head := e];
      InsertKeepsWellFormed(f0, b0, rings, head, e, flink, blink);
    }

    method RemoveEntryList(e: nat, ghost rings: map<nat, seq<nat>>, ghost head: nat)
      requires WellFormed(flink, blink, rings) && head in rings && e in rings[head]
      modifies this
      ensures WellFormed(flink, blink, Cut(rings, head, e)) && Unlisted(Cut(rings, head, e), e)
    {
      ghost var j := Position(rings[head], e, 0);
      MemberLinked(flink, blink, rings, head, j);
      var next, last := flink[e], blink[e];
      ghost var f0, b0 := flink, blink;
      flink := flink[last := next];
      blink := blink[next := last];
      RemoveKeepsWellFormed(f0, b0, rings, head, j, flink, blink);
    }
  }

  // ---------- One after the other ----------

  lemma UnlistedAfterTail(rings: map<nat, seq<nat>>, head: nat, e: nat, x: nat)
    requires head in rings && Unlisted(rings, x) && x != e
    ensures Unlisted(Tail(rings, head, e), x)
  {
    var r1 := Tail(rings, head, e);
    forall h, k: nat {:trigger Node(h, r1[h], k)} | h in r1 && k <= |r1[h]|
      ensures Node(h, r1[h], k) != x
    {
      InsertNode(rings, head, e, h, k);
    }
  }

  lemma UnlistedNotIn(rings: map<nat, seq<nat>>, head: nat, e: nat)
    requires head in rings && Unlisted(rings, e)
    ensures e !in rings[head]
  {
    forall k | 0 <= k < |rings[head]|
      ensures rings[head][k] != e
    {
      assert Node(head, rings[head], k + 1) == rings[head][k];
    }
  }

  /** Taking out what was just put in restores the members. */
  lemma CutUndoesTail(s: seq<nat>, e: nat)
    requires e !in s
    ensures e in s + [e] && RemoveAt(s + [e], Position(s + [e], e, 0)) == s
  {
    var t := s + [e];
    assert t[|s|] == e;
    forall i | 0 <= i < |s|
      ensures t[i] != e
    {
      assert t[i] == s[i];
    }
    assert Position(t, e, 0) == |s|;
    assert RemoveAt(t, |s|) == s;
  }
}
