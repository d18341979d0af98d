/**
 * Base relocation of a mapped image: the size-bounded walk of the memory loader, the
 * sentinel-bounded walk of the reflective loader, and what both do to the image.
 * (Microsoft PE Format, "The .reloc Section (Image Only)".)
 */
module Relocation {
  import opened Bytes

  const KIND_HIGH: nat := 1
  const KIND_LOW: nat := 2
  const KIND_HIGHLOW: nat := 3
  const KIND_DIR64: nat := 10

  /** An addition to the `width`-byte word at address `at`. */
  datatype Fix = Fix(at: nat, width: width, add: nat)

  /** The two implementations, on a 64-bit or a 32-bit build. */
  datatype Walker = SizeBounded(is64: bool) | SentinelBounded(is64: bool)

  // ---------- Applying fixes ----------

  predicate InRange(fixes: seq<Fix>, size: nat) {
    forall i :: 0 <= i < |fixes| ==> fixes[i].at + fixes[i].width <= size
  }

  function AddAt(mem: seq<byte>, f: Fix): (m: seq<byte>)
    requires f.at + f.width <= |mem|
    ensures |m| == |mem|
  {
    AddWord(mem, f.at, f.width, f.add)
  }

  /** The memory after the first n fixes. */
  function Apply(mem: seq<byte>, fixes: seq<Fix>, n: nat): (m: seq<byte>)
    requires n <= |fixes| && InRange(fixes, |mem|)
    ensures |m| == |mem|
  {
    if n == 0 then mem else AddAt(Apply(mem, fixes, n - 1), fixes[n - 1])
  }

  function Relocated(mem: seq<byte>, fixes: seq<Fix>): (m: seq<byte>)
    requires InRange(fixes, |mem|)
    ensures |m| == |mem|
  {
    Apply(mem, fixes, |fixes|)
  }

  predicate Covers(f: Fix, j: nat) {
    f.at <= j < f.at + f.width
  }

  predicate Apart(f: Fix, g: Fix) {
    f.at + f.width <= g.at || g.at + g.width <= f.at
  }

  predicate Disjoint(fixes: seq<Fix>) {
    forall i, j :: 0 <= i < j < |fixes| ==> Apart(fixes[i], fixes[j])
  }

  lemma {:induction false} ApplyOutside(mem: seq<byte>, fixes: seq<Fix>, n: nat, j: nat)
    requires n <= |fixes| && InRange(fixes, |mem|) && j < |mem|
    requires forall i :: 0 <= i < n ==> !Covers(fixes[i], j)
    ensures Apply(mem, fixes, n)[j] == mem[j]
  {
    if n != 0 {
      ApplyOutside(mem, fixes, n - 1, j);
      assert !Covers(fixes[n - 1], j);
    }
  }

  lemma AddAtReads(mem: seq<byte>, f: Fix)
    requires f.at + f.width <= |mem|
    ensures Read(AddAt(mem, f), f.at, f.width) == Plus(Read(mem, f.at, f.width), f.add, f.width)
  {
    AddWordReads(mem, f.at, f.width, f.add);
  }

  lemma AddAtApart(mem: seq<byte>, f: Fix, g: Fix)
    requires f.at + f.width <= |mem| && g.at + g.width <= |mem| && (Apart(f, g) || Apart(g, f))
    ensures Read(AddAt(mem, f), g.at, g.width) == Read(mem, g.at, g.width)
  {
    ReadSame(AddAt(mem, f), mem, g.at, g.width);
  }

  lemma {:induction false} ApplyApart(mem: seq<byte>, fixes: seq<Fix>, n: nat, g: Fix)
    requires n <= |fixes| && InRange(fixes, |mem|) && g.at + g.width <= |mem|
    requires forall i :: 0 <= i < n ==> Apart(fixes[i], g) || Apart(g, fixes[i])
    ensures Read(Apply(mem, fixes, n), g.at, g.width) == Read(mem, g.at, g.width)
  {
    if n != 0 {
      ApplyApart(mem, fixes, n - 1, g);
      AddAtApart(Apply(mem, fixes, n - 1), fixes[n - 1], g);
    }
  }

  /** Each fix adds to its word once, whatever the others do. */
  lemma {:induction false} ApplyAdds(mem: seq<byte>, fixes: seq<Fix>, n: nat, i: nat)
    requires i < n <= |fixes| && InRange(fixes, |mem|) && Disjoint(fixes)
    ensures var f := fixes[i];
            Read(Apply(mem, fixes, n), f.at, f.width) == Plus(Read(mem, f.at, f.width), f.add, f.width)
  {
    var before := Apply(mem, fixes, n - 1);
    if i == n - 1 {
      ApplyApart(mem, fixes, i, fixes[i]);
      AddAtReads(before, fixes[i]);
    } else {
      ApplyAdds(mem, fixes, n - 1, i);
      AddAtApart(before, fixes[n - 1], fixes[i]);
    }
  }

  // ---------- What relocation means ----------

  /** The sites hold the addresses base + target; every other byte is the template's. */
  ghost predicate LinkedAt(mem: seq<byte>, base: nat, sites: seq<Fix>, targets: seq<nat>, template: seq<byte>)
    requires InRange(sites, |mem|) && |targets| == |sites|
  {
    && |mem| == |template|
    && (forall i :: 0 <= i < |sites| ==>
          Read(mem, sites[i].at, sites[i].width) == Plus(base, targets[i], sites[i].width))
    && (forall j :: 0 <= j < |mem| && (forall i :: 0 <= i < |sites| ==> !Covers(sites[i], j)) ==>
          mem[j] == template[j])
  }

  /** Each fix adds delta, as far as its width goes. */
  predicate Shifts(fixes: seq<Fix>, delta: nat) {
    forall i :: 0 <= i < |fixes| ==>
      fixes[i].width != 2 && Low(fixes[i].add, fixes[i].width) == Low(delta, fixes[i].width)
  }

  /** There is one image of a template at a base. */
  lemma LinkedUnique(
    m1: seq<byte>, m2: seq<byte>, base: nat, sites: seq<Fix>, targets: seq<nat>, template: seq<byte>)
    requires |m1| == |m2| && InRange(sites, |m1|) && |targets| == |sites|
    requires LinkedAt(m1, base, sites, targets, template) && LinkedAt(m2, base, sites, targets, template)
    ensures m1 == m2
  {
    forall j | 0 <= j < |m1|
      ensures m1[j] == m2[j]
    {
      if i :| 0 <= i < |sites| && Covers(sites[i], j) {
        ReadInjective(m1, m2, sites[i].at, sites[i].width);
      }
    }
  }

  lemma LinkMoves(from: nat, to: nat, target: nat, add: nat, delta: nat, w: width)
    requires Low(add, w) == Low(delta, w) && SameAddress(from + delta, to)
    ensures Plus(Plus(from, target, w), add, w) == Plus(to, target, w)
  {
    LowAdded(from + target, add, delta, w);
    LowDown(from + delta, to, target, w);
  }

  /** The image linked at `from` becomes the image linked at `to`. */
  lemma RelocatedIsLinked(
    mem: seq<byte>, from: nat, to: nat, delta: nat, fixes: seq<Fix>, targets: seq<nat>, template: seq<byte>)
    requires InRange(fixes, |mem|) && Disjoint(fixes) && Shifts(fixes, delta) && |targets| == |fixes|
    requires SameAddress(from + delta, to) && LinkedAt(mem, from, fixes, targets, template)
    ensures LinkedAt(Relocated(mem, fixes), to, fixes, targets, template)
  {
    var m := Relocated(mem, fixes);
    forall i | 0 <= i < |fixes|
      ensures Read(m, fixes[i].at, fixes[i].width) == Plus(to, targets[i], fixes[i].width)
    {
      ApplyAdds(mem, fixes, |fixes|, i);
      LinkMoves(from, to, targets[i], fixes[i].add, delta, fixes[i].width);
    }
    forall j | 0 <= j < |m| && (forall i :: 0 <= i < |fixes| ==> !Covers(fixes[i], j))
      ensures m[j] == template[j]
    {
      ApplyOutside(mem, fixes, |fixes|, j);
    }
  }

  /** locationDelta: the difference of two addresses, in size_t arithmetic. */
  function Delta(from: nat, to: nat): (d: nat)
    requires from < QWORD && to < QWORD
    ensures d < QWORD
  {
    if from <= to then to - from else QWORD + to - from
  }

  lemma DeltaLeads(from: nat, to: nat)
    requires from < QWORD && to < QWORD
    ensures SameAddress(from + Delta(from, to), to)
    ensures SameAddress(Delta(from, to) + Delta(to, from), 0)
  {
  }

  /** Relocation preserves meaning: relocating the image linked at `from` to `to` gives, byte for
      byte, the image linked at `to`. */
  lemma RelocationPreservesMeaning(
    mFrom: seq<byte>, mTo: seq<byte>, from: nat, to: nat, fixes: seq<Fix>, targets: seq<nat>, template: seq<byte>)
    requires from < QWORD && to < QWORD && |mFrom| == |mTo|
    requires InRange(fixes, |mFrom|) && Disjoint(fixes) && Shifts(fixes, Delta(from, to)) && |targets| == |fixes|
    requires LinkedAt(mFrom, from, fixes, targets, template) && LinkedAt(mTo, to, fixes, targets, template)
    ensures Relocated(mFrom, fixes) == mTo
  {
    DeltaLeads(from, to);
    RelocatedIsLinked(mFrom, from, to, Delta(from, to), fixes, targets, template);
    LinkedUnique(Relocated(mFrom, fixes), mTo, to, fixes, targets, template);
  }

  /** Fixes at the same sites. */
  predicate SameSites(f: seq<Fix>, g: seq<Fix>) {
    |f| == |g| && forall i :: 0 <= i < |f| ==> f[i].at == g[i].at && f[i].width == g[i].width
  }

  /** Rebasing by delta and then by its negative changes nothing. */
  lemma RebaseBackIsIdentity(mem: seq<byte>, there: seq<Fix>, back: seq<Fix>, d1: nat, d2: nat)
    requires InRange(there, |mem|) && InRange(back, |mem|) && SameSites(there, back) && Disjoint(there)
    requires Shifts(there, d1) && Shifts(back, d2) && SameAddress(d1 + d2, 0)
    ensures Relocated(Relocated(mem, there), back) == mem
  {
    var m1 := Relocated(mem, there);
    var m2 := Relocated(m1, back);
    assert Disjoint(back) by {
      forall i, j | 0 <= i < j < |back|
        ensures Apart(back[i], back[j])
      {
        assert Apart(there[i], there[j]);
      }
    }
    forall j | 0 <= j < |mem|
      ensures m2[j] == mem[j]
    {
      if i :| 0 <= i < |there| && Covers(there[i], j) {
        RebasedWordBack(mem, there, back, d1, d2, i);
        ReadInjective(m2, mem, there[i].at, there[i].width);
      } else {
        ApplyOutside(mem, there, |there|, j);
        forall i | 0 <= i < |back|
          ensures !Covers(back[i], j)
        {
          assert !Covers(there[i], j);
        }
        ApplyOutside(m1, back, |back|, j);
      }
    }
  }

  lemma RebasedWordBack(mem: seq<byte>, there: seq<Fix>, back: seq<Fix>, d1: nat, d2: nat, i: nat)
    requires InRange(there, |mem|) && InRange(back, |mem|) && SameSites(there, back)
    requires Disjoint(there) && Disjoint(back) && i < |there|
    requires Shifts(there, d1) && Shifts(back, d2) && SameAddress(d1 + d2, 0)
    ensures Read(Relocated(Relocated(mem, there), back), there[i].at, there[i].width)
            == Read(mem, there[i].at, there[i].width)
  {
    var f, g := there[i], back[i];
    var x := Read(mem, f.at, f.width);
    ApplyAdds(mem, there, |there|, i);
    ApplyAdds(Relocated(mem, there), back, |back|, i);
    ReadIsLow(mem, f.at, f.width);
    WordBack(x, f.add, g.add, d1, d2, f.width);
  }

  lemma WordBack(x: nat, a1: nat, a2: nat, d1: nat, d2: nat, w: width)
    requires Low(x, w) == x && Low(a1, w) == Low(d1, w) && Low(a2, w) == Low(d2, w)
    requires SameAddress(d1 + d2, 0)
    ensures Plus(Plus(x, a1, w), a2, w) == x
  {
    LowAdded(x + a1, a2, d2, w);
    LowAdded(x + d2, a1, d1, w);
    LowAdded(x + d2, a1, a1, w);
    LowDown(d1 + d2, 0, x, w);
  }

  // ---------- The block directory ----------

  function BlockVa(mem: seq<byte>, p: nat): nat
    requires p + 4 <= |mem|
  {
    Read(mem, p, 4)
  }

  function BlockSize(mem: seq<byte>, p: nat): nat
    requires p + 8 <= |mem|
  {
    Read(mem, p + 4, 4)
  }

  /** A block header that a walk can follow. */
  predicate BlockOk(mem: seq<byte>, p: nat) {
    p + 8 <= |mem| && BlockSize(mem, p) >= 8 && p + BlockSize(mem, p) <= |mem|
  }

  /** How many entries a block of that size has. */
  function TypeOffsetCount(size: nat): (n: nat)
    requires size >= 8
    ensures 8 + 2 * n <= size
  {
    (size - 8) / 2
  }

  function EntryCount(mem: seq<byte>, p: nat): (n: nat)
    requires BlockOk(mem, p)
    ensures p + 8 + 2 * n <= p + BlockSize(mem, p) <= |mem|
  {
    TypeOffsetCount(BlockSize(mem, p))
  }

  /** What a walker does for one entry: the offset is the low 12 bits, the type the high 4. */
  function EntryFix(word: nat, va: nat, delta: nat, w: Walker): (fixes: seq<Fix>)
    ensures |fixes| <= 1
  {
    var at, kind := va + word % 4096, word / 4096;
    match w
    case SizeBounded(is64) =>
      if kind == KIND_HIGHLOW then [Fix(at, 4, Low(delta, 4))]
      else if is64 && kind == KIND_DIR64 then [Fix(at, 8, delta)]
      else []
    case SentinelBounded(is64) =>
      if kind == KIND_DIR64 then if is64 then [Fix(at, 8, delta)] else [Fix(at, 4, Low(delta, 4))]
      else if kind == KIND_HIGHLOW then [Fix(at, 4, Low(delta, 4))]
      else if kind == KIND_HIGH then [Fix(at, 2, Low(delta / WORD, 2))]
      else if kind == KIND_LOW then [Fix(at, 2, Low(delta, 2))]
      else []
  }

  /** The fixes of the first n entries of the block at p. */
  function EntryFixes(mem: seq<byte>, p: nat, n: nat, delta: nat, w: Walker): seq<Fix>
    requires p + 8 + 2 * n <= |mem|
  {
    if n == 0 then []
    else EntryFixes(mem, p, n - 1, delta, w)
         + EntryFix(Read(mem, p + 8 + 2 * (n - 1), 2), BlockVa(mem, p), delta, w)
  }

  function BlockFixes(mem: seq<byte>, p: nat, delta: nat, w: Walker): seq<Fix>
    requires BlockOk(mem, p)
  {
    EntryFixes(mem, p, EntryCount(mem, p), delta, w)
  }

  // ---------- The walk over the blocks ----------

  /** What the walker reads at p before it decides whether to go on is there. */
  predicate HeadOk(mem: seq<byte>, p: nat, end: nat, w: Walker) {
    match w
    case SizeBounded(_) => p < end ==> p + 4 <= |mem|
    case SentinelBounded(_) => p + 8 <= |mem|
  }

  /** The loop conditions: the directory's size and a non-zero address, or a non-zero block size. */
  predicate GoesOn(mem: seq<byte>, p: nat, end: nat, w: Walker)
    requires HeadOk(mem, p, end, w)
  {
    match w
    case SizeBounded(_) => p < end && BlockVa(mem, p) > 0
    case SentinelBounded(_) => BlockSize(mem, p) != 0
  }

  /** Every block the walk reaches from p on can be followed. */
  predicate WalkOk(mem: seq<byte>, p: nat, end: nat, w: Walker)
    decreases |mem| - p
  {
    && HeadOk(mem, p, end, w)
    && (GoesOn(mem, p, end, w) ==> BlockOk(mem, p) && WalkOk(mem, p + BlockSize(mem, p), end, w))
  }

  function WalkFixes(mem: seq<byte>, p: nat, end: nat, delta: nat, w: Walker): seq<Fix>
    requires WalkOk(mem, p, end, w)
    decreases |mem| - p
  {
    if GoesOn(mem, p, end, w) then
      BlockFixes(mem, p, delta, w) + WalkFixes(mem, p + BlockSize(mem, p), end, delta, w)
    else []
  }

  /** Where the bytes the walk reads end. */
  function WalkReadEnd(mem: seq<byte>, p: nat, end: nat, w: Walker): (e: nat)
    requires WalkOk(mem, p, end, w)
    ensures p <= e
    decreases |mem| - p
  {
    if GoesOn(mem, p, end, w) then WalkReadEnd(mem, p + BlockSize(mem, p), end, w)
    else if w.SentinelBounded? then p + 8
    else if p < end then p + 4
    else p
  }

  // ---------- The two walks agree ----------

  /** The entry is of a type that both implementations treat alike. */
  predicate CommonKind(word: nat, is64: bool) {
    word / 4096 == 0 || word / 4096 == KIND_HIGHLOW || (is64 && word / 4096 == KIND_DIR64)
  }

  /** Both walks visit the same blocks: where the one stops, the other finds a zero-size block. */
  predicate Lockstep(mem: seq<byte>, p: nat, end: nat, is64: bool)
    decreases |mem| - p
  {
    && p + 8 <= |mem|
    && if p < end && BlockVa(mem, p) > 0 then
         && BlockOk(mem, p)
         && (forall i :: 0 <= i < EntryCount(mem, p) ==> CommonKind(Read(mem, p + 8 + 2 * i, 2), is64))
         && Lockstep(mem, p + BlockSize(mem, p), end, is64)
       else BlockSize(mem, p) == 0
  }

  lemma {:induction false} EntriesAgree(mem: seq<byte>, p: nat, n: nat, delta: nat, is64: bool)
    requires p + 8 + 2 * n <= |mem|
    requires forall i :: 0 <= i < n ==> CommonKind(Read(mem, p + 8 + 2 * i, 2), is64)
    ensures EntryFixes(mem, p, n, delta, SizeBounded(is64)) == EntryFixes(mem, p, n, delta, SentinelBounded(is64))
  {
    if n != 0 {
      EntriesAgree(mem, p, n - 1, delta, is64);
      assert CommonKind(Read(mem, p + 8 + 2 * (n - 1), 2), is64);
    }
  }

  lemma {:induction false} WalksAgree(mem: seq<byte>, p: nat, end: nat, delta: nat, is64: bool)
    requires Lockstep(mem, p, end, is64)
    ensures WalkOk(mem, p, end, SizeBounded(is64)) && WalkOk(mem, p, end, SentinelBounded(is64))
    ensures WalkFixes(mem, p, end, delta, SizeBounded(is64)) == WalkFixes(mem, p, end, delta, SentinelBounded(is64))
    ensures WalkReadEnd(mem, p, end, SizeBounded(is64)) <= WalkReadEnd(mem, p, end, SentinelBounded(is64))
    decreases |mem| - p
  {
    if p < end && BlockVa(mem, p) > 0 {
      EntriesAgree(mem, p, EntryCount(mem, p), delta, is64);
      WalksAgree(mem, p + BlockSize(mem, p), end, delta, is64);
    }
  }

  /** Adding zero everywhere, as the reflective walk does for delta 0, changes nothing. */
  lemma {:induction false} ZeroFixes(mem: seq<byte>, fixes: seq<Fix>, n: nat)
    requires n <= |fixes| && InRange(fixes, |mem|) && forall i :: 0 <= i < n ==> fixes[i].add == 0
    ensures Apply(mem, fixes, n) == mem
  {
    if n != 0 {
      ZeroFixes(mem, fixes, n - 1);
      AddWordZero(mem, fixes[n - 1].at, fixes[n - 1].width);
    }
  }

  lemma {:induction false} EntryFixesZero(mem: seq<byte>, p: nat, n: nat, w: Walker)
    requires p + 8 + 2 * n <= |mem|
    ensures forall f :: f in EntryFixes(mem, p, n, 0, w) ==> f.add == 0
  {
    if n != 0 {
      EntryFixesZero(mem, p, n - 1, w);
    }
  }

  lemma {:induction false} WalkFixesZero(mem: seq<byte>, p: nat, end: nat, w: Walker)
    requires WalkOk(mem, p, end, w)
    ensures forall f :: f in WalkFixes(mem, p, end, 0, w) ==> f.add == 0
    decreases |mem| - p
  {
    if GoesOn(mem, p, end, w) {
      EntryFixesZero(mem, p, EntryCount(mem, p), w);
      WalkFixesZero(mem, p + BlockSize(mem, p), end, w);
    }
  }

  /** The size-bounded walker's fixes add delta as far as their width goes. */
  lemma {:induction false} EntryFixesShift(mem: seq<byte>, p: nat, n: nat, delta: nat, is64: bool)
    requires p + 8 + 2 * n <= |mem|
    ensures Shifts(EntryFixes(mem, p, n, delta, SizeBounded(is64)), delta)
  {
    if n != 0 {
      EntryFixesShift(mem, p, n - 1, delta, is64);
    }
  }

  lemma {:induction false} WalkFixesShift(mem: seq<byte>, p: nat, end: nat, delta: nat, is64: bool)
    requires WalkOk(mem, p, end, SizeBounded(is64))
    ensures Shifts(WalkFixes(mem, p, end, delta, SizeBounded(is64)), delta)
    decreases |mem| - p
  {
    if GoesOn(mem, p, end, SizeBounded(is64)) {
      EntryFixesShift(mem, p, EntryCount(mem, p), delta, is64);
      WalkFixesShift(mem, p + BlockSize(mem, p), end, delta, is64);
    }
  }

  lemma {:induction false} EntryFixesSites(
    mem: seq<byte>, p: nat, n: nat, d1: nat, d2: nat, w: Walker)
    requires p + 8 + 2 * n <= |mem|
    ensures SameSites(EntryFixes(mem, p, n, d1, w), EntryFixes(mem, p, n, d2, w))
  {
    if n != 0 {
      EntryFixesSites(mem, p, n - 1, d1, d2, w);
    }
  }

  /** The sites do not depend on the delta. */
  lemma {:induction false} WalkFixesSites(mem: seq<byte>, p: nat, end: nat, d1: nat, d2: nat, w: Walker)
    requires WalkOk(mem, p, end, w)
    ensures SameSites(WalkFixes(mem, p, end, d1, w), WalkFixes(mem, p, end, d2, w))
    decreases |mem| - p
  {
    if GoesOn(mem, p, end, w) {
      EntryFixesSites(mem, p, EntryCount(mem, p), d1, d2, w);
      WalkFixesSites(mem, p + BlockSize(mem, p), end, d1, d2, w);
    }
  }
}
