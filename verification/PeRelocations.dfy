/**
 * What a base relocation directory that was written as the PE format says makes the two walkers do, and what it
 * makes of the image.
 */
module PeRelocations {
  import opened Bytes
  import opened PeFormat
  import R = Relocation
  import opened Rebase

  // ---------- What a directory asks for ----------

  /** The addition an entry asks for: HIGHLOW (3) for 4 bytes, DIR64 (10) for a pointer of the build, and from the
      reflective loader HIGH (1) and LOW (2) for 2 bytes; ABSOLUTE (0) and all others for none. */
  function Asked(at: nat, kind: nat, delta: nat, w: R.Walker): seq<R.Fix> {
    if kind == 3 then [R.Fix(at, 4, delta % 0x1_0000_0000)]
    else if kind == 10 && w.is64 then [R.Fix(at, 8, delta)]
    else if kind == 10 && w.SentinelBounded? then [R.Fix(at, 4, delta % 0x1_0000_0000)]
    else if kind == 1 && w.SentinelBounded? then [R.Fix(at, 2, delta / 0x1_0000 % 0x1_0000)]
    else if kind == 2 && w.SentinelBounded? then [R.Fix(at, 2, delta % 0x1_0000)]
    else []
  }

  /** What the first n entries ask for, in order. */
  function EntriesAsk(page: nat, entries: seq<Entry>, n: nat, delta: nat, w: R.Walker): seq<R.Fix>
    requires n <= |entries|
  {
    if n == 0 then []
    else EntriesAsk(page, entries, n - 1, delta, w)
         + Asked(page + entries[n - 1].offset, entries[n - 1].kind, delta, w)
  }

  /** What the whole directory asks for, in order. */
  function Asks(blocks: seq<Block>, delta: nat, w: R.Walker): seq<R.Fix> {
    if |blocks| == 0 then []
    else EntriesAsk(blocks[0].page, blocks[0].entries, |blocks[0].entries|, delta, w) + Asks(blocks[1..], delta, w)
  }

  /** The blocks before the first one for page 0, at which the memory loader stops. */
  function BeforeZero(blocks: seq<Block>): (b: seq<Block>)
    ensures (forall i :: 0 <= i < |blocks| ==> blocks[i].page != 0) ==> b == blocks
  {
    if |blocks| == 0 || blocks[0].page == 0 then [] else [blocks[0]] + BeforeZero(blocks[1..])
  }

  function Heeded(blocks: seq<Block>, w: R.Walker): seq<Block> {
    if w.SizeBounded? then BeforeZero(blocks) else blocks
  }

  /** The directory is in memory at p, up to its end; the reflective loader also needs a zero block size after it. */
  predicate Written(m: seq<byte>, p: nat, end: nat, blocks: seq<Block>, w: R.Walker) {
    && AllWritable(blocks) && At(m, p, DirectoryBytes(blocks)) && end == p + |DirectoryBytes(blocks)|
    && (w.SentinelBounded? ==> At(m, end + 4, Le32(0)))
  }

  // ---------- One block ----------

  lemma EntryWord(kind: nat, offset: nat)
    requires kind < 16 && offset < 4096
    ensures var word := kind * 4096 + offset; word < 0x1_0000 && word % 4096 == offset && word / 4096 == kind
  {
    ModUnique(4096, kind, offset);
  }

  lemma EntryAsked(page: nat, e: Entry, delta: nat, w: R.Walker)
    requires e.kind < 16 && e.offset < 4096
    ensures R.EntryFix(e.kind * 4096 + e.offset, page, delta, w) == Asked(page + e.offset, e.kind, delta, w)
  {
    EntryWord(e.kind, e.offset);
  }

  lemma {:induction false} EntriesRead(m: seq<byte>, p: nat, b: Block, n: nat, delta: nat, w: R.Walker)
    requires n <= |b.entries| && Writable(b) && p + 8 <= |m|
    requires At(m, p + 8, EntryBytes(b.entries, n)) && R.BlockVa(m, p) == b.page
    ensures p + 8 + 2 * n <= |m|
    ensures R.EntryFixes(m, p, n, delta, w) == EntriesAsk(b.page, b.entries, n, delta, w)
  {
    if n != 0 {
      var k, at := n - 1, p + 8 + 2 * (n - 1);
      LastEntryRead(m, p, at, b, k, n, delta, w);
      EntriesRead(m, p, b, k, delta, w);
      EntriesOnce(m, p, at, b, k, n, delta, w);
    }
  }

  lemma EntriesOnce(m: seq<byte>, p: nat, at: nat, b: Block, k: nat, n: nat, delta: nat, w: R.Walker)
    requires k < n == k + 1 <= |b.entries| && at == p + 8 + 2 * k && at + 2 <= |m| && R.BlockVa(m, p) == b.page
    requires R.EntryFixes(m, p, k, delta, w) == EntriesAsk(b.page, b.entries, k, delta, w)
    requires EntryHere(m, at, b, k, delta, w)
    ensures R.EntryFixes(m, p, n, delta, w) == EntriesAsk(b.page, b.entries, n, delta, w)
  {
  }

  /** The word at `at` does what entry k asks for. */
  predicate EntryHere(m: seq<byte>, at: nat, b: Block, k: nat, delta: nat, w: R.Walker)
    requires k < |b.entries| && at + 2 <= |m|
  {
    R.EntryFix(Read(m, at, 2), b.page, delta, w) == Asked(b.page + b.entries[k].offset, b.entries[k].kind, delta, w)
  }

  lemma LastEntryRead(m: seq<byte>, p: nat, at: nat, b: Block, k: nat, n: nat, delta: nat, w: R.Walker)
    requires k < n == k + 1 <= |b.entries| && Writable(b) && at == p + 8 + 2 * k
    requires At(m, p + 8, EntryBytes(b.entries, n))
    ensures At(m, p + 8, EntryBytes(b.entries, k)) && at + 2 <= |m| && EntryHere(m, at, b, k, delta, w)
  {
    var e := b.entries[k];
    AtParts(m, p + 8, EntryBytes(b.entries, k), Le16(e.kind * 4096 + e.offset));
    EntryWord(e.kind, e.offset);
    Read16(m, at, e.kind * 4096 + e.offset);
    EntryAsked(b.page, e, delta, w);
  }

  lemma BlockRead(m: seq<byte>, p: nat, b: Block, delta: nat, w: R.Walker)
    requires Writable(b) && At(m, p, BlockBytes(b))
    ensures R.BlockOk(m, p) && R.BlockVa(m, p) == b.page && R.BlockSize(m, p) == |BlockBytes(b)|
    ensures R.BlockFixes(m, p, delta, w) == EntriesAsk(b.page, b.entries, |b.entries|, delta, w)
  {
    var n := |b.entries|;
    AtParts(m, p, Le32(b.page) + Le32(8 + 2 * n), EntryBytes(b.entries, n));
    AtParts(m, p, Le32(b.page), Le32(8 + 2 * n));
    Read32(m, p, b.page);
    Read32(m, p + 4, 8 + 2 * n);
    EntriesRead(m, p, b, n, delta, w);
    assert R.EntryCount(m, p) == n;
  }

  // ---------- The directory ----------

  /** What the walker finds at the start of what is left of the directory. */
  lemma FirstRead(m: seq<byte>, p: nat, next: nat, end: nat, blocks: seq<Block>, delta: nat, w: R.Walker)
    requires Written(m, p, end, blocks, w)
    requires next == if |blocks| == 0 then end else p + |BlockBytes(blocks[0])|
    ensures R.HeadOk(m, p, end, w)
    ensures R.GoesOn(m, p, end, w) <==> |Heeded(blocks, w)| > 0
    ensures |blocks| == 0 ==> p == end
    ensures |blocks| > 0 ==>
              var b := blocks[0];
              && p < next <= end && Written(m, next, end, blocks[1..], w)
              && R.BlockOk(m, p) && p + R.BlockSize(m, p) == next
              && R.BlockFixes(m, p, delta, w) == EntriesAsk(b.page, b.entries, |b.entries|, delta, w)
  {
    if |blocks| == 0 {
      if w.SentinelBounded? {
        Read32(m, end + 4, 0);
      }
    } else {
      AtParts(m, p, BlockBytes(blocks[0]), DirectoryBytes(blocks[1..]));
      BlockRead(m, p, blocks[0], delta, w);
    }
  }

  lemma HeededNext(blocks: seq<Block>, delta: nat, w: R.Walker)
    requires |Heeded(blocks, w)| > 0
    ensures |blocks| > 0
    ensures var b := blocks[0];
            Asks(Heeded(blocks, w), delta, w)
            == EntriesAsk(b.page, b.entries, |b.entries|, delta, w) + Asks(Heeded(blocks[1..], w), delta, w)
  {
    assert Heeded(blocks, w) == [blocks[0]] + Heeded(blocks[1..], w);
    assert Heeded(blocks, w)[1..] == Heeded(blocks[1..], w);
  }

  /** One block, and the walk from the next one on. */
  lemma WalkOnce(
    m: seq<byte>, p: nat, next: nat, end: nat, delta: nat, w: R.Walker, first: seq<R.Fix>, rest: seq<R.Fix>)
    requires R.HeadOk(m, p, end, w) && R.GoesOn(m, p, end, w) && R.BlockOk(m, p) && next == p + R.BlockSize(m, p)
    requires R.WalkOk(m, next, end, w)
    requires R.BlockFixes(m, p, delta, w) == first && R.WalkFixes(m, next, end, delta, w) == rest
    ensures R.WalkOk(m, p, end, w) && R.WalkFixes(m, p, end, delta, w) == first + rest
    ensures R.WalkReadEnd(m, p, end, w) == R.WalkReadEnd(m, next, end, w)
  {
  }

  lemma WalkStops(m: seq<byte>, p: nat, end: nat, delta: nat, w: R.Walker)
    requires R.HeadOk(m, p, end, w) && !R.GoesOn(m, p, end, w)
    ensures R.WalkOk(m, p, end, w) && R.WalkFixes(m, p, end, delta, w) == []
    ensures R.WalkReadEnd(m, p, end, w) == p + if w.SentinelBounded? then 8 else if p < end then 4 else 0
  {
  }

  /** For every directory written down, the walk does exactly what it asks for: one addition for each HIGHLOW and each
      DIR64 entry, at its page and offset and in its place, and none for the others. */
  lemma {:induction false} WalkDoesWhatIsAsked(
    m: seq<byte>, p: nat, end: nat, blocks: seq<Block>, delta: nat, w: R.Walker)
    requires Written(m, p, end, blocks, w)
    ensures R.WalkOk(m, p, end, w)
    ensures R.WalkFixes(m, p, end, delta, w) == Asks(Heeded(blocks, w), delta, w)
    ensures p <= R.WalkReadEnd(m, p, end, w) <= end + if w.SentinelBounded? then 8 else 0
    decreases |blocks|
  {
    var next := if |blocks| == 0 then end else p + |BlockBytes(blocks[0])|;
    FirstRead(m, p, next, end, blocks, delta, w);
    if |Heeded(blocks, w)| > 0 {
      HeededNext(blocks, delta, w);
      var b := blocks[0];
      WalkDoesWhatIsAsked(m, next, end, blocks[1..], delta, w);
      WalkOnce(m, p, next, end, delta, w, EntriesAsk(b.page, b.entries, |b.entries|, delta, w),
               Asks(Heeded(blocks[1..], w), delta, w));
    } else {
      WalkStops(m, p, end, delta, w);
      HeededAll(blocks, w);
    }
  }

  lemma HeededAll(blocks: seq<Block>, w: R.Walker)
    requires |Heeded(blocks, w)| == 0
    ensures |blocks| == 0 || w.SizeBounded?
  {
  }

  // ---------- What becomes of the image ----------

  /** The sites of the pointers that the directory lists. */
  function Listed(blocks: seq<Block>, w: R.Walker): seq<R.Fix> {
    Asks(Heeded(blocks, w), 0, w)
  }

  /** The listed sites are in an image of that size, apart from each other, and off the bytes from lo to hi. */
  predicate Spaced(sites: seq<R.Fix>, size: nat, lo: nat, hi: nat) {
    R.InRange(sites, size) && R.Disjoint(sites) && Clear(sites, lo, hi)
  }

  /** The bytes of site i are in the image, not among those from lo to hi, and no other site's. */
  ghost predicate BytesFree(sites: seq<R.Fix>, size: nat, lo: nat, hi: nat, i: nat)
    requires i < |sites|
  {
    forall j: nat :: R.Covers(sites[i], j) ==>
      && j < size && !(lo <= j < hi)
      && forall k :: 0 <= k < |sites| && k != i ==> !R.Covers(sites[k], j)
  }

  /** That is what spaced sites are. */
  lemma SpacedMeans(sites: seq<R.Fix>, size: nat, lo: nat, hi: nat)
    requires lo < hi
    ensures Spaced(sites, size, lo, hi) <==> forall i :: 0 <= i < |sites| ==> BytesFree(sites, size, lo, hi, i)
  {
    if Spaced(sites, size, lo, hi) {
      forall i, j: nat, k | 0 <= i < |sites| && R.Covers(sites[i], j) && 0 <= k < |sites| && k != i
        ensures !R.Covers(sites[k], j)
      {
        assert i < k ==> R.Apart(sites[i], sites[k]);
        assert k < i ==> R.Apart(sites[k], sites[i]);
      }
    } else {
      forall i | 0 <= i < |sites| && BytesFree(sites, size, lo, hi, i)
        ensures sites[i].at + sites[i].width <= size
        ensures sites[i].at + sites[i].width <= lo || hi <= sites[i].at
        ensures forall k :: i < k < |sites| ==> R.Apart(sites[i], sites[k])
      {
        FreeIsSpaced(sites, size, lo, hi, i);
      }
    }
  }

  lemma FreeIsSpaced(sites: seq<R.Fix>, size: nat, lo: nat, hi: nat, i: nat)
    requires lo < hi && i < |sites| && BytesFree(sites, size, lo, hi, i)
    ensures sites[i].at + sites[i].width <= size
    ensures sites[i].at + sites[i].width <= lo || hi <= sites[i].at
    ensures forall k :: i < k < |sites| ==> R.Apart(sites[i], sites[k])
  {
    var f := sites[i];
    assert R.Covers(f, f.at) && R.Covers(f, f.at + f.width - 1);
    assert f.at <= lo < f.at + f.width ==> R.Covers(f, lo);
    forall k | i < k < |sites|
      ensures R.Apart(f, sites[k])
    {
      var g := sites[k];
      assert R.Covers(f, g.at) ==> !R.Covers(g, g.at);
      assert R.Covers(g, f.at) ==> !R.Covers(f, f.at);
    }
  }

  /** The directory is well-formed, and its sites are these. */
  ghost predicate HasSites(m: seq<byte>, p: nat, size: nat, is64: bool, sites: seq<R.Fix>) {
    WellFormed(m, p, size, is64) && Sites(m, p, size, is64) == sites
  }

  /** A directory that was written down with spaced sites is well-formed, and its sites are those listed. */
  lemma WrittenIsWellFormed(m: seq<byte>, p: nat, size: nat, end: nat, blocks: seq<Block>, is64: bool)
    requires p > 0 && end == p + size && Written(m, p, end, blocks, R.SizeBounded(is64))
    requires Spaced(Listed(blocks, R.SizeBounded(is64)), |m|, p, end)
    ensures HasSites(m, p, size, is64, Listed(blocks, R.SizeBounded(is64)))
  {
    var w := R.SizeBounded(is64);
    WalkDoesWhatIsAsked(m, p, end, blocks, 0, w);
    ClearWithin(Listed(blocks, w), p, end, p, R.WalkReadEnd(m, p, end, w));
    assert size == 0 ==> Listed(blocks, w) == [];
    FollowedIsWellFormed(m, p, size, end, is64, Listed(blocks, w));
  }

  /** So the size-bounded walk can follow it, by whatever difference. */
  lemma WrittenIsFollowable(m: seq<byte>, p: nat, end: nat, blocks: seq<Block>, delta: nat, w: R.Walker)
    requires w.SizeBounded? && Written(m, p, end, blocks, w) && Spaced(Listed(blocks, w), |m|, p, end)
    ensures Followable(m, p, end, delta, w)
  {
    WalkDoesWhatIsAsked(m, p, end, blocks, 0, w);
    ClearWithin(Listed(blocks, w), p, end, p, R.WalkReadEnd(m, p, end, w));
    R.WalkFixesSites(m, p, end, 0, delta, w);
    FollowedAgain(m, p, end, delta, w, Listed(blocks, w), R.WalkFixes(m, p, end, delta, w));
  }

  lemma FollowedAgain(
    m: seq<byte>, p: nat, end: nat, delta: nat, w: R.Walker, sites: seq<R.Fix>, fixes: seq<R.Fix>)
    requires R.WalkOk(m, p, end, w) && R.WalkFixes(m, p, end, delta, w) == fixes && R.SameSites(sites, fixes)
    requires R.InRange(sites, |m|) && Clear(sites, p, R.WalkReadEnd(m, p, end, w))
    ensures Followable(m, p, end, delta, w)
  {
  }

  lemma FollowedIsWellFormed(m: seq<byte>, p: nat, size: nat, end: nat, is64: bool, sites: seq<R.Fix>)
    requires p > 0 && end == p + size && Followable(m, p, end, 0, R.SizeBounded(is64))
    requires R.WalkFixes(m, p, end, 0, R.SizeBounded(is64)) == sites && R.Disjoint(sites)
    requires size == 0 ==> sites == []
    ensures HasSites(m, p, size, is64, sites)
  {
  }

  /** Relocation preserves meaning, from the file format on: when an image is linked at `from`, its directory is
      written at p and lists the sites of its pointers, the memory loader's rebase gives, byte for byte, the image
      linked at `to`. */
  lemma ListedRebasePreservesMeaning(
    mFrom: seq<byte>, mTo: seq<byte>, from: nat, to: nat, p: nat, size: nat, end: nat, blocks: seq<Block>, is64: bool,
    targets: seq<nat>, template: seq<byte>)
    requires from < QWORD && to < QWORD && (!is64 ==> from < DWORD && to < DWORD)
    requires p > 0 && end == p + size && |mFrom| == |mTo| && Written(mFrom, p, end, blocks, R.SizeBounded(is64))
    requires Spaced(Listed(blocks, R.SizeBounded(is64)), |mFrom|, p, end)
    requires |targets| == |Listed(blocks, R.SizeBounded(is64))|
    requires R.LinkedAt(mFrom, from, Listed(blocks, R.SizeBounded(is64)), targets, template)
    requires R.LinkedAt(mTo, to, Listed(blocks, R.SizeBounded(is64)), targets, template)
    ensures RebasesTo(mFrom, p, size, LocationDelta(from, to, is64), is64, mTo)
  {
    WrittenIsWellFormed(mFrom, p, size, end, blocks, is64);
    RebasePreservesMeaning(mFrom, mTo, from, to, p, size, is64, targets, template);
  }

  /** The reflective loader's step 5 is defined on m and leaves m1. */
  ghost predicate ReflectsTo(m: seq<byte>, p: nat, size: nat, delta: nat, is64: bool, m1: seq<byte>) {
    && (size == 0 || Followable(m, p, p + size, delta, R.SentinelBounded(is64)))
    && RebasedBySentinel(m, p, size, delta, is64) == m1
  }

  /** HIGH and LOW, which change half of a pointer, do not occur. */
  predicate WholePointers(blocks: seq<Block>) {
    forall i, k :: 0 <= i < |blocks| && 0 <= k < |blocks[i].entries| ==>
      blocks[i].entries[k].kind != 1 && blocks[i].entries[k].kind != 2
  }

  lemma {:induction false} EntriesShift(
    page: nat, entries: seq<Entry>, n: nat, delta: nat, shift: nat, w: R.Walker)
    requires n <= |entries| && forall k :: 0 <= k < n ==> entries[k].kind != 1 && entries[k].kind != 2
    requires Low(delta, 4) == Low(shift, 4) && (w.is64 ==> delta == shift)
    ensures R.Shifts(EntriesAsk(page, entries, n, delta, w), shift)
  {
    if n != 0 {
      EntriesShift(page, entries, n - 1, delta, shift, w);
    }
  }

  lemma {:induction false} AsksShift(blocks: seq<Block>, delta: nat, shift: nat, w: R.Walker)
    requires WholePointers(blocks)
    requires Low(delta, 4) == Low(shift, 4) && (w.is64 ==> delta == shift)
    ensures R.Shifts(Asks(blocks, delta, w), shift)
  {
    if |blocks| != 0 {
      EntriesShift(blocks[0].page, blocks[0].entries, |blocks[0].entries|, delta, shift, w);
      AsksShift(blocks[1..], delta, shift, w);
    }
  }

  /** Fixes at spaced sites are as spaced. */
  lemma SpacedToo(sites: seq<R.Fix>, fixes: seq<R.Fix>, size: nat, lo: nat, hi: nat, hi1: nat)
    requires Spaced(sites, size, lo, hi) && R.SameSites(sites, fixes) && hi1 <= hi
    ensures Spaced(fixes, size, lo, hi1)
  {
    forall i, j | 0 <= i < j < |fixes|
      ensures R.Apart(fixes[i], fixes[j])
    {
      assert R.Apart(sites[i], sites[j]);
    }
  }

  lemma NarrowDelta(from: nat, to: nat, is64: bool)
    requires from < QWORD && to < QWORD && (!is64 ==> from < DWORD && to < DWORD)
    ensures Low(LocationDelta(from, to, is64), 4) == Low(R.Delta(from, to), 4)
    ensures is64 ==> LocationDelta(from, to, is64) == R.Delta(from, to)
  {
  }

  lemma ReflectiveWalk(
    m: seq<byte>, p: nat, end: nat, blocks: seq<Block>, delta: nat, w: R.Walker, fixes: seq<R.Fix>)
    requires w.SentinelBounded? && Written(m, p, end, blocks, w) && fixes == Asks(blocks, delta, w)
    requires Spaced(Listed(blocks, w), |m|, p, end + 8)
    ensures Followable(m, p, end, delta, w) && R.WalkFixes(m, p, end, delta, w) == fixes
    ensures R.SameSites(Listed(blocks, w), fixes) && R.Disjoint(fixes)
  {
    WalkDoesWhatIsAsked(m, p, end, blocks, 0, w);
    WalkDoesWhatIsAsked(m, p, end, blocks, delta, w);
    R.WalkFixesSites(m, p, end, 0, delta, w);
    SpacedToo(Listed(blocks, w), fixes, |m|, p, end + 8, R.WalkReadEnd(m, p, end, w));
  }

  /** The reflective loader's walk preserves meaning just so. */
  lemma ListedReflectivePreservesMeaning(
    mFrom: seq<byte>, mTo: seq<byte>, from: nat, to: nat, p: nat, size: nat, end: nat, blocks: seq<Block>, is64: bool,
    targets: seq<nat>, template: seq<byte>)
    requires from < QWORD && to < QWORD && (!is64 ==> from < DWORD && to < DWORD)
    requires end == p + size && |mFrom| == |mTo| && WholePointers(blocks)
    requires Written(mFrom, p, end, blocks, R.SentinelBounded(is64))
    requires Spaced(Listed(blocks, R.SentinelBounded(is64)), |mFrom|, p, end + 8)
    requires |targets| == |Listed(blocks, R.SentinelBounded(is64))|
    requires R.LinkedAt(mFrom, from, Listed(blocks, R.SentinelBounded(is64)), targets, template)
    requires R.LinkedAt(mTo, to, Listed(blocks, R.SentinelBounded(is64)), targets, template)
    ensures ReflectsTo(mFrom, p, size, LocationDelta(from, to, is64), is64, mTo)
  {
    var w, delta := R.SentinelBounded(is64), LocationDelta(from, to, is64);
    var fixes := Asks(blocks, delta, w);
    ReflectiveWalk(mFrom, p, end, blocks, delta, w, fixes);
    NarrowDelta(from, to, is64);
    AsksShift(blocks, delta, R.Delta(from, to), w);
    RelinkedAt(mFrom, mTo, from, to, Listed(blocks, w), fixes, targets, template);
    assert size == 0 ==> fixes == [];
    ReflectiveRebase(mFrom, mTo, p, size, end, delta, w, fixes);
  }

  lemma ReflectiveRebase(
    m: seq<byte>, m1: seq<byte>, p: nat, size: nat, end: nat, delta: nat, w: R.Walker, fixes: seq<R.Fix>)
    requires w.SentinelBounded? && end == p + size && Followable(m, p, end, delta, w)
    requires R.WalkFixes(m, p, end, delta, w) == fixes && R.Relocated(m, fixes) == m1
    requires size == 0 ==> fixes == []
    ensures ReflectsTo(m, p, size, delta, w.is64, m1)
  {
  }
}
