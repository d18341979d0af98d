/**
 * The two relocation walkers as they run, in place on image memory, and what they come to:
 * meaning preserved, rebasing undone by rebasing back, and one result from both.
 */
module Rebase {
  import opened Bytes
  import opened Relocation

  // ---------- Fixes one after the other ----------

  /** No fix touches the bytes from lo to hi. */
  predicate Clear(fixes: seq<Fix>, lo: nat, hi: nat) {
    forall i :: 0 <= i < |fixes| ==> fixes[i].at + fixes[i].width <= lo || hi <= fixes[i].at
  }

  lemma SplitRange(a: seq<Fix>, b: seq<Fix>, size: nat, lo: nat, hi: nat)
    requires InRange(a + b, size) && Clear(a + b, lo, hi)
    ensures InRange(a, size) && InRange(b, size) && Clear(a, lo, hi) && Clear(b, lo, hi)
  {
    forall i | 0 <= i < |a|
      ensures a[i] == (a + b)[i]
    {
    }
    forall i | 0 <= i < |b|
      ensures b[i] == (a + b)[|a| + i]
    {
    }
  }

  lemma ClearWithin(fixes: seq<Fix>, lo: nat, hi: nat, lo1: nat, hi1: nat)
    requires Clear(fixes, lo, hi) && lo <= lo1 && hi1 <= hi
    ensures Clear(fixes, lo1, hi1)
  {
  }

  lemma {:induction false} ApplyPrefix(mem: seq<byte>, a: seq<Fix>, b: seq<Fix>, n: nat)
    requires n <= |a| && InRange(a + b, |mem|) && InRange(a, |mem|)
    ensures Apply(mem, a + b, n) == Apply(mem, a, n)
  {
    if n != 0 {
      ApplyPrefix(mem, a, b, n - 1);
      assert (a + b)[n - 1] == a[n - 1];
    }
  }

  /** The last |b| fixes of a list that ends in b do to the memory reached before them what b does. */
  lemma {:induction false} ApplySuffix(
    mem: seq<byte>, all: seq<Fix>, before: seq<byte>, b: seq<Fix>, n: nat, k: nat)
    requires n <= |b| && |b| <= |all| && k == |all| - |b| + n && |before| == |mem|
    requires forall i :: 0 <= i < |b| ==> all[|all| - |b| + i] == b[i]
    requires InRange(all, |mem|) && InRange(b, |mem|) && before == Apply(mem, all, |all| - |b|)
    ensures Apply(mem, all, k) == Apply(before, b, n)
  {
    if n != 0 {
      ApplySuffix(mem, all, before, b, n - 1, k - 1);
      assert all[k - 1] == b[n - 1];
    }
  }

  /** Applying two lists of fixes is applying their concatenation. */
  lemma RelocatedTwice(mem: seq<byte>, a: seq<Fix>, b: seq<Fix>)
    requires InRange(a + b, |mem|) && InRange(a, |mem|) && InRange(b, |mem|)
    ensures Relocated(Relocated(mem, a), b) == Relocated(mem, a + b)
  {
    ApplyPrefix(mem, a, b, |a|);
    ApplySuffix(mem, a + b, Relocated(mem, a), b, |b|, |a + b|);
  }

  /** The same bytes in both memories. */
  predicate AgreeOn(m1: seq<byte>, m2: seq<byte>, lo: nat, hi: nat) {
    |m1| == |m2| && forall j :: lo <= j < hi && j < |m1| ==> m1[j] == m2[j]
  }

  lemma ClearKeeps(mem: seq<byte>, fixes: seq<Fix>, lo: nat, hi: nat)
    requires InRange(fixes, |mem|) && Clear(fixes, lo, hi)
    ensures AgreeOn(Relocated(mem, fixes), mem, lo, hi)
  {
    forall j | lo <= j < hi && j < |mem|
      ensures Relocated(mem, fixes)[j] == mem[j]
    {
      ApplyOutside(mem, fixes, |fixes|, j);
    }
  }

  // ---------- A directory read from either memory is the same ----------

  lemma HeaderSame(m1: seq<byte>, m2: seq<byte>, p: nat)
    requires p + 8 <= |m1| && AgreeOn(m1, m2, p, p + 8)
    ensures BlockVa(m1, p) == BlockVa(m2, p) && BlockSize(m1, p) == BlockSize(m2, p)
  {
    ReadSame(m1, m2, p, 4);
    ReadSame(m1, m2, p + 4, 4);
  }

  lemma {:induction false} EntryFixesSame(
    m1: seq<byte>, m2: seq<byte>, p: nat, n: nat, delta: nat, w: Walker)
    requires p + 8 + 2 * n <= |m1| && AgreeOn(m1, m2, p, p + 8 + 2 * n)
    ensures EntryFixes(m1, p, n, delta, w) == EntryFixes(m2, p, n, delta, w)
  {
    if n != 0 {
      EntryFixesSame(m1, m2, p, n - 1, delta, w);
      ReadSame(m1, m2, p + 8 + 2 * (n - 1), 2);
      ReadSame(m1, m2, p, 4);
    }
  }

  lemma BlockSame(m1: seq<byte>, m2: seq<byte>, p: nat, delta: nat, w: Walker)
    requires BlockOk(m1, p) && AgreeOn(m1, m2, p, p + BlockSize(m1, p))
    ensures BlockOk(m2, p) && BlockSize(m1, p) == BlockSize(m2, p) && BlockVa(m1, p) == BlockVa(m2, p)
    ensures BlockFixes(m1, p, delta, w) == BlockFixes(m2, p, delta, w)
  {
    HeaderSame(m1, m2, p);
    EntryFixesSame(m1, m2, p, EntryCount(m1, p), delta, w);
  }

  /** The walk reads at least the header it stops at, and the whole of each block it does. */
  lemma WalkReads(mem: seq<byte>, p: nat, end: nat, w: Walker)
    requires WalkOk(mem, p, end, w)
    ensures w.SentinelBounded? ==> p + 8 <= WalkReadEnd(mem, p, end, w)
    ensures w.SizeBounded? && p < end ==> p + 4 <= WalkReadEnd(mem, p, end, w)
    ensures GoesOn(mem, p, end, w) ==> p + BlockSize(mem, p) <= WalkReadEnd(mem, p, end, w)
  {
  }

  lemma HeadSame(m1: seq<byte>, m2: seq<byte>, p: nat, end: nat, w: Walker)
    requires WalkOk(m1, p, end, w) && AgreeOn(m1, m2, p, WalkReadEnd(m1, p, end, w))
    ensures HeadOk(m2, p, end, w) && GoesOn(m1, p, end, w) == GoesOn(m2, p, end, w)
  {
    WalkReads(m1, p, end, w);
    if w.SentinelBounded? {
      HeaderSame(m1, m2, p);
    } else if p < end {
      ReadSame(m1, m2, p, 4);
    }
  }

  lemma {:induction false} WalkSame(m1: seq<byte>, m2: seq<byte>, p: nat, end: nat, delta: nat, w: Walker)
    requires WalkOk(m1, p, end, w) && AgreeOn(m1, m2, p, WalkReadEnd(m1, p, end, w))
    ensures WalkOk(m2, p, end, w) && WalkReadEnd(m1, p, end, w) == WalkReadEnd(m2, p, end, w)
    ensures WalkFixes(m1, p, end, delta, w) == WalkFixes(m2, p, end, delta, w)
    decreases |m1| - p
  {
    HeadSame(m1, m2, p, end, w);
    if GoesOn(m1, p, end, w) {
      WalkReads(m1, p, end, w);
      BlockSame(m1, m2, p, delta, w);
      WalkSame(m1, m2, p + BlockSize(m1, p), end, delta, w);
    }
  }

  // ---------- In place ----------

  /** The word at an address of image memory. */
  function Load(mem: array<byte>, a: nat, w: nat): nat
    requires a + w <= mem.Length
    reads mem
  {
    Read(mem[..], a, w)
  }

  /** The += of the relocation loops. */
  method AddTo(mem: array<byte>, at: nat, w: width, d: nat)
    requires at + w <= mem.Length
    modifies mem
    ensures mem[..] == AddWord(old(mem[..]), at, w, d)
  {
    StoreWord(mem, at, w, Load(mem, at, w) + d);
  }

  // ---------- One entry ----------

  lemma RelocatedOne(mem: seq<byte>, f: Fix)
    requires InRange([f], |mem|)
    ensures f.at + f.width <= |mem| && Relocated(mem, [f]) == AddWord(mem, f.at, f.width, f.add)
  {
    assert [f][0].at + f.width <= |mem|;
    assert Relocated(mem, [f]) == AddAt(Apply(mem, [f], 0), [f][0]);
  }

  /** The switch of the size-bounded loop. */
  method SizedEntry(mem: array<byte>, va: nat, word: nat, delta: nat, is64: bool)
    requires InRange(EntryFix(word, va, delta, SizeBounded(is64)), mem.Length)
    modifies mem
    ensures mem[..] == Relocated(old(mem[..]), EntryFix(word, va, delta, SizeBounded(is64)))
  {
    var offset, kind := word % 4096, word / 4096;
    if kind == KIND_HIGHLOW {
      RelocatedOne(mem[..], Fix(va + offset, 4, Low(delta, 4)));
      AddTo(mem, va + offset, 4, Low(delta, 4));
    } else if is64 && kind == KIND_DIR64 {
      RelocatedOne(mem[..], Fix(va + offset, 8, delta));
      AddTo(mem, va + offset, 8, delta);
    }
  }

  /** The chain of conditions of the sentinel-bounded loop. */
  method SentinelEntry(mem: array<byte>, va: nat, word: nat, delta: nat, is64: bool)
    requires InRange(EntryFix(word, va, delta, SentinelBounded(is64)), mem.Length)
    modifies mem
    ensures mem[..] == Relocated(old(mem[..]), EntryFix(word, va, delta, SentinelBounded(is64)))
  {
    var offset, kind := word % 4096, word / 4096;
    if kind == KIND_DIR64 {
      if is64 {
        RelocatedOne(mem[..], Fix(va + offset, 8, delta));
        AddTo(mem, va + offset, 8, delta);
      } else {
        RelocatedOne(mem[..], Fix(va + offset, 4, Low(delta, 4)));
        AddTo(mem, va + offset, 4, Low(delta, 4));
      }
    } else if kind == KIND_HIGHLOW {
      RelocatedOne(mem[..], Fix(va + offset, 4, Low(delta, 4)));
      AddTo(mem, va + offset, 4, Low(delta, 4));
    } else if kind == KIND_HIGH {
      RelocatedOne(mem[..], Fix(va + offset, 2, Low(delta / WORD, 2)));
      AddTo(mem, va + offset, 2, Low(delta / WORD, 2));
    } else if kind == KIND_LOW {
      RelocatedOne(mem[..], Fix(va + offset, 2, Low(delta, 2)));
      AddTo(mem, va + offset, 2, Low(delta, 2));
    }
  }

  // ---------- One block ----------

  /** The first n entries of the block have been done. */
  ghost predicate Entered(m0: seq<byte>, m: seq<byte>, p: nat, n: nat, delta: nat, w: Walker) {
    && p + 8 + 2 * n <= |m0|
    && InRange(EntryFixes(m0, p, n, delta, w), |m0|)
    && m == Relocated(m0, EntryFixes(m0, p, n, delta, w))
  }

  lemma {:induction false} EntriesPrefix(m: seq<byte>, p: nat, i: nat, n: nat, delta: nat, w: Walker, lo: nat, hi: nat)
    requires i <= n && p + 8 + 2 * n <= |m|
    requires InRange(EntryFixes(m, p, n, delta, w), |m|) && Clear(EntryFixes(m, p, n, delta, w), lo, hi)
    ensures InRange(EntryFixes(m, p, i, delta, w), |m|) && Clear(EntryFixes(m, p, i, delta, w), lo, hi)
    decreases n
  {
    if i < n {
      SplitRange(EntryFixes(m, p, n - 1, delta, w),
                 EntryFix(Read(m, p + 8 + 2 * (n - 1), 2), BlockVa(m, p), delta, w), |m|, lo, hi);
      EntriesPrefix(m, p, i, n - 1, delta, w, lo, hi);
    }
  }

  /** The block can be done in place: its fixes are in memory and off its own bytes. */
  ghost predicate BlockFit(m: seq<byte>, p: nat, delta: nat, w: Walker) {
    && BlockOk(m, p)
    && InRange(BlockFixes(m, p, delta, w), |m|)
    && Clear(BlockFixes(m, p, delta, w), p, p + BlockSize(m, p))
  }

  lemma EnteredReads(m0: seq<byte>, m: seq<byte>, p: nat, n: nat, delta: nat, w: Walker)
    requires BlockFit(m0, p, delta, w) && Entered(m0, m, p, n, delta, w) && n <= EntryCount(m0, p)
    ensures AgreeOn(m, m0, p, p + BlockSize(m0, p))
    ensures BlockOk(m, p) && BlockVa(m, p) == BlockVa(m0, p) && BlockSize(m, p) == BlockSize(m0, p)
  {
    EntriesPrefix(m0, p, n, EntryCount(m0, p), delta, w, p, p + BlockSize(m0, p));
    ClearKeeps(m0, EntryFixes(m0, p, n, delta, w), p, p + BlockSize(m0, p));
    HeaderSame(m0, m, p);
  }

  lemma EntryReads(m0: seq<byte>, m: seq<byte>, p: nat, n: nat, delta: nat, w: Walker)
    requires BlockFit(m0, p, delta, w) && Entered(m0, m, p, n, delta, w) && n < EntryCount(m0, p)
    ensures p + 8 + 2 * n + 2 <= |m| && |m| == |m0|
    ensures Read(m, p + 8 + 2 * n, 2) == Read(m0, p + 8 + 2 * n, 2)
    ensures InRange(EntryFix(Read(m0, p + 8 + 2 * n, 2), BlockVa(m0, p), delta, w), |m|)
  {
    EnteredReads(m0, m, p, n, delta, w);
    ReadSame(m, m0, p + 8 + 2 * n, 2);
    EntryInRange(m0, p, n, delta, w);
  }

  lemma EntryInRange(m: seq<byte>, p: nat, n: nat, delta: nat, w: Walker)
    requires BlockFit(m, p, delta, w) && n < EntryCount(m, p)
    ensures InRange(EntryFix(Read(m, p + 8 + 2 * n, 2), BlockVa(m, p), delta, w), |m|)
  {
    EntriesPrefix(m, p, n + 1, EntryCount(m, p), delta, w, p, p);
    SplitRange(EntryFixes(m, p, n, delta, w),
               EntryFix(Read(m, p + 8 + 2 * n, 2), BlockVa(m, p), delta, w), |m|, p, p);
  }

  lemma EntryDone(m0: seq<byte>, m: seq<byte>, m1: seq<byte>, p: nat, n: nat, delta: nat, w: Walker)
    requires BlockFit(m0, p, delta, w) && Entered(m0, m, p, n, delta, w) && n < EntryCount(m0, p)
    requires |m| == |m0| && InRange(EntryFix(Read(m0, p + 8 + 2 * n, 2), BlockVa(m0, p), delta, w), |m|)
    requires m1 == Relocated(m, EntryFix(Read(m0, p + 8 + 2 * n, 2), BlockVa(m0, p), delta, w))
    ensures Entered(m0, m1, p, n + 1, delta, w)
  {
    EntriesPrefix(m0, p, n + 1, EntryCount(m0, p), delta, w, p, p);
    RelocatedTwice(m0, EntryFixes(m0, p, n, delta, w),
                   EntryFix(Read(m0, p + 8 + 2 * n, 2), BlockVa(m0, p), delta, w));
  }

  lemma BlockBegun(m0: seq<byte>, p: nat, delta: nat, w: Walker)
    requires BlockFit(m0, p, delta, w)
    ensures Entered(m0, m0, p, 0, delta, w)
  {
  }

  lemma BlockDone(m0: seq<byte>, m: seq<byte>, p: nat, n: nat, delta: nat, w: Walker)
    requires BlockFit(m0, p, delta, w) && n == EntryCount(m0, p) && Entered(m0, m, p, n, delta, w)
    ensures m == Relocated(m0, BlockFixes(m0, p, delta, w))
  {
  }

  /** One turn of the size-bounded walker's inner loop, which looks at the header again. */
  method SizedTurn(mem: array<byte>, ghost m0: seq<byte>, p: nat, i: nat, delta: nat, is64: bool)
    requires BlockFit(m0, p, delta, SizeBounded(is64)) && i < EntryCount(m0, p)
    requires Entered(m0, mem[..], p, i, delta, SizeBounded(is64))
    modifies mem
    ensures Entered(m0, mem[..], p, i + 1, delta, SizeBounded(is64))
  {
    ghost var m, w := mem[..], SizeBounded(is64);
    EnteredReads(m0, m, p, i, delta, w);
    EntryReads(m0, m, p, i, delta, w);
    SizedEntry(mem, Load(mem, p, 4), Load(mem, p + 8 + 2 * i, 2), delta, is64);
    EntryDone(m0, m, mem[..], p, i, delta, w);
  }

  method SizedBlock(mem: array<byte>, p: nat, delta: nat, is64: bool)
    requires BlockFit(mem[..], p, delta, SizeBounded(is64))
    modifies mem
    ensures mem[..] == Relocated(old(mem[..]), BlockFixes(old(mem[..]), p, delta, SizeBounded(is64)))
  {
    ghost var m0 := mem[..];
    BlockBegun(m0, p, delta, SizeBounded(is64));
    var i := 0;
    while i < TypeOffsetCount(Load(mem, p + 4, 4))
      invariant p + 8 <= mem.Length && Load(mem, p + 4, 4) == BlockSize(m0, p)
      invariant i <= EntryCount(m0, p) && Entered(m0, mem[..], p, i, delta, SizeBounded(is64))
      decreases EntryCount(m0, p) - i
    {
      SizedTurn(mem, m0, p, i, delta, is64);
      i := i + 1;
      EnteredReads(m0, mem[..], p, i, delta, SizeBounded(is64));
    }
    BlockDone(m0, mem[..], p, i, delta, SizeBounded(is64));
  }

  method SentinelTurn(
    mem: array<byte>, ghost m0: seq<byte>, ghost p: nat, ghost n: nat, va: nat, at: nat, delta: nat, is64: bool)
    requires BlockFit(m0, p, delta, SentinelBounded(is64)) && n < EntryCount(m0, p)
    requires va == BlockVa(m0, p) && at == p + 8 + 2 * n
    requires Entered(m0, mem[..], p, n, delta, SentinelBounded(is64))
    modifies mem
    ensures Entered(m0, mem[..], p, n + 1, delta, SentinelBounded(is64))
  {
    ghost var m := mem[..];
    EntryReads(m0, m, p, n, delta, SentinelBounded(is64));
    SentinelEntry(mem, va, Load(mem, at, 2), delta, is64);
    EntryDone(m0, m, mem[..], p, n, delta, SentinelBounded(is64));
  }

  /** The inner loop of the sentinel-bounded walker: it reads the header once and counts down. */
  method SentinelBlock(mem: array<byte>, p: nat, delta: nat, is64: bool)
    requires BlockFit(mem[..], p, delta, SentinelBounded(is64))
    modifies mem
    ensures mem[..] == Relocated(old(mem[..]), BlockFixes(old(mem[..]), p, delta, SentinelBounded(is64)))
  {
    ghost var m0 := mem[..];
    var va, count, at := Load(mem, p, 4), TypeOffsetCount(Load(mem, p + 4, 4)), p + 8;
    ghost var n := 0;
    BlockBegun(m0, p, delta, SentinelBounded(is64));
    while count != 0
      invariant 0 <= count && n + count == EntryCount(m0, p) && at == p + 8 + 2 * n
      invariant n <= EntryCount(m0, p) && Entered(m0, mem[..], p, n, delta, SentinelBounded(is64))
      decreases count
    {
      SentinelTurn(mem, m0, p, n, va, at, delta, is64);
      count, at, n := count - 1, at + 2, n + 1;
    }
    BlockDone(m0, mem[..], p, n, delta, SentinelBounded(is64));
  }

  // ---------- The whole directory ----------

  /** The directory can be followed, its fixes are in memory and none touches the directory. */
  ghost predicate Followable(m: seq<byte>, p: nat, end: nat, delta: nat, w: Walker) {
    && WalkOk(m, p, end, w)
    && InRange(WalkFixes(m, p, end, delta, w), |m|)
    && Clear(WalkFixes(m, p, end, delta, w), p, WalkReadEnd(m, p, end, w))
  }

  /** Memory m is m0 with the blocks before p done; `start` is where the directory begins. */
  ghost predicate Walked(m0: seq<byte>, m: seq<byte>, start: nat, p: nat, end: nat, delta: nat, w: Walker) {
    && |m| == |m0| && start <= p
    && Followable(m, p, end, delta, w)
    && WalkOk(m0, start, end, w) && InRange(WalkFixes(m0, start, end, delta, w), |m0|)
    && Relocated(m, WalkFixes(m, p, end, delta, w)) == Relocated(m0, WalkFixes(m0, start, end, delta, w))
  }

  lemma BlockFirst(m: seq<byte>, p: nat, end: nat, delta: nat, w: Walker)
    requires Followable(m, p, end, delta, w) && GoesOn(m, p, end, w)
    ensures BlockFit(m, p, delta, w)
    ensures InRange(WalkFixes(m, p + BlockSize(m, p), end, delta, w), |m|)
    ensures AgreeOn(Relocated(m, BlockFixes(m, p, delta, w)), m, p, WalkReadEnd(m, p, end, w))
    ensures Relocated(Relocated(m, BlockFixes(m, p, delta, w)), WalkFixes(m, p + BlockSize(m, p), end, delta, w))
            == Relocated(m, WalkFixes(m, p, end, delta, w))
    ensures Clear(WalkFixes(m, p + BlockSize(m, p), end, delta, w), p, WalkReadEnd(m, p, end, w))
  {
    var block, rest := BlockFixes(m, p, delta, w), WalkFixes(m, p + BlockSize(m, p), end, delta, w);
    WalkReads(m, p, end, w);
    SplitRange(block, rest, |m|, p, WalkReadEnd(m, p, end, w));
    ClearKeeps(m, block, p, WalkReadEnd(m, p, end, w));
    RelocatedTwice(m, block, rest);
  }

  /** After one block, the rest of the directory reads as before. */
  lemma RestFollowable(m: seq<byte>, m1: seq<byte>, p: nat, end: nat, delta: nat, w: Walker)
    requires Followable(m, p, end, delta, w) && GoesOn(m, p, end, w)
    requires |m1| == |m| && AgreeOn(m1, m, p, WalkReadEnd(m, p, end, w))
    ensures BlockVa(m1, p) == BlockVa(m, p) && BlockSize(m1, p) == BlockSize(m, p)
    ensures Followable(m1, p + BlockSize(m, p), end, delta, w)
    ensures WalkFixes(m1, p + BlockSize(m, p), end, delta, w) == WalkFixes(m, p + BlockSize(m, p), end, delta, w)
  {
    BlockFirst(m, p, end, delta, w);
    WalkReads(m, p, end, w);
    HeaderSame(m, m1, p);
    WalkSame(m, m1, p + BlockSize(m, p), end, delta, w);
  }

  /** Doing one block leaves the rest of the directory to do, and the same result ahead. */
  lemma WalkedOn(
    m0: seq<byte>, m: seq<byte>, m1: seq<byte>, start: nat, p: nat, next: nat, end: nat, delta: nat, w: Walker)
    requires Walked(m0, m, start, p, end, delta, w) && GoesOn(m, p, end, w)
    requires BlockFit(m, p, delta, w) && m1 == Relocated(m, BlockFixes(m, p, delta, w))
    requires p + 8 <= |m1| && next == p + BlockSize(m1, p)
    ensures Walked(m0, m1, start, next, end, delta, w) && p < next && p < |m1|
  {
    BlockFirst(m, p, end, delta, w);
    RestFollowable(m, m1, p, end, delta, w);
  }

  lemma WalkedHead(m0: seq<byte>, m: seq<byte>, start: nat, p: nat, end: nat, delta: nat, w: Walker)
    requires Walked(m0, m, start, p, end, delta, w)
    ensures HeadOk(m, p, end, w)
  {
  }

  lemma WalkedAll(m0: seq<byte>, m: seq<byte>, start: nat, p: nat, end: nat, delta: nat, w: Walker)
    requires Walked(m0, m, start, p, end, delta, w) && HeadOk(m, p, end, w) && !GoesOn(m, p, end, w)
    ensures WalkOk(m0, start, end, w) && InRange(WalkFixes(m0, start, end, delta, w), |m0|)
    ensures m == Relocated(m0, WalkFixes(m0, start, end, delta, w))
  {
    assert WalkFixes(m, p, end, delta, w) == [];
  }

  method SizedStep(
    mem: array<byte>, ghost m0: seq<byte>, ghost start: nat, p: nat, ghost end: nat, delta: nat, is64: bool)
    returns (next: nat)
    requires Walked(m0, mem[..], start, p, end, delta, SizeBounded(is64)) && GoesOn(mem[..], p, end, SizeBounded(is64))
    modifies mem
    ensures Walked(m0, mem[..], start, next, end, delta, SizeBounded(is64)) && p < next && p < mem.Length
  {
    ghost var m := mem[..];
    BlockFirst(m, p, end, delta, SizeBounded(is64));
    SizedBlock(mem, p, delta, is64);
    next := p + Load(mem, p + 4, 4);
    WalkedOn(m0, m, mem[..], start, p, next, end, delta, SizeBounded(is64));
  }

  method SentinelStep(
    mem: array<byte>, ghost m0: seq<byte>, ghost start: nat, p: nat, ghost end: nat, delta: nat, is64: bool)
    returns (next: nat)
    requires Walked(m0, mem[..], start, p, end, delta, SentinelBounded(is64))
    requires GoesOn(mem[..], p, end, SentinelBounded(is64))
    modifies mem
    ensures Walked(m0, mem[..], start, next, end, delta, SentinelBounded(is64)) && p < next && p < mem.Length
  {
    ghost var m := mem[..];
    BlockFirst(m, p, end, delta, SentinelBounded(is64));
    SentinelBlock(mem, p, delta, is64);
    next := p + Load(mem, p + 4, 4);
    WalkedOn(m0, m, mem[..], start, p, next, end, delta, SentinelBounded(is64));
  }

  /** The memory loader does nothing when nothing moved or when there is no directory. */
  predicate Skipped(dirVa: nat, dirSize: nat, delta: nat) {
    delta == 0 || dirSize == 0 || dirVa == 0
  }

  /** The memory that the memory loader's rebase leaves. */
  ghost function RebasedBySize(m: seq<byte>, dirVa: nat, dirSize: nat, delta: nat, is64: bool): seq<byte>
    requires Skipped(dirVa, dirSize, delta) || Followable(m, dirVa, dirVa + dirSize, delta, SizeBounded(is64))
  {
    if Skipped(dirVa, dirSize, delta) then m
    else Relocated(m, WalkFixes(m, dirVa, dirVa + dirSize, delta, SizeBounded(is64)))
  }

  /** The memory that step 5 of the reflective loader leaves; it also runs when delta is zero. */
  ghost function RebasedBySentinel(m: seq<byte>, dirVa: nat, dirSize: nat, delta: nat, is64: bool): seq<byte>
    requires dirSize == 0 || Followable(m, dirVa, dirVa + dirSize, delta, SentinelBounded(is64))
  {
    if dirSize == 0 then m
    else Relocated(m, WalkFixes(m, dirVa, dirVa + dirSize, delta, SentinelBounded(is64)))
  }

  /** The rebase of the memory loader. */
  method RelocateBySize(mem: array<byte>, dirVa: nat, dirSize: nat, delta: nat, is64: bool)
    requires Skipped(dirVa, dirSize, delta)
             || Followable(mem[..], dirVa, dirVa + dirSize, delta, SizeBounded(is64))
    modifies mem
    ensures mem[..] == RebasedBySize(old(mem[..]), dirVa, dirSize, delta, is64)
  {
    if delta != 0 {
      if dirSize != 0 && dirVa != 0 {
        ghost var m0, w, end := mem[..], SizeBounded(is64), dirVa + dirSize;
        var p := dirVa;
        while p < dirVa + dirSize && Load(mem, p, 4) > 0
          invariant Walked(m0, mem[..], dirVa, p, end, delta, w)
          decreases mem.Length - p
        {
          p := SizedStep(mem, m0, dirVa, p, end, delta, is64);
        }
        WalkedAll(m0, mem[..], dirVa, p, end, delta, w);
      }
    }
  }

  /** Step 5 of the reflective loader. */
  method RelocateBySentinel(mem: array<byte>, dirVa: nat, dirSize: nat, delta: nat, is64: bool)
    requires dirSize == 0 || Followable(mem[..], dirVa, dirVa + dirSize, delta, SentinelBounded(is64))
    modifies mem
    ensures mem[..] == RebasedBySentinel(old(mem[..]), dirVa, dirSize, delta, is64)
  {
    if dirSize != 0 {
      ghost var m0, end := mem[..], dirVa + dirSize;
      var p := dirVa;
      WalkedHead(m0, mem[..], dirVa, p, end, delta, SentinelBounded(is64));
      while Load(mem, p + 4, 4) != 0
        invariant p + 8 <= mem.Length
        invariant Walked(m0, mem[..], dirVa, p, end, delta, SentinelBounded(is64))
        decreases mem.Length - p
      {
        p := SentinelStep(mem, m0, dirVa, p, end, delta, is64);
        WalkedHead(m0, mem[..], dirVa, p, end, delta, SentinelBounded(is64));
      }
      WalkedAll(m0, mem[..], dirVa, p, end, delta, SentinelBounded(is64));
    }
  }

  // ---------- One result from both ----------

  /** When every block the one walk visits is followed in the end by a zero-size block and only the relocation
      types that the build's two walkers treat alike occur, both leave the same memory, also for delta 0, where one
      skips and the other adds zero. */
  lemma WalkersGiveOneMemory(m: seq<byte>, dirVa: nat, dirSize: nat, delta: nat, is64: bool)
    requires dirSize == 0 || dirVa != 0
    requires dirSize != 0 ==> Lockstep(m, dirVa, dirVa + dirSize, is64)
    requires dirSize != 0 ==> Followable(m, dirVa, dirVa + dirSize, delta, SentinelBounded(is64))
    ensures Skipped(dirVa, dirSize, delta) || Followable(m, dirVa, dirVa + dirSize, delta, SizeBounded(is64))
    ensures RebasedBySize(m, dirVa, dirSize, delta, is64) == RebasedBySentinel(m, dirVa, dirSize, delta, is64)
  {
    if dirSize != 0 {
      var end := dirVa + dirSize;
      WalksAgree(m, dirVa, end, delta, is64);
      ClearWithin(WalkFixes(m, dirVa, end, delta, SentinelBounded(is64)),
                  dirVa, WalkReadEnd(m, dirVa, end, SentinelBounded(is64)),
                  dirVa, WalkReadEnd(m, dirVa, end, SizeBounded(is64)));
      if delta == 0 {
        var fixes := WalkFixes(m, dirVa, end, 0, SentinelBounded(is64));
        WalkFixesZero(m, dirVa, end, SentinelBounded(is64));
        ZeroFixes(m, fixes, |fixes|);
      }
    }
  }

  // ---------- Meaning ----------

  /** locationDelta in the pointer arithmetic of the build. */
  function LocationDelta(from: nat, to: nat, is64: bool): (d: nat)
    requires from < QWORD && to < QWORD && (!is64 ==> from < DWORD && to < DWORD)
    ensures d == 0 <==> from == to
  {
    if from <= to then to - from else (if is64 then QWORD else DWORD) + to - from
  }

  /** The sites a directory lists. */
  ghost function Sites(m: seq<byte>, dirVa: nat, dirSize: nat, is64: bool): seq<Fix>
    requires dirSize == 0 || dirVa == 0 || WalkOk(m, dirVa, dirVa + dirSize, SizeBounded(is64))
  {
    if dirSize == 0 || dirVa == 0 then [] else WalkFixes(m, dirVa, dirVa + dirSize, 0, SizeBounded(is64))
  }

  /** A well-formed directory: walkable, its sites in memory, pairwise disjoint and off the directory. */
  ghost predicate WellFormed(m: seq<byte>, dirVa: nat, dirSize: nat, is64: bool) {
    dirSize == 0 || dirVa == 0 ||
    (&& Followable(m, dirVa, dirVa + dirSize, 0, SizeBounded(is64))
     && Disjoint(Sites(m, dirVa, dirSize, is64)))
  }

  lemma WellFormedWalks(m: seq<byte>, dirVa: nat, dirSize: nat, delta: nat, is64: bool)
    requires WellFormed(m, dirVa, dirSize, is64) && dirSize != 0 && dirVa != 0
    ensures Followable(m, dirVa, dirVa + dirSize, delta, SizeBounded(is64))
    ensures Disjoint(WalkFixes(m, dirVa, dirVa + dirSize, delta, SizeBounded(is64)))
    ensures SameSites(Sites(m, dirVa, dirSize, is64), WalkFixes(m, dirVa, dirVa + dirSize, delta, SizeBounded(is64)))
  {
    var end, w := dirVa + dirSize, SizeBounded(is64);
    var sites, fixes := WalkFixes(m, dirVa, end, 0, w), WalkFixes(m, dirVa, end, delta, w);
    WalkFixesSites(m, dirVa, end, 0, delta, w);
    forall i, j | 0 <= i < j < |fixes|
      ensures Apart(fixes[i], fixes[j])
    {
      assert Apart(sites[i], sites[j]);
    }
  }

  lemma LinkedSameSites(m: seq<byte>, base: nat, s1: seq<Fix>, s2: seq<Fix>, targets: seq<nat>, template: seq<byte>)
    requires InRange(s1, |m|) && InRange(s2, |m|) && SameSites(s1, s2) && |targets| == |s1|
    requires LinkedAt(m, base, s1, targets, template)
    ensures LinkedAt(m, base, s2, targets, template)
  {
    forall j | 0 <= j < |m| && (forall i :: 0 <= i < |s2| ==> !Covers(s2[i], j))
      ensures m[j] == template[j]
    {
      forall i | 0 <= i < |s1|
        ensures !Covers(s1[i], j)
      {
        assert !Covers(s2[i], j);
      }
    }
  }

  lemma {:induction false} EntryFixesNarrow(m: seq<byte>, p: nat, n: nat, d1: nat, d2: nat)
    requires p + 8 + 2 * n <= |m| && Low(d1, 4) == Low(d2, 4)
    ensures EntryFixes(m, p, n, d1, SizeBounded(false)) == EntryFixes(m, p, n, d2, SizeBounded(false))
  {
    if n != 0 {
      EntryFixesNarrow(m, p, n - 1, d1, d2);
    }
  }

  /** A 32-bit build only sees the low half of the delta. */
  lemma {:induction false} WalkFixesNarrow(m: seq<byte>, p: nat, end: nat, d1: nat, d2: nat)
    requires WalkOk(m, p, end, SizeBounded(false)) && Low(d1, 4) == Low(d2, 4)
    ensures WalkFixes(m, p, end, d1, SizeBounded(false)) == WalkFixes(m, p, end, d2, SizeBounded(false))
    decreases |m| - p
  {
    if GoesOn(m, p, end, SizeBounded(false)) {
      EntryFixesNarrow(m, p, EntryCount(m, p), d1, d2);
      WalkFixesNarrow(m, p + BlockSize(m, p), end, d1, d2);
    }
  }

  /** The walk's fixes add the full-width difference of the two bases, as far as their width goes. */
  lemma LocationDeltaShifts(m: seq<byte>, p: nat, end: nat, from: nat, to: nat, is64: bool)
    requires WalkOk(m, p, end, SizeBounded(is64))
    requires from < QWORD && to < QWORD && (!is64 ==> from < DWORD && to < DWORD)
    ensures Shifts(WalkFixes(m, p, end, LocationDelta(from, to, is64), SizeBounded(is64)), Delta(from, to))
  {
    if !is64 {
      WalkFixesNarrow(m, p, end, LocationDelta(from, to, false), Delta(from, to));
    }
    WalkFixesShift(m, p, end, Delta(from, to), is64);
  }

  lemma RelinkedAt(
    mFrom: seq<byte>, mTo: seq<byte>, from: nat, to: nat, sites: seq<Fix>, fixes: seq<Fix>,
    targets: seq<nat>, template: seq<byte>)
    requires from < QWORD && to < QWORD && |mFrom| == |mTo| && SameSites(sites, fixes) && |targets| == |sites|
    requires InRange(sites, |mFrom|) && InRange(fixes, |mFrom|)
    requires Disjoint(fixes) && Shifts(fixes, Delta(from, to))
    requires LinkedAt(mFrom, from, sites, targets, template) && LinkedAt(mTo, to, sites, targets, template)
    ensures Relocated(mFrom, fixes) == mTo
  {
    LinkedSameSites(mFrom, from, sites, fixes, targets, template);
    LinkedSameSites(mTo, to, sites, fixes, targets, template);
    RelocationPreservesMeaning(mFrom, mTo, from, to, fixes, targets, template);
  }

  /** m is the image linked at that base, with the sites that the directory in d lists. */
  ghost predicate LinkedImage(
    m: seq<byte>, base: nat, d: seq<byte>, dirVa: nat, dirSize: nat, is64: bool, targets: seq<nat>, template: seq<byte>)
    requires WellFormed(d, dirVa, dirSize, is64)
  {
    var sites := Sites(d, dirVa, dirSize, is64);
    InRange(sites, |m|) && |targets| == |sites| && LinkedAt(m, base, sites, targets, template)
  }

  /** The memory loader's rebase is defined on m and leaves m1. */
  ghost predicate RebasesTo(m: seq<byte>, dirVa: nat, dirSize: nat, delta: nat, is64: bool, m1: seq<byte>) {
    && (Skipped(dirVa, dirSize, delta) || Followable(m, dirVa, dirVa + dirSize, delta, SizeBounded(is64)))
    && RebasedBySize(m, dirVa, dirSize, delta, is64) == m1
  }

  lemma SkipPreservesMeaning(
    mFrom: seq<byte>, mTo: seq<byte>, from: nat, to: nat, dirVa: nat, dirSize: nat, is64: bool,
    targets: seq<nat>, template: seq<byte>)
    requires WellFormed(mFrom, dirVa, dirSize, is64) && |mFrom| == |mTo|
    requires LinkedImage(mFrom, from, mFrom, dirVa, dirSize, is64, targets, template)
    requires LinkedImage(mTo, to, mFrom, dirVa, dirSize, is64, targets, template)
    requires from == to || dirVa == 0 || dirSize == 0
    ensures mFrom == mTo
  {
    if from == to {
      LinkedUnique(mFrom, mTo, from, Sites(mFrom, dirVa, dirSize, is64), targets, template);
    } else {
      forall j | 0 <= j < |mFrom|
        ensures mFrom[j] == mTo[j]
      {
      }
    }
  }

  lemma SkippedRebase(m: seq<byte>, dirVa: nat, dirSize: nat, delta: nat, is64: bool)
    requires Skipped(dirVa, dirSize, delta)
    ensures RebasesTo(m, dirVa, dirSize, delta, is64, m)
  {
  }

  lemma WalkedRebase(
    m: seq<byte>, m1: seq<byte>, dirVa: nat, dirSize: nat, delta: nat, is64: bool, fixes: seq<Fix>)
    requires !Skipped(dirVa, dirSize, delta) && Followable(m, dirVa, dirVa + dirSize, delta, SizeBounded(is64))
    requires fixes == WalkFixes(m, dirVa, dirVa + dirSize, delta, SizeBounded(is64)) && Relocated(m, fixes) == m1
    ensures RebasesTo(m, dirVa, dirSize, delta, is64, m1)
  {
  }

  /** What a well-formed directory lists: where, and what the rebase adds there. */
  lemma WalkFacts(m: seq<byte>, from: nat, to: nat, dirVa: nat, dirSize: nat, is64: bool, delta: nat)
    returns (sites: seq<Fix>, fixes: seq<Fix>)
    requires from < QWORD && to < QWORD && (!is64 ==> from < DWORD && to < DWORD)
    requires WellFormed(m, dirVa, dirSize, is64) && dirSize != 0 && dirVa != 0
    requires delta == LocationDelta(from, to, is64)
    ensures Followable(m, dirVa, dirVa + dirSize, delta, SizeBounded(is64))
    ensures sites == Sites(m, dirVa, dirSize, is64)
    ensures fixes == WalkFixes(m, dirVa, dirVa + dirSize, delta, SizeBounded(is64))
    ensures SameSites(sites, fixes) && Disjoint(fixes) && InRange(fixes, |m|) && Shifts(fixes, Delta(from, to))
  {
    WellFormedWalks(m, dirVa, dirSize, delta, is64);
    LocationDeltaShifts(m, dirVa, dirVa + dirSize, from, to, is64);
    sites := Sites(m, dirVa, dirSize, is64);
    fixes := WalkFixes(m, dirVa, dirVa + dirSize, delta, SizeBounded(is64));
  }

  lemma ImageIsLinked(
    m: seq<byte>, base: nat, d: seq<byte>, dirVa: nat, dirSize: nat, is64: bool, targets: seq<nat>,
    template: seq<byte>, sites: seq<Fix>)
    requires WellFormed(d, dirVa, dirSize, is64) && sites == Sites(d, dirVa, dirSize, is64)
    requires LinkedImage(m, base, d, dirVa, dirSize, is64, targets, template)
    ensures InRange(sites, |m|) && |targets| == |sites| && LinkedAt(m, base, sites, targets, template)
  {
  }

  lemma RebaseWalks(
    mFrom: seq<byte>, mTo: seq<byte>, from: nat, to: nat, dirVa: nat, dirSize: nat, is64: bool, delta: nat,
    targets: seq<nat>, template: seq<byte>)
    requires from < QWORD && to < QWORD && (!is64 ==> from < DWORD && to < DWORD)
    requires delta == LocationDelta(from, to, is64) && !Skipped(dirVa, dirSize, delta)
    requires WellFormed(mFrom, dirVa, dirSize, is64) && |mFrom| == |mTo|
    requires LinkedImage(mFrom, from, mFrom, dirVa, dirSize, is64, targets, template)
    requires LinkedImage(mTo, to, mFrom, dirVa, dirSize, is64, targets, template)
    ensures RebasesTo(mFrom, dirVa, dirSize, delta, is64, mTo)
  {
    var sites, fixes := WalkFacts(mFrom, from, to, dirVa, dirSize, is64, delta);
    ImageIsLinked(mFrom, from, mFrom, dirVa, dirSize, is64, targets, template, sites);
    ImageIsLinked(mTo, to, mFrom, dirVa, dirSize, is64, targets, template, sites);
    RelinkedAt(mFrom, mTo, from, to, sites, fixes, targets, template);
    WalkedRebase(mFrom, mTo, dirVa, dirSize, delta, is64, fixes);
  }

  /** Relocation preserves meaning: the memory loader's rebase turns the image linked at its preferred
      base into the image linked, byte for byte, at the base it was loaded at. */
  lemma RebasePreservesMeaning(
    mFrom: seq<byte>, mTo: seq<byte>, from: nat, to: nat, dirVa: nat, dirSize: nat, is64: bool,
    targets: seq<nat>, template: seq<byte>)
    requires from < QWORD && to < QWORD && (!is64 ==> from < DWORD && to < DWORD)
    requires WellFormed(mFrom, dirVa, dirSize, is64) && |mFrom| == |mTo|
    requires LinkedImage(mFrom, from, mFrom, dirVa, dirSize, is64, targets, template)
    requires LinkedImage(mTo, to, mFrom, dirVa, dirSize, is64, targets, template)
    ensures RebasesTo(mFrom, dirVa, dirSize, LocationDelta(from, to, is64), is64, mTo)
  {
    var delta := LocationDelta(from, to, is64);
    if Skipped(dirVa, dirSize, delta) {
      SkipPreservesMeaning(mFrom, mTo, from, to, dirVa, dirSize, is64, targets, template);
      SkippedRebase(mFrom, dirVa, dirSize, delta, is64);
    } else {
      RebaseWalks(mFrom, mTo, from, to, dirVa, dirSize, is64, delta, targets, template);
    }
  }

  /** Rebasing there and back is the identity. */
  lemma RebaseThereAndBack(m: seq<byte>, from: nat, to: nat, dirVa: nat, dirSize: nat, is64: bool)
    requires from < QWORD && to < QWORD && (!is64 ==> from < DWORD && to < DWORD)
    requires WellFormed(m, dirVa, dirSize, is64)
    ensures var there, back := LocationDelta(from, to, is64), LocationDelta(to, from, is64);
            && (Skipped(dirVa, dirSize, there) || Followable(m, dirVa, dirVa + dirSize, there, SizeBounded(is64)))
            && RebasesTo(RebasedBySize(m, dirVa, dirSize, there, is64), dirVa, dirSize, back, is64, m)
  {
    var there, back := LocationDelta(from, to, is64), LocationDelta(to, from, is64);
    if !Skipped(dirVa, dirSize, there) {
      var end, w := dirVa + dirSize, SizeBounded(is64);
      WellFormedWalks(m, dirVa, dirSize, there, is64);
      WellFormedWalks(m, dirVa, dirSize, back, is64);
      var fixes1, fixes2 := WalkFixes(m, dirVa, end, there, w), WalkFixes(m, dirVa, end, back, w);
      ClearKeeps(m, fixes1, dirVa, WalkReadEnd(m, dirVa, end, w));
      WalkSame(m, Relocated(m, fixes1), dirVa, end, back, w);
      LocationDeltaShifts(m, dirVa, end, from, to, is64);
      LocationDeltaShifts(m, dirVa, end, to, from, is64);
      DeltaLeads(from, to);
      WalkFixesSites(m, dirVa, end, there, back, w);
      RebaseBackIsIdentity(m, fixes1, fixes2, Delta(from, to), Delta(to, from));
    }
  }
}
