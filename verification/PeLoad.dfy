/**
 * The memory loader on a file that was written as the PE format says: that it is given what it needs, what it answers,
 * and what it leaves in memory, in terms of the file's fields and bytes.
 */
module PeLoad {
  import opened Alignment
  import opened Bytes
  import opened PeFormat
  import opened PeImage
  import opened Wrappers
  import I = ImageMapping
  import P = PeRelocations
  import R = Relocation
  import Rebase

  // ---------- A sound file ----------

  /** The sections' raw bytes are in the file, and go to page boundaries above the headers, apart from each other. */
  ghost predicate SectionsSound(data: seq<byte>, h: ImageHeaders) {
    && (forall i :: 0 <= i < |h.sections| ==>
          var s := h.sections[i];
          && s.rawPointer + s.rawSize <= |data|
          && s.virtualAddress >= h.sizeOfHeaders && s.virtualAddress % 0x1000 == 0)
    && (forall i, k :: 0 <= i < k < |h.sections| ==>
          h.sections[i].virtualAddress + h.sections[i].rawSize <= h.sections[k].virtualAddress
          || h.sections[k].virtualAddress + h.sections[k].rawSize <= h.sections[i].virtualAddress)
  }

  /** The file starts with these headers, which SizeOfHeaders covers. */
  ghost predicate Sound(data: seq<byte>, h: ImageHeaders) {
    && Shaped(h) && At(data, 0, HeaderBytes(h))
    && |HeaderBytes(h)| <= h.sizeOfHeaders <= |data| && h.sizeOfHeaders <= h.sizeOfImage
    && SectionsSound(data, h)
  }

  /** There is no relocation directory, or it was written into section k, with spaced sites. */
  ghost predicate DirectorySound(data: seq<byte>, h: ImageHeaders, blocks: seq<Block>, k: nat) {
    h.relocVa == 0 || h.relocSize == 0 ||
    (&& k < |h.sections| && AllWritable(blocks) && h.relocSize == |DirectoryBytes(blocks)|
     && var s := h.sections[k];
        && s.virtualAddress <= h.relocVa && h.relocVa + h.relocSize <= s.virtualAddress + s.rawSize
        && At(data, s.rawPointer + (h.relocVa - s.virtualAddress), DirectoryBytes(blocks))
        && P.Spaced(P.Listed(blocks, R.SizeBounded(true)), h.sizeOfImage, h.relocVa, h.relocVa + h.relocSize))
  }

  // ---------- The mapped headers ----------

  /** The reservation is the least number of whole pages that holds the image. */
  lemma ReservationIsPages(size: nat)
    ensures I.Reserved(size) % 0x1000 == 0 && size <= I.Reserved(size) < size + 0x1000
  {
  }

  lemma FieldsOf(data: seq<byte>, h: ImageHeaders, nt: nat, table: nat)
    requires Shaped(h) && At(data, 0, HeaderBytes(h)) && nt == 64 + |h.stub| && table == nt + 264 + |h.gap|
    ensures |data| >= 64 && Read(data, 0x3C, 4) == nt && nt + 264 <= |data|
    ensures Read(data, nt + 6, 2) == |h.sections| && Read(data, nt + 20, 2) == 240 + |h.gap|
    ensures Read(data, nt + 48, 8) == h.imageBase && Read(data, nt + 56, 4) == h.sectionAlignment
    ensures Read(data, nt + 80, 4) == h.sizeOfImage && Read(data, nt + 84, 4) == h.sizeOfHeaders
    ensures Read(data, nt + 176, 4) == h.relocVa && Read(data, nt + 180, 4) == h.relocSize
  {
    HeaderParts(data, h, nt, table);
    DosRead(data, h);
    FileRead(data, h, nt);
    BaseRead(data, h, nt);
    SizeRead(data, h, nt);
    DirectoriesRead(data, h, nt);
  }

  /** Memory m holds the file's headers but for ImageBase. */
  predicate HeadersKept(m: seq<byte>, data: seq<byte>, nt: nat, size: nat) {
    && nt + 264 <= size <= |m| && size <= |data|
    && forall j :: 0 <= j < size && !(nt + 48 <= j < nt + 56) ==> m[j] == data[j]
  }

  lemma AtKept(m: seq<byte>, data: seq<byte>, nt: nat, size: nat, a: nat, bytes: seq<byte>)
    requires HeadersKept(m, data, nt, size) && At(data, a, bytes) && a + |bytes| <= size
    requires a + |bytes| <= nt + 48 || nt + 56 <= a
    ensures At(m, a, bytes)
  {
    assert m[a..a + |bytes|] == data[a..a + |bytes|];
  }

  /** What the section loop and the rebase read from the mapped headers. */
  lemma KeptFields(m: seq<byte>, data: seq<byte>, h: ImageHeaders, nt: nat, table: nat)
    requires Sound(data, h) && nt == 64 + |h.stub| && table == nt + 264 + |h.gap|
    requires HeadersKept(m, data, nt, h.sizeOfHeaders)
    ensures I.SectionCount(m, nt) == |h.sections| && I.SectionTable(m, nt) == table
    ensures Read(m, nt + 56, 4) == h.sectionAlignment
    ensures Read(m, nt + 176, 4) == h.relocVa && Read(m, nt + 180, 4) == h.relocSize
    ensures At(m, table, TableBytes(h.sections, |h.sections|))
  {
    HeaderParts(data, h, nt, table);
    FieldsOf(data, h, nt, table);
    ReadSame(m, data, nt + 6, 2);
    ReadSame(m, data, nt + 20, 2);
    ReadSame(m, data, nt + 56, 4);
    ReadSame(m, data, nt + 176, 4);
    ReadSame(m, data, nt + 180, 4);
    AtKept(m, data, nt, h.sizeOfHeaders, table, TableBytes(h.sections, |h.sections|));
  }

  lemma CopiedHeaders(data: seq<byte>, h: ImageHeaders, nt: nat, base: nat)
    requires Sound(data, h) && nt == 64 + |h.stub|
    ensures I.HeadersFit(data, nt)
    ensures var m := I.Before(data, nt, base);
            && |m| == I.Reserved(h.sizeOfImage) && HeadersKept(m, data, nt, h.sizeOfHeaders)
            && m == I.HeaderImage(data, h.sizeOfHeaders, nt, base, |m|)
            && Read(m, nt + 48, 8) == Low(base, 8)
  {
    FieldsOf(data, h, nt, nt + 264 + |h.gap|);
    var plain := I.Patch(I.Sequences.Repeat<byte>(0, I.Reserved(h.sizeOfImage)), 0, data[..h.sizeOfHeaders]);
    ReadWrite(plain, nt + 48, 8, base);
  }

  // ---------- The sections ----------

  function SectionsOf(h: ImageHeaders): (secs: seq<I.Section>)
    ensures |secs| == |h.sections|
  {
    seq(|h.sections|, i requires 0 <= i < |h.sections| => SectionOf(h.sections[i]))
  }

  lemma SectionsFound(m: seq<byte>, data: seq<byte>, h: ImageHeaders, nt: nat, table: nat)
    requires Sound(data, h) && nt == 64 + |h.stub| && table == nt + 264 + |h.gap|
    requires HeadersKept(m, data, nt, h.sizeOfHeaders)
    ensures I.HeadersWhole(m, nt, table, h.sizeOfHeaders)
    ensures I.Sections(m, table, I.SectionCount(m, nt)) == SectionsOf(h)
    ensures I.Separate(SectionsOf(h), h.sizeOfHeaders)
  {
    KeptFields(m, data, h, nt, table);
    forall i | 0 <= i < |h.sections|
      ensures I.SectionIn(m, table, i) == SectionOf(h.sections[i])
    {
      SectionsRead(m, table, h.sections, i);
    }
  }

  /** With the raw bytes in the file, the section loop finds all it needs. */
  lemma {:induction false} MappableFrom(
    h: seq<byte>, m: seq<byte>, data: seq<byte>, nt: nat, table: nat, headersEnd: nat, secs: seq<I.Section>, i: nat,
    base: nat, grants: nat -> bool)
    requires I.HeadersWhole(h, nt, table, headersEnd) && I.SameHeaders(m, h, headersEnd)
    requires secs == I.Sections(h, table, I.SectionCount(h, nt)) && I.Separate(secs, headersEnd) && i <= |secs|
    requires forall k :: 0 <= k < |secs| ==> secs[k].rawPointer + secs[k].rawSize <= |data|
    requires Read(h, nt + 48, 8) == base
    ensures I.Mappable(m, data, nt, table, i, base, grants)
    decreases |secs| - i
  {
    I.HeadersRead(m, h, nt, table, headersEnd, i, grants(if i < |secs| then i else 0));
    ReadSame(m, h, nt + 48, 8);
    if i < |secs| {
      var s := secs[i];
      if I.SectionStatus(m, nt, s, grants(i)).Success? {
        I.PlacedKeepsHeaders(m, h, data, s, headersEnd);
        MappableFrom(h, I.Placed(m, data, s), data, nt, table, headersEnd, secs, i + 1, base, grants);
      }
      MappableOn(m, data, nt, table, i, base, grants, s);
    }
  }

  lemma MappableOn(
    m: seq<byte>, data: seq<byte>, nt: nat, table: nat, i: nat, base: nat, grants: nat -> bool, s: I.Section)
    requires nt + 264 <= |m| && Read(m, nt + 48, 8) == base && i < I.SectionCount(m, nt)
    requires table + 40 * i + 40 <= |m| && s == I.SectionIn(m, table, i)
    requires I.SectionStatus(m, nt, s, grants(i)).Success? ==>
               && s.rawPointer + s.rawSize <= |data| && s.virtualAddress + s.rawSize <= |m|
               && I.Mappable(I.Placed(m, data, s), data, nt, table, i + 1, base, grants)
    ensures I.Mappable(m, data, nt, table, i, base, grants)
  {
  }

  // ---------- What the file becomes in memory ----------

  /** Whole pages; the file's headers with the base the image is at; each section's raw bytes at its address; and
      zeros everywhere else. */
  ghost predicate FileLaidOut(m: seq<byte>, data: seq<byte>, h: ImageHeaders, base: nat) {
    && |m| % 0x1000 == 0 && h.sizeOfImage <= |m| < h.sizeOfImage + 0x1000
    && (var nt := 64 + |h.stub|; At(m, nt + 48, Le64(base)) && HeadersKept(m, data, nt, h.sizeOfHeaders))
    && (forall i :: 0 <= i < |h.sections| ==>
          var s := h.sections[i];
          && s.virtualAddress + s.rawSize <= |m| && s.rawPointer + s.rawSize <= |data|
          && m[s.virtualAddress..s.virtualAddress + s.rawSize] == data[s.rawPointer..s.rawPointer + s.rawSize])
    && (forall j :: h.sizeOfHeaders <= j < |m| && !InSomeSection(h, j) ==> m[j] == 0)
  }

  predicate InSomeSection(h: ImageHeaders, j: nat) {
    exists i :: 0 <= i < |h.sections|
                && h.sections[i].virtualAddress <= j < h.sections[i].virtualAddress + h.sections[i].rawSize
  }

  lemma LayoutIsFile(m: seq<byte>, data: seq<byte>, h: ImageHeaders, nt: nat, base: nat)
    requires Sound(data, h) && nt == 64 + |h.stub| && base < QWORD && |m| == I.Reserved(h.sizeOfImage)
    requires I.Layout(m, data, h.sizeOfHeaders, nt, base, SectionsOf(h))
    ensures FileLaidOut(m, data, h, base)
  {
    ReservationIsPages(h.sizeOfImage);
    BasePlaced(m, data, h.sizeOfHeaders, nt, nt + 48, base, SectionsOf(h));
    RawBytesThere(m, data, h);
    forall j | h.sizeOfHeaders <= j < |m| && !InSomeSection(h, j)
      ensures m[j] == 0
    {
      NotWithin(h, j);
    }
  }

  lemma BasePlaced(
    m: seq<byte>, data: seq<byte>, headersSize: nat, nt: nat, at: nat, base: nat, secs: seq<I.Section>)
    requires I.Layout(m, data, headersSize, nt, base, secs) && at == nt + 48 && base < QWORD
    ensures At(m, at, Le64(base))
  {
    QwordBytes(m, at, base);
  }

  lemma RawBytesThere(m: seq<byte>, data: seq<byte>, h: ImageHeaders)
    requires forall k :: 0 <= k < |h.sections| ==> I.RawPlaced(m, data, SectionsOf(h)[k])
    ensures forall i :: 0 <= i < |h.sections| ==> I.RawPlaced(m, data, SectionOf(h.sections[i]))
  {
    forall i | 0 <= i < |h.sections|
      ensures I.RawPlaced(m, data, SectionOf(h.sections[i]))
    {
      assert SectionsOf(h)[i] == SectionOf(h.sections[i]);
    }
  }

  lemma NotWithin(h: ImageHeaders, j: nat)
    requires !InSomeSection(h, j)
    ensures forall k :: 0 <= k < |h.sections| ==> !I.Within(SectionsOf(h)[k], j)
  {
  }

  /** How a section of the table ends the mapping, for an alignment that is a power of two and a size that does not
      wrap: with n the least multiple of the alignment that holds VirtualSize, its raw bytes have to fit n bytes, and
      these have to be some, inside the image, and granted. */
  ghost predicate SectionEnds(s: SectionHeader, alignment: nat, size: nat, granted: bool, status: NtStatus) {
    (exists k: nat :: k <= 31 && alignment == Pow2(k)) && s.virtualSize + alignment - 1 < 0x1_0000_0000 ==>
      forall n: nat :: Multiple(n, alignment) && s.virtualSize <= n < s.virtualSize + alignment ==>
        status == if n < s.rawSize then InvalidImageFormat
                  else if n == 0 || s.virtualAddress + n > size || !granted then NoMemory
                  else Success
  }

  lemma SectionEndsSo(m: seq<byte>, nt: nat, h: ImageHeaders, s: SectionHeader, granted: bool)
    requires nt + 264 <= |m| && Read(m, nt + 56, 4) == h.sectionAlignment
    requires SectionShaped(s)
    ensures SectionEnds(s, h.sectionAlignment, |m|, granted, I.SectionStatus(m, nt, SectionOf(s), granted))
  {
    var a, v := h.sectionAlignment, s.virtualSize;
    if k: nat :| k <= 31 && a == Pow2(k) {
      if v + a - 1 < 0x1_0000_0000 {
        forall n: nat | Multiple(n, a) && v <= n < v + a
          ensures n == AlignValueUp(v, a) % DWORD
        {
          LeastIsUnique(v, k, a, n);
        }
      }
    }
  }

  lemma LeastIsUnique(v: nat, k: nat, a: nat, n: nat)
    requires v < DWORD && k <= 31 && a == Pow2(k) && v + a - 1 < DWORD
    requires Multiple(n, a) && v <= n < v + a
    ensures n == AlignValueUp(v, a) % DWORD
  {
    AlignIsLeastMultiple(v, k, a);
    LeastIs(v, a, AlignValueUp(v, a), n);
  }

  lemma LeastIs(v: nat, a: nat, r: nat, n: nat)
    requires Multiple(r, a) && Multiple(n, a) && v <= r < v + a && v <= n < v + a && r < DWORD
    ensures n == r % DWORD
  {
    var p: nat :| r == Times(a, p);
    var q: nat :| n == Times(a, q);
    OneMultiple(a, p, q, r, n);
  }

  /** Multiples of a that are less than a apart are the same. */
  lemma OneMultiple(a: nat, p: nat, q: nat, r: nat, n: nat)
    requires r == a * p && n == a * q && n < r + a && r < n + a
    ensures r == n
  {
    Distribute(a, p - q, q);
    assert a * (p - q) == r - n;
    NoMultipleWithin(a, p - q);
  }

  // ---------- The loader ----------

  lemma AtMoved(
    m: seq<byte>, va: nat, data: seq<byte>, pointer: nat, size: nat, o: nat, a: nat, from: nat, bytes: seq<byte>)
    requires va + size <= |m| && pointer + size <= |data|
    requires m[va..va + size] == data[pointer..pointer + size]
    requires o + |bytes| <= size && a == va + o && from == pointer + o && At(data, from, bytes)
    ensures At(m, a, bytes)
  {
    forall i | 0 <= i < |bytes|
      ensures m[a + i] == bytes[i]
    {
      assert m[a + i] == m[va..va + size][o + i];
      assert data[from + i] == data[pointer..pointer + size][o + i];
      AtByte(data, from, bytes, i);
    }
  }

  lemma SpacedInMore(sites: seq<R.Fix>, size: nat, size1: nat, lo: nat, hi: nat)
    requires P.Spaced(sites, size, lo, hi) && size <= size1
    ensures P.Spaced(sites, size1, lo, hi)
  {
  }

  /** In the laid out image the relocation directory is in its place. */
  lemma DirectoryInMemory(m: seq<byte>, data: seq<byte>, h: ImageHeaders, base: nat, blocks: seq<Block>, k: nat)
    requires FileLaidOut(m, data, h, base) && DirectorySound(data, h, blocks, k)
    requires h.relocVa != 0 && h.relocSize != 0
    ensures P.Written(m, h.relocVa, h.relocVa + h.relocSize, blocks, R.SizeBounded(true))
    ensures P.Spaced(P.Listed(blocks, R.SizeBounded(true)), |m|, h.relocVa, h.relocVa + h.relocSize)
  {
    var s, d := h.sections[k], DirectoryBytes(blocks);
    var o := h.relocVa - s.virtualAddress;
    AtMoved(m, s.virtualAddress, data, s.rawPointer, s.rawSize, o, h.relocVa, s.rawPointer + o, d);
    SpacedInMore(P.Listed(blocks, R.SizeBounded(true)), h.sizeOfImage, |m|, h.relocVa, h.relocVa + h.relocSize);
  }

  lemma FitFrom(m: seq<byte>, nt: nat, va: nat, size: nat, end: nat, delta: nat)
    requires nt + 264 <= |m| && Read(m, nt + 176, 4) == va && Read(m, nt + 180, 4) == size && end == va + size
    requires va == 0 || size == 0 || Rebase.Followable(m, va, end, delta, R.SizeBounded(true))
    ensures I.RebaseFit(m, nt, delta)
  {
  }

  /** So the rebase can follow it. */
  lemma RebaseIsFit(
    m: seq<byte>, data: seq<byte>, h: ImageHeaders, nt: nat, base: nat, blocks: seq<Block>, k: nat, delta: nat)
    requires Sound(data, h) && nt == 64 + |h.stub| && FileLaidOut(m, data, h, base)
    requires DirectorySound(data, h, blocks, k)
    ensures I.RebaseFit(m, nt, delta)
  {
    var va, size, end := h.relocVa, h.relocSize, h.relocVa + h.relocSize;
    KeptFields(m, data, h, nt, nt + 264 + |h.gap|);
    if va != 0 && size != 0 {
      DirectoryInMemory(m, data, h, base, blocks, k);
      P.WrittenIsFollowable(m, va, end, blocks, delta, R.SizeBounded(true));
    }
    FitFrom(m, nt, va, size, end, delta);
  }

  /** The section loop on the copied headers: it can run, and when it succeeds the file is laid out. */
  lemma FileMaps(
    m: seq<byte>, data: seq<byte>, h: ImageHeaders, nt: nat, table: nat, base: nat, grants: nat -> bool)
    requires Sound(data, h) && nt == 64 + |h.stub| && table == nt + 264 + |h.gap| && base < QWORD
    requires |m| == I.Reserved(h.sizeOfImage) && HeadersKept(m, data, nt, h.sizeOfHeaders)
    requires m == I.HeaderImage(data, h.sizeOfHeaders, nt, base, |m|) && Read(m, nt + 48, 8) == base
    ensures I.Mappable(m, data, nt, table, 0, base, grants)
    ensures var r := I.Mapped(m, data, nt, table, 0, base, grants);
            && r.status == I.FirstFailure(m, nt, SectionsOf(h), 0, grants)
            && (r.status.Success? ==> FileLaidOut(r.mem, data, h, base))
  {
    SectionsFound(m, data, h, nt, table);
    MappableFrom(m, m, data, nt, table, h.sizeOfHeaders, SectionsOf(h), 0, base, grants);
    I.MappingIsLayout(data, h.sizeOfHeaders, nt, table, base, |m|, grants);
    var r := I.Mapped(m, data, nt, table, 0, base, grants);
    if r.status.Success? {
      LayoutIsFile(r.mem, data, h, nt, base);
    }
  }

  lemma MappableAtFile(
    data: seq<byte>, h: ImageHeaders, nt: nat, base: nat, grants: nat -> bool, blocks: seq<Block>, k: nat)
    requires Sound(data, h) && nt == 64 + |h.stub| && base < QWORD && DirectorySound(data, h, blocks, k)
    ensures I.HeadersFit(data, nt) && I.MappableAt(data, nt, base, grants)
  {
    var table := nt + 264 + |h.gap|;
    FieldsOf(data, h, nt, table);
    CopiedHeaders(data, h, nt, base);
    var m := I.Before(data, nt, base);
    KeptFields(m, data, h, nt, table);
    LowIsSame(base);
    FileMaps(m, data, h, nt, table, base, grants);
    var r := I.Mapped(m, data, nt, table, 0, base, grants);
    if r.status.Success? {
      RebaseIsFit(r.mem, data, h, nt, base, blocks, k, Rebase.LocationDelta(h.imageBase, base, true));
    }
  }

  lemma LowIsSame(base: nat)
    requires base < QWORD
    ensures Low(base, 8) == base
  {
  }

  /** The loader is given what it needs when the file is sound, wherever the system puts the image. */
  lemma FileIsLoadable(data: seq<byte>, h: ImageHeaders, blocks: seq<Block>, k: nat, system: I.System)
    requires Sound(data, h) && DirectorySound(data, h, blocks, k)
    requires system.preferred.Some? ==> system.preferred.value < QWORD
    requires system.anywhere.Some? ==> system.anywhere.value < QWORD
    ensures I.Loadable(data, system)
  {
    var nt := 64 + |h.stub|;
    FieldsOf(data, h, nt, nt + 264 + |h.gap|);
    BaseOfHeaders(data, h, system);
    CopiedHeaders(data, h, nt, 0);
    var base := I.ReservedBase(data, nt, system);
    if base.Some? {
      MappableAtFile(data, h, nt, base.value, system.grants, blocks, k);
    }
  }

  /** The base the image gets: without DYNAMIC_BASE the preferred one, if it can be had, and otherwise any. */
  function BaseFor(h: ImageHeaders, system: I.System): Option<nat> {
    if !h.dynamicBase && system.preferred.Some? then system.preferred else system.anywhere
  }

  /** What the parameter checks answer for these headers. */
  function ChecksFor(h: ImageHeaders): NtStatus {
    if h.sectionAlignment % 2 == 1 then InvalidImageFormat
    else if h.machine != 0x8664 then MachineTypeMismatch
    else if !h.dll then NotSupported
    else Success
  }

  /** The mapping ends with the first section of the table that fails, or with none. */
  ghost predicate SectionsEnd(h: ImageHeaders, size: nat, grants: nat -> bool, from: nat, status: NtStatus) {
    exists n :: EndsWith(h, size, grants, from, status, n)
  }

  ghost predicate EndsWith(h: ImageHeaders, size: nat, grants: nat -> bool, from: nat, status: NtStatus, n: nat) {
    && from <= n <= |h.sections|
    && (forall i :: from <= i < n ==> SectionEnds(h.sections[i], h.sectionAlignment, size, grants(i), Success))
    && (status.Success? <==> n == |h.sections|)
    && (n < |h.sections| ==> SectionEnds(h.sections[n], h.sectionAlignment, size, grants(n), status))
  }

  lemma {:induction false} FirstFailureEnds(m: seq<byte>, nt: nat, h: ImageHeaders, i: nat, grants: nat -> bool)
    returns (n: nat)
    requires Shaped(h) && nt + 264 <= |m| && Read(m, nt + 56, 4) == h.sectionAlignment && i <= |h.sections|
    ensures EndsWith(h, |m|, grants, i, I.FirstFailure(m, nt, SectionsOf(h), i, grants), n)
    decreases |h.sections| - i
  {
    n := i;
    if i < |h.sections| {
      assert SectionsOf(h)[i] == SectionOf(h.sections[i]);
      SectionEndsSo(m, nt, h, h.sections[i], grants(i));
      if I.SectionStatus(m, nt, SectionsOf(h)[i], grants(i)).Success? {
        n := FirstFailureEnds(m, nt, h, i + 1, grants);
        EndsNext(h, |m|, grants, i, I.FirstFailure(m, nt, SectionsOf(h), i + 1, grants), n);
      }
    }
  }

  lemma EndsNext(h: ImageHeaders, size: nat, grants: nat -> bool, i: nat, status: NtStatus, n: nat)
    requires i < |h.sections| && EndsWith(h, size, grants, i + 1, status, n)
    requires SectionEnds(h.sections[i], h.sectionAlignment, size, grants(i), Success)
    ensures EndsWith(h, size, grants, i, status, n)
  {
  }

  /** What a load at a base comes to: the answer of the section table, and on success the laid out file, rebased. */
  lemma FileIsLoadedAt(
    data: seq<byte>, h: ImageHeaders, nt: nat, base: nat, grants: nat -> bool, status: NtStatus, handle: Option<nat>,
    m: seq<byte>) returns (m0: seq<byte>)
    requires Sound(data, h) && nt == 64 + |h.stub| && base < QWORD && I.HeadersFit(data, nt)
    requires I.MappableAt(data, nt, base, grants) && I.OutcomeAt(data, nt, base, grants, status, handle, m)
    ensures SectionsEnd(h, |m0|, grants, 0, status) && |m0| == I.Reserved(h.sizeOfImage)
    ensures !status.Success? ==> handle.None?
    ensures status.Success? ==>
              && handle == Some(base) && FileLaidOut(m0, data, h, base)
              && Rebase.RebasesTo(m0, h.relocVa, h.relocSize, Rebase.LocationDelta(h.imageBase, base, true), true, m)
  {
    var table := nt + 264 + |h.gap|;
    FieldsOf(data, h, nt, table);
    CopiedHeaders(data, h, nt, base);
    var before := I.Before(data, nt, base);
    KeptFields(before, data, h, nt, table);
    LowIsSame(base);
    FileMaps(before, data, h, nt, table, base, grants);
    var r := I.Mapped(before, data, nt, table, 0, base, grants);
    var delta := Rebase.LocationDelta(h.imageBase, base, true);
    OutcomeIs(data, nt, table, base, grants, status, handle, m, before, r, delta);
    m0 := r.mem;
    var n := FirstFailureEnds(before, nt, h, 0, grants);
    if status.Success? {
      KeptFields(m0, data, h, nt, table);
      LoadedRebases(m0, m, nt, h.relocVa, h.relocSize, delta);
    }
  }

  lemma OutcomeIs(
    data: seq<byte>, nt: nat, table: nat, base: nat, grants: nat -> bool, status: NtStatus, handle: Option<nat>,
    m: seq<byte>, before: seq<byte>, r: I.Mapping, delta: nat)
    requires I.HeadersFit(data, nt) && I.MappableAt(data, nt, base, grants)
    requires I.OutcomeAt(data, nt, base, grants, status, handle, m)
    requires before == I.Before(data, nt, base) && table == I.SectionTable(before, nt)
    requires r == I.Mapped(before, data, nt, table, 0, base, grants)
    requires delta == Rebase.LocationDelta(Read(data, nt + 48, 8), base, true)
    ensures status == r.status && (if status.Success? then handle == Some(base) else handle.None?)
    ensures status.Success? ==> I.RebaseFit(r.mem, nt, delta) && m == I.Loaded(r.mem, nt, delta)
  {
  }

  lemma LoadedRebases(m0: seq<byte>, m: seq<byte>, nt: nat, va: nat, size: nat, delta: nat)
    requires I.RebaseFit(m0, nt, delta) && m == I.Loaded(m0, nt, delta)
    requires nt + 264 <= |m0| && Read(m0, nt + 176, 4) == va && Read(m0, nt + 180, 4) == size
    ensures Rebase.RebasesTo(m0, va, size, delta, true, m)
  {
  }

  /** MemoryLoadLibrary on a file that was written down: the answer in terms of its fields, and on success, in memory,
      the file as it is laid out, rebased from its ImageBase to where it is. */
  lemma FileIsLoaded(
    data: seq<byte>, h: ImageHeaders, system: I.System, status: NtStatus, handle: Option<nat>, m: seq<byte>)
    returns (m0: seq<byte>)
    requires Sound(data, h) && I.Loadable(data, system) && I.Outcome(data, system, status, handle, m)
    requires BaseFor(h, system).Some? ==> BaseFor(h, system).value < QWORD
    ensures !ChecksFor(h).Success? ==> status == ChecksFor(h)
    ensures ChecksFor(h).Success? && BaseFor(h, system).None? ==> status == NoMemory
    ensures ChecksFor(h).Success? && BaseFor(h, system).Some? ==>
              SectionsEnd(h, |m0|, system.grants, 0, status) && |m0| == I.Reserved(h.sizeOfImage)
    ensures !status.Success? ==> handle.None?
    ensures status.Success? ==>
              && BaseFor(h, system).Some? && handle == BaseFor(h, system)
              && var base := BaseFor(h, system).value;
                 && FileLaidOut(m0, data, h, base)
                 && Rebase.RebasesTo(
                      m0, h.relocVa, h.relocSize, Rebase.LocationDelta(h.imageBase, base, true), true, m)
  {
    var nt := 64 + |h.stub|;
    FieldsOf(data, h, nt, nt + 264 + |h.gap|);
    ChecksOfHeaders(data, h);
    BaseOfHeaders(data, h, system);
    m0 := m;
    if ChecksFor(h).Success? && BaseFor(h, system).Some? {
      m0 := FileIsLoadedAt(data, h, nt, BaseFor(h, system).value, system.grants, status, handle, m);
    }
  }

  /** From the file to the linked image: if the laid out file is the image linked at ImageBase, with the sites its
      written directory lists, what the loader leaves is, byte for byte, the image linked at the base it got. */
  lemma LoadedFileIsLinked(
    data: seq<byte>, h: ImageHeaders, blocks: seq<Block>, k: nat, base: nat, m0: seq<byte>, m: seq<byte>,
    linked: seq<byte>, targets: seq<nat>, template: seq<byte>)
    requires Sound(data, h) && FileLaidOut(m0, data, h, base) && DirectorySound(data, h, blocks, k)
    requires h.relocVa != 0 && h.relocSize != 0 && base < QWORD && |linked| == |m0|
    requires Rebase.RebasesTo(m0, h.relocVa, h.relocSize, Rebase.LocationDelta(h.imageBase, base, true), true, m)
    requires P.Spaced(P.Listed(blocks, R.SizeBounded(true)), |m0|, h.relocVa, h.relocVa + h.relocSize)
    requires |targets| == |P.Listed(blocks, R.SizeBounded(true))|
    requires R.LinkedAt(m0, h.imageBase, P.Listed(blocks, R.SizeBounded(true)), targets, template)
    requires R.LinkedAt(linked, base, P.Listed(blocks, R.SizeBounded(true)), targets, template)
    ensures m == linked
  {
    var end := h.relocVa + h.relocSize;
    DirectoryInMemory(m0, data, h, base, blocks, k);
    P.ListedRebasePreservesMeaning(
      m0, linked, h.imageBase, base, h.relocVa, h.relocSize, end, blocks, true, targets, template);
  }

  /** An image that lists nothing, or got the base it was linked at, is left as it is laid out. */
  lemma UnmovedIsLaidOut(m0: seq<byte>, m: seq<byte>, va: nat, size: nat, from: nat, base: nat)
    requires from < QWORD && base < QWORD && (from == base || va == 0 || size == 0)
    requires Rebase.RebasesTo(m0, va, size, Rebase.LocationDelta(from, base, true), true, m)
    ensures m == m0
  {
  }
}
