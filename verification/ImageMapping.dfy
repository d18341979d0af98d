/**
 * Mapping of an image file into memory by the memory loader on a 64-bit build: the header checks, the
 * headers, the sections, and the rebase. (Microsoft PE Format, "Section Table (Section Headers)".)
 */
module ImageMapping {
  import opened Alignment
  import opened Bytes
  import opened Rebase
  import opened Relocation
  import opened Sequences
  import opened Wrappers

  const PAGE: nat := 0x1000

  /** The DOS header's pointer to the image headers, and the fields of those. */
  const E_LFANEW: nat := 0x3C
  const MACHINE: nat := 4
  const NUMBER_OF_SECTIONS: nat := 6
  const SIZE_OF_OPTIONAL_HEADER: nat := 20
  const CHARACTERISTICS: nat := 22
  const OPTIONAL_HEADER: nat := 24
  const IMAGE_BASE: nat := 48
  const SECTION_ALIGNMENT: nat := 56
  const SIZE_OF_IMAGE: nat := 80
  const SIZE_OF_HEADERS: nat := 84
  const DLL_CHARACTERISTICS: nat := 94
  const BASERELOC: nat := 176
  const NT_HEADERS_SIZE: nat := 264

  const SECTION_HEADER_SIZE: nat := 40

  const DOS_SIGNATURE: nat := 0x5A4D
  const NT_SIGNATURE: nat := 0x4550
  const HOST_MACHINE: nat := 0x8664
  const FILE_DLL: nat := 0x2000
  const DYNAMIC_BASE: nat := 0x40

  predicate HasFlag(word: nat, flag: nat)
    requires flag > 0
  {
    word / flag % 2 == 1
  }

  /** What the parameter checks answer; a header that runs off the file faults. */
  function HeaderStatus(data: seq<byte>): NtStatus {
    if |data| < 2 then AccessViolation
    else if Read(data, 0, 2) != DOS_SIGNATURE then InvalidImageFormat
    else if |data| < E_LFANEW + 4 then AccessViolation
    else
      var nt := Read(data, E_LFANEW, 4);
      if |data| < nt + 4 then AccessViolation
      else if Read(data, nt, 4) != NT_SIGNATURE then InvalidImageFormat
      else if |data| < nt + SECTION_ALIGNMENT + 4 then AccessViolation
      else if Read(data, nt + SECTION_ALIGNMENT, 4) % 2 == 1 then InvalidImageFormat
      else if Read(data, nt + MACHINE, 2) != HOST_MACHINE then MachineTypeMismatch
      else if !HasFlag(Read(data, nt + CHARACTERISTICS, 2), FILE_DLL) then NotSupported
      else Success
  }

  // ---------- Sections ----------

  datatype Section = Section(virtualSize: nat, virtualAddress: nat, rawSize: nat, rawPointer: nat)

  function SectionIn(m: seq<byte>, table: nat, i: nat): (s: Section)
    requires table + SECTION_HEADER_SIZE * i + SECTION_HEADER_SIZE <= |m|
  {
    var at := table + SECTION_HEADER_SIZE * i;
    Section(Read(m, at + 8, 4), Read(m, at + 12, 4), Read(m, at + 16, 4), Read(m, at + 20, 4))
  }

  function SectionCount(m: seq<byte>, nt: nat): (n: nat)
    requires nt + NT_HEADERS_SIZE <= |m|
    ensures n < WORD
  {
    Pow256Values();
    Read(m, nt + NUMBER_OF_SECTIONS, 2)
  }

  /** The aligned size, in a DWORD. */
  function SectionSize(m: seq<byte>, nt: nat, s: Section): nat
    requires nt + NT_HEADERS_SIZE <= |m|
  {
    AlignValueUp(s.virtualSize, Read(m, nt + SECTION_ALIGNMENT, 4)) % DWORD
  }

  /** What becomes of one section: its raw bytes have to fit its aligned size, and its pages have to be
      committed, which fails for an empty range, outside the reservation, or when the system says so. */
  function SectionStatus(m: seq<byte>, nt: nat, s: Section, granted: bool): NtStatus
    requires nt + NT_HEADERS_SIZE <= |m|
  {
    var size := SectionSize(m, nt, s);
    if size < s.rawSize then InvalidImageFormat
    else if size == 0 || s.virtualAddress + size > |m| || !granted then NoMemory
    else Success
  }

  /** VirtualAlloc answers with the start of the first page. */
  function PageDown(a: nat): (p: nat)
    ensures p <= a < p + 0x1000 && p % 0x1000 == 0
  {
    a - a % PAGE
  }

  function Patch(m: seq<byte>, at: nat, bytes: seq<byte>): (r: seq<byte>)
    requires at + |bytes| <= |m|
    ensures |r| == |m|
    ensures forall j :: 0 <= j < |m| ==> r[j] == if at <= j < at + |bytes| then bytes[j - at] else m[j]
  {
    m[..at] + bytes + m[at + |bytes|..]
  }

  /** The memory with a section's raw bytes in place. */
  function Placed(m: seq<byte>, data: seq<byte>, s: Section): (r: seq<byte>)
    requires s.rawPointer + s.rawSize <= |data| && s.virtualAddress + s.rawSize <= |m|
    ensures |r| == |m|
  {
    Patch(m, PageDown(s.virtualAddress), data[s.rawPointer..s.rawPointer + s.rawSize])
  }

  /** From section i on: headers, section headers and raw bytes are where the loop looks for them. */
  ghost predicate Mappable(m: seq<byte>, data: seq<byte>, nt: nat, table: nat, i: nat, base: nat, grants: nat -> bool)
    decreases WORD - i
  {
    && nt + NT_HEADERS_SIZE <= |m| && Read(m, nt + IMAGE_BASE, 8) == base
    && (i < SectionCount(m, nt) ==>
          && table + SECTION_HEADER_SIZE * i + SECTION_HEADER_SIZE <= |m|
          && var s := SectionIn(m, table, i);
             SectionStatus(m, nt, s, grants(i)).Success? ==>
               s.rawPointer + s.rawSize <= |data| && Mappable(Placed(m, data, s), data, nt, table, i + 1, base, grants))
  }

  datatype Mapping = Mapping(status: NtStatus, mem: seq<byte>)

  /** What the section loop makes of the memory from section i on. */
  ghost function Mapped(
    m: seq<byte>, data: seq<byte>, nt: nat, table: nat, i: nat, base: nat, grants: nat -> bool): (r: Mapping)
    requires Mappable(m, data, nt, table, i, base, grants)
    ensures |r.mem| == |m|
    decreases WORD - i
  {
    if i < SectionCount(m, nt) then
      var s := SectionIn(m, table, i);
      var status := SectionStatus(m, nt, s, grants(i));
      if status.Success? then Mapped(Placed(m, data, s), data, nt, table, i + 1, base, grants)
      else Mapping(status, m)
    else Mapping(Success, m)
  }

  // ---------- What the mapping means ----------

  /** The section headers in the image headers. */
  function Sections(h: seq<byte>, table: nat, n: nat): (secs: seq<Section>)
    requires table + SECTION_HEADER_SIZE * n <= |h|
    ensures |secs| == n
    ensures forall i :: 0 <= i < n ==> secs[i] == SectionIn(h, table, i)
  {
    seq(n, i requires 0 <= i < n => SectionIn(h, table, i))
  }

  predicate Within(s: Section, j: nat) {
    s.virtualAddress <= j < s.virtualAddress + s.rawSize
  }

  /** The raw bytes of the sections from i on lie above the headers, on page boundaries, and apart. */
  ghost predicate Separate(secs: seq<Section>, headersEnd: nat) {
    && (forall i :: 0 <= i < |secs| ==> secs[i].virtualAddress >= headersEnd && secs[i].virtualAddress % PAGE == 0)
    && (forall i, k :: 0 <= i < k < |secs| ==>
          secs[i].virtualAddress + secs[i].rawSize <= secs[k].virtualAddress
          || secs[k].virtualAddress + secs[k].rawSize <= secs[i].virtualAddress)
  }

  /** The headers, up to headersEnd, hold the image headers and the section table. */
  predicate HeadersWhole(h: seq<byte>, nt: nat, table: nat, headersEnd: nat) {
    && nt + NT_HEADERS_SIZE <= headersEnd <= |h|
    && table + SECTION_HEADER_SIZE * SectionCount(h, nt) <= headersEnd
  }

  /** m1 is m0 with the raw bytes of each section from i on at the section's address. */
  ghost predicate LaidOut(m0: seq<byte>, m1: seq<byte>, data: seq<byte>, secs: seq<Section>, i: nat) {
    && |m1| == |m0|
    && (forall k :: i <= k < |secs| ==> RawPlaced(m1, data, secs[k]))
    && (forall j: nat :: j < |m0| && (forall k :: i <= k < |secs| ==> !Within(secs[k], j)) ==> m1[j] == m0[j])
  }

  predicate RawPlaced(m: seq<byte>, data: seq<byte>, s: Section) {
    && s.virtualAddress + s.rawSize <= |m| && s.rawPointer + s.rawSize <= |data|
    && m[s.virtualAddress..s.virtualAddress + s.rawSize] == data[s.rawPointer..s.rawPointer + s.rawSize]
  }

  /** The first failure among the sections from i on. */
  ghost function FirstFailure(h: seq<byte>, nt: nat, secs: seq<Section>, i: nat, grants: nat -> bool): NtStatus
    requires nt + NT_HEADERS_SIZE <= |h|
    decreases |secs| - i
  {
    if i >= |secs| then Success
    else
      var status := SectionStatus(h, nt, secs[i], grants(i));
      if status.Success? then FirstFailure(h, nt, secs, i + 1, grants) else status
  }

  /** Memory whose header part is still the header part of h. */
  predicate SameHeaders(m: seq<byte>, h: seq<byte>, headersEnd: nat) {
    |m| == |h| && forall j :: 0 <= j < headersEnd && j < |h| ==> m[j] == h[j]
  }

  lemma HeadersRead(m: seq<byte>, h: seq<byte>, nt: nat, table: nat, headersEnd: nat, i: nat, granted: bool)
    requires HeadersWhole(h, nt, table, headersEnd) && SameHeaders(m, h, headersEnd)
    ensures SectionCount(m, nt) == SectionCount(h, nt)
    ensures i < SectionCount(h, nt) ==>
              && SectionIn(m, table, i) == SectionIn(h, table, i)
              && SectionStatus(m, nt, SectionIn(h, table, i), granted)
                 == SectionStatus(h, nt, SectionIn(h, table, i), granted)
  {
    ReadSame(m, h, nt + NUMBER_OF_SECTIONS, 2);
    if i < SectionCount(h, nt) {
      SectionSame(m, h, table + SECTION_HEADER_SIZE * i);
      StatusSame(m, h, nt, headersEnd, SectionIn(h, table, i), granted);
    }
  }

  lemma StatusSame(m: seq<byte>, h: seq<byte>, nt: nat, headersEnd: nat, s: Section, granted: bool)
    requires nt + NT_HEADERS_SIZE <= headersEnd <= |h| && SameHeaders(m, h, headersEnd)
    ensures SectionStatus(m, nt, s, granted) == SectionStatus(h, nt, s, granted)
  {
    ReadSame(m, h, nt + SECTION_ALIGNMENT, 4);
  }

  lemma SectionSame(m: seq<byte>, h: seq<byte>, at: nat)
    requires at + SECTION_HEADER_SIZE <= |m| == |h|
    requires forall j :: at <= j < at + SECTION_HEADER_SIZE ==> m[j] == h[j]
    ensures Read(m, at + 8, 4) == Read(h, at + 8, 4) && Read(m, at + 12, 4) == Read(h, at + 12, 4)
    ensures Read(m, at + 16, 4) == Read(h, at + 16, 4) && Read(m, at + 20, 4) == Read(h, at + 20, 4)
  {
    ReadSame(m, h, at + 8, 4);
    ReadSame(m, h, at + 12, 4);
    ReadSame(m, h, at + 16, 4);
    ReadSame(m, h, at + 20, 4);
  }

  lemma PlacedKeepsHeaders(m: seq<byte>, h: seq<byte>, data: seq<byte>, s: Section, headersEnd: nat)
    requires SameHeaders(m, h, headersEnd) && s.virtualAddress >= headersEnd && s.virtualAddress % PAGE == 0
    requires s.rawPointer + s.rawSize <= |data| && s.virtualAddress + s.rawSize <= |m|
    ensures SameHeaders(Placed(m, data, s), h, headersEnd)
  {
  }

  lemma LaidOutFrom(m: seq<byte>, m1: seq<byte>, data: seq<byte>, secs: seq<Section>, i: nat, headersEnd: nat)
    requires i < |secs| && Separate(secs, headersEnd)
    requires secs[i].rawPointer + secs[i].rawSize <= |data| && secs[i].virtualAddress + secs[i].rawSize <= |m|
    requires LaidOut(Placed(m, data, secs[i]), m1, data, secs, i + 1)
    ensures LaidOut(m, m1, data, secs, i)
  {
    var s := secs[i];
    var m0 := Placed(m, data, s);
    forall j: nat | Within(s, j)
      ensures m1[j] == data[s.rawPointer + (j - s.virtualAddress)]
    {
      forall k | i + 1 <= k < |secs|
        ensures !Within(secs[k], j)
      {
      }
      assert m1[j] == m0[j];
    }
    var raw, want := m1[s.virtualAddress..s.virtualAddress + s.rawSize], data[s.rawPointer..s.rawPointer + s.rawSize];
    forall o | 0 <= o < s.rawSize
      ensures raw[o] == want[o]
    {
      assert Within(s, s.virtualAddress + o);
    }
    assert RawPlaced(m1, data, s);
    forall j: nat | j < |m| && (forall k :: i <= k < |secs| ==> !Within(secs[k], j))
      ensures m1[j] == m[j]
    {
      assert !Within(secs[i], j);
    }
  }

  lemma MappedGoesOn(m: seq<byte>, data: seq<byte>, nt: nat, table: nat, i: nat, base: nat, grants: nat -> bool)
    requires Mappable(m, data, nt, table, i, base, grants) && i < SectionCount(m, nt)
    requires SectionStatus(m, nt, SectionIn(m, table, i), grants(i)).Success?
    ensures var s := SectionIn(m, table, i);
            && s.rawPointer + s.rawSize <= |data| && s.virtualAddress + s.rawSize <= |m|
            && Mappable(Placed(m, data, s), data, nt, table, i + 1, base, grants)
            && Mapped(m, data, nt, table, i, base, grants)
               == Mapped(Placed(m, data, s), data, nt, table, i + 1, base, grants)
  {
  }

  /** What the sections after i leave, together with section i, which succeeds. */
  lemma LaidOutNext(
    h: seq<byte>, m: seq<byte>, r: Mapping, data: seq<byte>, nt: nat, headersEnd: nat, secs: seq<Section>, i: nat,
    grants: nat -> bool)
    requires i < |secs| && Separate(secs, headersEnd) && nt + NT_HEADERS_SIZE <= |h|
    requires SectionStatus(h, nt, secs[i], grants(i)).Success?
    requires secs[i].rawPointer + secs[i].rawSize <= |data| && secs[i].virtualAddress + secs[i].rawSize <= |m|
    requires r.status == FirstFailure(h, nt, secs, i + 1, grants)
    requires r.status.Success? ==> LaidOut(Placed(m, data, secs[i]), r.mem, data, secs, i + 1)
    ensures r.status == FirstFailure(h, nt, secs, i, grants)
    ensures r.status.Success? ==> LaidOut(m, r.mem, data, secs, i)
  {
    if r.status.Success? {
      LaidOutFrom(m, r.mem, data, secs, i, headersEnd);
    }
  }

  lemma {:induction false} MappedIsLayout(
    h: seq<byte>, m: seq<byte>, data: seq<byte>, nt: nat, table: nat, headersEnd: nat, secs: seq<Section>, i: nat,
    base: nat, grants: nat -> bool)
    requires HeadersWhole(h, nt, table, headersEnd) && SameHeaders(m, h, headersEnd)
    requires secs == Sections(h, table, SectionCount(h, nt)) && Separate(secs, headersEnd) && i <= |secs|
    requires Mappable(m, data, nt, table, i, base, grants)
    ensures var r := Mapped(m, data, nt, table, i, base, grants);
            && r.status == FirstFailure(h, nt, secs, i, grants)
            && (r.status.Success? ==> LaidOut(m, r.mem, data, secs, i))
    decreases |secs| - i
  {
    HeadersRead(m, h, nt, table, headersEnd, i, grants(if i < |secs| then i else 0));
    if i < |secs| {
      var s := secs[i];
      assert SectionIn(m, table, i) == s;
      if SectionStatus(m, nt, s, grants(i)).Success? {
        var m1 := Placed(m, data, s);
        MappedGoesOn(m, data, nt, table, i, base, grants);
        PlacedKeepsHeaders(m, h, data, s, headersEnd);
        MappedIsLayout(h, m1, data, nt, table, headersEnd, secs, i + 1, base, grants);
        LaidOutNext(h, m, Mapped(m1, data, nt, table, i + 1, base, grants), data, nt, headersEnd, secs, i, grants);
      }
    }
  }

  /** The memory before the sections: the file's headers with only ImageBase changed, and zeros. */
  function HeaderImage(data: seq<byte>, headersSize: nat, nt: nat, base: nat, size: nat): (m: seq<byte>)
    requires headersSize <= |data| && headersSize <= size && nt + IMAGE_BASE + 8 <= size
    ensures |m| == size
  {
    Write(Patch(Repeat<byte>(0, size), 0, data[..headersSize]), nt + IMAGE_BASE, 8, base)
  }

  /** The declarative layout: the headers with only ImageBase changed, each section's raw bytes at its
      address, and zeros everywhere else. */
  ghost predicate Layout(
    m: seq<byte>, data: seq<byte>, headersSize: nat, nt: nat, base: nat, secs: seq<Section>) {
    && headersSize <= |data| && headersSize <= |m|
    && nt + IMAGE_BASE + 8 <= headersSize && Read(m, nt + IMAGE_BASE, 8) == Low(base, 8)
    && (forall j :: 0 <= j < headersSize && !(nt + IMAGE_BASE <= j < nt + IMAGE_BASE + 8) ==> m[j] == data[j])
    && (forall k :: 0 <= k < |secs| ==> RawPlaced(m, data, secs[k]))
    && (forall j: nat :: headersSize <= j < |m| && (forall k :: 0 <= k < |secs| ==> !Within(secs[k], j)) ==> m[j] == 0)
  }

  /** For sections above the headers, on page boundaries and apart, the mapped image is the declarative
      layout, and the mapping fails exactly as the first section in the table that fails does: with an
      invalid format if and only if that section's aligned size is below its raw size. */
  lemma MappingIsLayout(
    data: seq<byte>, headersSize: nat, nt: nat, table: nat, base: nat, size: nat, grants: nat -> bool)
    requires headersSize <= |data| && headersSize <= size && nt + NT_HEADERS_SIZE <= headersSize
    requires var h := HeaderImage(data, headersSize, nt, base, size);
             && HeadersWhole(h, nt, table, headersSize)
             && Separate(Sections(h, table, SectionCount(h, nt)), headersSize)
             && Mappable(h, data, nt, table, 0, base, grants)
    ensures var h := HeaderImage(data, headersSize, nt, base, size);
            var secs, r := Sections(h, table, SectionCount(h, nt)), Mapped(h, data, nt, table, 0, base, grants);
            && r.status == FirstFailure(h, nt, secs, 0, grants)
            && (r.status.Success? ==> Layout(r.mem, data, headersSize, nt, base, secs))
  {
    var h := HeaderImage(data, headersSize, nt, base, size);
    var secs := Sections(h, table, SectionCount(h, nt));
    MappedIsLayout(h, h, data, nt, table, headersSize, secs, 0, base, grants);
    var r := Mapped(h, data, nt, table, 0, base, grants);
    if r.status.Success? {
      LayoutFrom(data, headersSize, nt, base, size, secs, r.mem);
    }
  }

  lemma LayoutFrom(
    data: seq<byte>, headersSize: nat, nt: nat, base: nat, size: nat, secs: seq<Section>, m: seq<byte>)
    requires headersSize <= |data| && headersSize <= size && nt + NT_HEADERS_SIZE <= headersSize
    requires Separate(secs, headersSize)
    requires LaidOut(HeaderImage(data, headersSize, nt, base, size), m, data, secs, 0)
    ensures Layout(m, data, headersSize, nt, base, secs)
  {
    var h := HeaderImage(data, headersSize, nt, base, size);
    var plain := Patch(Repeat<byte>(0, size), 0, data[..headersSize]);
    ReadWrite(plain, nt + IMAGE_BASE, 8, base);
    forall j | 0 <= j < headersSize
      ensures m[j] == h[j]
    {
    }
    ReadSame(m, h, nt + IMAGE_BASE, 8);
  }

  /** For a power-of-two alignment and no DWORD wrap, a section is rejected as malformed if and only if some
      multiple of the alignment holds its virtual size but not its raw bytes. */
  lemma SizeCheckRejectsIff(m: seq<byte>, nt: nat, s: Section, granted: bool, k: nat, a: nat)
    requires nt + NT_HEADERS_SIZE <= |m| && a == Read(m, nt + SECTION_ALIGNMENT, 4) == Pow2(k) && k <= 31
    requires s.virtualSize < DWORD && s.virtualSize + a - 1 < DWORD
    ensures SectionStatus(m, nt, s, granted).InvalidImageFormat?
            <==> exists n: nat :: Multiple(n, a) && s.virtualSize <= n < s.rawSize
    ensures SectionSize(m, nt, s) >= s.virtualSize
  {
    SizeCheckIff(s.virtualSize, s.rawSize, k, a);
  }

  lemma SizeCheckIff(v: nat, raw: nat, k: nat, a: nat)
    requires v < DWORD && k <= 31 && a == Pow2(k) && v + a - 1 < DWORD
    ensures AlignValueUp(v, a) % DWORD < raw <==> exists n: nat :: Multiple(n, a) && v <= n < raw
    ensures v <= AlignValueUp(v, a) % DWORD
  {
    AlignIsLeastMultiple(v, k, a);
    LeastDecides(v, raw, a, AlignValueUp(v, a));
  }

  lemma LeastDecides(v: nat, raw: nat, a: nat, r: nat)
    requires Multiple(r, a) && v <= r < DWORD && forall m: nat :: Multiple(m, a) && v <= m ==> r <= m
    ensures r % DWORD < raw <==> exists n: nat :: Multiple(n, a) && v <= n < raw
    ensures v <= r % DWORD
  {
    assert r % DWORD == r;
  }

  // ---------- The loader ----------

  /** What the system answers: the base it reserves at the preferred address and anywhere, and which of the
      sections' pages it commits. */
  datatype System = System(preferred: Option<nat>, anywhere: Option<nat>, grants: nat -> bool)

  /** Images with a fixed base are tried there first. */
  function ReservedBase(data: seq<byte>, nt: nat, system: System): Option<nat>
    requires nt + NT_HEADERS_SIZE <= |data|
  {
    if !HasFlag(Read(data, nt + DLL_CHARACTERISTICS, 2), DYNAMIC_BASE) && system.preferred.Some?
    then system.preferred else system.anywhere
  }

  /** The reservation, in whole pages. */
  function Reserved(size: nat): (n: nat)
    ensures n >= size
  {
    PageDown(size + PAGE - 1)
  }

  /** Where the section table starts. */
  function SectionTable(m: seq<byte>, nt: nat): nat
    requires nt + NT_HEADERS_SIZE <= |m|
  {
    nt + OPTIONAL_HEADER + Read(m, nt + SIZE_OF_OPTIONAL_HEADER, 2)
  }

  /** The memory before the sections are mapped at a base. */
  function Before(data: seq<byte>, nt: nat, base: nat): seq<byte>
    requires nt + NT_HEADERS_SIZE <= |data|
    requires Read(data, nt + SIZE_OF_HEADERS, 4) <= |data|
    requires nt + NT_HEADERS_SIZE <= Read(data, nt + SIZE_OF_HEADERS, 4) <= Reserved(Read(data, nt + SIZE_OF_IMAGE, 4))
  {
    HeaderImage(data, Read(data, nt + SIZE_OF_HEADERS, 4), nt, base, Reserved(Read(data, nt + SIZE_OF_IMAGE, 4)))
  }

  /** The file's headers are whole and inside the image. */
  ghost predicate HeadersFit(data: seq<byte>, nt: nat) {
    && nt + NT_HEADERS_SIZE <= |data|
    && nt + NT_HEADERS_SIZE <= Read(data, nt + SIZE_OF_HEADERS, 4) <= |data|
    && Read(data, nt + SIZE_OF_HEADERS, 4) <= Reserved(Read(data, nt + SIZE_OF_IMAGE, 4))
  }

  /** The sections can be mapped, and when they are, the relocation directory can be followed. */
  ghost predicate MappableAt(data: seq<byte>, nt: nat, base: nat, grants: nat -> bool)
    requires HeadersFit(data, nt)
  {
    var m := Before(data, nt, base);
    && Mappable(m, data, nt, SectionTable(m, nt), 0, base, grants)
    && base < QWORD && Read(data, nt + IMAGE_BASE, 8) < QWORD
    && var r := Mapped(m, data, nt, SectionTable(m, nt), 0, base, grants);
       r.status.Success? ==> RebaseFit(r.mem, nt, LocationDelta(Read(data, nt + IMAGE_BASE, 8), base, true))
  }

  ghost predicate RebaseFit(m: seq<byte>, nt: nat, delta: nat) {
    && nt + NT_HEADERS_SIZE <= |m|
    && var va, size := Read(m, nt + BASERELOC, 4), Read(m, nt + BASERELOC + 4, 4);
       Skipped(va, size, delta) || Followable(m, va, va + size, delta, SizeBounded(true))
  }

  /** The image that a successful load leaves: the mapped sections, rebased. */
  ghost function Loaded(m: seq<byte>, nt: nat, delta: nat): seq<byte>
    requires RebaseFit(m, nt, delta)
  {
    RebasedBySize(m, Read(m, nt + BASERELOC, 4), Read(m, nt + BASERELOC + 4, 4), delta, true)
  }

  /** RtlCopyMemory into image memory. */
  method CopyIn(mem: array<byte>, at: nat, bytes: seq<byte>)
    requires at + |bytes| <= mem.Length
    modifies mem
    ensures mem[..] == Patch(old(mem[..]), at, bytes)
  {
    var i := 0;
    while i < |bytes|
      invariant 0 <= i <= |bytes|
      invariant forall j :: 0 <= j < mem.Length && !(at <= j < at + i) ==> mem[j] == old(mem[j])
      invariant forall j :: at <= j < at + i ==> mem[j] == bytes[j - at]
    {
      mem[at + i] := bytes[i];
      i := i + 1;
    }
  }

  /** One turn of the section loop. */
  method MapSection(mem: array<byte>, data: seq<byte>, nt: nat, s: Section, granted: bool) returns (status: NtStatus)
    requires nt + NT_HEADERS_SIZE <= mem.Length
    requires SectionStatus(mem[..], nt, s, granted).Success? ==> s.rawPointer + s.rawSize <= |data|
    modifies mem
    ensures status == SectionStatus(old(mem[..]), nt, s, granted)
    ensures mem[..] == if status.Success? then Placed(old(mem[..]), data, s) else old(mem[..])
  {
    var size := SectionSize(mem[..], nt, s);
    if size < s.rawSize {
      return InvalidImageFormat;
    }
    if size == 0 || s.virtualAddress + size > mem.Length || !granted {
      return NoMemory;
    }
    var dest := PageDown(s.virtualAddress);
    assert dest + s.rawSize <= s.virtualAddress + size;
    if s.rawSize != 0 {
      CopyIn(mem, dest, data[s.rawPointer..s.rawPointer + s.rawSize]);
    } else {
      assert Placed(mem[..], data, s) == mem[..];
    }
    return Success;
  }

  method MapSections(mem: array<byte>, data: seq<byte>, nt: nat, base: nat, grants: nat -> bool)
    returns (status: NtStatus)
    requires nt + NT_HEADERS_SIZE <= mem.Length
    requires Mappable(mem[..], data, nt, SectionTable(mem[..], nt), 0, base, grants)
    modifies mem
    ensures Mapping(status, mem[..]) == Mapped(old(mem[..]), data, nt, SectionTable(old(mem[..]), nt), 0, base, grants)
  {
    ghost var goal := Mapped(mem[..], data, nt, SectionTable(mem[..], nt), 0, base, grants);
    status := SectionLoop(mem, data, nt, SectionTable(mem[..], nt), base, grants, goal);
  }

  method SectionLoop(
    mem: array<byte>, data: seq<byte>, nt: nat, table: nat, base: nat, grants: nat -> bool, ghost goal: Mapping)
    returns (status: NtStatus)
    requires nt + NT_HEADERS_SIZE <= mem.Length && AheadOf(goal, mem[..], data, nt, table, 0, base, grants)
    modifies mem
    ensures Mapping(status, mem[..]) == goal
  {
    var i := 0;
    while i < SectionCount(mem[..], nt)
      invariant nt + NT_HEADERS_SIZE <= mem.Length && AheadOf(goal, mem[..], data, nt, table, i, base, grants)
      decreases WORD - i
    {
      status := SectionTurn(mem, data, nt, table, i, base, grants, goal);
      if !status.Success? {
        return;
      }
      i := i + 1;
    }
    MappedNone(mem[..], data, nt, table, i, base, grants);
    status := Success;
  }

  /** What is left of the loop leads to the goal. */
  ghost predicate AheadOf(
    goal: Mapping, m: seq<byte>, data: seq<byte>, nt: nat, table: nat, i: nat, base: nat, grants: nat -> bool) {
    Mappable(m, data, nt, table, i, base, grants) && Mapped(m, data, nt, table, i, base, grants) == goal
  }

  method SectionTurn(
    mem: array<byte>, data: seq<byte>, nt: nat, table: nat, i: nat, base: nat, grants: nat -> bool,
    ghost goal: Mapping) returns (status: NtStatus)
    requires nt + NT_HEADERS_SIZE <= mem.Length && AheadOf(goal, mem[..], data, nt, table, i, base, grants)
    requires i < SectionCount(mem[..], nt)
    modifies mem
    ensures if status.Success? then AheadOf(goal, mem[..], data, nt, table, i + 1, base, grants)
            else Mapping(status, mem[..]) == goal
  {
    SectionStep(mem[..], data, nt, table, i, base, grants);
    status := MapSection(mem, data, nt, SectionIn(mem[..], table, i), grants(i));
  }

  lemma SectionStep(m: seq<byte>, data: seq<byte>, nt: nat, table: nat, i: nat, base: nat, grants: nat -> bool)
    requires nt + NT_HEADERS_SIZE <= |m|
    requires Mappable(m, data, nt, table, i, base, grants) && i < SectionCount(m, nt)
    ensures table + SECTION_HEADER_SIZE * i + SECTION_HEADER_SIZE <= |m|
    ensures var s := SectionIn(m, table, i);
            if SectionStatus(m, nt, s, grants(i)).Success? then
              && s.rawPointer + s.rawSize <= |data| && s.virtualAddress + s.rawSize <= |m|
              && Mappable(Placed(m, data, s), data, nt, table, i + 1, base, grants)
              && Mapped(Placed(m, data, s), data, nt, table, i + 1, base, grants)
                 == Mapped(m, data, nt, table, i, base, grants)
            else
              Mapped(m, data, nt, table, i, base, grants) == Mapping(SectionStatus(m, nt, s, grants(i)), m)
  {
  }

  lemma MappedNone(m: seq<byte>, data: seq<byte>, nt: nat, table: nat, i: nat, base: nat, grants: nat -> bool)
    requires nt + NT_HEADERS_SIZE <= |m|
    requires Mappable(m, data, nt, table, i, base, grants) && i >= SectionCount(m, nt)
    ensures Mapped(m, data, nt, table, i, base, grants) == Mapping(Success, m)
  {
  }

  /** What a load at a base answers and leaves. */
  ghost predicate OutcomeAt(
    data: seq<byte>, nt: nat, base: nat, grants: nat -> bool, status: NtStatus, handle: Option<nat>, m: seq<byte>)
    requires HeadersFit(data, nt) && MappableAt(data, nt, base, grants)
  {
    var m0 := Before(data, nt, base);
    var r := Mapped(m0, data, nt, SectionTable(m0, nt), 0, base, grants);
    && status == r.status
    && handle == (if status.Success? then Some(base) else None)
    && m == if status.Success? then Loaded(r.mem, nt, LocationDelta(Read(data, nt + IMAGE_BASE, 8), base, true))
            else r.mem
  }

  /** The file's headers are whole, and wherever the system puts the image it can be mapped and rebased. */
  ghost predicate Loadable(data: seq<byte>, system: System) {
    HeaderStatus(data).Success? ==>
      && HeadersFit(data, Read(data, E_LFANEW, 4))
      && var base := ReservedBase(data, Read(data, E_LFANEW, 4), system);
         base.Some? ==> MappableAt(data, Read(data, E_LFANEW, 4), base.value, system.grants)
  }

  ghost predicate Outcome(
    data: seq<byte>, system: System, status: NtStatus, handle: Option<nat>, m: seq<byte>)
    requires Loadable(data, system)
  {
    if !HeaderStatus(data).Success? then status == HeaderStatus(data) && handle.None?
    else
      var nt := Read(data, E_LFANEW, 4);
      match ReservedBase(data, nt, system)
      case None => status == NoMemory && handle.None?
      case Some(base) => OutcomeAt(data, nt, base, system.grants, status, handle, m)
  }

  method MemoryLoadLibrary(data: seq<byte>, system: System)
    returns (status: NtStatus, handle: Option<nat>, mem: array<byte>)
    requires Loadable(data, system)
    ensures fresh(mem) && Outcome(data, system, status, handle, mem[..])
  {
    handle, mem := None, new byte[0];
    status := HeaderStatus(data);
    if !status.Success? {
      return;
    }
    var nt := Read(data, E_LFANEW, 4);
    var base := ReservedBase(data, nt, system);
    if base.None? {
      status := NoMemory;
      return;
    }
    status, handle, mem := LoadAt(data, nt, base.value, system.grants);
  }

  /** Headers, sections and rebase at the base that was reserved. */
  method LoadAt(data: seq<byte>, nt: nat, base: nat, grants: nat -> bool)
    returns (status: NtStatus, handle: Option<nat>, mem: array<byte>)
    requires HeadersFit(data, nt) && MappableAt(data, nt, base, grants)
    ensures fresh(mem) && OutcomeAt(data, nt, base, grants, status, handle, mem[..])
  {
    mem := CopyHeaders(data, nt, base);
    status := MapSections(mem, data, nt, base, grants);
    handle := None;
    if status.Success? {
      var delta := LocationDelta(Read(data, nt + IMAGE_BASE, 8), base, true);
      var va, size := Read(mem[..], nt + BASERELOC, 4), Read(mem[..], nt + BASERELOC + 4, 4);
      RelocateBySize(mem, va, size, delta, true);
      handle := Some(base);
    }
  }

  /** The copy of the headers, with the base the image is loaded at. */
  method CopyHeaders(data: seq<byte>, nt: nat, base: nat) returns (mem: array<byte>)
    requires HeadersFit(data, nt)
    ensures fresh(mem) && mem[..] == Before(data, nt, base)
  {
    var headersSize, size := Read(data, nt + SIZE_OF_HEADERS, 4), Reserved(Read(data, nt + SIZE_OF_IMAGE, 4));
    mem := ZeroMemory(size);
    CopyIn(mem, 0, data[..headersSize]);
    StoreWord(mem, nt + IMAGE_BASE, 8, base);
  }

  method ZeroMemory(size: nat) returns (mem: array<byte>)
    ensures fresh(mem) && mem[..] == Repeat<byte>(0, size)
  {
    mem := new byte[size](_ => 0);
  }

  /** A mapped image that is linked at its preferred base is, once loaded, linked at the base it got. */
  lemma LoadedIsLinked(
    m: seq<byte>, linked: seq<byte>, nt: nat, from: nat, base: nat, delta: nat, va: nat, size: nat,
    targets: seq<nat>, template: seq<byte>)
    requires from < QWORD && base < QWORD && delta == LocationDelta(from, base, true)
    requires nt + NT_HEADERS_SIZE <= |m| == |linked|
    requires va == Read(m, nt + BASERELOC, 4) && size == Read(m, nt + BASERELOC + 4, 4)
    requires WellFormed(m, va, size, true)
    requires LinkedImage(m, from, m, va, size, true, targets, template)
    requires LinkedImage(linked, base, m, va, size, true, targets, template)
    ensures RebaseFit(m, nt, delta) && Loaded(m, nt, delta) == linked
  {
    RebasePreservesMeaning(m, linked, from, base, va, size, true, targets, template);
    RebasesToLoaded(m, linked, nt, delta, va, size);
  }

  lemma RebasesToLoaded(m: seq<byte>, linked: seq<byte>, nt: nat, delta: nat, va: nat, size: nat)
    requires nt + NT_HEADERS_SIZE <= |m|
    requires va == Read(m, nt + BASERELOC, 4) && size == Read(m, nt + BASERELOC + 4, 4)
    requires RebasesTo(m, va, size, delta, true, linked)
    ensures RebaseFit(m, nt, delta) && Loaded(m, nt, delta) == linked
  {
  }
}
