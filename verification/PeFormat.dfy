/**
 * How a PE image lays out what the loaders read, written down byte by byte (Microsoft PE Format, "Section Table
 * (Section Headers)", "Optional Header" and "The .reloc Section (Image Only)").
 */
module PeFormat {
  import opened Bytes

  // ---------- Little-endian words ----------

  function Le16(v: nat): (s: seq<byte>)
    ensures |s| == 2
  {
    [v % 256, v / 256 % 256]
  }

  function Le32(v: nat): (s: seq<byte>)
    ensures |s| == 4
  {
    [v % 256, v / 0x100 % 256, v / 0x1_0000 % 256, v / 0x100_0000 % 256]
  }

  function Le64(v: nat): (s: seq<byte>)
    ensures |s| == 8
  {
    Le32(v % 0x1_0000_0000) + Le32(v / 0x1_0000_0000)
  }

  /** The bytes are in memory at address a. */
  predicate At(m: seq<byte>, a: nat, bytes: seq<byte>) {
    a + |bytes| <= |m| && m[a..a + |bytes|] == bytes
  }

  lemma AtByte(m: seq<byte>, a: nat, bytes: seq<byte>, i: nat)
    requires At(m, a, bytes) && i < |bytes|
    ensures m[a + i] == bytes[i]
  {
    assert m[a..a + |bytes|][i] == m[a + i];
  }

  /** What is in memory in one piece is there in parts. */
  lemma AtParts(m: seq<byte>, a: nat, x: seq<byte>, y: seq<byte>)
    requires At(m, a, x + y)
    ensures At(m, a, x) && At(m, a + |x|, y)
  {
    var all := x + y;
    assert m[a..a + |x|] == m[a..a + |all|][..|x|];
    assert m[a + |x|..a + |x| + |y|] == m[a..a + |all|][|x|..];
  }

  lemma ByteOnly(m: seq<byte>, a: nat)
    requires a < |m|
    ensures Read(m, a, 1) == m[a]
  {
    assert Read(m, a + 1, 0) == 0;
  }

  lemma Read16(m: seq<byte>, a: nat, v: nat)
    requires At(m, a, Le16(v)) && v < 0x1_0000
    ensures a + 2 <= |m| && Read(m, a, 2) == v
  {
    AtByte(m, a, Le16(v), 0);
    AtByte(m, a, Le16(v), 1);
    ByteOnly(m, a + 1);
  }

  lemma Read32(m: seq<byte>, a: nat, v: nat)
    requires At(m, a, Le32(v)) && v < 0x1_0000_0000
    ensures a + 4 <= |m| && Read(m, a, 4) == v
  {
    forall i | 0 <= i < 4
      ensures m[a + i] == Le32(v)[i]
    {
      AtByte(m, a, Le32(v), i);
    }
    ByteOnly(m, a + 3);
    assert Read(m, a + 2, 2) == m[a + 2] + 256 * Read(m, a + 3, 1);
    assert Read(m, a + 1, 3) == m[a + 1] + 256 * Read(m, a + 2, 2);
    FourBytes(v);
  }

  lemma FourBytes(v: nat)
    requires v < 0x1_0000_0000
    ensures v == v % 256 + 256 * (v / 0x100 % 256 + 256 * (v / 0x1_0000 % 256 + 256 * (v / 0x100_0000 % 256)))
  {
    assert v / 0x100 / 0x100 == v / 0x1_0000;
    assert v / 0x1_0000 / 0x100 == v / 0x100_0000;
  }

  /** An 8-byte word is two 4-byte words, the low one first. */
  lemma ReadHalves(m: seq<byte>, a: nat)
    requires a + 8 <= |m|
    ensures Read(m, a, 8) == Read(m, a, 4) + 0x1_0000_0000 * Read(m, a + 4, 4)
  {
    assert Read(m, a, 8) == m[a] + 256 * Read(m, a + 1, 7);
    assert Read(m, a + 1, 7) == m[a + 1] + 256 * Read(m, a + 2, 6);
    assert Read(m, a + 2, 6) == m[a + 2] + 256 * Read(m, a + 3, 5);
    assert Read(m, a + 3, 5) == m[a + 3] + 256 * Read(m, a + 4, 4);
    ReadFour(m, a);
  }

  lemma ReadFour(m: seq<byte>, a: nat)
    requires a + 4 <= |m|
    ensures Read(m, a, 4) == m[a] as nat + 256 * (m[a + 1] as nat + 256 * (m[a + 2] as nat + 256 * (m[a + 3] as nat)))
  {
    assert Read(m, a + 1, 3) == m[a + 1] + 256 * Read(m, a + 2, 2);
    assert Read(m, a + 2, 2) == m[a + 2] + 256 * Read(m, a + 3, 1);
    ByteOnly(m, a + 3);
  }

  lemma Read64(m: seq<byte>, a: nat, v: nat)
    requires At(m, a, Le64(v)) && v < 0x1_0000_0000_0000_0000
    ensures a + 8 <= |m| && Read(m, a, 8) == v
  {
    var low, high := v % 0x1_0000_0000, v / 0x1_0000_0000;
    AtParts(m, a, Le32(low), Le32(high));
    Read32(m, a, low);
    Read32(m, a + 4, high);
    ReadHalves(m, a);
  }

  /** The bytes of a word are those of its value. */
  lemma WordBytes(m: seq<byte>, a: nat, v: nat)
    requires a + 4 <= |m| && v < 0x1_0000_0000 && Read(m, a, 4) == v
    ensures At(m, a, Le32(v))
  {
    var m1 := m[..a] + Le32(v) + m[a + 4..];
    assert At(m1, a, Le32(v));
    Read32(m1, a, v);
    ReadInjective(m, m1, a, 4);
  }

  lemma QwordBytes(m: seq<byte>, a: nat, v: nat)
    requires a + 8 <= |m| && v < 0x1_0000_0000_0000_0000 && Read(m, a, 8) == v
    ensures At(m, a, Le64(v))
  {
    var m1 := m[..a] + Le64(v) + m[a + 8..];
    assert At(m1, a, Le64(v));
    Read64(m1, a, v);
    ReadInjective(m, m1, a, 8);
  }

  // ---------- The base relocation directory ----------

  /** A relocation entry: its type, and its offset within the block's page. */
  datatype Entry = Entry(kind: nat, offset: nat)

  datatype Block = Block(page: nat, entries: seq<Entry>)

  /** Every number fits its field. */
  predicate Writable(b: Block) {
    && b.page < 0x1_0000_0000 && 8 + 2 * |b.entries| < 0x1_0000_0000
    && (forall i :: 0 <= i < |b.entries| ==> b.entries[i].kind < 16 && b.entries[i].offset < 4096)
  }

  predicate AllWritable(blocks: seq<Block>) {
    forall i :: 0 <= i < |blocks| ==> Writable(blocks[i])
  }

  /** The first n entries: the type in the high 4 bits, the offset in the low 12. */
  function EntryBytes(entries: seq<Entry>, n: nat): (s: seq<byte>)
    requires n <= |entries|
    ensures |s| == 2 * n
  {
    if n == 0 then [] else EntryBytes(entries, n - 1) + Le16(entries[n - 1].kind * 4096 + entries[n - 1].offset)
  }

  /** Page RVA, block size, entries. */
  function BlockBytes(b: Block): (s: seq<byte>)
    ensures |s| == 8 + 2 * |b.entries|
  {
    Le32(b.page) + Le32(8 + 2 * |b.entries|) + EntryBytes(b.entries, |b.entries|)
  }

  function DirectoryBytes(blocks: seq<Block>): (s: seq<byte>)
    ensures |s| == 0 <==> |blocks| == 0
  {
    if |blocks| == 0 then [] else BlockBytes(blocks[0]) + DirectoryBytes(blocks[1..])
  }

  // ---------- The headers of an image file ----------

  datatype SectionHeader = SectionHeader(
    name: seq<byte>, virtualSize: nat, virtualAddress: nat, rawSize: nat, rawPointer: nat, rest: seq<byte>)

  /** The headers of a 64-bit image file.  The fields the loader looks at are numbers and flags; what lies between
      them is given as bytes. */
  datatype ImageHeaders = ImageHeaders(
    dos: seq<byte>, stub: seq<byte>,
    machine: nat, stamps: seq<byte>, otherTraits: nat, dll: bool, highTraits: nat,
    standard: seq<byte>, imageBase: nat, sectionAlignment: nat, versions: seq<byte>,
    sizeOfImage: nat, sizeOfHeaders: nat, checks: seq<byte>, lowDllTraits: nat, dynamicBase: bool, highDllTraits: nat,
    limits: seq<byte>, firstDirectories: seq<byte>, relocVa: nat, relocSize: nat, lastDirectories: seq<byte>,
    gap: seq<byte>, sections: seq<SectionHeader>)

  predicate SectionShaped(s: SectionHeader) {
    && |s.name| == 8 && |s.rest| == 16
    && s.virtualSize < 0x1_0000_0000 && s.virtualAddress < 0x1_0000_0000
    && s.rawSize < 0x1_0000_0000 && s.rawPointer < 0x1_0000_0000
  }

  /** Every number fits its field, and the bytes between them are as many as there are. */
  predicate Shaped(h: ImageHeaders) {
    && |h.dos| == 58 && 64 + |h.stub| < 0x1_0000_0000
    && h.machine < 0x1_0000 && |h.stamps| == 12 && h.otherTraits < 0x2000 && h.highTraits < 4
    && |h.standard| == 24 && h.imageBase < 0x1_0000_0000_0000_0000 && h.sectionAlignment < 0x1_0000_0000
    && |h.versions| == 20 && h.sizeOfImage < 0x1_0000_0000 && h.sizeOfHeaders < 0x1_0000_0000
    && |h.checks| == 6 && h.lowDllTraits < 0x40 && h.highDllTraits < 0x200
    && |h.limits| == 40 && |h.firstDirectories| == 40 && |h.lastDirectories| == 80
    && h.relocVa < 0x1_0000_0000 && h.relocSize < 0x1_0000_0000
    && 240 + |h.gap| < 0x1_0000 && |h.sections| < 0x1_0000
    && (forall i :: 0 <= i < |h.sections| ==> SectionShaped(h.sections[i]))
  }

  /** Name, VirtualSize, VirtualAddress, SizeOfRawData, PointerToRawData, and the rest. */
  function SectionBytes(s: SectionHeader): (b: seq<byte>)
    requires SectionShaped(s)
    ensures |b| == 40
  {
    s.name + (Le32(s.virtualSize) + Le32(s.virtualAddress) + Le32(s.rawSize) + Le32(s.rawPointer)) + s.rest
  }

  function TableBytes(sections: seq<SectionHeader>, n: nat): (b: seq<byte>)
    requires n <= |sections| && forall i :: 0 <= i < |sections| ==> SectionShaped(sections[i])
    ensures |b| == 40 * n
  {
    if n == 0 then [] else TableBytes(sections, n - 1) + SectionBytes(sections[n - 1])
  }

  /** "MZ", and at 0x3C where the image headers are. */
  function DosBytes(h: ImageHeaders): (b: seq<byte>)
    requires Shaped(h)
    ensures |b| == 64 + |h.stub|
  {
    [0x4D, 0x5A] + h.dos + Le32(64 + |h.stub|) + h.stub
  }

  /** "PE", Machine, NumberOfSections, SizeOfOptionalHeader, Characteristics. */
  function FileBytes(h: ImageHeaders): (b: seq<byte>)
    requires Shaped(h)
    ensures |b| == 24
  {
    [0x50, 0x45, 0, 0] + (Le16(h.machine) + Le16(|h.sections|)) + h.stamps
    + (Le16(240 + |h.gap|) + Le16(h.otherTraits + (if h.dll then 0x2000 else 0) + 0x4000 * h.highTraits))
  }

  /** The optional header up to SectionAlignment: ImageBase at 24, SectionAlignment at 32. */
  function BaseBytes(h: ImageHeaders): (b: seq<byte>)
    requires Shaped(h)
    ensures |b| == 36
  {
    h.standard + Le64(h.imageBase) + Le32(h.sectionAlignment)
  }

  /** SizeOfImage, SizeOfHeaders, DllCharacteristics. */
  function SizeBytes(h: ImageHeaders): (b: seq<byte>)
    requires Shaped(h)
    ensures |b| == 36
  {
    h.versions + (Le32(h.sizeOfImage) + Le32(h.sizeOfHeaders)) + h.checks
    + Le16(h.lowDllTraits + (if h.dynamicBase then 0x40 else 0) + 0x80 * h.highDllTraits)
  }

  /** The limits and the sixteen data directories, the base relocations being the sixth. */
  function DirectoriesBytes(h: ImageHeaders): (b: seq<byte>)
    requires Shaped(h)
    ensures |b| == 168
  {
    h.limits + h.firstDirectories + (Le32(h.relocVa) + Le32(h.relocSize)) + h.lastDirectories
  }

  /** All headers, up to the end of the section table. */
  function HeaderBytes(h: ImageHeaders): (b: seq<byte>)
    requires Shaped(h)
    ensures |b| == 328 + |h.stub| + |h.gap| + 40 * |h.sections|
  {
    DosBytes(h) + FileBytes(h) + BaseBytes(h) + SizeBytes(h) + DirectoriesBytes(h) + h.gap
    + TableBytes(h.sections, |h.sections|)
  }
}
