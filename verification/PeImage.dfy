/**
 * What the memory loader makes of an image file whose headers were written as the PE format says.
 */
module PeImage {
  import opened Alignment
  import opened Bytes
  import opened PeFormat
  import opened Wrappers
  import I = ImageMapping
  import P = PeRelocations
  import R = Relocation
  import Rebase

  // ---------- Where the fields are ----------

  /** The parts of the headers, in their order. */
  lemma HeaderParts(data: seq<byte>, h: ImageHeaders, nt: nat, table: nat)
    requires Shaped(h) && At(data, 0, HeaderBytes(h)) && nt == 64 + |h.stub| && table == nt + 264 + |h.gap|
    ensures At(data, 0, DosBytes(h)) && At(data, nt, FileBytes(h)) && At(data, nt + 24, BaseBytes(h))
    ensures At(data, nt + 60, SizeBytes(h)) && At(data, nt + 96, DirectoriesBytes(h))
    ensures At(data, table, TableBytes(h.sections, |h.sections|))
  {
    PartsInOrder(data, nt, nt + 24, nt + 60, nt + 96, nt + 264, table, DosBytes(h), FileBytes(h), BaseBytes(h),
                 SizeBytes(h), DirectoriesBytes(h), h.gap, TableBytes(h.sections, |h.sections|));
  }

  lemma PartsInOrder(
    data: seq<byte>, p1: nat, p2: nat, p3: nat, p4: nat, p5: nat, p6: nat,
    a: seq<byte>, b: seq<byte>, c: seq<byte>, d: seq<byte>, e: seq<byte>, f: seq<byte>, g: seq<byte>)
    requires At(data, 0, a + b + c + d + e + f + g) && p1 == |a| && p2 == p1 + |b| && p3 == p2 + |c|
    requires p4 == p3 + |d| && p5 == p4 + |e| && p6 == p5 + |f|
    ensures At(data, 0, a) && At(data, p1, b) && At(data, p2, c) && At(data, p3, d) && At(data, p4, e)
    ensures At(data, p6, g)
  {
    AtParts(data, 0, a + b + c + d + e + f, g);
    AtParts(data, 0, a + b + c + d + e, f);
    AtParts(data, 0, a + b + c + d, e);
    AtParts(data, 0, a + b + c, d);
    AtParts(data, 0, a + b, c);
    AtParts(data, 0, a, b);
  }

  lemma DosRead(data: seq<byte>, h: ImageHeaders)
    requires Shaped(h) && At(data, 0, DosBytes(h))
    ensures |data| >= 64 && Read(data, 0, 2) == 0x5A4D && Read(data, 0x3C, 4) == 64 + |h.stub|
  {
    var magic: seq<byte> := [0x4D, 0x5A];
    AtParts(data, 0, magic + h.dos + Le32(64 + |h.stub|), h.stub);
    AtParts(data, 0, magic + h.dos, Le32(64 + |h.stub|));
    AtParts(data, 0, magic, h.dos);
    DosMagic();
    Read16(data, 0, 0x5A4D);
    Read32(data, 0x3C, 64 + |h.stub|);
  }

  lemma FileRead(data: seq<byte>, h: ImageHeaders, nt: nat)
    requires Shaped(h) && At(data, nt, FileBytes(h))
    ensures nt + 24 <= |data|
    ensures Read(data, nt, 4) == 0x4550
    ensures Read(data, nt + 4, 2) == h.machine && Read(data, nt + 6, 2) == |h.sections|
    ensures Read(data, nt + 20, 2) == 240 + |h.gap|
    ensures Read(data, nt + 22, 2) == h.otherTraits + (if h.dll then 0x2000 else 0) + 0x4000 * h.highTraits
  {
    var magic: seq<byte> := [0x50, 0x45, 0, 0];
    var traits := h.otherTraits + (if h.dll then 0x2000 else 0) + 0x4000 * h.highTraits;
    var counts, sizes := Le16(h.machine) + Le16(|h.sections|), Le16(240 + |h.gap|) + Le16(traits);
    AtParts(data, nt, magic + counts + h.stamps, sizes);
    AtParts(data, nt, magic + counts, h.stamps);
    AtParts(data, nt, magic, counts);
    AtParts(data, nt + 4, Le16(h.machine), Le16(|h.sections|));
    AtParts(data, nt + 20, Le16(240 + |h.gap|), Le16(traits));
    NtMagic();
    Read32(data, nt, 0x4550);
    Read16(data, nt + 4, h.machine);
    Read16(data, nt + 6, |h.sections|);
    Read16(data, nt + 20, 240 + |h.gap|);
    Read16(data, nt + 22, traits);
  }

  lemma BaseRead(data: seq<byte>, h: ImageHeaders, nt: nat)
    requires Shaped(h) && At(data, nt + 24, BaseBytes(h))
    ensures nt + 60 <= |data|
    ensures Read(data, nt + 48, 8) == h.imageBase && Read(data, nt + 56, 4) == h.sectionAlignment
  {
    AtParts(data, nt + 24, h.standard + Le64(h.imageBase), Le32(h.sectionAlignment));
    AtParts(data, nt + 24, h.standard, Le64(h.imageBase));
    Read64(data, nt + 48, h.imageBase);
    Read32(data, nt + 56, h.sectionAlignment);
  }

  lemma SizeRead(data: seq<byte>, h: ImageHeaders, nt: nat)
    requires Shaped(h) && At(data, nt + 60, SizeBytes(h))
    ensures nt + 96 <= |data|
    ensures Read(data, nt + 80, 4) == h.sizeOfImage && Read(data, nt + 84, 4) == h.sizeOfHeaders
    ensures Read(data, nt + 94, 2) == h.lowDllTraits + (if h.dynamicBase then 0x40 else 0) + 0x80 * h.highDllTraits
  {
    var traits := h.lowDllTraits + (if h.dynamicBase then 0x40 else 0) + 0x80 * h.highDllTraits;
    var sizes := Le32(h.sizeOfImage) + Le32(h.sizeOfHeaders);
    AtParts(data, nt + 60, h.versions + sizes + h.checks, Le16(traits));
    AtParts(data, nt + 60, h.versions + sizes, h.checks);
    AtParts(data, nt + 60, h.versions, sizes);
    AtParts(data, nt + 80, Le32(h.sizeOfImage), Le32(h.sizeOfHeaders));
    Read32(data, nt + 80, h.sizeOfImage);
    Read32(data, nt + 84, h.sizeOfHeaders);
    Read16(data, nt + 94, traits);
  }

  lemma DirectoriesRead(data: seq<byte>, h: ImageHeaders, nt: nat)
    requires Shaped(h) && At(data, nt + 96, DirectoriesBytes(h))
    ensures nt + 264 <= |data|
    ensures Read(data, nt + 176, 4) == h.relocVa && Read(data, nt + 180, 4) == h.relocSize
  {
    var reloc := Le32(h.relocVa) + Le32(h.relocSize);
    AtParts(data, nt + 96, h.limits + h.firstDirectories + reloc, h.lastDirectories);
    AtParts(data, nt + 96, h.limits + h.firstDirectories, reloc);
    AtParts(data, nt + 176, Le32(h.relocVa), Le32(h.relocSize));
    Read32(data, nt + 176, h.relocVa);
    Read32(data, nt + 180, h.relocSize);
  }

  /** The section as the loader has it. */
  function SectionOf(s: SectionHeader): I.Section {
    I.Section(s.virtualSize, s.virtualAddress, s.rawSize, s.rawPointer)
  }

  lemma SectionRead(m: seq<byte>, at: nat, s: SectionHeader)
    requires SectionShaped(s) && At(m, at, SectionBytes(s))
    ensures at + 40 <= |m|
    ensures Read(m, at + 8, 4) == s.virtualSize && Read(m, at + 12, 4) == s.virtualAddress
    ensures Read(m, at + 16, 4) == s.rawSize && Read(m, at + 20, 4) == s.rawPointer
  {
    var v, va, raw, p := Le32(s.virtualSize), Le32(s.virtualAddress), Le32(s.rawSize), Le32(s.rawPointer);
    AtParts(m, at, s.name + (v + va + raw + p), s.rest);
    AtParts(m, at, s.name, v + va + raw + p);
    AtParts(m, at + 8, v + va + raw, p);
    AtParts(m, at + 8, v + va, raw);
    AtParts(m, at + 8, v, va);
    Read32(m, at + 8, s.virtualSize);
    Read32(m, at + 12, s.virtualAddress);
    Read32(m, at + 16, s.rawSize);
    Read32(m, at + 20, s.rawPointer);
  }

  lemma {:induction false} TableRead(m: seq<byte>, table: nat, sections: seq<SectionHeader>, n: nat, i: nat)
    requires i < n <= |sections| && forall k :: 0 <= k < |sections| ==> SectionShaped(sections[k])
    requires At(m, table, TableBytes(sections, n))
    ensures table + 40 * i + 40 <= |m| && At(m, table + 40 * i, SectionBytes(sections[i]))
  {
    AtParts(m, table, TableBytes(sections, n - 1), SectionBytes(sections[n - 1]));
    if i < n - 1 {
      TableRead(m, table, sections, n - 1, i);
    }
  }

  /** The loader finds in the section table the sections that were written there. */
  lemma SectionsRead(m: seq<byte>, table: nat, sections: seq<SectionHeader>, i: nat)
    requires i < |sections| && forall k :: 0 <= k < |sections| ==> SectionShaped(sections[k])
    requires At(m, table, TableBytes(sections, |sections|))
    ensures table + 40 * i + 40 <= |m| && I.SectionIn(m, table, i) == SectionOf(sections[i])
  {
    var at := table + 40 * i;
    TableRead(m, table, sections, |sections|, i);
    SectionRead(m, at, sections[i]);
    SectionAt(m, table, i, at, SectionOf(sections[i]));
  }

  lemma SectionAt(m: seq<byte>, table: nat, i: nat, at: nat, s: I.Section)
    requires at == table + 40 * i && at + 40 <= |m|
    requires Read(m, at + 8, 4) == s.virtualSize && Read(m, at + 12, 4) == s.virtualAddress
    requires Read(m, at + 16, 4) == s.rawSize && Read(m, at + 20, 4) == s.rawPointer
    ensures I.SectionIn(m, table, i) == s
  {
  }

  // ---------- The checks ----------

  lemma FlagRead(low: nat, flag: nat, set': bool, high: nat)
    requires flag > 0 && low < flag
    ensures I.HasFlag(low + (if set' then flag else 0) + 2 * flag * high, flag) <==> set'
  {
    var q := (if set' then 1 else 0) + 2 * high;
    assert low + (if set' then flag else 0) + 2 * flag * high == flag * q + low by {
      Distribute(flag, if set' then 1 else 0, 2 * high);
      assert flag * (2 * high) == 2 * flag * high;
    }
    ModUnique(flag, q, low);
  }

  /** The parameter checks on a file with these headers: the alignment has to be even, the machine x64, and the
      image a DLL. */
  lemma ChecksOfHeaders(data: seq<byte>, h: ImageHeaders)
    requires Shaped(h) && At(data, 0, HeaderBytes(h))
    ensures I.HeaderStatus(data) ==
              if h.sectionAlignment % 2 == 1 then InvalidImageFormat
              else if h.machine != 0x8664 then MachineTypeMismatch
              else if !h.dll then NotSupported
              else Success
  {
    var nt := 64 + |h.stub|;
    HeaderParts(data, h, nt, nt + 264 + |h.gap|);
    DosRead(data, h);
    FileRead(data, h, nt);
    BaseRead(data, h, nt);
    FlagRead(h.otherTraits, 0x2000, h.dll, h.highTraits);
    ChecksOfFields(data, nt, h.sectionAlignment, h.machine, h.dll);
  }

  lemma ChecksOfFields(data: seq<byte>, nt: nat, alignment: nat, machine: nat, dll: bool)
    requires 64 <= |data| && nt + 60 <= |data| && Read(data, 0, 2) == 0x5A4D && Read(data, 0x3C, 4) == nt
    requires Read(data, nt, 4) == 0x4550 && Read(data, nt + 56, 4) == alignment && Read(data, nt + 4, 2) == machine
    requires I.HasFlag(Read(data, nt + 22, 2), 0x2000) <==> dll
    ensures I.HeaderStatus(data) ==
              if alignment % 2 == 1 then InvalidImageFormat
              else if machine != 0x8664 then MachineTypeMismatch
              else if !dll then NotSupported
              else Success
  {
  }

  /** A file that is cut off faults if and only if it ends before SectionAlignment does; what comes later is not
      looked at. */
  lemma ChecksOfTruncated(data: seq<byte>, h: ImageHeaders, n: nat)
    requires Shaped(h) && At(data, 0, HeaderBytes(h)) && n <= |data|
    ensures I.HeaderStatus(data[..n]) ==
              if n < 64 + |h.stub| + 60 then AccessViolation else I.HeaderStatus(data)
  {
    var nt, cut := 64 + |h.stub|, data[..n];
    HeaderParts(data, h, nt, nt + 264 + |h.gap|);
    DosRead(data, h);
    FileRead(data, h, nt);
    if n >= 2 {
      ReadSame(cut, data, 0, 2);
    }
    if n >= 64 {
      ReadSame(cut, data, 0x3C, 4);
    }
    if n >= nt + 4 {
      ReadSame(cut, data, nt, 4);
    }
    if n >= nt + 60 {
      ReadSame(cut, data, nt + 56, 4);
      ReadSame(cut, data, nt + 4, 2);
      ReadSame(cut, data, nt + 22, 2);
    }
  }

  /** A file that does not begin with "MZ" is malformed. */
  lemma ChecksOfDosSignature(data: seq<byte>)
    requires |data| >= 2 && data[..2] != [0x4D, 0x5A]
    ensures I.HeaderStatus(data) == InvalidImageFormat
  {
    SignatureRead(data);
  }

  lemma SignatureRead(data: seq<byte>)
    requires |data| >= 2
    ensures Read(data, 0, 2) == 0x5A4D <==> data[..2] == [0x4D, 0x5A]
  {
    ByteOnly(data, 1);
  }

  /** So is one that does, and has no "PE" where its word at 0x3C points. */
  lemma ChecksOfNtSignature(data: seq<byte>, nt: nat)
    requires 64 <= |data| && data[..2] == [0x4D, 0x5A] && Read(data, 0x3C, 4) == nt
    requires nt + 4 <= |data| && data[nt..nt + 4] != [0x50, 0x45, 0, 0]
    ensures I.HeaderStatus(data) == InvalidImageFormat
  {
    if Read(data, nt, 4) == 0x4550 {
      WordBytes(data, nt, 0x4550);
      NtMagic();
    }
  }

  lemma DosMagic()
    ensures Le16(0x5A4D) == [0x4D, 0x5A]
  {
  }

  lemma NtMagic()
    ensures Le32(0x4550) == [0x50, 0x45, 0, 0]
  {
  }

  /** An image without DYNAMIC_BASE is tried at its preferred address, and any image may be put elsewhere. */
  lemma BaseOfHeaders(data: seq<byte>, h: ImageHeaders, system: I.System)
    requires Shaped(h) && At(data, 0, HeaderBytes(h))
    ensures 64 + |h.stub| + 264 <= |data|
    ensures I.ReservedBase(data, 64 + |h.stub|, system) ==
              if !h.dynamicBase && system.preferred.Some? then system.preferred else system.anywhere
  {
    var nt := 64 + |h.stub|;
    HeaderParts(data, h, nt, nt + 264 + |h.gap|);
    SizeRead(data, h, nt);
    FlagRead(h.lowDllTraits, 0x40, h.dynamicBase, h.highDllTraits);
  }
}
