/**
  Serialising segments into an ELF file: header with placeholders, string table, segment
  data, program headers, section headers, and the four fields patched afterwards.
*/
module ElfImage {
  import opened Bytes
  import opened ElfScan

  const DATA_START: nat := 68
  const MAGIC: seq<byte> := [0x7f, 0x45, 0x4c, 0x46, 2, 1, 1, 0, 0, 0, 0, 0, 0, 0, 0, 0]

  // ---------------------------------------------------------------- headers

  datatype ProgramHeader = ProgramHeader(kind: nat, flags: nat, offset: nat, vaddr: nat, paddr: nat, filesz: nat,
                                         memsz: nat, align: nat) {
    function Bytes(): (r: seq<byte>)
      ensures |r| == 56
    {
      Le(kind, 4) + Le(flags, 4) + Le(offset, 8) + Le(vaddr, 8) + Le(paddr, 8) + Le(filesz, 8) + Le(memsz, 8)
      + Le(align, 8)
    }
  }

  datatype SectionHeader = SectionHeader(name: nat, kind: nat, flags: nat, addr: nat, offset: nat, size: nat,
                                         link: nat, info: nat, align: nat, entsize: nat) {
    function Bytes(): (r: seq<byte>)
      ensures |r| == 64
    {
      Le(name, 4) + Le(kind, 4) + Le(flags, 8) + Le(addr, 8) + Le(offset, 8) + Le(size, 8) + Le(link, 4)
      + Le(info, 4) + Le(align, 8) + Le(entsize, 8)
    }
  }

  const STRING_TABLE: SectionHeader := SectionHeader(0, 3, 0, 0, 64, 4, 0, 0, 1, 0)

  function SegmentHeader(s: Segment, offset: nat): ProgramHeader {
    ProgramHeader(1, if s.executable then 5 else 6, offset, s.start, s.start, |s.data|, |s.data|, 0x1000)
  }

  function CodeSection(s: Segment, offset: nat): SectionHeader {
    SectionHeader(0, 1, 6, s.start, offset, |s.data|, 0, 0, 2, 0)
  }

  // ---------------------------------------------------------------- layout

  /** The segments' data, back to back. */
  function Data(segs: seq<Segment>): seq<byte> {
    if segs == [] then [] else Data(segs[..|segs| - 1]) + segs[|segs| - 1].data
  }

  function ProgramHeaders(segs: seq<Segment>): seq<ProgramHeader> {
    if segs == [] then []
    else
      var init := segs[..|segs| - 1];
      ProgramHeaders(init) + [SegmentHeader(segs[|segs| - 1], DATA_START + |Data(init)|)]
  }

  /** The string table's header, then one per executable segment. */
  function SectionHeaders(segs: seq<Segment>): seq<SectionHeader> {
    if segs == [] then [STRING_TABLE]
    else
      var init, s := segs[..|segs| - 1], segs[|segs| - 1];
      SectionHeaders(init) + if s.executable then [CodeSection(s, DATA_START + |Data(init)|)] else []
  }

  function ProgramTable(hs: seq<ProgramHeader>): seq<byte> {
    if hs == [] then [] else ProgramTable(hs[..|hs| - 1]) + hs[|hs| - 1].Bytes()
  }

  function SectionTable(hs: seq<SectionHeader>): seq<byte> {
    if hs == [] then [] else SectionTable(hs[..|hs| - 1]) + hs[|hs| - 1].Bytes()
  }

  /** e_ident up to e_entry. */
  function Ident(entry: nat): (r: seq<byte>)
    ensures |r| == 32
  {
    MAGIC + Le(2, 2) + Le(243, 2) + Le(1, 4) + Le(entry, 8)
  }

  /** The 64-byte ELF header with the given values in the four patched fields. */
  function Header(entry: nat, phoff: nat, shoff: nat, phnum: nat, shnum: nat): (r: seq<byte>)
    ensures |r| == 64
  {
    Ident(entry) + Le(phoff, 8) + Le(shoff, 8) + Le(1, 4) + Le(64, 2) + Le(56, 2) + Le(phnum, 2) + Le(64, 2)
    + Le(shnum, 2) + Le(0, 2)
  }

  /** Zeros up to the next multiple of four. */
  function Padded(s: seq<byte>): seq<byte> { s + Zeros((4 - |s| % 4) % 4) }

  /** What follows the header, up to the program headers, the section headers, and to the end. */
  function BeforeProgramTable(segs: seq<Segment>): seq<byte> { Padded(Zeros(4) + Data(segs)) }

  function BeforeSectionTable(segs: seq<Segment>): seq<byte> {
    Padded(BeforeProgramTable(segs) + ProgramTable(ProgramHeaders(segs)))
  }

  function ElfBytes(segs: seq<Segment>, entry: nat): seq<byte> {
    Header(entry, 64 + |BeforeProgramTable(segs)|, 64 + |BeforeSectionTable(segs)|, |segs|, |SectionHeaders(segs)|)
    + (BeforeSectionTable(segs) + SectionTable(SectionHeaders(segs)))
  }

  // ---------------------------------------------------------------- the dumper's writer

  ghost predicate IsElf(elf: seq<byte>, segs: seq<Segment>, entry: nat) {
    elf == ElfBytes(segs, entry)
  }

  method BuildElf(segs: seq<Segment>, entry: nat) returns (elf: seq<byte>)
    ensures IsElf(elf, segs, entry)
  {
    var header := StartElf(entry);
    elf := PutBody(header, segs);
    FilledIsElf(segs, entry);
  }

  /** A file whose header placeholders were patched after the body was laid out. */
  function Filled(header: seq<byte>, segs: seq<Segment>): seq<byte>
    requires |header| == 64
  {
    PatchSectionFields(PatchProgramFields(header, 64 + |BeforeProgramTable(segs)|, |ProgramHeaders(segs)|),
                       64 + |BeforeSectionTable(segs)|, |SectionHeaders(segs)|)
    + (BeforeSectionTable(segs) + SectionTable(SectionHeaders(segs)))
  }

  method PutBody(header: seq<byte>, segs: seq<Segment>) returns (elf: seq<byte>)
    requires |header| == 64
    ensures elf == Filled(header, segs)
  {
    var programHeaders, sectionHeaders;
    elf, programHeaders, sectionHeaders := PutData(header, segs);
    ghost var before := BeforeProgramTable(segs);
    elf := PutProgramHeaders(elf, programHeaders, header, before);
    elf := Pad(elf);
    ghost var header1 := PatchProgramFields(header, 64 + |before|, |programHeaders|);
    PadAfterHeader(header1, before + ProgramTable(programHeaders));
    elf := PutSectionHeaders(elf, sectionHeaders, header1, BeforeSectionTable(segs));
  }

  /** String table, segment data and padding. */
  method PutData(header: seq<byte>, segs: seq<Segment>)
      returns (elf: seq<byte>, programHeaders: seq<ProgramHeader>, sectionHeaders: seq<SectionHeader>)
    requires |header| == 64
    ensures elf == header + BeforeProgramTable(segs)
    ensures programHeaders == ProgramHeaders(segs) && sectionHeaders == SectionHeaders(segs)
  {
    elf, programHeaders, sectionHeaders := PutSegments(header + Le(0, 4), segs);
    elf := Pad(elf);
    StringTableIsZeros(header, Data(segs));
    PadAfterHeader(header, Zeros(4) + Data(segs));
  }

  /** The ELF header with zeros for the fields that are patched later. */
  method StartElf(entry: nat) returns (elf: seq<byte>)
    ensures elf == Header(entry, 0, 0, 0, 0)
  {
    elf := MAGIC;
    elf := elf + Le(2, 2);
    elf := elf + Le(243, 2);
    elf := elf + Le(1, 4);
    elf := elf + Le(entry, 8);
    elf := elf + Le(0, 8);
    elf := elf + Le(0, 8);
    elf := elf + Le(1, 4);
    elf := elf + Le(64, 2);
    elf := elf + Le(56, 2);
    elf := elf + Le(0, 2);
    elf := elf + Le(64, 2);
    elf := elf + Le(0, 2);
    elf := elf + Le(0, 2);
  }

  /** Append each segment's data, collecting the headers that describe it. */
  method PutSegments(elf0: seq<byte>, segs: seq<Segment>)
      returns (elf: seq<byte>, programHeaders: seq<ProgramHeader>, sectionHeaders: seq<SectionHeader>)
    requires |elf0| == DATA_START
    ensures elf == elf0 + Data(segs)
    ensures programHeaders == ProgramHeaders(segs) && sectionHeaders == SectionHeaders(segs)
  {
    elf, programHeaders, sectionHeaders := elf0, [], [STRING_TABLE];
    for i := 0 to |segs|
      invariant elf == elf0 + Data(segs[..i])
      invariant programHeaders == ProgramHeaders(segs[..i]) && sectionHeaders == SectionHeaders(segs[..i])
    {
      assert segs[..i + 1][..i] == segs[..i];
      var currentOffset := |elf|;
      elf := elf + segs[i].data;
      programHeaders := programHeaders + [SegmentHeader(segs[i], currentOffset)];
      if segs[i].executable {
        sectionHeaders := sectionHeaders + [CodeSection(segs[i], currentOffset)];
      }
    }
    assert segs[..|segs|] == segs;
  }

  method Pad(elf0: seq<byte>) returns (elf: seq<byte>)
    ensures elf == Padded(elf0)
  {
    elf := elf0;
    ghost var added := 0;
    while |elf| % 4 != 0
      invariant 0 <= added <= (4 - |elf0| % 4) % 4
      invariant elf == elf0 + Zeros(added)
      decreases 4 - added
    {
      assert Zeros(added) + [0] == Zeros(added + 1);
      elf := elf + [0];
      added := added + 1;
    }
  }

  /** Overwrite in place: the dumper's `write_u64` and `write_u16` into a slice of the file. */
  function Patch(elf: seq<byte>, at: nat, bytes: seq<byte>): seq<byte>
    requires at + |bytes| <= |elf|
  {
    elf[..at] + bytes + elf[at + |bytes|..]
  }

  function PatchProgramFields(header: seq<byte>, phoff: nat, phnum: nat): (r: seq<byte>)
    requires |header| >= 64
    ensures |r| == |header|
  {
    Patch(Patch(header, 32, Le(phoff, 8)), 56, Le(phnum, 2))
  }

  function PatchSectionFields(header: seq<byte>, shoff: nat, shnum: nat): (r: seq<byte>)
    requires |header| >= 64
    ensures |r| == |header|
  {
    Patch(Patch(header, 40, Le(shoff, 8)), 60, Le(shnum, 2))
  }

  /** Back-patch e_phoff and e_phnum, then append the program headers. */
  method PutProgramHeaders(elf0: seq<byte>, headers: seq<ProgramHeader>, ghost header: seq<byte>,
                           ghost rest: seq<byte>) returns (elf: seq<byte>)
    requires |header| == 64 && elf0 == header + rest
    ensures elf == PatchProgramFields(header, 64 + |rest|, |headers|) + (rest + ProgramTable(headers))
  {
    var currentOffset := |elf0|;
    PatchBeforeRest(header, 32, Le(currentOffset, 8), rest);
    elf := Patch(elf0, 32, Le(currentOffset, 8));
    PatchBeforeRest(Patch(header, 32, Le(currentOffset, 8)), 56, Le(|headers|, 2), rest);
    elf := Patch(elf, 56, Le(|headers|, 2));
    elf := AppendProgramTable(elf, headers);
  }

  method AppendProgramTable(elf0: seq<byte>, headers: seq<ProgramHeader>) returns (elf: seq<byte>)
    ensures elf == elf0 + ProgramTable(headers)
  {
    elf := elf0;
    for i := 0 to |headers|
      invariant elf == elf0 + ProgramTable(headers[..i])
    {
      assert headers[..i + 1][..i] == headers[..i];
      elf := elf + headers[i].Bytes();
    }
    assert headers[..|headers|] == headers;
  }

  /** Back-patch e_shoff and e_shnum, then append the section headers. */
  method PutSectionHeaders(elf0: seq<byte>, headers: seq<SectionHeader>, ghost header: seq<byte>,
                           ghost rest: seq<byte>) returns (elf: seq<byte>)
    requires |header| == 64 && elf0 == header + rest
    ensures elf == PatchSectionFields(header, 64 + |rest|, |headers|) + (rest + SectionTable(headers))
  {
    var currentOffset := |elf0|;
    PatchBeforeRest(header, 40, Le(currentOffset, 8), rest);
    elf := Patch(elf0, 40, Le(currentOffset, 8));
    PatchBeforeRest(Patch(header, 40, Le(currentOffset, 8)), 60, Le(|headers|, 2), rest);
    elf := Patch(elf, 60, Le(|headers|, 2));
    elf := AppendSectionTable(elf, headers);
  }

  method AppendSectionTable(elf0: seq<byte>, headers: seq<SectionHeader>) returns (elf: seq<byte>)
    ensures elf == elf0 + SectionTable(headers)
  {
    elf := elf0;
    for i := 0 to |headers|
      invariant elf == elf0 + SectionTable(headers[..i])
    {
      assert headers[..i + 1][..i] == headers[..i];
      elf := elf + headers[i].Bytes();
    }
    assert headers[..|headers|] == headers;
  }

  // ---------------------------------------------------------------- lemmas for the writer

  lemma {:induction false} StringTableIsZeros(header: seq<byte>, data: seq<byte>)
    ensures header + Le(0, 4) + data == header + (Zeros(4) + data)
  {
    assert Le(0, 4) == Zeros(4);
  }

  /** The 64 header bytes do not change how much padding the rest gets. */
  lemma {:induction false} PadAfterHeader(header: seq<byte>, rest: seq<byte>)
    requires |header| == 64
    ensures Padded(header + rest) == header + Padded(rest)
  {
  }

  lemma {:induction false} CountProgramHeaders(segs: seq<Segment>)
    ensures |ProgramHeaders(segs)| == |segs|
  {
    if segs != [] {
      CountProgramHeaders(segs[..|segs| - 1]);
    }
  }

  lemma {:induction false} PatchBeforeRest(header: seq<byte>, at: nat, bytes: seq<byte>, rest: seq<byte>)
    requires at + |bytes| <= |header|
    ensures Patch(header + rest, at, bytes) == Patch(header, at, bytes) + rest
  {
  }

  /** The patches fill the placeholders of the header and touch no other field. */
  lemma {:induction false} FilledIsElf(segs: seq<Segment>, entry: nat)
    ensures Filled(Header(entry, 0, 0, 0, 0), segs) == ElfBytes(segs, entry)
  {
    CountProgramHeaders(segs);
    PatchedHeader(entry, 64 + |BeforeProgramTable(segs)|, 64 + |BeforeSectionTable(segs)|, |segs|,
                  |SectionHeaders(segs)|);
  }

  lemma {:induction false} PatchedHeader(entry: nat, phoff: nat, shoff: nat, phnum: nat, shnum: nat)
    ensures PatchSectionFields(PatchProgramFields(Header(entry, 0, 0, 0, 0), phoff, phnum), shoff, shnum)
            == Header(entry, phoff, shoff, phnum, shnum)
  {
    PatchPhOff(entry, phoff);
    PatchPhNum(entry, phoff, phnum);
    PatchShOff(entry, phoff, shoff, phnum);
    PatchShNum(entry, phoff, shoff, phnum, shnum);
  }

  lemma {:induction false} PatchPhOff(entry: nat, phoff: nat)
    ensures Patch(Header(entry, 0, 0, 0, 0), 32, Le(phoff, 8)) == Header(entry, phoff, 0, 0, 0)
  {
    var rest := Le(0, 8) + AfterShOff(0);
    HeaderAround(entry, 0, 0, 0);
    HeaderAround(entry, phoff, 0, 0);
    Regrouped(Ident(entry) + Le(0, 8), Le(0, 8), AfterShOff(0));
    Regrouped(Ident(entry) + Le(phoff, 8), Le(0, 8), AfterShOff(0));
    PatchMiddle(Ident(entry), Le(0, 8), Le(phoff, 8), rest);
  }

  lemma {:induction false} Regrouped(a: seq<byte>, b: seq<byte>, c: seq<byte>)
    ensures a + b + c == a + (b + c)
  {
  }

  lemma {:induction false} PatchPhNum(entry: nat, phoff: nat, phnum: nat)
    ensures Patch(Header(entry, phoff, 0, 0, 0), 56, Le(phnum, 2)) == Header(entry, phoff, 0, phnum, 0)
  {
  }

  lemma {:induction false} PatchShOff(entry: nat, phoff: nat, shoff: nat, phnum: nat)
    ensures Patch(Header(entry, phoff, 0, phnum, 0), 40, Le(shoff, 8)) == Header(entry, phoff, shoff, phnum, 0)
  {
    var rest := AfterShOff(phnum);
    HeaderAround(entry, phoff, 0, phnum);
    HeaderAround(entry, phoff, shoff, phnum);
    PatchMiddle(Ident(entry) + Le(phoff, 8), Le(0, 8), Le(shoff, 8), rest);
  }

  /** The header behind e_shoff, with e_shnum still zero. */
  function AfterShOff(phnum: nat): seq<byte> {
    Le(1, 4) + Le(64, 2) + Le(56, 2) + Le(phnum, 2) + Le(64, 2) + Le(0, 2) + Le(0, 2)
  }

  lemma {:induction false} HeaderAround(entry: nat, phoff: nat, shoff: nat, phnum: nat)
    ensures Header(entry, phoff, shoff, phnum, 0) == Ident(entry) + Le(phoff, 8) + Le(shoff, 8) + AfterShOff(phnum)
  {
    Gather(Ident(entry) + Le(phoff, 8) + Le(shoff, 8), Le(1, 4), Le(64, 2), Le(56, 2), Le(phnum, 2), Le(64, 2),
           Le(0, 2));
  }

  lemma {:induction false} Gather(s: seq<byte>, a: seq<byte>, b: seq<byte>, c: seq<byte>, d: seq<byte>, e: seq<byte>,
      f: seq<byte>)
    ensures s + a + b + c + d + e + f + f == s + (a + b + c + d + e + f + f)
  {
  }

  lemma {:induction false} PatchMiddle(a: seq<byte>, b: seq<byte>, c: seq<byte>, d: seq<byte>)
    requires |b| == |c|
    ensures Patch(a + b + d, |a|, c) == a + c + d
  {
  }

  lemma {:induction false} PatchShNum(entry: nat, phoff: nat, shoff: nat, phnum: nat, shnum: nat)
    ensures Patch(Header(entry, phoff, shoff, phnum, 0), 60, Le(shnum, 2)) == Header(entry, phoff, shoff, phnum, shnum)
  {
  }
}
