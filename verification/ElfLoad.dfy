/**
  A loader written from the System V gABI (ELF Header and Program Header chapters), and the
  proof that it recovers what the dumper wrote.
*/
module ElfLoad {
  import opened Bytes
  import opened Options
  import opened ElfScan
  import opened ElfImage
  import ElfStubFacts

  function Field(s: seq<byte>, at: nat, width: nat): nat
    requires at + width <= |s|
  {
    FromLe(s[at..at + width])
  }

  /** What may be done with the pages of a segment. */
  datatype Mode = Mode(readable: bool, writable: bool, executable: bool)

  datatype Mapped = Mapped(segment: Segment, mode: Mode)

  /** One PT_LOAD entry; the part of memory past the file image is zero filled. */
  function LoadSegment(elf: seq<byte>, at: nat): Option<Mapped> {
    if at + 56 > |elf| || Field(elf, at, 4) != 1 then None
    else
      var flags, offset, vaddr := Field(elf, at + 4, 4), Field(elf, at + 8, 8), Field(elf, at + 16, 8);
      var filesz, memsz := Field(elf, at + 32, 8), Field(elf, at + 40, 8);
      if offset + filesz > |elf| || memsz < filesz then None
      else
        var mode := Mode(flags / 4 % 2 == 1, flags / 2 % 2 == 1, flags % 2 == 1);
        Some(Mapped(Segment(vaddr, elf[offset..offset + filesz] + Zeros(memsz - filesz), mode.executable), mode))
  }

  function LoadSegments(elf: seq<byte>, phoff: nat, phnum: nat): Option<seq<Mapped>> {
    if phnum == 0 then Some([])
    else
      var init := LoadSegments(elf, phoff, phnum - 1);
      var last := LoadSegment(elf, phoff + 56 * (phnum - 1));
      if init.None? || last.None? then None else Some(init.value + [last.value])
  }

  datatype Loaded = Loaded(entry: nat, mapped: seq<Mapped>)

  /** The segments without their modes. */
  function Segments(mapped: seq<Mapped>): (r: seq<Segment>)
    ensures |r| == |mapped| && forall k :: 0 <= k < |r| ==> r[k] == mapped[k].segment
  {
    seq(|mapped|, k requires 0 <= k < |mapped| => mapped[k].segment)
  }

  /** A segment as it should be mapped: readable, and writable exactly when it may not be executed. */
  function AsMapped(s: Segment): Mapped {
    Mapped(s, Mode(true, !s.executable, s.executable))
  }

  function AllMapped(segs: seq<Segment>): (r: seq<Mapped>)
    ensures |r| == |segs| && forall k :: 0 <= k < |r| ==> r[k] == AsMapped(segs[k])
    ensures Segments(r) == segs
  {
    seq(|segs|, k requires 0 <= k < |segs| => AsMapped(segs[k]))
  }

  /** A 64-bit little-endian RISC-V executable with 56-byte program headers. */
  predicate Loadable(elf: seq<byte>) {
    && |elf| >= 64
    && elf[..4] == [0x7f, 0x45, 0x4c, 0x46] && elf[4] == 2 && elf[5] == 1
    && Field(elf, 16, 2) == 2 && Field(elf, 18, 2) == 243
    && Field(elf, 54, 2) == 56
  }

  function Load(elf: seq<byte>): Option<Loaded> {
    if !Loadable(elf) then None
    else
      match LoadSegments(elf, Field(elf, 32, 8), Field(elf, 56, 2))
      case None => None
      case Some(segs) => Some(Loaded(Field(elf, 24, 8), segs))
  }

  // ---------------------------------------------------------------- reading fields back

  lemma {:induction false} FieldOf(s: seq<byte>, at: nat, v: nat, w: nat)
    requires at + w <= |s| && s[at..at + w] == Le(v, w) && v < Pow256(w)
    ensures Field(s, at, w) == v
  {
    FromLeLe(v, w);
  }

  lemma {:induction false} IdentFields(entry: nat)
    ensures var h := Ident(entry);
            h[..16] == MAGIC && h[16..18] == Le(2, 2) && h[18..20] == Le(243, 2) && h[24..32] == Le(entry, 8)
  {
    Parts(MAGIC, Le(2, 2), Le(243, 2), Le(1, 4), Le(entry, 8));
  }

  lemma {:induction false} Parts(a: seq<byte>, b: seq<byte>, c: seq<byte>, d: seq<byte>, e: seq<byte>)
    requires |a| == 16 && |b| == 2 && |c| == 2 && |d| == 4 && |e| == 8
    ensures var h := a + b + c + d + e; h[..16] == a && h[16..18] == b && h[18..20] == c && h[24..32] == e
  {
  }

  lemma {:induction false} HeaderStart(entry: nat, phoff: nat, shoff: nat, phnum: nat, shnum: nat)
    ensures Header(entry, phoff, shoff, phnum, shnum)[..32] == Ident(entry)
  {
  }

  lemma {:induction false} HeaderOffsets(entry: nat, phoff: nat, shoff: nat, phnum: nat, shnum: nat)
    ensures var h := Header(entry, phoff, shoff, phnum, shnum);
            h[32..40] == Le(phoff, 8) && h[40..48] == Le(shoff, 8)
  {
    TenParts(Ident(entry), Le(phoff, 8), Le(shoff, 8), Le(1, 4), Le(64, 2), Le(56, 2), Le(phnum, 2), Le(64, 2),
             Le(shnum, 2), Le(0, 2));
  }

  lemma {:induction false} HeaderCounts(entry: nat, phoff: nat, shoff: nat, phnum: nat, shnum: nat)
    ensures var h := Header(entry, phoff, shoff, phnum, shnum);
            h[54..56] == Le(56, 2) && h[56..58] == Le(phnum, 2) && h[60..62] == Le(shnum, 2)
  {
    TenParts(Ident(entry), Le(phoff, 8), Le(shoff, 8), Le(1, 4), Le(64, 2), Le(56, 2), Le(phnum, 2), Le(64, 2),
             Le(shnum, 2), Le(0, 2));
  }

  lemma {:induction false} TenParts(id: seq<byte>, p: seq<byte>, s: seq<byte>, f: seq<byte>, a: seq<byte>, b: seq<byte>,
                                    pn: seq<byte>, c: seq<byte>, sn: seq<byte>, d: seq<byte>)
    requires |id| == 32 && |p| == |s| == 8 && |f| == 4 && |a| == |b| == |pn| == |c| == |sn| == |d| == 2
    ensures var h := id + p + s + f + a + b + pn + c + sn + d;
            && h[32..40] == p && h[40..48] == s && h[54..56] == b && h[56..58] == pn && h[60..62] == sn
  {
  }

  /** What a reader finds in the header of a finished file: entry point, and the four patched fields. */
  ghost predicate ReadsAs(elf: seq<byte>, entry: nat, phoff: nat, shoff: nat, phnum: nat, shnum: nat) {
    && Loadable(elf)
    && Field(elf, 24, 8) == entry && Field(elf, 32, 8) == phoff && Field(elf, 40, 8) == shoff
    && Field(elf, 56, 2) == phnum && Field(elf, 60, 2) == shnum
  }

  lemma {:induction false} HeaderReadsAs(entry: u64, phoff: u64, shoff: u64, phnum: nat, shnum: nat, rest: seq<byte>)
    requires phnum < 0x1_0000 && shnum < 0x1_0000
    ensures ReadsAs(Header(entry, phoff, shoff, phnum, shnum) + rest, entry, phoff, shoff, phnum, shnum)
  {
    var h := Header(entry, phoff, shoff, phnum, shnum);
    IdentFields(entry);
    HeaderStart(entry, phoff, shoff, phnum, shnum);
    HeadReads(h, Ident(entry), entry, rest);
    HeaderOffsets(entry, phoff, shoff, phnum, shnum);
    OffsetsRead(h, rest, phoff, shoff);
    HeaderCounts(entry, phoff, shoff, phnum, shnum);
    CountsRead(h, rest, phnum, shnum);
  }

  lemma {:induction false} HeadReads(h: seq<byte>, id: seq<byte>, entry: u64, rest: seq<byte>)
    requires |h| == 64 && h[..32] == id
    requires id[..16] == MAGIC && id[16..18] == Le(2, 2) && id[18..20] == Le(243, 2) && id[24..32] == Le(entry, 8)
    ensures var elf := h + rest;
            && elf[..4] == [0x7f, 0x45, 0x4c, 0x46] && elf[4] == 2 && elf[5] == 1
            && Field(elf, 16, 2) == 2 && Field(elf, 18, 2) == 243 && Field(elf, 24, 8) == entry
  {
    assert h + rest == id + (h[32..] + rest);
    IdentReads(id, entry, h[32..] + rest);
  }

  lemma {:induction false} OffsetsRead(h: seq<byte>, rest: seq<byte>, phoff: u64, shoff: u64)
    requires |h| == 64 && h[32..40] == Le(phoff, 8) && h[40..48] == Le(shoff, 8)
    ensures Field(h + rest, 32, 8) == phoff && Field(h + rest, 40, 8) == shoff
  {
    Pow256Values();
    FieldInHead(h, rest, 32, phoff, 8);
    FieldInHead(h, rest, 40, shoff, 8);
  }

  lemma {:induction false} CountsRead(h: seq<byte>, rest: seq<byte>, phnum: nat, shnum: nat)
    requires |h| == 64 && phnum < 0x1_0000 && shnum < 0x1_0000
    requires h[54..56] == Le(56, 2) && h[56..58] == Le(phnum, 2) && h[60..62] == Le(shnum, 2)
    ensures Field(h + rest, 54, 2) == 56 && Field(h + rest, 56, 2) == phnum && Field(h + rest, 60, 2) == shnum
  {
    Pow256Values();
    FieldInHead(h, rest, 54, 56, 2);
    FieldInHead(h, rest, 56, phnum, 2);
    FieldInHead(h, rest, 60, shnum, 2);
  }

  lemma {:induction false} IdentReads(id: seq<byte>, entry: u64, rest: seq<byte>)
    requires |id| == 32
    requires id[..16] == MAGIC && id[16..18] == Le(2, 2) && id[18..20] == Le(243, 2) && id[24..32] == Le(entry, 8)
    ensures var elf := id + rest;
            && elf[..4] == [0x7f, 0x45, 0x4c, 0x46] && elf[4] == 2 && elf[5] == 1
            && Field(elf, 16, 2) == 2 && Field(elf, 18, 2) == 243 && Field(elf, 24, 8) == entry
  {
    Pow256Values();
    var elf := id + rest;
    assert elf[..4] == id[..16][..4] && elf[4] == id[..16][4] && elf[5] == id[..16][5];
    FieldInHead(id, rest, 16, 2, 2);
    FieldInHead(id, rest, 18, 243, 2);
    FieldInHead(id, rest, 24, entry, 8);
  }

  lemma {:induction false} FieldInHead(h: seq<byte>, rest: seq<byte>, at: nat, v: nat, w: nat)
    requires at + w <= |h| && h[at..at + w] == Le(v, w) && v < Pow256(w)
    ensures Field(h + rest, at, w) == v
  {
    assert (h + rest)[at..at + w] == h[at..at + w];
    FieldOf(h + rest, at, v, w);
  }

  // ---------------------------------------------------------------- program headers

  /** A header's fields all fit their widths. */
  predicate Fits(h: ProgramHeader) {
    && h.kind < U32_LIMIT && h.flags < U32_LIMIT && h.offset < U64_LIMIT && h.vaddr < U64_LIMIT
    && h.paddr < U64_LIMIT && h.filesz < U64_LIMIT && h.memsz < U64_LIMIT && h.align < U64_LIMIT
  }

  /** The fields of the program header at `at`. */
  ghost predicate ReadsHeader(elf: seq<byte>, at: nat, h: ProgramHeader) {
    && at + 56 <= |elf|
    && Field(elf, at, 4) == h.kind && Field(elf, at + 4, 4) == h.flags && Field(elf, at + 8, 8) == h.offset
    && Field(elf, at + 16, 8) == h.vaddr && Field(elf, at + 24, 8) == h.paddr && Field(elf, at + 32, 8) == h.filesz
    && Field(elf, at + 40, 8) == h.memsz && Field(elf, at + 48, 8) == h.align
  }

  lemma {:induction false} HeaderBytes(h: ProgramHeader)
    ensures var b := h.Bytes();
            b[0..0 + 4] == Le(h.kind, 4) && b[4..4 + 4] == Le(h.flags, 4) && b[8..8 + 8] == Le(h.offset, 8)
            && b[16..16 + 8] == Le(h.vaddr, 8) && b[24..24 + 8] == Le(h.paddr, 8) && b[32..32 + 8] == Le(h.filesz, 8)
            && b[40..40 + 8] == Le(h.memsz, 8) && b[48..48 + 8] == Le(h.align, 8)
  {
    var front := FourParts(Le(h.kind, 4), Le(h.flags, 4), Le(h.offset, 8), Le(h.vaddr, 8));
    var rest := FourParts(Le(h.paddr, 8), Le(h.filesz, 8), Le(h.memsz, 8), Le(h.align, 8));
    assert h.Bytes() == front + rest;
    BothHalves(front, rest, h.Bytes());
  }

  lemma {:induction false} FourParts(a: seq<byte>, b: seq<byte>, c: seq<byte>, d: seq<byte>) returns (s: seq<byte>)
    ensures s == a + b + c + d && |s| == |a| + |b| + |c| + |d|
    ensures s[0..|a|] == a && s[|a|..|a| + |b|] == b && s[|a| + |b|..|a| + |b| + |c|] == c
    ensures s[|a| + |b| + |c|..|a| + |b| + |c| + |d|] == d
  {
    s := a + b + c + d;
  }

  lemma {:induction false} BothHalves(front: seq<byte>, rest: seq<byte>, s: seq<byte>)
    requires s == front + rest
    ensures forall i, j :: 0 <= i <= j <= |front| ==> s[i..j] == front[i..j]
    ensures forall i, j :: |front| <= i <= j <= |s| ==> s[i..j] == rest[i - |front|..j - |front|]
  {
  }

  lemma {:induction false} ReadHeader(elf: seq<byte>, at: nat, h: ProgramHeader)
    requires at + 56 <= |elf| && elf[at..at + 56] == h.Bytes() && Fits(h)
    ensures ReadsHeader(elf, at, h)
  {
    HeaderBytes(h);
    ReadHeaderBytes(elf, at, h.Bytes(), h);
  }

  lemma {:induction false} ReadHeaderBytes(elf: seq<byte>, at: nat, b: seq<byte>, h: ProgramHeader)
    requires at + 56 <= |elf| && elf[at..at + 56] == b && Fits(h) && |b| == 56
    requires b[0..0 + 4] == Le(h.kind, 4) && b[4..4 + 4] == Le(h.flags, 4) && b[8..8 + 8] == Le(h.offset, 8)
    requires b[16..16 + 8] == Le(h.vaddr, 8) && b[24..24 + 8] == Le(h.paddr, 8) && b[32..32 + 8] == Le(h.filesz, 8)
    requires b[40..40 + 8] == Le(h.memsz, 8) && b[48..48 + 8] == Le(h.align, 8)
    ensures ReadsHeader(elf, at, h)
  {
    Pow256Values();
    FieldInside(elf, at, b, 0, h.kind, 4);
    FieldInside(elf, at, b, 4, h.flags, 4);
    FieldInside(elf, at, b, 8, h.offset, 8);
    FieldInside(elf, at, b, 16, h.vaddr, 8);
    FieldInside(elf, at, b, 24, h.paddr, 8);
    FieldInside(elf, at, b, 32, h.filesz, 8);
    FieldInside(elf, at, b, 40, h.memsz, 8);
    FieldInside(elf, at, b, 48, h.align, 8);
  }

  lemma {:induction false} FieldInside(elf: seq<byte>, at: nat, b: seq<byte>, i: nat, v: nat, w: nat)
    requires at + |b| <= |elf| && elf[at..at + |b|] == b
    requires i + w <= |b| && b[i..i + w] == Le(v, w) && v < Pow256(w)
    ensures Field(elf, at + i, w) == v
  {
    ElfStubFacts.SubSlice(elf, at, b, i, Le(v, w));
    FieldOf(elf, at + i, v, w);
  }

  lemma {:induction false} ProgramTableAt(hs: seq<ProgramHeader>, k: nat)
    requires k < |hs|
    ensures |ProgramTable(hs)| == 56 * |hs|
    ensures ProgramTable(hs)[56 * k..56 * k + 56] == hs[k].Bytes()
  {
    var init := hs[..|hs| - 1];
    ProgramTableLength(hs);
    ProgramTableLength(init);
    if k < |init| {
      ProgramTableAt(init, k);
      assert ProgramTable(hs)[56 * k..56 * k + 56] == ProgramTable(init)[56 * k..56 * k + 56];
    }
  }

  lemma {:induction false} ProgramTableLength(hs: seq<ProgramHeader>)
    ensures |ProgramTable(hs)| == 56 * |hs|
  {
    if hs != [] {
      ProgramTableLength(hs[..|hs| - 1]);
    }
  }

  lemma {:induction false} ProgramHeaderAt(segs: seq<Segment>, k: nat)
    requires k < |segs|
    ensures |ProgramHeaders(segs)| == |segs|
    ensures ProgramHeaders(segs)[k] == SegmentHeader(segs[k], DATA_START + |Data(segs[..k])|)
  {
    var init := segs[..|segs| - 1];
    CountProgramHeaders(segs);
    CountProgramHeaders(init);
    if k < |init| {
      ProgramHeaderAt(init, k);
      assert init[..k] == segs[..k];
    }
  }

  lemma {:induction false} DataAt(segs: seq<Segment>, k: nat)
    requires k < |segs|
    ensures var at := |Data(segs[..k])|;
            at + |segs[k].data| <= |Data(segs)| && Data(segs)[at..at + |segs[k].data|] == segs[k].data
  {
    var init := segs[..|segs| - 1];
    if k < |init| {
      DataAt(init, k);
      assert init[..k] == segs[..k];
      var at := |Data(segs[..k])|;
      assert Data(segs)[at..at + |segs[k].data|] == Data(init)[at..at + |segs[k].data|];
    }
  }

  // ---------------------------------------------------------------- round trip

  /** The sizes that ELF64 fields can carry. */
  ghost predicate Storable(segs: seq<Segment>, entry: nat) {
    && entry < U64_LIMIT
    && |segs| < 0x1_0000 && |SectionHeaders(segs)| < 0x1_0000
    && (forall k :: 0 <= k < |segs| ==> segs[k].start < U64_LIMIT)
    && 64 + |BeforeSectionTable(segs)| + |SectionTable(SectionHeaders(segs))| < U64_LIMIT
  }

  /** The segments' data and the program headers lie where the headers say. */
  ghost predicate LaidOut(elf: seq<byte>, segs: seq<Segment>, phoff: nat) {
    var table := ProgramTable(ProgramHeaders(segs));
    && DATA_START + |Data(segs)| <= |elf| && elf[DATA_START..DATA_START + |Data(segs)|] == Data(segs)
    && phoff + |table| <= |elf| && elf[phoff..phoff + |table|] == table
  }

  lemma {:induction false} BodyInside(segs: seq<Segment>)
    ensures var data, table := Data(segs), ProgramTable(ProgramHeaders(segs));
            var before, after := BeforeProgramTable(segs), BeforeSectionTable(segs);
            && 4 + |data| <= |before| && |before| + |table| <= |after|
            && after[4..4 + |data|] == data
            && after[|before|..|before| + |table|] == table
  {
    var data, before := Data(segs), BeforeProgramTable(segs);
    assert before[4..4 + |data|] == data;
    assert BeforeSectionTable(segs)[..|before|] == before;
    assert BeforeSectionTable(segs)[4..4 + |data|] == before[4..4 + |data|];
  }

  lemma {:induction false} BehindHeader(header: seq<byte>, body: seq<byte>, tail: seq<byte>, at: nat, part: seq<byte>)
    requires |header| == 64 && at + |part| <= |body| && body[at..at + |part|] == part
    ensures (header + (body + tail))[64 + at..64 + at + |part|] == part
  {
    assert (header + (body + tail))[64..] == body + tail;
    assert (body + tail)[at..at + |part|] == part;
  }

  lemma {:induction false} FileLaidOut(header: seq<byte>, segs: seq<Segment>, tail: seq<byte>)
    requires |header| == 64
    ensures LaidOut(header + (BeforeSectionTable(segs) + tail), segs, 64 + |BeforeProgramTable(segs)|)
  {
    BodyInside(segs);
    BehindHeader(header, BeforeSectionTable(segs), tail, 4, Data(segs));
    BehindHeader(header, BeforeSectionTable(segs), tail, |BeforeProgramTable(segs)|,
                 ProgramTable(ProgramHeaders(segs)));
  }

  lemma {:induction false} DataInFile(elf: seq<byte>, segs: seq<Segment>, phoff: nat, k: nat)
    requires LaidOut(elf, segs, phoff) && k < |segs|
    ensures var offset := DATA_START + |Data(segs[..k])|;
            offset + |segs[k].data| <= |elf| && elf[offset..offset + |segs[k].data|] == segs[k].data
  {
    DataAt(segs, k);
    ElfStubFacts.SubSlice(elf, DATA_START, Data(segs), |Data(segs[..k])|, segs[k].data);
  }

  lemma {:induction false} HeaderInFile(elf: seq<byte>, segs: seq<Segment>, phoff: nat, k: nat)
    requires LaidOut(elf, segs, phoff) && k < |segs|
    requires Fits(SegmentHeader(segs[k], DATA_START + |Data(segs[..k])|))
    ensures ReadsHeader(elf, phoff + 56 * k, SegmentHeader(segs[k], DATA_START + |Data(segs[..k])|))
  {
    ProgramHeaderAt(segs, k);
    TableInFile(elf, phoff, ProgramHeaders(segs), k);
  }

  lemma {:induction false} TableInFile(elf: seq<byte>, phoff: nat, hs: seq<ProgramHeader>, k: nat)
    requires var table := ProgramTable(hs); phoff + |table| <= |elf| && elf[phoff..phoff + |table|] == table
    requires k < |hs| && Fits(hs[k])
    ensures ReadsHeader(elf, phoff + 56 * k, hs[k])
  {
    var i := 56 * k;
    var b := hs[k].Bytes();
    assert i + 56 <= |ProgramTable(hs)| && ProgramTable(hs)[i..i + 56] == b by {
      ProgramTableAt(hs, k);
    }
    ElfStubFacts.SubSlice(elf, phoff, ProgramTable(hs), i, b);
    ReadHeader(elf, phoff + i, hs[k]);
  }

  /** A segment's header and data are in the file. */
  ghost predicate InFile(elf: seq<byte>, at: nat, s: Segment, offset: nat) {
    && ReadsHeader(elf, at, SegmentHeader(s, offset))
    && offset + |s.data| <= |elf| && elf[offset..offset + |s.data|] == s.data
  }

  lemma {:induction false} ReadsSegment(elf: seq<byte>, at: nat, s: Segment, offset: nat)
    requires InFile(elf, at, s, offset)
    ensures LoadSegment(elf, at) == Some(AsMapped(s))
  {
    assert s.data + Zeros(0) == s.data;
  }

  /** Segment `k`'s header and data are in the file where they should be. */
  ghost predicate InFileAt(elf: seq<byte>, segs: seq<Segment>, phoff: nat, k: nat)
    requires k < |segs|
  {
    InFile(elf, phoff + 56 * k, segs[k], DATA_START + |Data(segs[..k])|)
  }

  lemma {:induction false} SegmentInFile(elf: seq<byte>, segs: seq<Segment>, phoff: nat, k: nat)
    requires LaidOut(elf, segs, phoff) && k < |segs| && |elf| < U64_LIMIT && segs[k].start < U64_LIMIT
    ensures InFileAt(elf, segs, phoff, k)
  {
    DataInFile(elf, segs, phoff, k);
    HeaderInFile(elf, segs, phoff, k);
  }

  lemma {:induction false} LoadsSegment(elf: seq<byte>, segs: seq<Segment>, phoff: nat, k: nat)
    requires k < |segs| && InFileAt(elf, segs, phoff, k)
    ensures LoadSegment(elf, phoff + 56 * k) == Some(AsMapped(segs[k]))
  {
    ReadsSegment(elf, phoff + 56 * k, segs[k], DATA_START + |Data(segs[..k])|);
  }

  ghost predicate LoadsAt(elf: seq<byte>, segs: seq<Segment>, phoff: nat, k: nat)
    requires k < |segs|
  {
    LoadSegment(elf, phoff + 56 * k) == Some(AsMapped(segs[k]))
  }

  lemma {:induction false} LoadsSegments(elf: seq<byte>, segs: seq<Segment>, phoff: nat, n: nat)
    requires n <= |segs|
    requires forall k :: 0 <= k < |segs| ==> LoadsAt(elf, segs, phoff, k)
    ensures LoadSegments(elf, phoff, n) == Some(AllMapped(segs[..n]))
  {
    if n > 0 {
      LoadsSegments(elf, segs, phoff, n - 1);
      assert LoadsAt(elf, segs, phoff, n - 1);
      assert AllMapped(segs[..n]) == AllMapped(segs[..n - 1]) + [AsMapped(segs[n - 1])];
    }
  }

  lemma {:induction false} LoadsAll(elf: seq<byte>, segs: seq<Segment>, phoff: nat)
    requires LaidOut(elf, segs, phoff) && |elf| < U64_LIMIT
    requires forall k :: 0 <= k < |segs| ==> segs[k].start < U64_LIMIT
    ensures LoadSegments(elf, phoff, |segs|) == Some(AllMapped(segs))
  {
    forall k | 0 <= k < |segs| ensures LoadsAt(elf, segs, phoff, k) {
      SegmentInFile(elf, segs, phoff, k);
      LoadsSegment(elf, segs, phoff, k);
    }
    LoadsSegments(elf, segs, phoff, |segs|);
    assert segs[..|segs|] == segs;
  }

  /**
    A loader that follows e_phoff and e_phnum recovers the segments, in order, and the entry
    point, and maps each segment readable, and either writable or executable; the section headers are
    where e_shoff and e_shnum say.
  */
  lemma {:induction false} ElfRoundTrip(segs: seq<Segment>, entry: nat)
    requires Storable(segs, entry)
    ensures var elf := ElfBytes(segs, entry);
            var shoff := 64 + |BeforeSectionTable(segs)|;
            && Load(elf) == Some(Loaded(entry, AllMapped(segs)))
            && ReadsAs(elf, entry, 64 + |BeforeProgramTable(segs)|, shoff, |segs|, |SectionHeaders(segs)|)
            && shoff <= |elf| && elf[shoff..] == SectionTable(SectionHeaders(segs))
  {
    var phoff, shoff := 64 + |BeforeProgramTable(segs)|, 64 + |BeforeSectionTable(segs)|;
    var header := Header(entry, phoff, shoff, |segs|, |SectionHeaders(segs)|);
    var tail := SectionTable(SectionHeaders(segs));
    BodyInside(segs);
    HeaderReadsAs(entry, phoff, shoff, |segs|, |SectionHeaders(segs)|, BeforeSectionTable(segs) + tail);
    FileLaidOut(header, segs, tail);
    LoadsAll(ElfBytes(segs, entry), segs, phoff);
    TailAt(header, BeforeSectionTable(segs), tail);
  }

  lemma {:induction false} TailAt(header: seq<byte>, body: seq<byte>, tail: seq<byte>)
    ensures (header + (body + tail))[|header| + |body|..] == tail
  {
  }
}
