/**
  Every field of a dump, read from the bytes of the file at the offsets of the System V gABI
  (chapters ELF Header, Sections and Program Header), with the values it should have.
*/
module ElfFields {
  import opened Bytes
  import opened ElfScan
  import opened ElfImage
  import opened ElfLoad
  import opened ElfStub
  import D = ElfDump

  // ---------------------------------------------------------------- what the file should say

  /** e_ident to e_shstrndx: a 64-bit little-endian RISC-V executable with compressed instructions. */
  ghost predicate HeaderFields(elf: seq<byte>, entry: nat, phoff: nat, phnum: nat, shoff: nat, shnum: nat) {
    && |elf| >= 64
    && elf[..16] == [0x7f, 'E' as int, 'L' as int, 'F' as int, 2, 1, 1, 0, 0, 0, 0, 0, 0, 0, 0, 0]
    && Field(elf, 16, 2) == 2 && Field(elf, 18, 2) == 243 && Field(elf, 20, 4) == 1
    && Field(elf, 24, 8) == entry && Field(elf, 32, 8) == phoff && Field(elf, 40, 8) == shoff
    && Field(elf, 48, 4) == 1 && Field(elf, 52, 2) == 64
    && Field(elf, 54, 2) == 56 && Field(elf, 56, 2) == phnum
    && Field(elf, 58, 2) == 64 && Field(elf, 60, 2) == shnum && Field(elf, 62, 2) == 0
  }

  /** A PT_LOAD header for `s`, whose data lie at `offset`: readable, and executable or else writable. */
  ghost predicate SegmentFields(elf: seq<byte>, at: nat, s: Segment, offset: nat) {
    && at + 56 <= |elf| && offset + |s.data| <= |elf|
    && Field(elf, at, 4) == 1
    && Field(elf, at + 4, 4) == (if s.executable then 4 + 1 else 4 + 2)
    && Field(elf, at + 8, 8) == offset
    && Field(elf, at + 16, 8) == s.start && Field(elf, at + 24, 8) == s.start
    && Field(elf, at + 32, 8) == |s.data| && Field(elf, at + 40, 8) == |s.data|
    && Field(elf, at + 48, 8) == 4096
    && elf[offset..offset + |s.data|] == s.data
  }

  /** sh_name to sh_entsize. */
  ghost predicate SectionFields(elf: seq<byte>, at: nat, kind: nat, flags: nat, addr: nat, offset: nat, size: nat,
      align: nat) {
    && at + 64 <= |elf|
    && Field(elf, at, 4) == 0 && Field(elf, at + 4, 4) == kind && Field(elf, at + 8, 8) == flags
    && Field(elf, at + 16, 8) == addr && Field(elf, at + 24, 8) == offset && Field(elf, at + 32, 8) == size
    && Field(elf, at + 40, 4) == 0 && Field(elf, at + 44, 4) == 0
    && Field(elf, at + 48, 8) == align && Field(elf, at + 56, 8) == 0
  }

  /** The data follow the header and the string table of four bytes, back to back. */
  function DataOffset(segs: seq<Segment>, k: nat): nat
    requires k <= |segs|
  {
    if k == 0 then 64 + 4 else DataOffset(segs, k - 1) + |segs[k - 1].data|
  }

  /** The number of executable segments among the first `k`. */
  function Codes(segs: seq<Segment>, k: nat): nat
    requires k <= |segs|
  {
    if k == 0 then 0 else Codes(segs, k - 1) + if segs[k - 1].executable then 1 else 0
  }

  /** Zero bytes up to the next multiple of four. */
  ghost predicate FilledUp(elf: seq<byte>, from: nat, to: nat) {
    from <= to < from + 4 && to % 4 == 0 && to <= |elf| && elf[from..to] == Zeros(to - from)
  }

  /** The program header and the data of segment `k`. */
  ghost predicate SegmentAt(elf: seq<byte>, segs: seq<Segment>, phoff: nat, k: nat)
    requires k < |segs|
  {
    SegmentFields(elf, phoff + 56 * k, segs[k], DataOffset(segs, k))
  }

  /** The section header of segment `k`: allocated and executable. */
  ghost predicate CodeAt(elf: seq<byte>, segs: seq<Segment>, shoff: nat, k: nat)
    requires k < |segs|
  {
    SectionFields(elf, shoff + 64 * (1 + Codes(segs, k)), 1, 2 + 4, segs[k].start, DataOffset(segs, k),
                  |segs[k].data|, 2)
  }

  /** Where the tables lie, and what fills the gaps. */
  ghost predicate Layout(elf: seq<byte>, segs: seq<Segment>, phoff: nat, shoff: nat) {
    && |elf| >= 68 && elf[64..68] == [0, 0, 0, 0]
    && FilledUp(elf, DataOffset(segs, |segs|), phoff)
    && FilledUp(elf, phoff + 56 * |segs|, shoff)
    && |elf| == shoff + 64 * (1 + Codes(segs, |segs|))
  }

  /** A file that says of these segments all that it should, with its tables at these offsets. */
  ghost predicate SaysAll(elf: seq<byte>, segs: seq<Segment>, entry: nat, phoff: nat, shoff: nat) {
    && HeaderFields(elf, entry, phoff, |segs|, shoff, 1 + Codes(segs, |segs|))
    && Layout(elf, segs, phoff, shoff)
    && (forall k :: 0 <= k < |segs| ==> SegmentAt(elf, segs, phoff, k))
    && SectionFields(elf, shoff, 3, 0, 0, 64, 4, 1)
    && (forall k :: 0 <= k < |segs| && segs[k].executable ==> CodeAt(elf, segs, shoff, k))
  }

  ghost predicate Described(elf: seq<byte>, segs: seq<Segment>, entry: nat) {
    exists phoff, shoff :: SaysAll(elf, segs, entry, phoff, shoff)
  }

  // ---------------------------------------------------------------- the header

  lemma {:induction false} IdentSlices(entry: nat)
    ensures var h := Ident(entry);
            && h[0..16] == MAGIC && h[16..18] == Le(2, 2) && h[18..20] == Le(243, 2) && h[20..24] == Le(1, 4)
            && h[24..32] == Le(entry, 8)
  {
    var rest := FourParts(Le(2, 2), Le(243, 2), Le(1, 4), Le(entry, 8));
    assert Ident(entry) == MAGIC + rest;
    BothHalves(MAGIC, rest, Ident(entry));
  }

  /** The last piece of a prefix of `h`, and what comes before it. */
  lemma {:induction false} Piece(a: seq<byte>, x: seq<byte>, h: seq<byte>)
    requires a + x <= h
    ensures a <= h && h[|a|..|a| + |x|] == x
  {
    assert h[..|a| + |x|] == a + x;
  }

  lemma {:induction false} HeaderSlices(entry: nat, phoff: nat, shoff: nat, phnum: nat, shnum: nat)
    ensures var h := Header(entry, phoff, shoff, phnum, shnum);
            && h[0..32] == Ident(entry) && h[32..40] == Le(phoff, 8) && h[40..48] == Le(shoff, 8)
            && h[48..52] == Le(1, 4) && h[52..54] == Le(64, 2) && h[54..56] == Le(56, 2) && h[56..58] == Le(phnum, 2)
            && h[58..60] == Le(64, 2) && h[60..62] == Le(shnum, 2) && h[62..64] == Le(0, 2)
  {
    TenPieces(Ident(entry), Le(phoff, 8), Le(shoff, 8), Le(1, 4), Le(64, 2), Le(56, 2), Le(phnum, 2), Le(64, 2),
              Le(shnum, 2), Le(0, 2));
  }

  lemma {:induction false} TenPieces(id: seq<byte>, p: seq<byte>, s: seq<byte>, f: seq<byte>, a: seq<byte>,
      b: seq<byte>, pn: seq<byte>, c: seq<byte>, sn: seq<byte>, d: seq<byte>)
    requires |id| == 32 && |p| == |s| == 8 && |f| == 4 && |a| == |b| == |pn| == |c| == |sn| == |d| == 2
    ensures var h := id + p + s + f + a + b + pn + c + sn + d;
            && h[0..32] == id && h[32..40] == p && h[40..48] == s && h[48..52] == f && h[52..54] == a && h[54..56] == b
            && h[56..58] == pn && h[58..60] == c && h[60..62] == sn && h[62..64] == d
  {
    var offsets := id + p + s;
    var sizes := offsets + f + a + b;
    var h := sizes + pn + c + sn + d;
    Piece(sizes + pn + c + sn, d, h);
    Piece(sizes + pn + c, sn, h);
    Piece(sizes + pn, c, h);
    Piece(sizes, pn, h);
    Piece(offsets + f + a, b, h);
    Piece(offsets + f, a, h);
    Piece(offsets, f, h);
    Piece(id + p, s, h);
    Piece(id, p, h);
    assert h[..32] == id;
  }

  lemma {:induction false} SliceOfSlice(s: seq<byte>, n: nat, i: nat, j: nat)
    requires i <= j <= n <= |s|
    ensures s[0..n][i..j] == s[i..j]
  {
  }

  lemma {:induction false} HeaderRead(entry: u64, phoff: u64, shoff: u64, phnum: nat, shnum: nat, rest: seq<byte>)
    requires phnum < 0x1_0000 && shnum < 0x1_0000
    ensures HeaderFields(Header(entry, phoff, shoff, phnum, shnum) + rest, entry, phoff, phnum, shoff, shnum)
  {
    var h := Header(entry, phoff, shoff, phnum, shnum);
    HeaderSlices(entry, phoff, shoff, phnum, shnum);
    IdentRead(h, entry, rest);
    Pow256Values();
    FieldInHead(h, rest, 32, phoff, 8);
    FieldInHead(h, rest, 40, shoff, 8);
    FieldInHead(h, rest, 48, 1, 4);
    FieldInHead(h, rest, 52, 64, 2);
    FieldInHead(h, rest, 54, 56, 2);
    FieldInHead(h, rest, 56, phnum, 2);
    FieldInHead(h, rest, 58, 64, 2);
    FieldInHead(h, rest, 60, shnum, 2);
    FieldInHead(h, rest, 62, 0, 2);
  }

  lemma {:induction false} IdentRead(h: seq<byte>, entry: u64, rest: seq<byte>)
    requires |h| == 64 && h[0..32] == Ident(entry)
    ensures var elf := h + rest;
            && elf[..16] == MAGIC && Field(elf, 16, 2) == 2 && Field(elf, 18, 2) == 243 && Field(elf, 20, 4) == 1
            && Field(elf, 24, 8) == entry
  {
    IdentSlices(entry);
    SliceOfSlice(h, 32, 0, 16);
    SliceOfSlice(h, 32, 16, 18);
    SliceOfSlice(h, 32, 18, 20);
    SliceOfSlice(h, 32, 20, 24);
    SliceOfSlice(h, 32, 24, 32);
    assert (h + rest)[..16] == h[0..16];
    Pow256Values();
    FieldInHead(h, rest, 16, 2, 2);
    FieldInHead(h, rest, 18, 243, 2);
    FieldInHead(h, rest, 20, 1, 4);
    FieldInHead(h, rest, 24, entry, 8);
  }

  // ---------------------------------------------------------------- section headers

  /** A section header's fields all fit their widths. */
  predicate SectionFits(h: SectionHeader) {
    && h.name < U32_LIMIT && h.kind < U32_LIMIT && h.flags < U64_LIMIT && h.addr < U64_LIMIT && h.offset < U64_LIMIT
    && h.size < U64_LIMIT && h.link < U32_LIMIT && h.info < U32_LIMIT && h.align < U64_LIMIT && h.entsize < U64_LIMIT
  }

  ghost predicate ReadsSection(elf: seq<byte>, at: nat, h: SectionHeader) {
    && at + 64 <= |elf|
    && Field(elf, at, 4) == h.name && Field(elf, at + 4, 4) == h.kind && Field(elf, at + 8, 8) == h.flags
    && Field(elf, at + 16, 8) == h.addr && Field(elf, at + 24, 8) == h.offset && Field(elf, at + 32, 8) == h.size
    && Field(elf, at + 40, 4) == h.link && Field(elf, at + 44, 4) == h.info
    && Field(elf, at + 48, 8) == h.align && Field(elf, at + 56, 8) == h.entsize
  }

  lemma {:induction false} SectionSlices(h: SectionHeader)
    ensures var b := h.Bytes();
            && b[0..0 + 4] == Le(h.name, 4) && b[4..4 + 4] == Le(h.kind, 4) && b[8..8 + 8] == Le(h.flags, 8)
            && b[16..16 + 8] == Le(h.addr, 8) && b[24..24 + 8] == Le(h.offset, 8) && b[32..32 + 8] == Le(h.size, 8)
            && b[40..40 + 4] == Le(h.link, 4) && b[44..44 + 4] == Le(h.info, 4)
            && b[48..48 + 8] == Le(h.align, 8) && b[56..56 + 8] == Le(h.entsize, 8)
  {
    var first := FourParts(Le(h.name, 4), Le(h.kind, 4), Le(h.flags, 8), Le(h.addr, 8));
    var second := FourParts(Le(h.offset, 8), Le(h.size, 8), Le(h.link, 4), Le(h.info, 4));
    var last := Le(h.align, 8) + Le(h.entsize, 8);
    assert h.Bytes() == first + (second + last);
    BothHalves(Le(h.align, 8), Le(h.entsize, 8), last);
    BothHalves(second, last, second + last);
    BothHalves(first, second + last, h.Bytes());
  }

  lemma {:induction false} ReadSection(elf: seq<byte>, at: nat, h: SectionHeader)
    requires at + 64 <= |elf| && elf[at..at + 64] == h.Bytes() && SectionFits(h)
    ensures ReadsSection(elf, at, h)
  {
    SectionSlices(h);
    ReadSectionBytes(elf, at, h.Bytes(), h);
  }

  lemma {:induction false} ReadSectionBytes(elf: seq<byte>, at: nat, b: seq<byte>, h: SectionHeader)
    requires at + 64 <= |elf| && elf[at..at + 64] == b && SectionFits(h) && |b| == 64
    requires b[0..0 + 4] == Le(h.name, 4) && b[4..4 + 4] == Le(h.kind, 4) && b[8..8 + 8] == Le(h.flags, 8)
    requires b[16..16 + 8] == Le(h.addr, 8) && b[24..24 + 8] == Le(h.offset, 8) && b[32..32 + 8] == Le(h.size, 8)
    requires b[40..40 + 4] == Le(h.link, 4) && b[44..44 + 4] == Le(h.info, 4)
    requires b[48..48 + 8] == Le(h.align, 8) && b[56..56 + 8] == Le(h.entsize, 8)
    ensures ReadsSection(elf, at, h)
  {
    TwoInside(elf, at, b, 0, h.name, 4, h.kind, 4);
    TwoInside(elf, at, b, 8, h.flags, 8, h.addr, 8);
    TwoInside(elf, at, b, 24, h.offset, 8, h.size, 8);
    TwoInside(elf, at, b, 40, h.link, 4, h.info, 4);
    TwoInside(elf, at, b, 48, h.align, 8, h.entsize, 8);
  }

  /** Two fields of the same width, one behind the other. */
  lemma {:induction false} TwoInside(elf: seq<byte>, at: nat, b: seq<byte>, i: nat, v: nat, n: nat, w: nat, k: nat)
    requires at + |b| <= |elf| && elf[at..at + |b|] == b && i + n + k <= |b| && n == k && (n == 4 || n == 8)
    requires b[i..i + n] == Le(v, n) && b[i + n..i + n + k] == Le(w, k)
    requires v < (if n == 4 then U32_LIMIT else U64_LIMIT) && w < (if n == 4 then U32_LIMIT else U64_LIMIT)
    ensures Field(elf, at + i, n) == v && Field(elf, at + i + n, k) == w
  {
    Pow256Values();
    FieldInside(elf, at, b, i, v, n);
    FieldInside(elf, at, b, i + n, w, k);
  }

  lemma {:induction false} SectionTableAt(hs: seq<SectionHeader>, k: nat)
    requires k < |hs|
    ensures |SectionTable(hs)| == 64 * |hs|
    ensures SectionTable(hs)[64 * k..64 * k + 64] == hs[k].Bytes()
  {
    var init := hs[..|hs| - 1];
    SectionTableLength(hs);
    SectionTableLength(init);
    if k < |init| {
      SectionTableAt(init, k);
      assert SectionTable(hs)[64 * k..64 * k + 64] == SectionTable(init)[64 * k..64 * k + 64];
    }
  }

  lemma {:induction false} SectionTableLength(hs: seq<SectionHeader>)
    ensures |SectionTable(hs)| == 64 * |hs|
  {
    if hs != [] {
      SectionTableLength(hs[..|hs| - 1]);
    }
  }

  lemma {:induction false} SectionInFile(elf: seq<byte>, shoff: nat, hs: seq<SectionHeader>, k: nat)
    requires shoff <= |elf| && elf[shoff..] == SectionTable(hs) && k < |hs| && SectionFits(hs[k])
    ensures ReadsSection(elf, shoff + 64 * k, hs[k])
  {
    var i := 64 * k;
    var b := hs[k].Bytes();
    assert i + 64 <= |SectionTable(hs)| && SectionTable(hs)[i..i + 64] == b by {
      SectionTableAt(hs, k);
    }
    TailSlice(elf, shoff, SectionTable(hs), i, 64);
    assert shoff + i + 64 <= |elf| && elf[shoff + i..shoff + i + 64] == b;
    ReadSection(elf, shoff + i, hs[k]);
  }

  lemma {:induction false} TailSlice(s: seq<byte>, from: nat, t: seq<byte>, i: nat, n: nat)
    requires from <= |s| && s[from..] == t && i + n <= |t|
    ensures from + i + n <= |s| && s[from + i..from + i + n] == t[i..i + n]
  {
    assert |s| == from + |t|;
    assert s[from..][i..i + n] == s[from + i..from + i + n];
  }

  /** The section of the `k`th segment, if that is executable, comes behind those of the executable ones before it. */
  lemma {:induction false} CodeSectionAt(segs: seq<Segment>, k: nat)
    requires k < |segs| && segs[k].executable
    ensures |SectionHeaders(segs)| == 1 + Codes(segs, |segs|) && 1 + Codes(segs, k) < |SectionHeaders(segs)|
    ensures SectionHeaders(segs)[1 + Codes(segs, k)] == CodeSection(segs[k], DataOffset(segs, k))
  {
    CountSections(segs);
    var n := |segs| - 1;
    var init := segs[..n];
    CountSections(init);
    CodesPrefix(segs, n, n);
    if k < n {
      CodeSectionAt(init, k);
      CodesPrefix(segs, n, k);
      OffsetPrefix(segs, n, k);
    } else {
      DataOffsetIs(segs, n);
    }
  }

  lemma {:induction false} CountSections(segs: seq<Segment>)
    ensures |SectionHeaders(segs)| == 1 + Codes(segs, |segs|)
    ensures SectionHeaders(segs)[0] == STRING_TABLE
  {
    if segs != [] {
      var n := |segs| - 1;
      CountSections(segs[..n]);
      CodesPrefix(segs, n, n);
    }
  }

  lemma {:induction false} CodesPrefix(segs: seq<Segment>, n: nat, k: nat)
    requires k <= n <= |segs|
    ensures Codes(segs[..n], k) == Codes(segs, k)
  {
    if k > 0 {
      CodesPrefix(segs, n, k - 1);
    }
  }

  lemma {:induction false} OffsetPrefix(segs: seq<Segment>, n: nat, k: nat)
    requires k <= n <= |segs|
    ensures DataOffset(segs[..n], k) == DataOffset(segs, k)
  {
    if k > 0 {
      OffsetPrefix(segs, n, k - 1);
    }
  }

  lemma {:induction false} DataOffsetIs(segs: seq<Segment>, k: nat)
    requires k <= |segs|
    ensures DATA_START + |Data(segs[..k])| == DataOffset(segs, k)
  {
    if k > 0 {
      DataOffsetIs(segs, k - 1);
      assert segs[..k][..k - 1] == segs[..k - 1];
    }
  }

  // ---------------------------------------------------------------- the whole file

  lemma {:induction false} PaddedAt(front: seq<byte>, s: seq<byte>, rest: seq<byte>)
    requires |front| == 64
    ensures FilledUp(front + (Padded(s) + rest), 64 + |s|, 64 + |Padded(s)|)
  {
    var gap := Zeros((4 - |s| % 4) % 4);
    Middle(front, s, gap, rest, front + (Padded(s) + rest));
    Rounded(|s|);
  }

  lemma {:induction false} Rounded(n: nat)
    ensures var to := n + (4 - n % 4) % 4; n <= to < n + 4 && (64 + to) % 4 == 0
  {
  }

  lemma {:induction false} Middle(a: seq<byte>, b: seq<byte>, c: seq<byte>, d: seq<byte>, s: seq<byte>)
    requires s == a + (b + c + d)
    ensures s[|a| + |b|..|a| + |b| + |c|] == c
  {
  }

  lemma {:induction false} PaddedPrefix(s: seq<byte>, more: seq<byte>, t: seq<byte>) returns (gap: seq<byte>)
    requires t == Padded(s + more)
    ensures t == s + gap
  {
    gap := more + Zeros((4 - |s + more| % 4) % 4);
    assert s + more + Zeros((4 - |s + more| % 4) % 4) == s + gap;
  }

  /** The layout of a file whose parts are known. */
  lemma {:induction false} PartsLaidOut(header: seq<byte>, data: seq<byte>, table: seq<byte>, sections: seq<byte>,
      before: seq<byte>, after: seq<byte>)
    requires |header| == 64 && before == Padded(Zeros(4) + data) && after == Padded(before + table)
    ensures var elf := header + (after + sections);
            && |elf| == 64 + |after| + |sections| && |elf| >= 68 && elf[64..68] == [0, 0, 0, 0]
            && FilledUp(elf, 68 + |data|, 64 + |before|)
            && FilledUp(elf, 64 + |before| + |table|, 64 + |after|)
  {
    var elf := header + (after + sections);
    PaddedAt(header, before + table, sections);
    var gap := PaddedPrefix(before, table, after);
    assert after + sections == before + (gap + sections);
    PaddedAt(header, Zeros(4) + data, gap + sections);
    var fill := PaddedPrefix(Zeros(4), data, before);
    assert before + (gap + sections) == Zeros(4) + (fill + (gap + sections));
    StartsWithZeros(header, fill + (gap + sections), elf);
  }

  lemma {:induction false} FileLayout(header: seq<byte>, segs: seq<Segment>)
    requires |header| == 64
    ensures Layout(header + (BeforeSectionTable(segs) + SectionTable(SectionHeaders(segs))), segs,
                   64 + |BeforeProgramTable(segs)|, 64 + |BeforeSectionTable(segs)|)
  {
    Sizes(segs);
    PartsLaidOut(header, Data(segs), ProgramTable(ProgramHeaders(segs)), SectionTable(SectionHeaders(segs)),
                 BeforeProgramTable(segs), BeforeSectionTable(segs));
  }

  lemma {:induction false} Sizes(segs: seq<Segment>)
    ensures 68 + |Data(segs)| == DataOffset(segs, |segs|)
    ensures |ProgramTable(ProgramHeaders(segs))| == 56 * |segs|
    ensures |SectionTable(SectionHeaders(segs))| == 64 * (1 + Codes(segs, |segs|))
  {
    DataOffsetIs(segs, |segs|);
    assert segs[..|segs|] == segs;
    ProgramTableLength(ProgramHeaders(segs));
    CountProgramHeaders(segs);
    CountSections(segs);
    SectionTableLength(SectionHeaders(segs));
  }

  lemma {:induction false} StartsWithZeros(header: seq<byte>, rest: seq<byte>, elf: seq<byte>)
    requires |header| == 64 && elf == header + (Zeros(4) + rest)
    ensures elf[64..68] == [0, 0, 0, 0]
  {
  }

  /**
    Every byte of a dump is accounted for: the header; the string table of one empty string; the
    segments' data, back to back; one program header for each segment; the section header of the
    string table and one, allocated and executable, for each executable segment; zeros in between.
  */
  lemma {:induction false} EveryField(elf: seq<byte>, segs: seq<Segment>, entry: nat)
    requires Storable(segs, entry) && IsElf(elf, segs, entry)
    ensures Described(elf, segs, entry)
  {
    var header := ElfParts(elf, segs, entry);
    PartsSayAll(elf, header, segs, entry);
  }

  ghost predicate IsFileWith(elf: seq<byte>, header: seq<byte>, segs: seq<Segment>) {
    elf == header + (BeforeSectionTable(segs) + SectionTable(SectionHeaders(segs)))
  }

  ghost predicate IsHeader(header: seq<byte>, segs: seq<Segment>, entry: nat) {
    header == Header(entry, 64 + |BeforeProgramTable(segs)|, 64 + |BeforeSectionTable(segs)|, |segs|,
                     |SectionHeaders(segs)|)
  }

  lemma {:induction false} ElfParts(elf: seq<byte>, segs: seq<Segment>, entry: nat) returns (header: seq<byte>)
    requires IsElf(elf, segs, entry)
    ensures IsHeader(header, segs, entry) && IsFileWith(elf, header, segs)
  {
    header := Header(entry, 64 + |BeforeProgramTable(segs)|, 64 + |BeforeSectionTable(segs)|, |segs|,
                     |SectionHeaders(segs)|);
  }

  /** So every field of every dump is as it should be. */
  lemma {:induction false} DumpFields(m: D.Machine, gapLimit: nat, segs: seq<Segment>, elf: seq<byte>)
      returns (all: seq<Segment>, entry: nat)
    requires m.Valid() && segs == ElfScan.Segments(m.memory, gapLimit) && D.IsDump(D.Dumped(elf), m, segs)
    ensures D.HasRoom(segs) && all == D.DumpSegments(m, segs) && entry == D.StubStart(segs) + ENTRY_OFFSET
    ensures Described(elf, all, entry)
  {
    D.ScanIsScanned(m.memory, gapLimit);
    all, entry := ScannedFields(m, segs, elf);
  }

  lemma {:induction false} ElfOfDump(m: D.Machine, segs: seq<Segment>, elf: seq<byte>)
      returns (all: seq<Segment>, entry: nat)
    requires m.Valid() && D.Scanned(segs, m.memory) && D.IsDump(D.Dumped(elf), m, segs)
    ensures D.HasRoom(segs) && all == D.DumpSegments(m, segs) && entry == D.StubStart(segs) + ENTRY_OFFSET
    ensures Storable(all, entry) && IsElf(elf, all, entry)
  {
    hide IsElf, ElfBytes;
    D.DumpIsElf(m, segs, elf);
    D.DumpFits(m, segs);
    all, entry := D.DumpSegments(m, segs), D.StubStart(segs) + ENTRY_OFFSET;
  }

  lemma {:induction false} ScannedFields(m: D.Machine, segs: seq<Segment>, elf: seq<byte>)
      returns (all: seq<Segment>, entry: nat)
    requires m.Valid() && D.Scanned(segs, m.memory) && D.IsDump(D.Dumped(elf), m, segs)
    ensures D.HasRoom(segs) && all == D.DumpSegments(m, segs) && entry == D.StubStart(segs) + ENTRY_OFFSET
    ensures Described(elf, all, entry)
  {
    all, entry := ElfOfDump(m, segs, elf);
    EveryField(elf, all, entry);
  }

  lemma {:induction false} PartsSayAll(elf: seq<byte>, header: seq<byte>, segs: seq<Segment>, entry: nat)
    requires Storable(segs, entry) && IsHeader(header, segs, entry) && IsFileWith(elf, header, segs)
    ensures SaysAll(elf, segs, entry,
                    64 + |BeforeProgramTable(segs)|, 64 + |BeforeSectionTable(segs)|)
  {
    var tail := SectionTable(SectionHeaders(segs));
    var phoff, shoff := 64 + |BeforeProgramTable(segs)|, 64 + |BeforeSectionTable(segs)|;
    CountSections(segs);
    assert phoff <= shoff by {
      BodyInside(segs);
    }
    HeaderRead(entry, phoff, shoff, |segs|, |SectionHeaders(segs)|, BeforeSectionTable(segs) + tail);
    FileLayout(header, segs);
    SegmentsRead(header, segs, tail);
    TailAt(header, BeforeSectionTable(segs), tail);
    SectionsRead(elf, segs, shoff);
  }

  lemma {:induction false} SegmentsRead(header: seq<byte>, segs: seq<Segment>, tail: seq<byte>)
    requires |header| == 64 && 64 + |BeforeSectionTable(segs)| + |tail| < U64_LIMIT
    requires forall k :: 0 <= k < |segs| ==> segs[k].start < U64_LIMIT
    ensures var elf, phoff := header + (BeforeSectionTable(segs) + tail), 64 + |BeforeProgramTable(segs)|;
            forall k :: 0 <= k < |segs| ==> SegmentAt(elf, segs, phoff, k)
  {
    var elf, phoff := header + (BeforeSectionTable(segs) + tail), 64 + |BeforeProgramTable(segs)|;
    FileLaidOut(header, segs, tail);
    forall k | 0 <= k < |segs|
      ensures SegmentAt(elf, segs, phoff, k)
    {
      SegmentRead(elf, segs, phoff, k);
    }
  }

  lemma {:induction false} SegmentRead(elf: seq<byte>, segs: seq<Segment>, phoff: nat, k: nat)
    requires LaidOut(elf, segs, phoff) && k < |segs| && |elf| < U64_LIMIT && segs[k].start < U64_LIMIT
    ensures SegmentAt(elf, segs, phoff, k)
  {
    SegmentInFile(elf, segs, phoff, k);
    DataOffsetIs(segs, k);
    FieldsInFile(elf, phoff + 56 * k, segs[k], DataOffset(segs, k));
  }

  lemma {:induction false} FieldsInFile(elf: seq<byte>, at: nat, s: Segment, offset: nat)
    requires InFile(elf, at, s, offset)
    ensures SegmentFields(elf, at, s, offset)
  {
  }

  lemma {:induction false} SectionsRead(elf: seq<byte>, segs: seq<Segment>, shoff: nat)
    requires shoff <= |elf| < U64_LIMIT && elf[shoff..] == SectionTable(SectionHeaders(segs))
    requires DataOffset(segs, |segs|) <= |elf|
    requires forall k :: 0 <= k < |segs| ==> segs[k].start < U64_LIMIT
    ensures SectionFields(elf, shoff, 3, 0, 0, 64, 4, 1)
    ensures forall k :: 0 <= k < |segs| && segs[k].executable ==> CodeAt(elf, segs, shoff, k)
  {
    CountSections(segs);
    SectionInFile(elf, shoff, SectionHeaders(segs), 0);
    forall k | 0 <= k < |segs| && segs[k].executable
      ensures CodeAt(elf, segs, shoff, k)
    {
      CodeRead(elf, segs, shoff, k);
    }
  }

  lemma {:induction false} CodeRead(elf: seq<byte>, segs: seq<Segment>, shoff: nat, k: nat)
    requires shoff <= |elf| < U64_LIMIT && elf[shoff..] == SectionTable(SectionHeaders(segs))
    requires k < |segs| && segs[k].executable && segs[k].start < U64_LIMIT && DataOffset(segs, |segs|) <= |elf|
    ensures CodeAt(elf, segs, shoff, k)
  {
    CodeSectionAt(segs, k);
    OffsetGrows(segs, k + 1);
    var h := CodeSection(segs[k], DataOffset(segs, k));
    assert SectionFits(h);
    SectionInFile(elf, shoff, SectionHeaders(segs), 1 + Codes(segs, k));
    assert ReadsSection(elf, shoff + 64 * (1 + Codes(segs, k)), h);
  }

  lemma {:induction false} OffsetGrows(segs: seq<Segment>, k: nat)
    requires k <= |segs|
    ensures DataOffset(segs, k) <= DataOffset(segs, |segs|)
    decreases |segs| - k
  {
    if k < |segs| {
      OffsetGrows(segs, k + 1);
    }
  }
}
