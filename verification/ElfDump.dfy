/**
  The dump syscall end to end: scan, stub, serialise. A loader that maps the file and runs
  it from the entry point arrives at the dumped machine.
*/
module ElfDump {
  import opened Bytes
  import opened ElfScan
  import opened ElfScanFacts
  import opened ElfStub
  import opened ElfStubFacts
  import opened ElfImage
  import ElfLoad

  /** The machine state that the syscall dumps; x17 is A7, the syscall number. */
  datatype Machine = Machine(memory: Memory, regs: seq<u64>, pc: u64) {
    ghost predicate Valid() {
      memory.Valid() && |regs| == 32 && regs[0] == 0
    }
  }

  datatype Outcome = NotHandled | Refused | Dumped(elf: seq<byte>)

  /** The address of the stub's page: the page just before the first segment's. */
  function StubStart(segs: seq<Segment>): nat
    requires segs != [] && segs[0].start > PAGE_SIZE
  {
    segs[0].FirstPageAddress() - PAGE_SIZE
  }

  function StubSegment(m: Machine, start: nat): Segment
    requires |m.regs| == 32
  {
    Segment(start, StubBytes(m.regs, RESTORE, EncodeJal(JumpOffset(start, m.pc))), true)
  }

  /** Whether the dumper can place its stub: memory is not empty and the first page and a word are free. */
  predicate HasRoom(segs: seq<Segment>) {
    segs != [] && segs[0].start > PAGE_SIZE
  }

  function DumpSegments(m: Machine, segs: seq<Segment>): seq<Segment>
    requires |m.regs| == 32 && HasRoom(segs)
  {
    segs + [StubSegment(m, StubStart(segs))]
  }

  /** What the syscall leaves behind for the given scan. */
  ghost predicate IsDump(r: Outcome, m: Machine, segs: seq<Segment>)
    requires |m.regs| == 32
  {
    if HasRoom(segs) && OffsetAccepted(JumpOffset(StubStart(segs), m.pc)) then
      r.Dumped? && IsElf(r.elf, DumpSegments(m, segs), StubStart(segs) + ENTRY_OFFSET)
    else
      r == Refused
  }

  method Ecall(m: Machine, syscallNumber: u64, gapLimit: nat) returns (r: Outcome)
    requires m.Valid()
    ensures if m.regs[17] != syscallNumber then r == NotHandled else IsDump(r, m, Segments(m.memory, gapLimit))
  {
    if m.regs[17] != syscallNumber {
      return NotHandled;
    }
    var segments := Scan(m.memory, gapLimit);
    r := DumpScanned(m, segments);
  }

  /** The rest of the syscall, once memory has been cut into segments. */
  method DumpScanned(m: Machine, scanned: seq<Segment>) returns (r: Outcome)
    requires |m.regs| == 32
    ensures IsDump(r, m, scanned)
  {
    if scanned == [] || scanned[0].start <= PAGE_SIZE {
      return Refused;
    }
    var registerBufferStart := scanned[0].FirstPageAddress() - PAGE_SIZE;
    var stub := BuildStub(m.regs, m.pc, registerBufferStart);
    if stub.None? {
      return Refused;
    }
    r := Assemble(scanned, StubSegment(m, registerBufferStart), stub.value);
  }

  /** The stub becomes the last segment, and the entry point lies in it. */
  method Assemble(scanned: seq<Segment>, ghost stub: Segment, bytes: seq<byte>) returns (r: Outcome)
    requires HasRoom(scanned) && stub == Segment(StubStart(scanned), bytes, true)
    ensures r.Dumped? && IsElf(r.elf, scanned + [stub], StubStart(scanned) + ENTRY_OFFSET)
  {
    var registerBufferStart := scanned[0].FirstPageAddress() - PAGE_SIZE;
    var segments := scanned + [Segment(registerBufferStart, bytes, true)];
    var elf := BuildElf(segments, registerBufferStart + ENTRY_OFFSET);
    return Dumped(elf);
  }

  // ---------------------------------------------------------------- when there is a dump

  /** The first byte of memory that is not zero. */
  predicate IsFirst(m: Memory, first: nat)
    requires m.Valid()
  {
    first < |m.bytes| && m.bytes[first] != 0 && forall a :: 0 <= a < first ==> m.bytes[a] == 0
  }

  lemma {:induction false} FirstWord(m: Memory, start: nat, first: nat)
    requires m.Valid() && start % 8 == 0 && start + 8 <= MEMORY_SIZE && m.Load64(start) != 0
    requires (forall a :: 0 <= a < start ==> m.bytes[a] == 0) && IsFirst(m, first)
    ensures start <= first < start + 8
  {
    var word := m.bytes[start..start + 8];
    FromLeZero(word);
    var i :| 0 <= i < |word| && word[i] != 0;
    assert m.bytes[start + i] != 0;
  }

  lemma {:induction false} WordInPage(start: nat, first: nat)
    requires start % 8 == 0 && start <= first < start + 8
    ensures start / 4096 == first / 4096 && (start > 4096 <==> first >= 4104)
  {
  }

  lemma {:induction false} OffsetOf(pc: u64, jump: nat)
    requires jump < 0x40_0000
    ensures var reach := pc - jump;
            OffsetAccepted(reach % U64_LIMIT) <==>
            reach % 2 == 0 && (-0x20_0000 <= reach < 0x20_0000 || 0x1_0000_0000_0000_0000 - 0x20_0000 <= reach)
  {
    var reach := pc - jump;
    GuardIff(reach % U64_LIMIT);
    WrapOnce(reach);
  }

  lemma {:induction false} WrapOnce(n: int)
    requires 0 - U64_LIMIT < n < U64_LIMIT
    ensures n % U64_LIMIT == if n < 0 then n + U64_LIMIT else n
  {
  }

  /**
    Empty memory is not dumped. Otherwise the page before the first non-zero byte's is where the stub
    goes, unless that byte is among the first 4104; the dump is made exactly when the distance from
    the stub's last word to the pc is even and, as a signed number of 64 bits, within 2 MiB.
  */
  lemma {:induction false} DumpedIff(r: Outcome, m: Machine, gapLimit: nat, first: nat)
    requires m.Valid() && IsDump(r, m, Segments(m.memory, gapLimit))
    ensures r.Dumped? || r == Refused
    ensures (forall a :: 0 <= a < |m.memory.bytes| ==> m.memory.bytes[a] == 0) ==> r == Refused
    ensures IsFirst(m.memory, first) ==> (r.Dumped? <==> first >= 4104 && WithinReach(m.pc, first))
  {
    var segs := Segments(m.memory, gapLimit);
    FirstSegment(m.memory, gapLimit);
    if segs != [] {
      NotEmpty(m.memory, segs[0].start);
      if IsFirst(m.memory, first) {
        FirstWord(m.memory, segs[0].start, first);
        DumpedFrom(r, m, segs, first);
      }
    }
  }

  predicate WithinReach(pc: u64, first: nat) {
    var reach := pc - (first / 4096 * 4096 - 4096 + 380);
    && reach % 2 == 0
    && (-0x20_0000 <= reach < 0x20_0000 || 0x1_0000_0000_0000_0000 - 0x20_0000 <= reach)
  }

  /** The dumper's two tests, and nothing else, decide. */
  lemma {:induction false} TestsDecide(r: Outcome, m: Machine, segs: seq<Segment>)
    requires |m.regs| == 32 && IsDump(r, m, segs)
    ensures r.Dumped? <==> HasRoom(segs) && OffsetAccepted(JumpOffset(StubStart(segs), m.pc))
  {
  }

  lemma {:induction false} RoomIs(segs: seq<Segment>, first: nat)
    requires segs != [] && segs[0].start % 8 == 0 && segs[0].start <= first < segs[0].start + 8
    ensures HasRoom(segs) <==> first >= 4104
    ensures HasRoom(segs) ==> StubStart(segs) == first / 4096 * 4096 - 4096
  {
    WordInPage(segs[0].start, first);
  }

  lemma {:induction false} DumpedFrom(r: Outcome, m: Machine, segs: seq<Segment>, first: nat)
    requires |m.regs| == 32 && IsDump(r, m, segs)
    requires segs != [] && segs[0].start % 8 == 0 && segs[0].start <= first < segs[0].start + 8
    requires first < 4194304
    ensures r.Dumped? <==> first >= 4104 && WithinReach(m.pc, first)
  {
    TestsDecide(r, m, segs);
    RoomIs(segs, first);
    if HasRoom(segs) {
      StartInMemory(first);
      ReachIs(StubStart(segs), m.pc, first);
    }
  }

  lemma {:induction false} StartInMemory(first: nat)
    requires first < 4194304
    ensures first / 4096 * 4096 - 4096 + 380 < 0x40_0000
  {
  }

  lemma {:induction false} ReachIs(start: nat, pc: u64, first: nat)
    requires start == first / 4096 * 4096 - 4096 && start + 380 < 0x40_0000
    ensures OffsetAccepted(JumpOffset(start, pc)) <==> WithinReach(pc, first)
  {
    OffsetOf(pc, start + JUMP_OFFSET);
  }

  lemma {:induction false} NotEmpty(m: Memory, start: nat)
    requires m.Valid() && start + 8 <= MEMORY_SIZE && m.Load64(start) != 0
    ensures exists a :: 0 <= a < |m.bytes| && m.bytes[a] != 0
  {
    var word := m.bytes[start..start + 8];
    FromLeZero(word);
    var i :| 0 <= i < |word| && word[i] != 0;
    assert m.bytes[start + i] != 0;
  }

  // ---------------------------------------------------------------- the dump is a faithful machine

  /** What the scan guarantees and the rest of the proof uses. */
  ghost predicate Scanned(segs: seq<Segment>, m: Memory)
    requires m.Valid()
  {
    && Faithful(segs, m, MEMORY_SIZE) && HasRoom(segs)
    && segs[0].FirstPage() + |segs| <= PAGES
    && (forall a :: 0 <= a < segs[0].start ==> m.bytes[a] == 0)
  }

  lemma {:induction false} ScanIsScanned(m: Memory, gapLimit: nat)
    requires m.Valid() && HasRoom(Segments(m, gapLimit))
    ensures Scanned(Segments(m, gapLimit), m)
  {
    ScanFaithful(m, gapLimit, MEMORY_SIZE);
    SegmentCount(m, gapLimit);
    FirstSegment(m, gapLimit);
  }

  /** The stub fits in the free page below the first segment. */
  lemma {:induction false} StubBelow(segs: seq<Segment>)
    requires HasRoom(segs)
    ensures StubStart(segs) % PAGE_SIZE == 0 && StubStart(segs) + PAGE_SIZE <= segs[0].start
    ensures StubStart(segs) / PAGE_SIZE == segs[0].FirstPage() - 1
  {
  }

  lemma {:induction false} StubLength(m: Machine, start: nat)
    requires |m.regs| == 32
    ensures |StubSegment(m, start).data| == STUB_SIZE
  {
    WordsLength(m.regs[1..], 8);
    WordsLength(RESTORE, 4);
  }

  lemma {:induction false} DataLength(segs: seq<Segment>)
    requires forall k :: 0 <= k < |segs| ==> |segs[k].data| <= MEMORY_SIZE
    ensures |Data(segs)| <= MEMORY_SIZE * |segs|
    ensures 1 <= |SectionHeaders(segs)| <= |segs| + 1
  {
    if segs != [] {
      DataLength(segs[..|segs| - 1]);
    }
  }

  lemma {:induction false} SectionTableLength(hs: seq<SectionHeader>)
    ensures |SectionTable(hs)| == 64 * |hs|
  {
    if hs != [] {
      SectionTableLength(hs[..|hs| - 1]);
    }
  }

  lemma {:induction false} TablesFit(segs: seq<Segment>, entry: nat)
    requires |segs| <= PAGES && entry < U64_LIMIT
    requires forall k :: 0 <= k < |segs| ==> |segs[k].data| <= MEMORY_SIZE && segs[k].start < MEMORY_SIZE
    ensures ElfLoad.Storable(segs, entry)
  {
    DataLength(segs);
    CountProgramHeaders(segs);
    ElfLoad.ProgramTableLength(ProgramHeaders(segs));
    SectionTableLength(SectionHeaders(segs));
  }

  lemma {:induction false} DumpFits(m: Machine, segs: seq<Segment>)
    requires m.Valid() && Scanned(segs, m.memory)
    ensures ElfLoad.Storable(DumpSegments(m, segs), StubStart(segs) + ENTRY_OFFSET)
  {
    StubBelow(segs);
    StubLength(m, StubStart(segs));
    TablesFit(DumpSegments(m, segs), StubStart(segs) + ENTRY_OFFSET);
  }

  lemma {:induction false} DumpIsElf(m: Machine, segs: seq<Segment>, elf: seq<byte>)
    requires |m.regs| == 32 && IsDump(Dumped(elf), m, segs)
    ensures HasRoom(segs) && IsElf(elf, DumpSegments(m, segs), StubStart(segs) + ENTRY_OFFSET)
  {
  }

  /** Mapping the dumped segments over zeroed memory: the dumped memory, with the stub in the free page. */
  lemma {:induction false} DumpImage(m: Machine, segs: seq<Segment>)
    requires m.Valid() && Scanned(segs, m.memory)
    ensures forall k :: 0 <= k < |segs| + 1 ==> DumpSegments(m, segs)[k].End() <= MEMORY_SIZE
    ensures var start, image := StubStart(segs), Overlay(DumpSegments(m, segs), Zeros(MEMORY_SIZE));
            && image[start..start + STUB_SIZE] == StubSegment(m, start).data
            && (forall a :: 0 <= a < MEMORY_SIZE && !(start <= a < start + STUB_SIZE) ==> image[a] == m.memory.bytes[a])
            && (forall a :: start <= a < start + PAGE_SIZE ==> m.memory.bytes[a] == 0)
  {
    var start := StubStart(segs);
    StubBelow(segs);
    StubLength(m, start);
    FaithfulImage(segs, m.memory);
    var stub, all := StubSegment(m, start), DumpSegments(m, segs);
    assert all[..|all| - 1] == segs;
    assert Overlay(all, Zeros(MEMORY_SIZE))
        == m.memory.bytes[..start] + stub.data + m.memory.bytes[start + STUB_SIZE..];
  }

  /** Loading `elf` yields `image` to run from `entry`, in at most one segment per page. */
  ghost predicate LoadsTo(elf: seq<byte>, image: seq<byte>, entry: nat) {
    && ElfLoad.Load(elf).Some?
    && var l := ElfLoad.Load(elf).value;
       && l.entry == entry && |l.mapped| <= PAGES
       && (forall k :: 0 <= k < |l.mapped| ==> l.mapped[k].segment.End() <= MEMORY_SIZE)
       && image == Overlay(ElfLoad.Segments(l.mapped), Zeros(MEMORY_SIZE))
  }

  /** Same memory, but for the stub in a page that memory left empty. */
  ghost predicate SameMemory(image: seq<byte>, m: Memory, start: nat)
    requires m.Valid()
  {
    && |image| == |m.bytes| == 4194304 && start + 4096 <= 4194304
    && (forall a :: 0 <= a < 4194304 && !(start <= a < start + 384) ==> image[a] == m.bytes[a])
    && (forall a :: start <= a < start + 4096 ==> m.bytes[a] == 0)
  }

  /** Started at the entry point with registers `boot`, the image restores the machine and jumps to `target`. */
  ghost predicate Resumes(image: seq<byte>, boot: seq<u64>, m: Machine, start: nat, target: u64)
    requires |boot| == 32
  {
    && start + ENTRY_OFFSET < U64_LIMIT
    && Reaches(Fetcher(image), image, Cpu(boot, start + ENTRY_OFFSET), |RESTORE| + 1, Cpu(m.regs, target))
    && (target == m.pc <==> InReach(JumpOffset(start, m.pc)))
  }

  /**
    A dump, loaded and run: whatever the registers were at the start, the restore code ends in
    the dumped registers over the dumped memory, and at the dumped pc exactly when it is in reach.
  */
  lemma {:induction false} DumpResumes(m: Machine, gapLimit: nat, elf: seq<byte>, boot: seq<u64>)
      returns (image: seq<byte>, start: nat, target: u64)
    requires m.Valid() && IsDump(Dumped(elf), m, Segments(m.memory, gapLimit))
    requires |boot| == 32 && boot[0] == 0
    ensures LoadsTo(elf, image, start + ENTRY_OFFSET)
    ensures SameMemory(image, m.memory, start)
    ensures Resumes(image, boot, m, start, target)
  {
    ScanIsScanned(m.memory, gapLimit);
    image, start := LoadDump(m, Segments(m.memory, gapLimit), elf);
    target := RunDump(m, image, start, boot);
  }

  lemma {:induction false} LoadDump(m: Machine, segs: seq<Segment>, elf: seq<byte>)
      returns (image: seq<byte>, start: nat)
    requires m.Valid() && Scanned(segs, m.memory) && IsDump(Dumped(elf), m, segs)
    ensures LoadsTo(elf, image, start + ENTRY_OFFSET)
    ensures SameMemory(image, m.memory, start)
    ensures OffsetAccepted(JumpOffset(start, m.pc))
    ensures image[start..start + STUB_SIZE] == StubSegment(m, start).data
  {
    start := StubStart(segs);
    StubBelow(segs);
    DumpImage(m, segs);
    image := LoadsDump(m, segs, elf);
  }

  lemma {:induction false} LoadsDump(m: Machine, segs: seq<Segment>, elf: seq<byte>) returns (image: seq<byte>)
    requires m.Valid() && Scanned(segs, m.memory) && IsDump(Dumped(elf), m, segs)
    requires forall k :: 0 <= k < |segs| + 1 ==> DumpSegments(m, segs)[k].End() <= MEMORY_SIZE
    ensures image == Overlay(DumpSegments(m, segs), Zeros(MEMORY_SIZE))
    ensures LoadsTo(elf, image, StubStart(segs) + ENTRY_OFFSET)
  {
    DumpFits(m, segs);
    ElfLoad.ElfRoundTrip(DumpSegments(m, segs), StubStart(segs) + ENTRY_OFFSET);
    image := Overlay(DumpSegments(m, segs), Zeros(MEMORY_SIZE));
  }

  lemma {:induction false} RunDump(m: Machine, image: seq<byte>, start: nat, boot: seq<u64>) returns (target: u64)
    requires m.Valid() && |image| == MEMORY_SIZE && start + STUB_SIZE <= MEMORY_SIZE
    requires OffsetAccepted(JumpOffset(start, m.pc))
    requires image[start..start + STUB_SIZE] == StubSegment(m, start).data
    requires |boot| == 32 && boot[0] == 0
    ensures Resumes(image, boot, m, start, target)
  {
    StubInImage(m, image, start);
    RestoreIsCode();
    target := StubRestores(image, Cpu(boot, start + ENTRY_OFFSET), start, m.regs, RESTORE, m.pc);
  }

  lemma {:induction false} StubInImage(m: Machine, image: seq<byte>, start: nat)
    requires |m.regs| == 32 && |image| == MEMORY_SIZE && start + STUB_SIZE <= MEMORY_SIZE
    requires OffsetAccepted(JumpOffset(start, m.pc))
    requires image[start..start + STUB_SIZE] == StubSegment(m, start).data
    ensures StubAt(image, start, m.regs, RESTORE, EncodeJal(JumpOffset(start, m.pc)))
  {
    JalFields(JumpOffset(start, m.pc));
  }
}
