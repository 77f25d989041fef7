/**
  What a loaded dump may execute: pages get their W^X flag from the segments, and come out as
  they were in the dumped machine exactly when the scan has kept to pages of one kind.
*/
module ElfPermissions {
  import opened Bytes
  import opened Options
  import opened ElfScan
  import opened ElfScanFacts
  import ElfStub
  import ElfImage
  import ElfLoad
  import opened ElfDump

  predicate Touches(s: Segment, p: nat) {
    s.FirstPage() <= p <= s.LastPage()
  }

  /** The flag of page `p` once the segments are loaded in order; none for a page that no segment touches. */
  function Permission(segs: seq<Segment>, p: nat): Option<bool> {
    if segs == [] then None
    else if Touches(segs[|segs| - 1], p) then Some(segs[|segs| - 1].executable)
    else Permission(segs[..|segs| - 1], p)
  }

  lemma {:induction false} PermissionFrom(segs: seq<Segment>, p: nat) returns (k: nat)
    requires Permission(segs, p).Some?
    ensures k < |segs| && Touches(segs[k], p) && Permission(segs, p) == Some(segs[k].executable)
  {
    k := |segs| - 1;
    if !Touches(segs[k], p) {
      k := PermissionFrom(segs[..k], p);
    }
  }

  /** Segments on pages of their own do not overrule each other. */
  lemma {:induction false} PermissionAt(segs: seq<Segment>, k: nat, p: nat)
    requires k < |segs| && Touches(segs[k], p)
    requires forall i, j :: 0 <= i < j < |segs| ==> Apart(segs, i, j)
    ensures Permission(segs, p) == Some(segs[k].executable)
  {
    var last := |segs| - 1;
    if k < last {
      assert Apart(segs, k, last);
      forall i, j | 0 <= i < j < last ensures Apart(segs[..last], i, j) {
        assert Apart(segs, i, j);
      }
      PermissionAt(segs[..last], k, p);
    }
  }

  ghost predicate KeptAt(segs: seq<Segment>, m: Memory, p: nat)
    requires m.Valid() && p < PAGES
  {
    Permission(segs, p).Some? ==> Permission(segs, p).value == m.executable[p]
  }

  /** Every page but one that is loaded at all is loaded with the flag it has in `m`. */
  ghost predicate PermissionsKept(segs: seq<Segment>, m: Memory, but: nat)
    requires m.Valid()
  {
    forall p :: 0 <= p < PAGES && p != but ==> KeptAt(segs, m, p)
  }

  /** The scan's segments lie on pages of their own, behind page `stub`. */
  ghost predicate Behind(segs: seq<Segment>, stub: int) {
    && (forall i, j :: 0 <= i < j < |segs| ==> Apart(segs, i, j))
    && (forall k :: 0 <= k < |segs| ==> segs[k].data != [] && segs[k].End() <= MEMORY_SIZE)
    && (forall k :: 0 <= k < |segs| ==> stub < segs[k].FirstPage())
  }

  lemma {:induction false} ScanBehind(m: Memory, gapLimit: nat, segs: seq<Segment>)
    requires m.Valid() && segs == Segments(m, gapLimit) && HasRoom(segs)
    ensures Behind(segs, StubStart(segs) / PAGE_SIZE)
  {
    SegmentsPaged(m, gapLimit, segs);
    StubBelow(segs);
    PagedBehind(segs, m, gapLimit);
  }

  lemma {:induction false} SegmentsPaged(m: Memory, gapLimit: nat, segs: seq<Segment>)
    requires m.Valid() && segs == Segments(m, gapLimit)
    ensures Paged(segs, m, gapLimit, MEMORY_SIZE)
  {
    ScanPaged(m, gapLimit, MEMORY_SIZE);
  }

  lemma {:induction false} PagedBehind(segs: seq<Segment>, m: Memory, gapLimit: nat)
    requires m.Valid() && segs != [] && Paged(segs, m, gapLimit, MEMORY_SIZE)
    ensures Behind(segs, segs[0].FirstPage() - 1)
  {
    forall k | 0 <= k < |segs| ensures segs[0].FirstPage() <= segs[k].FirstPage() {
      FirstPageGrows(segs, k);
    }
  }

  /** The stub touches its own page and no other. */
  lemma {:induction false} StubTouches(m: Machine, start: nat, p: nat)
    requires |m.regs| == 32 && start % PAGE_SIZE == 0
    ensures Touches(StubSegment(m, start), p) <==> p == start / PAGE_SIZE
  {
    StubLength(m, start);
    InPage(start, ElfStub.STUB_SIZE - 1);
  }

  lemma {:induction false} InPage(start: nat, i: nat)
    requires start % PAGE_SIZE == 0 && i < PAGE_SIZE
    ensures (start + i) / PAGE_SIZE == start / PAGE_SIZE
  {
  }

  lemma {:induction false} DumpPermission(m: Machine, segs: seq<Segment>, p: nat)
    requires |m.regs| == 32 && HasRoom(segs)
    ensures Permission(DumpSegments(m, segs), p) ==
            if p == StubStart(segs) / PAGE_SIZE then Some(true) else Permission(segs, p)
  {
    StubBelow(segs);
    StubTouches(m, StubStart(segs), p);
    var all := DumpSegments(m, segs);
    assert all[..|all| - 1] == segs;
  }

  lemma {:induction false} KeptForward(m: Memory, gapLimit: nat, stub: nat)
    requires m.Valid() && PagesKept(m, gapLimit)
    ensures PermissionsKept(Segments(m, gapLimit), m, stub)
  {
    var segs := Segments(m, gapLimit);
    forall p | 0 <= p < PAGES && p != stub ensures KeptAt(segs, m, p) {
      if Permission(segs, p).Some? {
        var k := PermissionFrom(segs, p);
        assert segs[k] in segs;
      }
    }
  }

  lemma {:induction false} KeptBackward(m: Memory, gapLimit: nat, stub: nat)
    requires m.Valid() && Behind(Segments(m, gapLimit), stub) && PermissionsKept(Segments(m, gapLimit), m, stub)
    ensures PagesKept(m, gapLimit)
  {
    var segs := Segments(m, gapLimit);
    forall s | s in segs
      ensures s.data != [] && s.End() <= MEMORY_SIZE && TouchesOnlyItsKind(s, m)
    {
      var k :| 0 <= k < |segs| && segs[k] == s;
      PageInMemory(s.End() - 1);
      forall p | s.FirstPage() <= p <= s.LastPage() ensures m.executable[p] == s.executable {
        PermissionAt(segs, k, p);
        assert KeptAt(segs, m, p);
      }
    }
  }

  /** A byte that is not zero lies on a loaded page. */
  lemma {:induction false} DataLoaded(m: Memory, segs: seq<Segment>, stub: nat, a: nat)
    requires m.Valid() && Faithful(segs, m, MEMORY_SIZE) && Behind(segs, stub)
    requires a < MEMORY_SIZE && m.bytes[a] != 0
    ensures a / PAGE_SIZE != stub && Permission(segs, a / PAGE_SIZE).Some?
  {
    assert Covers(segs, a);
    var k :| 0 <= k < |segs| && segs[k].Contains(a);
    OnItsPages(segs[k], a);
    PermissionAt(segs, k, a / PAGE_SIZE);
  }

  lemma {:induction false} OnItsPages(s: Segment, a: nat)
    requires s.Contains(a)
    ensures Touches(s, a / PAGE_SIZE)
  {
  }

  // ---------------------------------------------------------------- what a loader maps

  /** How page `p` is mapped once the segments are loaded in order; none for a page that no segment touches. */
  function PageMode(mapped: seq<ElfLoad.Mapped>, p: nat): Option<ElfLoad.Mode> {
    if mapped == [] then None
    else if Touches(mapped[|mapped| - 1].segment, p) then Some(mapped[|mapped| - 1].mode)
    else PageMode(mapped[..|mapped| - 1], p)
  }

  /** The mode of a W^X page. */
  function ModeOf(executable: bool): ElfLoad.Mode {
    ElfLoad.Mode(true, !executable, executable)
  }

  ghost predicate ModeKeptAt(mapped: seq<ElfLoad.Mapped>, m: Memory, p: nat)
    requires m.Valid() && p < PAGES
  {
    PageMode(mapped, p).Some? ==> PageMode(mapped, p).value == ModeOf(m.executable[p])
  }

  /** Every page but one that is mapped at all is readable, and is writable or executable as it is in `m`. */
  ghost predicate ModesKept(mapped: seq<ElfLoad.Mapped>, m: Memory, but: nat)
    requires m.Valid()
  {
    forall p :: 0 <= p < PAGES && p != but ==> ModeKeptAt(mapped, m, p)
  }

  lemma {:induction false} PageModeIs(segs: seq<Segment>, p: nat)
    ensures PageMode(ElfLoad.AllMapped(segs), p)
            == if Permission(segs, p).None? then None else Some(ModeOf(Permission(segs, p).value))
  {
    if segs != [] {
      var mapped := ElfLoad.AllMapped(segs);
      PageModeIs(segs[..|segs| - 1], p);
      assert mapped[..|mapped| - 1] == ElfLoad.AllMapped(segs[..|segs| - 1]);
    }
  }

  lemma {:induction false} SameModes(segs: seq<Segment>, m: Memory, but: nat)
    requires m.Valid()
    ensures ModesKept(ElfLoad.AllMapped(segs), m, but) <==> PermissionsKept(segs, m, but)
  {
    forall p | 0 <= p < PAGES && p != but
      ensures ModeKeptAt(ElfLoad.AllMapped(segs), m, p) <==> KeptAt(segs, m, p)
    {
      PageModeIs(segs, p);
    }
  }

  /**
    A loaded dump may read and execute the stub, but not write it, and the stub has a page to
    itself. Every other page that is mapped, and all that hold data are, is readable, and writable
    or executable as in the dumped machine, exactly when the scan keeps to pages of one kind. With
    a gap limit below the page size it always does.
  */
  lemma {:induction false} DumpPermissionsIff(m: Machine, gapLimit: nat, elf: seq<byte>)
      returns (mapped: seq<ElfLoad.Mapped>, stub: nat)
    requires m.Valid() && IsDump(Dumped(elf), m, Segments(m.memory, gapLimit))
    ensures ElfLoad.Load(elf).Some? && mapped == ElfLoad.Load(elf).value.mapped
    ensures stub == ElfLoad.Load(elf).value.entry / PAGE_SIZE
    ensures PageMode(mapped, stub) == Some(ElfLoad.Mode(true, false, true))
    ensures forall k :: 0 <= k < |mapped| - 1 ==> !Touches(mapped[k].segment, stub)
    ensures forall a :: 0 <= a < MEMORY_SIZE && m.memory.bytes[a] != 0 ==>
              a / PAGE_SIZE != stub && PageMode(mapped, a / PAGE_SIZE).Some?
    ensures ModesKept(mapped, m.memory, stub) <==> PagesKept(m.memory, gapLimit)
    ensures gapLimit < PAGE_SIZE ==> ModesKept(mapped, m.memory, stub)
  {
    var loaded;
    loaded, stub := SegmentPermissions(m, gapLimit, elf);
    mapped := ElfLoad.AllMapped(loaded);
    forall a | 0 <= a < MEMORY_SIZE && m.memory.bytes[a] != 0
      ensures a / PAGE_SIZE != stub && PageMode(mapped, a / PAGE_SIZE).Some?
    {
      PageModeIs(loaded, a / PAGE_SIZE);
    }
    PageModeIs(loaded, stub);
    SameModes(loaded, m.memory, stub);
  }

  lemma {:induction false} SegmentPermissions(m: Machine, gapLimit: nat, elf: seq<byte>)
      returns (loaded: seq<Segment>, stub: nat)
    requires m.Valid() && IsDump(Dumped(elf), m, Segments(m.memory, gapLimit))
    ensures ElfLoad.Load(elf).Some? && ElfLoad.AllMapped(loaded) == ElfLoad.Load(elf).value.mapped
    ensures stub == ElfLoad.Load(elf).value.entry / PAGE_SIZE && Permission(loaded, stub) == Some(true)
    ensures forall k :: 0 <= k < |loaded| - 1 ==> !Touches(loaded[k], stub)
    ensures forall a :: 0 <= a < MEMORY_SIZE && m.memory.bytes[a] != 0 ==>
              a / PAGE_SIZE != stub && Permission(loaded, a / PAGE_SIZE).Some?
    ensures PermissionsKept(loaded, m.memory, stub) <==> PagesKept(m.memory, gapLimit)
    ensures gapLimit < PAGE_SIZE ==> PermissionsKept(loaded, m.memory, stub)
  {
    var segs := Segments(m.memory, gapLimit);
    loaded, stub := LoadedDump(m, segs, gapLimit, elf);
    forall a | 0 <= a < MEMORY_SIZE && m.memory.bytes[a] != 0
      ensures a / PAGE_SIZE != stub && Permission(loaded, a / PAGE_SIZE).Some?
    {
      DataLoaded(m.memory, segs, stub, a);
      DumpPermission(m, segs, a / PAGE_SIZE);
    }
    DumpPermission(m, segs, stub);
    SameKept(m, segs);
    if PagesKept(m.memory, gapLimit) {
      KeptForward(m.memory, gapLimit, stub);
    }
    if PermissionsKept(segs, m.memory, stub) {
      KeptBackward(m.memory, gapLimit, stub);
    }
    if gapLimit < PAGE_SIZE {
      ScanPaged(m.memory, gapLimit, MEMORY_SIZE);
      AllKept(m.memory, gapLimit);
    }
  }

  /** The dump of a scan, loaded. */
  lemma {:induction false} LoadedDump(m: Machine, segs: seq<Segment>, gapLimit: nat, elf: seq<byte>)
      returns (loaded: seq<Segment>, stub: nat)
    requires m.Valid() && segs == Segments(m.memory, gapLimit) && IsDump(Dumped(elf), m, segs)
    ensures HasRoom(segs) && ElfLoad.Load(elf).Some?
    ensures loaded == DumpSegments(m, segs) && ElfLoad.Load(elf).value.mapped == ElfLoad.AllMapped(loaded)
    ensures stub == ElfLoad.Load(elf).value.entry / PAGE_SIZE == StubStart(segs) / PAGE_SIZE
    ensures Faithful(segs, m.memory, MEMORY_SIZE) && Behind(segs, stub)
  {
    ScanIsScanned(m.memory, gapLimit);
    ScanBehind(m.memory, gapLimit, segs);
    LoadsBack(m, segs, elf);
    loaded, stub := DumpSegments(m, segs), StubStart(segs) / PAGE_SIZE;
  }

  lemma {:induction false} LoadsBack(m: Machine, segs: seq<Segment>, elf: seq<byte>)
    requires m.Valid() && Scanned(segs, m.memory) && IsDump(Dumped(elf), m, segs)
    ensures ElfLoad.Load(elf).Some? && ElfLoad.Load(elf).value.mapped == ElfLoad.AllMapped(DumpSegments(m, segs))
    ensures ElfLoad.Load(elf).value.entry / PAGE_SIZE == StubStart(segs) / PAGE_SIZE
  {
    StubBelow(segs);
    InPage(StubStart(segs), ElfStub.ENTRY_OFFSET);
    DumpFits(m, segs);
    DumpIsElf(m, segs, elf);
    FileLoads(DumpSegments(m, segs), StubStart(segs) + ElfStub.ENTRY_OFFSET, elf);
  }

  /** The file loads as these segments with this entry point. */
  ghost predicate LoadsAs(elf: seq<byte>, segs: seq<Segment>, entry: nat) {
    ElfLoad.Load(elf) == Some(ElfLoad.Loaded(entry, ElfLoad.AllMapped(segs)))
  }

  lemma {:induction false} FileLoads(segs: seq<Segment>, entry: nat, elf: seq<byte>)
    requires ElfLoad.Storable(segs, entry) && ElfImage.IsElf(elf, segs, entry)
    ensures LoadsAs(elf, segs, entry)
  {
    ElfLoad.ElfRoundTrip(segs, entry);
  }

  lemma {:induction false} SameKept(m: Machine, segs: seq<Segment>)
    requires m.Valid() && HasRoom(segs)
    ensures var stub := StubStart(segs) / PAGE_SIZE;
            PermissionsKept(DumpSegments(m, segs), m.memory, stub) <==> PermissionsKept(segs, m.memory, stub)
  {
    var stub := StubStart(segs) / PAGE_SIZE;
    forall p | 0 <= p < PAGES && p != stub
      ensures KeptAt(DumpSegments(m, segs), m.memory, p) <==> KeptAt(segs, m.memory, p)
    {
      DumpPermission(m, segs, p);
    }
  }
}
