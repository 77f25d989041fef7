/**
  The memory scan of the ELF dumper: cut a paged memory into segments that start
  and end on non-zero words, bridging short runs of zeros.

  `Scan` is the dumper's nest of loops. `ScanTo` is the simple form it refines: a fold
  that looks at one word at a time. What the dump relies on is proved about `ScanTo`.
*/
module ElfScan {
  import opened Bytes

  const PAGE_SIZE: nat := 4096
  const PAGES: nat := 1024
  const MEMORY_SIZE: nat := 4194304

  /** The machine's memory: its bytes, and for each page whether its W^X flag says executable. */
  datatype Memory = Memory(bytes: seq<byte>, executable: seq<bool>) {
    predicate Valid() {
      |bytes| == MEMORY_SIZE && |executable| == PAGES
    }

    function Load64(addr: nat): nat
      requires addr + 8 <= |bytes|
    {
      FromLe(bytes[addr..addr + 8])
    }

    predicate ExecutableAt(addr: nat)
      requires Valid() && addr < MEMORY_SIZE
    {
      executable[addr / PAGE_SIZE]
    }
  }

  datatype Segment = Segment(start: nat, data: seq<byte>, executable: bool) {
    function End(): nat { start + |data| }

    function FirstPage(): nat { start / PAGE_SIZE }

    function FirstPageAddress(): nat { FirstPage() * PAGE_SIZE }

    function LastPage(): int { (start + |data| - 1) / PAGE_SIZE }

    predicate Contains(addr: nat) { start <= addr < End() }

    /** Whether the dumper appends a word at `addr` to this segment rather than opening a new one. */
    predicate Joins(addr: nat, exec: bool, gapLimit: nat) {
      && End() <= addr
      && executable == exec
      && (addr - End() <= gapLimit || addr / PAGE_SIZE == LastPage())
    }
  }

  // ---------------------------------------------------------------- word-at-a-time form

  function AddWord(segs: seq<Segment>, m: Memory, gapLimit: nat, addr: nat): seq<Segment>
    requires m.Valid() && addr + 8 <= MEMORY_SIZE
  {
    var exec := m.ExecutableAt(addr);
    if m.Load64(addr) == 0 then
      segs
    else if segs != [] && segs[|segs| - 1].Joins(addr, exec, gapLimit) then
      segs[..|segs| - 1] + [Extended(segs[|segs| - 1], m, addr)]
    else
      segs + [Segment(addr, Le(m.Load64(addr), 8), exec)]
  }

  /** A segment stretched over the zeros up to `addr` and the word there. */
  function Extended(last: Segment, m: Memory, addr: nat): Segment
    requires last.End() <= addr && addr + 8 <= |m.bytes|
  {
    last.(data := last.data + Zeros(addr - last.End()) + Le(m.Load64(addr), 8))
  }

  /** The segments found below the word-aligned address `addr`. */
  function ScanTo(m: Memory, gapLimit: nat, addr: nat): seq<Segment>
    requires m.Valid() && addr % 8 == 0 && addr <= MEMORY_SIZE
    decreases addr
  {
    if addr == 0 then [] else AddWord(ScanTo(m, gapLimit, addr - 8), m, gapLimit, addr - 8)
  }

  function Segments(m: Memory, gapLimit: nat): seq<Segment>
    requires m.Valid()
  {
    ScanTo(m, gapLimit, MEMORY_SIZE)
  }

  /** No segment is empty and none reaches past `limit`, so gaps are never negative. */
  predicate Below(segs: seq<Segment>, limit: nat) {
    forall k :: 0 <= k < |segs| ==> segs[k].data != [] && segs[k].End() <= limit
  }

  lemma {:induction false} ScanBelow(m: Memory, gapLimit: nat, addr: nat)
    requires m.Valid() && addr % 8 == 0 && addr <= MEMORY_SIZE
    ensures Below(ScanTo(m, gapLimit, addr), addr)
    decreases addr
  {
    if addr > 0 {
      PreviousWord(addr);
      ScanBelow(m, gapLimit, addr - 8);
      AddWordBelow(ScanTo(m, gapLimit, addr - 8), m, gapLimit, addr - 8);
    }
  }

  lemma {:induction false} AddWordBelow(segs: seq<Segment>, m: Memory, gapLimit: nat, addr: nat)
    requires m.Valid() && addr + 8 <= MEMORY_SIZE && Below(segs, addr)
    ensures Below(AddWord(segs, m, gapLimit, addr), addr + 8)
  {
    if segs != [] && segs[|segs| - 1].End() <= addr {
      assert |Extended(segs[|segs| - 1], m, addr).data| > 0;
    }
  }

  lemma {:induction false} NextWord(addr: nat, end: nat)
    requires addr % 8 == 0 && end % 8 == 0 && addr < end
    ensures addr + 8 <= end && (addr + 8) % 8 == 0
  {
  }

  lemma {:induction false} PreviousWord(addr: nat)
    requires addr % 8 == 0 && addr > 0
    ensures addr >= 8 && (addr - 8) % 8 == 0
  {
  }

  // ---------------------------------------------------------------- the dumper's loops

  /** `segs` are the segments found below `addr`. */
  ghost predicate ScannedTo(m: Memory, gapLimit: nat, addr: nat, segs: seq<Segment>)
    requires m.Valid()
  {
    addr % 8 == 0 && addr <= MEMORY_SIZE && segs == ScanTo(m, gapLimit, addr)
  }

  lemma {:induction false} ScannedWord(m: Memory, gapLimit: nat, addr: nat, segs: seq<Segment>)
    requires m.Valid() && ScannedTo(m, gapLimit, addr, segs) && addr + 8 <= MEMORY_SIZE
    ensures ScannedTo(m, gapLimit, addr + 8, AddWord(segs, m, gapLimit, addr))
  {
    NextWord(addr, MEMORY_SIZE);
  }

  /** The nested scan: in each page, skip zeros and then copy a run of non-zero words. */
  method Scan(m: Memory, gapLimit: nat) returns (segments: seq<Segment>)
    requires m.Valid()
    ensures segments == Segments(m, gapLimit)
  {
    segments := [];
    var page := 0;
    while page < PAGES
      invariant page <= PAGES
      invariant ScannedTo(m, gapLimit, page * PAGE_SIZE, segments)
    {
      segments := ScanPage(m, gapLimit, page, segments);
      page := page + 1;
    }
  }

  lemma {:induction false} PageEnd(page: nat)
    requires page < PAGES
    ensures (page + 1) * PAGE_SIZE <= MEMORY_SIZE && ((page + 1) * PAGE_SIZE) % 8 == 0
  {
  }

  /** The loop inside one page. */
  method ScanPage(m: Memory, gapLimit: nat, page: nat, found: seq<Segment>) returns (segments: seq<Segment>)
    requires m.Valid() && page < PAGES && ScannedTo(m, gapLimit, page * PAGE_SIZE, found)
    ensures ScannedTo(m, gapLimit, (page + 1) * PAGE_SIZE, segments)
  {
    PageEnd(page);
    var start := page * PAGE_SIZE;
    segments := ScanRuns(m, gapLimit, page, start, (page + 1) * PAGE_SIZE, found);
  }

  method ScanRuns(m: Memory, gapLimit: nat, page: nat, first: nat, end: nat, found: seq<Segment>)
      returns (segments: seq<Segment>)
    requires m.Valid() && page < PAGES && first == page * PAGE_SIZE && end == (page + 1) * PAGE_SIZE
    requires end <= MEMORY_SIZE && end % 8 == 0 && ScannedTo(m, gapLimit, first, found)
    ensures ScannedTo(m, gapLimit, end, segments)
  {
    segments := found;
    var start := first;
    while start < end
      invariant first <= start <= end
      invariant ScannedTo(m, gapLimit, start, segments)
    {
      start := SkipZeros(m, gapLimit, start, end, segments);
      if start < end {
        segments, start := AppendRun(m, gapLimit, segments, page, start, end);
      }
    }
  }

  /** First inner loop: move `start` to the next non-zero word of the page, or to its end. */
  method SkipZeros(m: Memory, gapLimit: nat, from: nat, end: nat, ghost segs: seq<Segment>) returns (start: nat)
    requires m.Valid() && ScannedTo(m, gapLimit, from, segs) && end % 8 == 0 && from <= end <= MEMORY_SIZE
    ensures from <= start <= end && ScannedTo(m, gapLimit, start, segs)
    ensures start < end ==> start + 8 <= MEMORY_SIZE && m.Load64(start) != 0
  {
    start := from;
    while start < end
      invariant from <= start <= end && ScannedTo(m, gapLimit, start, segs)
    {
      NextWord(start, end);
      if m.Load64(start) != 0 {
        break;
      }
      ScannedWord(m, gapLimit, start, segs);
      start := start + 8;
    }
  }

  /** A run of words from `from` up to `start` is being copied into an open segment. */
  ghost predicate RunOpen(m: Memory, gapLimit: nat, segments: seq<Segment>, open: Segment, from: nat, start: nat)
    requires m.Valid()
  {
    && from <= start && open.End() == start
    && if start == from then
         start + 8 <= MEMORY_SIZE
         && ScannedTo(m, gapLimit, start + 8, segments + [open.(data := open.data + Le(m.Load64(start), 8))])
       else
         open.data != [] && ScannedTo(m, gapLimit, start, segments + [open])
  }

  lemma {:induction false} RunGoesOn(m: Memory, gapLimit: nat, segments: seq<Segment>, open: Segment, page: nat,
      from: nat, start: nat)
    requires m.Valid() && RunOpen(m, gapLimit, segments, open, from, start)
    requires start % 8 == 0 && start + 8 <= MEMORY_SIZE && m.Load64(start) != 0
    requires page == start / PAGE_SIZE && open.executable == m.executable[page]
    ensures RunOpen(m, gapLimit, segments, open.(data := open.data + Le(m.Load64(start), 8)), from, start + 8)
  {
    if start > from {
      AppendNext(m, gapLimit, segments, open, page, start);
      NextWord(start, MEMORY_SIZE);
    }
  }

  lemma {:induction false} InPage(addr: nat, page: nat)
    requires page * PAGE_SIZE <= addr < (page + 1) * PAGE_SIZE
    ensures addr / PAGE_SIZE == page
  {
  }

  /** Second half of the loop: reopen the last segment or open a new one, then copy the run. */
  method AppendRun(m: Memory, gapLimit: nat, found: seq<Segment>, page: nat, from: nat, end: nat)
      returns (segments: seq<Segment>, start: nat)
    requires m.Valid() && page < PAGES && end == (page + 1) * PAGE_SIZE && end % 8 == 0
    requires page * PAGE_SIZE <= from < end && from + 8 <= MEMORY_SIZE && m.Load64(from) != 0
    requires ScannedTo(m, gapLimit, from, found)
    ensures from < start <= end && ScannedTo(m, gapLimit, start, segments)
  {
    var executable := m.executable[page];
    var bytesStart, bytes;
    InPage(from, page);
    segments, bytesStart, bytes := OpenSegment(m, gapLimit, found, page, from);
    start := from;
    while start < end
      invariant from <= start <= end && start % 8 == 0
      invariant RunOpen(m, gapLimit, segments, Segment(bytesStart, bytes, executable), from, start)
    {
      NextWord(start, end);
      InPage(start, page);
      var value := m.Load64(start);
      if value == 0 {
        break;
      }
      RunGoesOn(m, gapLimit, segments, Segment(bytesStart, bytes, executable), page, from, start);
      bytes := bytes + Le(value, 8);
      start := start + 8;
    }
    segments := segments + [Segment(bytesStart, bytes, executable)];
  }

  /** Decide whether the run at `from` continues the last segment, and if so fill the gap first. */
  method OpenSegment(m: Memory, gapLimit: nat, found: seq<Segment>, page: nat, from: nat)
      returns (segments: seq<Segment>, bytesStart: nat, bytes: seq<byte>)
    requires m.Valid() && from + 8 <= MEMORY_SIZE && page == from / PAGE_SIZE
    requires m.Load64(from) != 0
    requires ScannedTo(m, gapLimit, from, found)
    ensures RunOpen(m, gapLimit, segments, Segment(bytesStart, bytes, m.executable[page]), from, from)
  {
    segments, bytesStart, bytes := found, from, [];
    ScanBelow(m, gapLimit, from);
    ScannedWord(m, gapLimit, from, found);
    if segments != [] {
      var last := segments[|segments| - 1];
      var samePage := page == last.LastPage();
      var gap := from - (last.start + |last.data|);
      if last.executable == m.executable[page] && (gap <= gapLimit || samePage) {
        segments := segments[..|segments| - 1];
        bytesStart, bytes := last.start, last.data + Zeros(gap);
      }
    }
    assert [] + Le(m.Load64(from), 8) == Le(m.Load64(from), 8);
  }

  /** Inside a run every word extends the segment that the word before it ended. */
  lemma {:induction false} AppendNext(m: Memory, gapLimit: nat, kept: seq<Segment>, open: Segment, page: nat, addr: nat)
    requires m.Valid() && addr % 8 == 0 && addr + 8 <= MEMORY_SIZE && m.Load64(addr) != 0
    requires page == addr / PAGE_SIZE && open.executable == m.executable[page]
    requires open.data != [] && open.End() == addr
    requires kept + [open] == ScanTo(m, gapLimit, addr)
    ensures kept + [open.(data := open.data + Le(m.Load64(addr), 8))]
            == ScanTo(m, gapLimit, addr + 8)
  {
    var found := ScanTo(m, gapLimit, addr);
    assert found[..|found| - 1] == kept && found[|found| - 1] == open;
    assert open.data + Zeros(0) == open.data;
  }
}
