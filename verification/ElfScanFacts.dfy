/**
  What the scan guarantees: the segments are a faithful image of memory, they respect
  pages, and they are as long as the gap rule allows.
*/
module ElfScanFacts {
  import opened Bytes
  import opened ElfScan

  // ---------------------------------------------------------------- faithful image

  predicate Covers(segs: seq<Segment>, addr: nat) {
    exists k :: 0 <= k < |segs| && segs[k].Contains(addr)
  }

  /** Below `limit`, the segments are in order, hold what memory holds and miss no non-zero byte. */
  ghost predicate Faithful(segs: seq<Segment>, m: Memory, limit: nat)
    requires m.Valid() && limit <= MEMORY_SIZE
  {
    && Below(segs, limit)
    && (forall i, j :: 0 <= i < j < |segs| ==> segs[i].End() <= segs[j].start)
    && (forall k :: 0 <= k < |segs| ==> segs[k].data == m.bytes[segs[k].start..segs[k].End()])
    && (forall a :: 0 <= a < limit && m.bytes[a] != 0 ==> Covers(segs, a))
  }

  lemma {:induction false} WordBytes(m: Memory, addr: nat)
    requires addr + 8 <= |m.bytes|
    ensures Le(m.Load64(addr), 8) == m.bytes[addr..addr + 8]
    ensures m.Load64(addr) == 0 <==> forall a :: addr <= a < addr + 8 ==> m.bytes[a] == 0
  {
    var word := m.bytes[addr..addr + 8];
    LeFromLe(word);
    FromLeZero(word);
    if m.Load64(addr) == 0 {
      forall a | addr <= a < addr + 8 ensures m.bytes[a] == 0 {
        assert word[a - addr] == 0;
      }
    }
  }

  lemma {:induction false} ScanFaithful(m: Memory, gapLimit: nat, addr: nat)
    requires m.Valid() && addr % 8 == 0 && addr <= MEMORY_SIZE
    ensures Faithful(ScanTo(m, gapLimit, addr), m, addr)
    decreases addr
  {
    if addr > 0 {
      PreviousWord(addr);
      ScanFaithful(m, gapLimit, addr - 8);
      AddWordFaithful(ScanTo(m, gapLimit, addr - 8), m, gapLimit, addr - 8);
    }
  }

  lemma {:induction false} AddWordFaithful(segs: seq<Segment>, m: Memory, gapLimit: nat, addr: nat)
    requires m.Valid() && addr + 8 <= MEMORY_SIZE && Faithful(segs, m, addr)
    ensures Faithful(AddWord(segs, m, gapLimit, addr), m, addr + 8)
  {
    WordBytes(m, addr);
    if m.Load64(addr) != 0 {
      if segs != [] && segs[|segs| - 1].Joins(addr, m.ExecutableAt(addr), gapLimit) {
        ExtendFaithful(segs, m, addr);
      } else {
        OpenFaithful(segs, m, addr, m.ExecutableAt(addr));
      }
    }
  }

  lemma {:induction false} OpenFaithful(segs: seq<Segment>, m: Memory, addr: nat, exec: bool)
    requires m.Valid() && addr + 8 <= MEMORY_SIZE && Faithful(segs, m, addr)
    ensures Faithful(segs + [Segment(addr, Le(m.Load64(addr), 8), exec)], m, addr + 8)
  {
    WordBytes(m, addr);
    var r := segs + [Segment(addr, m.bytes[addr..addr + 8], exec)];
    forall a | 0 <= a < addr + 8 && m.bytes[a] != 0 ensures Covers(r, a) {
      if a < addr {
        var k :| 0 <= k < |segs| && segs[k].Contains(a);
        assert r[k].Contains(a);
      } else {
        assert r[|segs|].Contains(a);
      }
    }
  }

  lemma {:induction false} ExtendFaithful(segs: seq<Segment>, m: Memory, addr: nat)
    requires m.Valid() && addr + 8 <= MEMORY_SIZE && Faithful(segs, m, addr) && segs != []
    ensures Faithful(segs[..|segs| - 1] + [Extended(segs[|segs| - 1], m, addr)], m, addr + 8)
  {
    var n := |segs| - 1;
    var e := Extended(segs[n], m, addr);
    ExtendedIsMemory(segs, m, addr);
    var r := segs[..n] + [e];
    forall a | 0 <= a < addr + 8 && m.bytes[a] != 0 ensures Covers(r, a) {
      if a < segs[n].start {
        var k :| 0 <= k < |segs| && segs[k].Contains(a);
        assert r[k].Contains(a);
      } else {
        assert r[n].Contains(a);
      }
    }
  }

  /** The zeros that bridge a gap are the zeros that memory has there. */
  lemma {:induction false} ExtendedIsMemory(segs: seq<Segment>, m: Memory, addr: nat)
    requires m.Valid() && addr + 8 <= MEMORY_SIZE && Faithful(segs, m, addr) && segs != []
    ensures var e := Extended(segs[|segs| - 1], m, addr);
            e.End() == addr + 8 && e.data == m.bytes[e.start..e.End()]
  {
    var last := segs[|segs| - 1];
    WordBytes(m, addr);
    forall a | last.End() <= a < addr ensures m.bytes[a] == 0 {
      assert !Covers(segs, a);
    }
    ZeroRange(m.bytes, last.End(), addr);
    ThreeRanges(m.bytes, last.start, last.End(), addr, addr + 8);
  }

  lemma {:induction false} ZeroRange(s: seq<byte>, lo: nat, hi: nat)
    requires lo <= hi <= |s| && forall a :: lo <= a < hi ==> s[a] == 0
    ensures s[lo..hi] == Zeros(hi - lo)
  {
  }

  lemma {:induction false} ThreeRanges(s: seq<byte>, a: nat, b: nat, c: nat, d: nat)
    requires a <= b <= c <= d <= |s|
    ensures s[a..b] + s[b..c] + s[c..d] == s[a..d]
  {
  }

  // ---------------------------------------------------------------- pages

  /** The segment's flag is the flag of each page it has data in; with a gap limit below the
      page size, of every page it touches. */
  ghost predicate Flagged(s: Segment, m: Memory, gapLimit: nat)
    requires m.Valid() && s.data != [] && s.End() <= MEMORY_SIZE
  {
    && s.executable == m.executable[s.LastPage()]
    && (forall a :: s.start <= a < s.End() && m.bytes[a] != 0 ==> m.ExecutableAt(a) == s.executable)
    && (gapLimit < PAGE_SIZE ==> TouchesOnlyItsKind(s, m))
  }

  ghost predicate TouchesOnlyItsKind(s: Segment, m: Memory)
    requires m.Valid() && s.data != [] && s.End() <= MEMORY_SIZE
  {
    forall p :: s.FirstPage() <= p <= s.LastPage() ==> m.executable[p] == s.executable
  }

  /** Segments share no page and each is cut where the page flags and the gap limit say. */
  ghost predicate Paged(segs: seq<Segment>, m: Memory, gapLimit: nat, limit: nat)
    requires m.Valid() && limit <= MEMORY_SIZE
  {
    && Below(segs, limit)
    && (forall i, j :: 0 <= i < j < |segs| ==> Apart(segs, i, j))
    && (forall k :: 0 <= k < |segs| ==> FlaggedAt(segs, m, gapLimit, k))
    && (forall k :: 0 < k < |segs| ==> CutAt(segs, gapLimit, k))
  }

  predicate Apart(segs: seq<Segment>, i: nat, j: nat)
    requires i < j < |segs|
  {
    segs[i].LastPage() < segs[j].FirstPage()
  }

  ghost predicate FlaggedAt(segs: seq<Segment>, m: Memory, gapLimit: nat, k: nat)
    requires m.Valid() && k < |segs|
  {
    segs[k].data != [] && segs[k].End() <= MEMORY_SIZE && Flagged(segs[k], m, gapLimit)
  }

  predicate CutAt(segs: seq<Segment>, gapLimit: nat, k: nat)
    requires 0 < k < |segs|
  {
    var before, after := segs[k - 1], segs[k];
    || after.start < before.start + |before.data|
    || before.executable != after.executable
    || (after.start - (before.start + |before.data|) > gapLimit
        && after.start / 4096 != (before.start + |before.data| - 1) / 4096)
  }

  lemma {:induction false} ScanPaged(m: Memory, gapLimit: nat, addr: nat)
    requires m.Valid() && addr % 8 == 0 && addr <= MEMORY_SIZE
    ensures Paged(ScanTo(m, gapLimit, addr), m, gapLimit, addr)
    decreases addr
  {
    if addr > 0 {
      PreviousWord(addr);
      ScanPaged(m, gapLimit, addr - 8);
      ScanFaithful(m, gapLimit, addr - 8);
      AddWordPaged(ScanTo(m, gapLimit, addr - 8), m, gapLimit, addr - 8);
    }
  }

  lemma {:induction false} AddWordPaged(segs: seq<Segment>, m: Memory, gapLimit: nat, addr: nat)
    requires m.Valid() && addr % 8 == 0 && addr + 8 <= MEMORY_SIZE
    requires Faithful(segs, m, addr) && Paged(segs, m, gapLimit, addr)
    ensures Paged(AddWord(segs, m, gapLimit, addr), m, gapLimit, addr + 8)
  {
    if m.Load64(addr) != 0 {
      if segs != [] && segs[|segs| - 1].Joins(addr, m.ExecutableAt(addr), gapLimit) {
        ExtendPaged(segs, m, gapLimit, addr);
      } else {
        OpenPaged(segs, m, gapLimit, addr);
      }
    }
  }

  lemma {:induction false} OpenPaged(segs: seq<Segment>, m: Memory, gapLimit: nat, addr: nat)
    requires m.Valid() && addr % 8 == 0 && addr + 8 <= MEMORY_SIZE && Paged(segs, m, gapLimit, addr)
    requires segs == [] || !segs[|segs| - 1].Joins(addr, m.ExecutableAt(addr), gapLimit)
    ensures Paged(segs + [Segment(addr, Le(m.Load64(addr), 8), m.ExecutableAt(addr))], m, gapLimit, addr + 8)
  {
    var open := Segment(addr, Le(m.Load64(addr), 8), m.ExecutableAt(addr));
    var r, n := segs + [open], |segs|;
    OpenFlagged(m, gapLimit, addr);
    if segs != [] {
      assert FlaggedAt(segs, m, gapLimit, n - 1);
      OpenOnFreshPage(segs[n - 1], m, gapLimit, addr);
      PagesInOrder(segs[n - 1]);
    }
    ApartSnoc(segs, open);
    forall k | 0 <= k < |r| ensures FlaggedAt(r, m, gapLimit, k) {
      if k < n {
        assert FlaggedAt(segs, m, gapLimit, k);
      }
    }
    forall k | 0 < k < |r| ensures CutAt(r, gapLimit, k) {
      if k < n {
        assert CutAt(segs, gapLimit, k);
      }
    }
  }

  lemma {:induction false} ApartSnoc(segs: seq<Segment>, s: Segment)
    requires forall i, j :: 0 <= i < j < |segs| ==> Apart(segs, i, j)
    requires segs != [] ==>
               var last := segs[|segs| - 1]; last.FirstPage() <= last.LastPage() < s.FirstPage()
    ensures forall i, j :: 0 <= i < j < |segs| + 1 ==> Apart(segs + [s], i, j)
  {
    var r, n := segs + [s], |segs|;
    forall i, j | 0 <= i < j < |r| ensures Apart(r, i, j) {
      if j < n {
        assert Apart(segs, i, j);
      } else if i < n - 1 {
        assert Apart(segs, i, n - 1);
      }
    }
  }

  lemma {:induction false} PagesInOrder(s: Segment)
    requires s.data != []
    ensures s.FirstPage() <= s.LastPage()
  {
  }

  lemma {:induction false} ExtendPaged(segs: seq<Segment>, m: Memory, gapLimit: nat, addr: nat)
    requires m.Valid() && addr % 8 == 0 && addr + 8 <= MEMORY_SIZE
    requires Faithful(segs, m, addr) && Paged(segs, m, gapLimit, addr) && segs != []
    requires segs[|segs| - 1].Joins(addr, m.ExecutableAt(addr), gapLimit)
    ensures Paged(segs[..|segs| - 1] + [Extended(segs[|segs| - 1], m, addr)], m, gapLimit, addr + 8)
  {
    var n := |segs| - 1;
    var last := segs[n];
    var r := segs[..n] + [Extended(last, m, addr)];
    forall a | last.End() <= a < addr ensures m.bytes[a] == 0 {
      assert !Covers(segs, a);
    }
    assert FlaggedAt(segs, m, gapLimit, n);
    ExtendFlagged(last, m, gapLimit, addr);
    forall i, j | 0 <= i < j < |r| ensures Apart(r, i, j) {
      assert Apart(segs, i, j);
    }
    forall k | 0 <= k < |r| ensures FlaggedAt(r, m, gapLimit, k) {
      assert FlaggedAt(segs, m, gapLimit, k);
    }
    forall k | 0 < k < |r| ensures CutAt(r, gapLimit, k) {
      assert CutAt(segs, gapLimit, k);
    }
  }

  lemma {:induction false} WordPage(addr: nat)
    requires addr % 8 == 0
    ensures forall a :: addr <= a < addr + 8 ==> a / PAGE_SIZE == addr / PAGE_SIZE
  {
  }

  lemma {:induction false} OpenFlagged(m: Memory, gapLimit: nat, addr: nat)
    requires m.Valid() && addr % 8 == 0 && addr + 8 <= MEMORY_SIZE
    ensures Flagged(Segment(addr, Le(m.Load64(addr), 8), m.ExecutableAt(addr)), m, gapLimit)
  {
    WordPage(addr);
    WordFlagged(Segment(addr, Le(m.Load64(addr), 8), m.ExecutableAt(addr)), m, gapLimit, addr / PAGE_SIZE);
  }

  lemma {:induction false} WordFlagged(s: Segment, m: Memory, gapLimit: nat, p: nat)
    requires m.Valid() && p < PAGES && s.executable == m.executable[p] && s.data != [] && s.End() <= MEMORY_SIZE
    requires forall a :: s.start <= a < s.End() ==> a / PAGE_SIZE == p
    ensures Flagged(s, m, gapLimit)
  {
    assert s.FirstPage() == p;
    assert s.LastPage() == p;
  }

  lemma {:induction false} OpenOnFreshPage(last: Segment, m: Memory, gapLimit: nat, addr: nat)
    requires m.Valid() && addr + 8 <= MEMORY_SIZE
    requires last.data != [] && last.End() <= addr && Flagged(last, m, gapLimit)
    requires !last.Joins(addr, m.ExecutableAt(addr), gapLimit)
    ensures last.LastPage() < addr / PAGE_SIZE
  {
    assert last.LastPage() <= addr / PAGE_SIZE;
  }

  lemma {:induction false} ExtendFlagged(last: Segment, m: Memory, gapLimit: nat, addr: nat)
    requires m.Valid() && addr % 8 == 0 && addr + 8 <= MEMORY_SIZE
    requires last.data != [] && last.End() <= addr && Flagged(last, m, gapLimit)
    requires last.Joins(addr, m.ExecutableAt(addr), gapLimit)
    requires forall a :: last.End() <= a < addr ==> m.bytes[a] == 0
    ensures var e := Extended(last, m, addr);
            e.End() == addr + 8 && e.LastPage() == addr / PAGE_SIZE && Flagged(e, m, gapLimit)
  {
    WordPage(addr);
    var e := Extended(last, m, addr);
    if gapLimit < PAGE_SIZE {
      assert addr / PAGE_SIZE <= last.LastPage() + 1;
      forall p | e.FirstPage() <= p <= e.LastPage() ensures m.executable[p] == e.executable {
        assert p <= last.LastPage() || p == addr / PAGE_SIZE;
      }
    }
  }

  // ---------------------------------------------------------------- edges

  /** Segments are word aligned and begin and end with a non-zero word: no padding is dumped. */
  ghost predicate Trimmed(s: Segment, m: Memory)
    requires m.Valid()
  {
    && s.start % 8 == 0 && s.End() % 8 == 0 && |s.data| >= 8 && s.End() <= MEMORY_SIZE
    && m.Load64(s.start) != 0 && m.Load64(s.End() - 8) != 0
  }

  lemma {:induction false} ScanTrimmed(m: Memory, gapLimit: nat, addr: nat)
    requires m.Valid() && addr % 8 == 0 && addr <= MEMORY_SIZE
    ensures forall s :: s in ScanTo(m, gapLimit, addr) ==> Trimmed(s, m)
    decreases addr
  {
    if addr > 0 {
      PreviousWord(addr);
      ScanTrimmed(m, gapLimit, addr - 8);
      AddWordTrimmed(ScanTo(m, gapLimit, addr - 8), m, gapLimit, addr - 8);
    }
  }

  lemma {:induction false} AddWordTrimmed(segs: seq<Segment>, m: Memory, gapLimit: nat, addr: nat)
    requires m.Valid() && addr % 8 == 0 && addr + 8 <= MEMORY_SIZE
    requires forall s :: s in segs ==> Trimmed(s, m)
    ensures forall s :: s in AddWord(segs, m, gapLimit, addr) ==> Trimmed(s, m)
  {
    var r := AddWord(segs, m, gapLimit, addr);
    forall s | s in r ensures Trimmed(s, m) {
      if s !in segs {
        if segs != [] && segs[|segs| - 1].End() <= addr && s == Extended(segs[|segs| - 1], m, addr) {
          assert segs[|segs| - 1] in segs;
        } else {
          assert s == Segment(addr, Le(m.Load64(addr), 8), m.ExecutableAt(addr));
        }
      }
    }
  }

  // ---------------------------------------------------------------- gaps

  /** Words at `a` and `b` that are not zero, with nothing but zeros between them. */
  predicate Gap(m: Memory, a: nat, b: nat)
    requires m.Valid()
  {
    && a % 8 == 0 && b % 8 == 0 && a + 8 <= b && b + 8 <= MEMORY_SIZE
    && m.Load64(a) != 0 && m.Load64(b) != 0
    && forall x :: a + 8 <= x < b ==> m.bytes[x] == 0
  }

  /** The zeros are no more than the limit, or all in one page. */
  predicate Bridgeable(gapLimit: nat, a: nat, b: nat) {
    b - (a + 8) <= gapLimit || (a + 7) / 4096 == b / 4096
  }

  predicate Holds(s: Segment, a: nat) {
    s.start <= a && a + 8 <= s.End()
  }

  ghost predicate Bridges(s: Segment, m: Memory, gapLimit: nat)
    requires m.Valid()
  {
    forall a, b: nat :: Holds(s, a) && Holds(s, b) && Gap(m, a, b) ==> Bridgeable(gapLimit, a, b)
  }

  lemma {:induction false} ScanBridges(m: Memory, gapLimit: nat, addr: nat)
    requires m.Valid() && addr % 8 == 0 && addr <= MEMORY_SIZE
    ensures forall s <- ScanTo(m, gapLimit, addr) :: Bridges(s, m, gapLimit)
    decreases addr
  {
    if addr > 0 {
      PreviousWord(addr);
      var segs := ScanTo(m, gapLimit, addr - 8);
      ScanBridges(m, gapLimit, addr - 8);
      ScanTrimmed(m, gapLimit, addr - 8);
      ScanFaithful(m, gapLimit, addr - 8);
      AddWordBridges(segs, m, gapLimit, addr - 8);
    }
  }

  lemma {:induction false} AddWordBridges(segs: seq<Segment>, m: Memory, gapLimit: nat, addr: nat)
    requires m.Valid() && addr % 8 == 0 && addr + 8 <= MEMORY_SIZE && Faithful(segs, m, addr)
    requires forall s <- segs :: Trimmed(s, m) && Bridges(s, m, gapLimit)
    ensures forall s <- AddWord(segs, m, gapLimit, addr) :: Bridges(s, m, gapLimit)
  {
    var r := AddWord(segs, m, gapLimit, addr);
    forall s | s in r ensures Bridges(s, m, gapLimit) {
      if s !in segs {
        if segs != [] && s == r[|segs| - 1] {
          var last := segs[|segs| - 1];
          assert last in segs;
          NothingAfter(segs, m, addr);
          ExtendedBridges(last, s, m, gapLimit, addr);
        } else {
          assert s == Segment(addr, Le(m.Load64(addr), 8), m.ExecutableAt(addr));
        }
      }
    }
  }

  /** Behind the last segment there is nothing yet. */
  lemma {:induction false} NothingAfter(segs: seq<Segment>, m: Memory, addr: nat)
    requires m.Valid() && addr <= MEMORY_SIZE && Faithful(segs, m, addr) && segs != []
    ensures forall x :: segs[|segs| - 1].End() <= x < addr ==> m.bytes[x] == 0
  {
    forall x | segs[|segs| - 1].End() <= x < addr ensures m.bytes[x] == 0 {
      assert !Covers(segs, x);
    }
  }

  lemma {:induction false} ExtendedBridges(last: Segment, s: Segment, m: Memory, gapLimit: nat, addr: nat)
    requires m.Valid() && addr % 8 == 0 && addr + 8 <= MEMORY_SIZE && Trimmed(last, m) && Bridges(last, m, gapLimit)
    requires last.Joins(addr, s.executable, gapLimit)
    requires s.start == last.start && s.End() == addr + 8
    requires forall x :: last.End() <= x < addr ==> m.bytes[x] == 0
    ensures Bridges(s, m, gapLimit)
  {
    forall a, b: nat | Holds(s, a) && Holds(s, b) && Gap(m, a, b)
      ensures Bridgeable(gapLimit, a, b)
    {
      if b + 8 <= last.End() {
        assert Holds(last, a) && Holds(last, b);
      } else {
        OnlyWord(last, m, addr, b);
        LastWord(last, m, addr, a, b);
      }
    }
  }

  lemma {:induction false} OnlyWord(last: Segment, m: Memory, addr: nat, b: nat)
    requires m.Valid() && addr % 8 == 0 && addr + 8 <= MEMORY_SIZE && last.End() % 8 == 0
    requires b % 8 == 0 && last.End() < b + 8 <= addr + 8 && m.Load64(b) != 0
    requires forall x :: last.End() <= x < addr ==> m.bytes[x] == 0
    ensures b == addr
  {
    if b < addr {
      NextWord(b, addr);
      NotAmongZeros(m, b, last.End(), addr);
      NextWord(b, last.End());
    }
  }

  /** A word that is not zero does not lie among zeros. */
  lemma {:induction false} NotAmongZeros(m: Memory, a: nat, from: nat, to: nat)
    requires m.Valid() && a + 8 <= to <= MEMORY_SIZE && m.Load64(a) != 0
    requires forall x :: from <= x < to ==> m.bytes[x] == 0
    ensures a < from
  {
    WordBytes(m, a);
  }

  lemma {:induction false} LastWord(last: Segment, m: Memory, addr: nat, a: nat, b: nat)
    requires m.Valid() && b == addr && Trimmed(last, m) && last.End() <= addr
    requires Gap(m, a, b) && forall x :: last.End() <= x < addr ==> m.bytes[x] == 0
    ensures a == last.End() - 8
  {
    NotAmongZeros(m, a, last.End(), addr);
    NotAmongZeros(m, last.End() - 8, a + 8, b);
    Aligned(a, last.End() - 8);
  }

  lemma {:induction false} Aligned(a: nat, w: nat)
    requires a % 8 == 0 && w % 8 == 0 && a < w + 8 && w < a + 8
    ensures a == w
  {
  }

  /** The segments that hold the two words are next to each other, and cut apart there. */
  lemma {:induction false} Neighbours(segs: seq<Segment>, m: Memory, i: nat, j: nat, a: nat, b: nat)
    requires m.Valid() && Faithful(segs, m, MEMORY_SIZE) && forall s <- segs :: Trimmed(s, m)
    requires i < |segs| && j < |segs| && Holds(segs[i], a) && Holds(segs[j], b) && i != j && Gap(m, a, b)
    ensures j == i + 1 && segs[i].End() == a + 8 && segs[j].start == b
  {
    InOrder(segs, m, i, j, a, b);
    assert Trimmed(segs[i], m) && Trimmed(segs[j], m);
    Edges(segs[i], segs[j], m, a, b);
    if i + 1 < j {
      var k := i + 1;
      assert Trimmed(segs[k], m);
      Between(segs, m, i, k, j);
      NotAmongZeros(m, segs[k].start, a + 8, b);
    }
  }

  lemma {:induction false} InOrder(segs: seq<Segment>, m: Memory, i: nat, j: nat, a: nat, b: nat)
    requires m.Valid() && Faithful(segs, m, MEMORY_SIZE)
    requires i < |segs| && j < |segs| && Holds(segs[i], a) && Holds(segs[j], b) && i != j && a < b
    ensures i < j && segs[i].End() <= segs[j].start
  {
  }

  lemma {:induction false} Between(segs: seq<Segment>, m: Memory, i: nat, k: nat, j: nat)
    requires m.Valid() && Faithful(segs, m, MEMORY_SIZE) && i < k < j < |segs|
    ensures segs[i].End() <= segs[k].start && segs[k].End() <= segs[j].start
  {
  }

  lemma {:induction false} Edges(s: Segment, t: Segment, m: Memory, a: nat, b: nat)
    requires m.Valid() && Trimmed(s, m) && Trimmed(t, m) && s.End() <= t.start
    requires Holds(s, a) && Holds(t, b) && Gap(m, a, b)
    ensures s.End() == a + 8 && t.start == b
  {
    NotAmongZeros(m, s.End() - 8, a + 8, b);
    Aligned(a, s.End() - 8);
    if t.start < b {
      NextWord(t.start, b);
      NotAmongZeros(m, t.start, a + 8, b);
    }
  }

  lemma {:induction false} WordInside(start: nat, end: nat, a: nat, x: nat)
    requires start % 8 == 0 && end % 8 == 0 && a % 8 == 0 && start <= x < end && a <= x < a + 8
    ensures start <= a && a + 8 <= end
  {
  }

  lemma {:induction false} NonZeroByte(m: Memory, a: nat) returns (x: nat)
    requires m.Valid() && a + 8 <= MEMORY_SIZE && m.Load64(a) != 0
    ensures a <= x < a + 8 && m.bytes[x] != 0
  {
    WordBytes(m, a);
    x :| a <= x < a + 8 && m.bytes[x] != 0;
  }

  lemma {:induction false} Covering(segs: seq<Segment>, m: Memory, x: nat) returns (k: nat)
    requires m.Valid() && Faithful(segs, m, MEMORY_SIZE) && x < MEMORY_SIZE && m.bytes[x] != 0
    ensures k < |segs| && segs[k].start <= x < segs[k].End()
  {
    assert Covers(segs, x);
    k :| 0 <= k < |segs| && segs[k].Contains(x);
  }

  lemma {:induction false} HeldBy(segs: seq<Segment>, m: Memory, a: nat) returns (k: nat)
    requires m.Valid() && Faithful(segs, m, MEMORY_SIZE) && forall s <- segs :: Trimmed(s, m)
    requires a % 8 == 0 && a + 8 <= MEMORY_SIZE && m.Load64(a) != 0
    ensures k < |segs| && Holds(segs[k], a)
  {
    var x := NonZeroByte(m, a);
    k := Covering(segs, m, x);
    assert Trimmed(segs[k], m);
    WordInside(segs[k].start, segs[k].End(), a, x);
  }

  /**
    Exactly where the scan cuts: two words with nothing between them are in one segment if and only
    if their pages are of one kind and the gap is within the limit or within a page.
  */
  lemma {:induction false} GapIff(m: Memory, gapLimit: nat, a: nat, b: nat)
    requires m.Valid() && Gap(m, a, b)
    ensures (exists s <- Segments(m, gapLimit) :: Holds(s, a) && Holds(s, b)) <==>
            m.executable[a / 4096] == m.executable[b / 4096] && Bridgeable(gapLimit, a, b)
  {
    var segs := Segments(m, gapLimit);
    ScanFaithful(m, gapLimit, MEMORY_SIZE);
    ScanTrimmed(m, gapLimit, MEMORY_SIZE);
    var i := HeldBy(segs, m, a);
    var j := HeldBy(segs, m, b);
    WordPageFlags(m, gapLimit, segs[i], i, a);
    WordPageFlags(m, gapLimit, segs[j], j, b);
    if i == j {
      ScanBridges(m, gapLimit, MEMORY_SIZE);
      assert segs[i] in segs;
    } else {
      Neighbours(segs, m, i, j, a, b);
      NotTogether(segs, m, i, j, a, b);
      ScanPaged(m, gapLimit, MEMORY_SIZE);
      assert CutAt(segs, gapLimit, j);
    }
  }

  lemma {:induction false} NotTogether(segs: seq<Segment>, m: Memory, i: nat, j: nat, a: nat, b: nat)
    requires m.Valid() && Faithful(segs, m, MEMORY_SIZE) && i < j < |segs|
    requires Holds(segs[i], a) && Holds(segs[j], b)
    ensures forall s <- segs :: !(Holds(s, a) && Holds(s, b))
  {
    forall s | s in segs ensures !(Holds(s, a) && Holds(s, b)) {
      var k :| 0 <= k < |segs| && segs[k] == s;
      if k <= i {
        assert segs[k].End() <= segs[j].start;
      } else {
        assert segs[i].End() <= segs[k].start;
      }
    }
  }

  /** A segment has the flag of the page of each word in it that is not zero. */
  lemma {:induction false} WordPageFlags(m: Memory, gapLimit: nat, s: Segment, k: nat, a: nat)
    requires m.Valid() && k < |Segments(m, gapLimit)| && s == Segments(m, gapLimit)[k]
    requires Holds(s, a) && a % 8 == 0 && a + 8 <= MEMORY_SIZE && m.Load64(a) != 0
    ensures m.executable[a / 4096] == s.executable
  {
    ScanPaged(m, gapLimit, MEMORY_SIZE);
    assert FlaggedAt(Segments(m, gapLimit), m, gapLimit, k);
    WordBytes(m, a);
    var x :| a <= x < a + 8 && m.bytes[x] != 0;
    assert m.ExecutableAt(x) == s.executable;
    SamePage(a, x);
  }

  lemma {:induction false} SamePage(a: nat, x: nat)
    requires a % 8 == 0 && a <= x < a + 8
    ensures a / 4096 == x / 4096
  {
  }

  // ---------------------------------------------------------------- what the dump relies on

  /** Write each segment over `base` in turn: what a loader does with the dumped image. */
  function Overlay(segs: seq<Segment>, base: seq<byte>): (r: seq<byte>)
    requires forall k :: 0 <= k < |segs| ==> segs[k].End() <= |base|
    ensures |r| == |base|
  {
    if segs == [] then base
    else
      var s := segs[|segs| - 1];
      assert s.End() <= |base|;
      var under := Overlay(segs[..|segs| - 1], base);
      under[..s.start] + s.data + under[s.End()..]
  }

  lemma {:induction false} OverlayAt(segs: seq<Segment>, base: seq<byte>, m: Memory, a: nat)
    requires m.Valid() && |base| == MEMORY_SIZE && a < MEMORY_SIZE
    requires forall k :: 0 <= k < |segs| ==>
      segs[k].End() <= MEMORY_SIZE && segs[k].data == m.bytes[segs[k].start..segs[k].End()]
    ensures Overlay(segs, base)[a] == if Covers(segs, a) then m.bytes[a] else base[a]
  {
    if segs != [] {
      var n := |segs| - 1;
      var s := segs[n];
      var init := segs[..n];
      OverlayAt(init, base, m, a);
      var under := Overlay(init, base);
      if s.Contains(a) {
        assert Overlay(segs, base)[a] == s.data[a - s.start];
      } else {
        assert Overlay(segs, base)[a] == under[a];
        assert forall k :: 0 <= k < |segs| && segs[k].Contains(a) ==> k < n && init[k].Contains(a);
        assert forall k :: 0 <= k < |init| && init[k].Contains(a) ==> segs[k].Contains(a);
      }
    }
  }

  lemma {:induction false} FaithfulImage(segs: seq<Segment>, m: Memory)
    requires m.Valid() && Faithful(segs, m, MEMORY_SIZE)
    ensures Overlay(segs, Zeros(MEMORY_SIZE)) == m.bytes
  {
    var image := Overlay(segs, Zeros(MEMORY_SIZE));
    forall a | 0 <= a < MEMORY_SIZE ensures image[a] == m.bytes[a] {
      OverlayAt(segs, Zeros(MEMORY_SIZE), m, a);
    }
  }

  /** Loading the scanned segments over zeroed memory gives the scanned memory back. */
  lemma {:induction false} ImageIsMemory(m: Memory, gapLimit: nat)
    requires m.Valid()
    ensures Below(Segments(m, gapLimit), MEMORY_SIZE)
    ensures Overlay(Segments(m, gapLimit), Zeros(MEMORY_SIZE)) == m.bytes
  {
    ScanFaithful(m, gapLimit, MEMORY_SIZE);
    FaithfulImage(Segments(m, gapLimit), m);
  }

  /** Distinct segments lie on distinct pages, so there are no more of them than pages from the first on. */
  lemma {:induction false} SegmentCount(m: Memory, gapLimit: nat)
    requires m.Valid()
    ensures var segs := Segments(m, gapLimit);
            segs != [] ==> segs[0].FirstPage() + |segs| <= PAGES
  {
    var segs := Segments(m, gapLimit);
    ScanPaged(m, gapLimit, MEMORY_SIZE);
    if segs != [] {
      FirstPageGrows(segs, |segs| - 1);
      assert segs[|segs| - 1].End() <= MEMORY_SIZE;
      PageInMemory(segs[|segs| - 1].start);
    }
  }

  lemma {:induction false} PageInMemory(addr: nat)
    requires addr < MEMORY_SIZE
    ensures addr / PAGE_SIZE < PAGES
  {
  }

  lemma {:induction false} FirstPageGrows(segs: seq<Segment>, k: nat)
    requires k < |segs|
    requires forall i :: 0 <= i < |segs| ==> segs[i].data != []
    requires forall i, j :: 0 <= i < j < |segs| ==> Apart(segs, i, j)
    ensures segs[0].FirstPage() + k <= segs[k].FirstPage()
  {
    if k > 0 {
      FirstPageGrows(segs, k - 1);
      assert Apart(segs, k - 1, k);
      PagesInOrder(segs[k - 1]);
    }
  }

  /** The first segment starts at the first non-zero word; there is none only in empty memory. */
  lemma {:induction false} FirstSegment(m: Memory, gapLimit: nat)
    requires m.Valid()
    ensures var segs := Segments(m, gapLimit);
            if segs == [] then
              forall a :: 0 <= a < MEMORY_SIZE ==> m.bytes[a] == 0
            else
              && segs[0].start % 8 == 0 && segs[0].start + 8 <= MEMORY_SIZE
              && m.Load64(segs[0].start) != 0
              && forall a :: 0 <= a < segs[0].start ==> m.bytes[a] == 0
  {
    ScanFaithful(m, gapLimit, MEMORY_SIZE);
    ScanTrimmed(m, gapLimit, MEMORY_SIZE);
    FirstOf(m, Segments(m, gapLimit));
  }

  lemma {:induction false} FirstOf(m: Memory, segs: seq<Segment>)
    requires m.Valid() && Faithful(segs, m, MEMORY_SIZE) && forall s :: s in segs ==> Trimmed(s, m)
    ensures if segs == [] then
              forall a :: 0 <= a < MEMORY_SIZE ==> m.bytes[a] == 0
            else
              && segs[0].start % 8 == 0 && segs[0].start + 8 <= MEMORY_SIZE
              && m.Load64(segs[0].start) != 0
              && forall a :: 0 <= a < segs[0].start ==> m.bytes[a] == 0
  {
    if segs == [] {
      forall a | 0 <= a < MEMORY_SIZE ensures m.bytes[a] == 0 {
        assert !Covers(segs, a);
      }
    } else {
      assert segs[0] in segs;
      forall a | 0 <= a < segs[0].start ensures m.bytes[a] == 0 {
        assert !Covers(segs, a);
      }
    }
  }

  // ---------------------------------------------------------------- when the gap limit is too wide

  ghost predicate PagesKept(m: Memory, gapLimit: nat)
    requires m.Valid()
  {
    forall s :: s in Segments(m, gapLimit) ==>
      s.data != [] && s.End() <= MEMORY_SIZE && TouchesOnlyItsKind(s, m)
  }

  lemma {:induction false} AllKept(m: Memory, gapLimit: nat)
    requires m.Valid() && gapLimit < PAGE_SIZE && Paged(Segments(m, gapLimit), m, gapLimit, MEMORY_SIZE)
    ensures PagesKept(m, gapLimit)
  {
    var segs := Segments(m, gapLimit);
    forall s | s in segs
      ensures s.data != [] && s.End() <= MEMORY_SIZE && TouchesOnlyItsKind(s, m)
    {
      var k :| 0 <= k < |segs| && segs[k] == s;
      assert FlaggedAt(segs, m, gapLimit, k);
    }
  }

  /** A segment never claims a page of the other kind exactly when the gap limit is below the page size. */
  lemma {:induction false} PagesKeptIff(gapLimit: nat)
    ensures (forall m: Memory | m.Valid() :: PagesKept(m, gapLimit)) <==> gapLimit < PAGE_SIZE
  {
    if gapLimit < PAGE_SIZE {
      forall m: Memory | m.Valid() ensures PagesKept(m, gapLimit) {
        ScanPaged(m, gapLimit, MEMORY_SIZE);
        AllKept(m, gapLimit);
      }
    } else {
      var m := WideGap(gapLimit);
      assert !PagesKept(m, gapLimit);
    }
  }

  /** Two data words a page apart around an empty executable page: the merged segment claims it. */
  lemma {:induction false} WideGap(gapLimit: nat) returns (m: Memory)
    requires gapLimit >= PAGE_SIZE
    ensures m.Valid() && !PagesKept(m, gapLimit)
  {
    var left, right := 24568, 28672;
    m := Memory(seq(MEMORY_SIZE, a => if a == left || a == right then 1 else 0), seq(PAGES, p => p == 6));
    assert m.bytes[left] == 1 && m.bytes[right] == 1;
    assert !m.executable[5] && m.executable[6] && !m.executable[7];
    ScanTwoWords(m, gapLimit, left, right);
    var merged := Segments(m, gapLimit)[0];
    assert merged in Segments(m, gapLimit) && merged.FirstPage() <= 6 <= merged.LastPage();
  }

  lemma {:induction false} ScanTwoWords(m: Memory, gapLimit: nat, left: nat, right: nat)
    requires m.Valid() && left % 8 == 0 && right % 8 == 0 && left + 8 <= right && right + 8 <= MEMORY_SIZE
    requires m.bytes[left] != 0 && m.bytes[right] != 0
    requires forall a :: 0 <= a < MEMORY_SIZE && m.bytes[a] != 0 ==> a == left || a == right
    requires m.ExecutableAt(left) == m.ExecutableAt(right) && right - (left + 8) <= gapLimit
    ensures |Segments(m, gapLimit)| == 1
    ensures var s := Segments(m, gapLimit)[0];
            s.start == left && s.End() == right + 8 && s.executable == m.ExecutableAt(left)
  {
    var first := Segment(left, Le(m.Load64(left), 8), m.ExecutableAt(left));
    var merged := Extended(first, m, right);
    WordBytes(m, left);
    WordBytes(m, right);
    ScannedZeros(m, gapLimit, 0, left, []);
    ScannedWord(m, gapLimit, left, []);
    ScannedZeros(m, gapLimit, left + 8, right, [first]);
    ScannedWord(m, gapLimit, right, [first]);
    Merges(m, gapLimit, first, right);
    ScannedZeros(m, gapLimit, right + 8, MEMORY_SIZE, [merged]);
  }

  lemma {:induction false} Merges(m: Memory, gapLimit: nat, first: Segment, right: nat)
    requires m.Valid() && right + 8 <= MEMORY_SIZE && m.Load64(right) != 0
    requires first.End() <= right && right - first.End() <= gapLimit && first.executable == m.ExecutableAt(right)
    ensures AddWord([first], m, gapLimit, right) == [Extended(first, m, right)]
  {
    assert [first][..0] == [];
  }

  lemma {:induction false} ScannedZeros(m: Memory, gapLimit: nat, lo: nat, hi: nat, segs: seq<Segment>)
    requires m.Valid() && ScannedTo(m, gapLimit, lo, segs) && hi % 8 == 0 && lo <= hi <= MEMORY_SIZE
    requires forall a :: lo <= a < hi ==> m.bytes[a] == 0
    ensures ScannedTo(m, gapLimit, hi, segs)
  {
    ScanZeros(m, gapLimit, lo, hi);
  }

  lemma {:induction false} ScanZeros(m: Memory, gapLimit: nat, lo: nat, hi: nat)
    requires m.Valid() && lo % 8 == 0 && hi % 8 == 0 && lo <= hi <= MEMORY_SIZE
    requires forall a :: lo <= a < hi ==> m.bytes[a] == 0
    ensures ScanTo(m, gapLimit, hi) == ScanTo(m, gapLimit, lo)
    decreases hi
  {
    if lo < hi {
      NextWord(lo, hi);
      PreviousWord(hi);
      ScanZeros(m, gapLimit, lo, hi - 8);
      WordBytes(m, hi - 8);
    }
  }
}
