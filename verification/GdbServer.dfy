/**
  The debugger's handler: breakpoints, watchpoints and vCont over a virtual machine that the
  handler can step, read the pc of, and load bytes from.
*/
module GdbServer {
  import opened Bytes
  import opened Options
  import R = GdbResponse
  import G = GdbGrammar

  datatype Stepped<S> = Stepped(next: S, ok: bool)

  /** A deterministic machine with states `S`. */
  datatype Vm<!S> = Vm(
    step: S -> Stepped<S>,
    pc: S -> u64,
    running: S -> bool,
    exitCode: S -> byte,
    load8: (S, u64) -> Option<byte>)

  datatype Breakpoint = Breakpoint(addr: u64, kind: u64, conditions: Option<seq<seq<byte>>>,
    commands: Option<seq<seq<byte>>>)

  datatype Watchpoint = Watchpoint(addr: u64, nBytes: u64)

  datatype Snapshot = Snapshot(watchpoint: Watchpoint, data: seq<byte>, hasData: bool)

  /** What comes of a request: a stop reply, an error with its code, or a panic of the server. */
  datatype Reply = Stop(reason: R.StopReason) | Failed(code: nat) | Panicked

  // ---------------------------------------------------------------- what a watchpoint sees

  function ReadUpTo<S>(vm: Vm<S>, m: S, start: u64, end: u64): Option<seq<byte>>
    decreases end
  {
    if end <= start then Some([])
    else
      match ReadUpTo(vm, m, start, end - 1)
      case None => None
      case Some(bs) =>
        match vm.load8(m, end - 1)
        case None => None
        case Some(b) => Some(bs + [b])
  }

  /** The end of a watched region wraps around at 64 bits. */
  function Covered<S>(vm: Vm<S>, m: S, w: Watchpoint): Option<seq<byte>> {
    ReadUpTo(vm, m, w.addr, (w.addr + w.nBytes) % U64_LIMIT)
  }

  function Refresh<S>(vm: Vm<S>, m: S, s: Snapshot): Snapshot {
    var content := Covered(vm, m, s.watchpoint);
    if content.Some? then Snapshot(s.watchpoint, content.value, true) else s
  }

  function Refreshed<S>(vm: Vm<S>, m: S, snaps: seq<Snapshot>): (r: seq<Snapshot>)
    ensures |r| == |snaps|
  {
    seq(|snaps|, i requires 0 <= i < |snaps| => Refresh(vm, m, snaps[i]))
  }

  predicate Sees<S>(vm: Vm<S>, m: S, s: Snapshot) {
    s.hasData && Covered(vm, m, s.watchpoint) != Some(s.data)
  }

  predicate Readable<S>(vm: Vm<S>, m: S, snaps: seq<Snapshot>) {
    forall i :: 0 <= i < |snaps| ==> Covered(vm, m, snaps[i].watchpoint).Some?
  }

  predicate Changed<S>(vm: Vm<S>, m: S, snaps: seq<Snapshot>) {
    exists i :: 0 <= i < |snaps| && Sees(vm, m, snaps[i])
  }

  /** The number of bytes watched: none if the region's end wraps around. */
  function Length(w: Watchpoint): nat {
    if w.addr + w.nBytes < U64_LIMIT then w.nBytes else 0
  }

  /** The watched bytes can all be read, and are `bs`. */
  predicate BytesAre<S>(vm: Vm<S>, m: S, w: Watchpoint, bs: seq<byte>) {
    |bs| == Length(w) && forall i :: 0 <= i < |bs| ==> ByteIs(vm, m, w.addr + i, bs[i])
  }

  predicate ByteIs<S>(vm: Vm<S>, m: S, address: u64, b: byte) {
    vm.load8(m, address) == Some(b)
  }

  predicate Unreadable<S>(vm: Vm<S>, m: S, address: u64) {
    vm.load8(m, address) == None
  }

  lemma {:induction false} ReadUpToIff<S>(vm: Vm<S>, m: S, start: u64, end: u64, bs: seq<byte>)
    requires start <= end
    ensures ReadUpTo(vm, m, start, end) == Some(bs) <==>
            |bs| == end - start && forall i :: 0 <= i < |bs| ==> ByteIs(vm, m, start + i, bs[i])
    ensures ReadUpTo(vm, m, start, end) == None <==> exists a: u64 :: start <= a < end && Unreadable(vm, m, a)
    decreases end
  {
    if start < end {
      var n := |bs| - 1;
      if |bs| == end - start {
        ReadUpToIff(vm, m, start, end - 1, bs[..n]);
        assert bs == bs[..n] + [bs[n]];
        assert ByteIs(vm, m, start + n, bs[n]) <==> vm.load8(m, end - 1) == Some(bs[n]);
      }
      var read := ReadUpTo(vm, m, start, end - 1);
      ReadUpToIff(vm, m, start, end - 1, if read.Some? then read.value else []);
      assert Unreadable(vm, m, end - 1) <==> vm.load8(m, end - 1) == None;
    }
  }

  lemma {:induction false} CoveredIff<S>(vm: Vm<S>, m: S, w: Watchpoint, bs: seq<byte>)
    ensures Covered(vm, m, w) == Some(bs) <==> BytesAre(vm, m, w, bs)
    ensures Covered(vm, m, w) == None <==>
            exists a: u64 :: w.addr <= a < w.addr + Length(w) && Unreadable(vm, m, a)
  {
    var end := (w.addr + w.nBytes) % U64_LIMIT;
    if w.addr <= end {
      ReadUpToIff(vm, m, w.addr, end, bs);
    }
  }

  /** The bytes of the region in order, or nothing exactly when one of them cannot be read. */
  method ReadMemory<S>(vm: Vm<S>, m: S, w: Watchpoint) returns (r: Option<seq<byte>>)
    ensures r == Covered(vm, m, w)
    ensures r.Some? ==> BytesAre(vm, m, w, r.value)
    ensures r.None? <==> exists a: u64 :: w.addr <= a < w.addr + Length(w) && Unreadable(vm, m, a)
  {
    ghost var covered := Covered(vm, m, w);
    CoveredIff(vm, m, w, if covered.Some? then covered.value else []);
    var end := (w.addr + w.nBytes) % U64_LIMIT;
    var address := w.addr;
    var values := [];
    while address < end
      invariant w.addr <= address && (address <= end || address == w.addr)
      invariant ReadUpTo(vm, m, w.addr, address) == Some(values)
      decreases end - address
    {
      var b := vm.load8(m, address);
      if b.None? {
        Unread(vm, m, w.addr, address + 1, end);
        return None;
      }
      values := values + [b.value];
      address := address + 1;
    }
    r := Some(values);
  }

  lemma {:induction false} Unread<S>(vm: Vm<S>, m: S, start: u64, middle: nat, end: u64)
    requires start < middle <= end
    requires ReadUpTo(vm, m, start, middle) == None
    ensures ReadUpTo(vm, m, start, end) == None
    decreases end
  {
    if middle < end {
      Unread(vm, m, start, middle, end - 1);
    }
  }

  class WatchPointStatus {
    const watchpoint: Watchpoint
    var data: seq<byte>
    var hasData: bool

    ghost function Snap(): Snapshot
      reads this
    {
      Snapshot(watchpoint, data, hasData)
    }

    constructor (w: Watchpoint)
      ensures Snap() == Unseen(w)
    {
      watchpoint := w;
      data := Zeros(w.nBytes);
      hasData := false;
    }

    method HasChange<S>(vm: Vm<S>, m: S) returns (changed: Option<bool>)
      modifies this
      ensures Snap() == Refresh(vm, m, old(Snap()))
      ensures changed == if Covered(vm, m, watchpoint).None? then None else Some(Sees(vm, m, old(Snap())))
      ensures var (from, n) := (watchpoint.addr, Length(watchpoint));
              if exists a: u64 :: from <= a < from + n && Unreadable(vm, m, a) then
                changed == None && data == old(data) && hasData == old(hasData)
              else
                && changed == Some(old(hasData) && !BytesAre(vm, m, watchpoint, old(data)))
                && hasData && BytesAre(vm, m, watchpoint, data)
    {
      CoveredIff(vm, m, watchpoint, data);
      var had := hasData;
      var newContent := ReadMemory(vm, m, watchpoint);
      if newContent.None? {
        return None;
      }
      var differs := newContent.value != data;
      if differs {
        data := newContent.value;
      }
      hasData := true;
      changed := Some(had && differs);
    }
  }

  // ---------------------------------------------------------------- runs

  /** A run: where it starts, what it is watched by, and the vCont kind it is resumed with. */
  datatype Run<!S> = Run(vm: Vm<S>, m: S, breaks: seq<Breakpoint>, snaps: seq<Snapshot>, kind: G.VCont) {
    /** The machine after `k` steps. */
    function At(k: nat): S {
      if k == 0 then m else vm.step(At(k - 1)).next
    }

    /** The `k`th step is refused. */
    predicate Fails(k: nat) {
      k > 0 && !vm.step(At(k - 1)).ok
    }

    predicate Breaks(k: nat) {
      exists b <- breaks :: b.addr == vm.pc(At(k))
    }

    predicate Leaves(k: nat) {
      kind.RangeStep? && !(kind.start <= vm.pc(At(k)) < kind.end)
    }

    /** The `k`th step leads to a breakpoint, out of the range, or to the end of the program. */
    predicate Rests(k: nat) {
      Leaves(k) || Breaks(k) || !vm.running(At(k))
    }

    /** The snapshots that the watch check after the `k`th step starts from. */
    function Before(k: nat): seq<Snapshot> {
      if k <= 1 then snaps else Refreshed(vm, At(k - 1), snaps)
    }

    /** The run goes on after its `k`th step. */
    predicate Quiet(k: nat) {
      && !Fails(k)
      && !Rests(k)
      && Readable(vm, At(k), snaps)
      && !Changed(vm, At(k), Before(k))
    }

    predicate QuietUntil(k: nat) {
      forall j :: 1 <= j < k ==> Quiet(j)
    }

    predicate EndsAt(k: nat) {
      k >= 1 && QuietUntil(k) && !Quiet(k)
    }

    function Final(k: nat): Reply {
      if vm.running(At(k)) then Stop(R.Signal(5)) else Stop(R.Exited(0, vm.exitCode(At(k))))
    }

    /** What is reported of a run that ends after its `k`th step. */
    function Report(k: nat): Reply {
      if Fails(k) then Stop(R.Signal(5))
      else if Rests(k) then Final(k)
      else if !Readable(vm, At(k), snaps) then Failed(3)
      else Stop(R.Signal(5))
    }

    // The same, told without snapshots.

    /** What a watchpoint is compared with: what it last saw, or else what it covers after the first step. */
    function Base(i: nat): Option<seq<byte>>
      requires i < |snaps|
    {
      if snaps[i].hasData then Some(snaps[i].data) else Covered(vm, At(1), snaps[i].watchpoint)
    }

    predicate Agrees(k: nat, i: nat)
      requires i < |snaps|
    {
      var now := Covered(vm, At(k), snaps[i].watchpoint);
      now.Some? && now == Base(i)
    }

    /** After the `k`th step watchpoint `i` finds the bytes that it saw last; or those that the first step left. */
    predicate Holds(k: nat, i: nat)
      requires i < |snaps|
    {
      var w := snaps[i].watchpoint;
      if snaps[i].hasData then BytesAre(vm, At(k), w, snaps[i].data)
      else forall a: u64 :: w.addr <= a < w.addr + Length(w) ==> SameByte(a, k)
    }

    predicate SameByte(address: u64, k: nat) {
      vm.load8(At(1), address).Some? && vm.load8(At(k), address) == vm.load8(At(1), address)
    }

    /** After the `k`th step there is something to report. */
    predicate Event(k: nat) {
      || (k > 0 && !vm.step(At(k - 1)).ok)
      || (exists b <- breaks :: b.addr == vm.pc(At(k)))
      || !vm.running(At(k))
      || (kind.RangeStep? && (vm.pc(At(k)) < kind.start || kind.end <= vm.pc(At(k))))
      || exists i :: 0 <= i < |snaps| && !Holds(k, i)
    }

    predicate FirstEventAt(k: nat) {
      k >= 1 && Event(k) && forall j :: 1 <= j < k ==> !Event(j)
    }
  }

  lemma {:induction false} HoldsIff<S>(r: Run<S>, k: nat, i: nat)
    requires i < |r.snaps|
    ensures r.Agrees(k, i) <==> r.Holds(k, i)
  {
    var w := r.snaps[i].watchpoint;
    var first, now := Covered(r.vm, r.At(1), w), Covered(r.vm, r.At(k), w);
    if r.snaps[i].hasData {
      CoveredIff(r.vm, r.At(k), w, r.snaps[i].data);
    } else {
      CoveredIff(r.vm, r.At(1), w, if first.Some? then first.value else []);
      CoveredIff(r.vm, r.At(k), w, if first.Some? then first.value else []);
      if r.Agrees(k, i) {
        forall a: u64 | w.addr <= a < w.addr + Length(w) ensures r.SameByte(a, k) {
          var j := a - w.addr;
          assert ByteIs(r.vm, r.At(1), w.addr + j, first.value[j]) && ByteIs(r.vm, r.At(k), w.addr + j, first.value[j]);
        }
      }
      if r.Holds(k, i) {
        SameBytes(r, k, w, first);
      }
    }
  }

  lemma {:induction false} SameBytes<S>(r: Run<S>, k: nat, w: Watchpoint, first: Option<seq<byte>>)
    requires first == Covered(r.vm, r.At(1), w)
    requires forall a: u64 :: w.addr <= a < w.addr + Length(w) ==> r.SameByte(a, k)
    ensures first.Some? && Covered(r.vm, r.At(k), w) == first
  {
    forall a: u64 | w.addr <= a < w.addr + Length(w) ensures !Unreadable(r.vm, r.At(1), a) {
      assert r.SameByte(a, k);
    }
    CoveredIff(r.vm, r.At(1), w, []);
    CoveredIff(r.vm, r.At(1), w, first.value);
    forall j | 0 <= j < |first.value| ensures ByteIs(r.vm, r.At(k), w.addr + j, first.value[j]) {
      assert r.SameByte(w.addr + j, k) && ByteIs(r.vm, r.At(1), w.addr + j, first.value[j]);
    }
    CoveredIff(r.vm, r.At(k), w, first.value);
  }

  /** Given that nothing happened before, the check after step `k` compares memory with what it was. */
  lemma {:induction false} QuietIff<S>(r: Run<S>, k: nat)
    requires k >= 1 && (k > 1 ==> r.Quiet(k - 1) && !r.Event(k - 1))
    ensures r.Quiet(k) <==> !r.Event(k)
  {
    var m := r.At(k);
    forall i | 0 <= i < |r.snaps|
      ensures r.Agrees(k, i) <==> r.Holds(k, i)
      ensures k > 1 ==> (r.Agrees(k - 1, i) <==> r.Holds(k - 1, i))
    {
      HoldsIff(r, k, i);
      if k > 1 {
        HoldsIff(r, k - 1, i);
      }
    }
    if !r.Fails(k) && !r.Rests(k) && Readable(r.vm, m, r.snaps) {
      forall i | 0 <= i < |r.snaps|
        ensures Sees(r.vm, m, r.Before(k)[i]) <==> !r.Agrees(k, i)
      {
        if k > 1 {
          assert r.Holds(k - 1, i);
          assert r.Before(k)[i] == Refresh(r.vm, r.At(k - 1), r.snaps[i]);
        }
      }
      if r.Event(k) {
        var i :| 0 <= i < |r.snaps| && !r.Holds(k, i);
        assert Sees(r.vm, m, r.Before(k)[i]);
      }
    } else if !r.Fails(k) && !r.Rests(k) {
      var i :| 0 <= i < |r.snaps| && Covered(r.vm, m, r.snaps[i].watchpoint).None?;
      assert !r.Agrees(k, i);
    }
  }

  lemma {:induction false} QuietUntilIff<S>(r: Run<S>, k: nat)
    ensures r.QuietUntil(k) <==> forall j :: 1 <= j < k ==> !r.Event(j)
  {
    if k > 1 {
      QuietUntilIff(r, k - 1);
      if r.QuietUntil(k - 1) && (k > 2 ==> !r.Event(k - 2)) {
        QuietIff(r, k - 1);
      }
    }
  }

  /**
    A run ends at the first step that fails, rests, or leaves a watched region unreadable or other
    than it was: as the watchpoint last saw it, or, for a watchpoint that has not looked yet, as the
    first step left it.
  */
  lemma {:induction false} EndsAtFirstEvent<S>(r: Run<S>, k: nat)
    ensures r.EndsAt(k) <==> r.FirstEventAt(k)
  {
    QuietUntilIff(r, k);
    if k >= 1 && r.QuietUntil(k) {
      assert k > 1 ==> !r.Event(k - 1);
      QuietIff(r, k);
    }
  }

  /** Some watched byte cannot be read after the `k`th step. */
  ghost predicate Blind<S>(r: Run<S>, k: nat) {
    exists i, a: u64 ::
      && 0 <= i < |r.snaps|
      && r.snaps[i].watchpoint.addr <= a < r.snaps[i].watchpoint.addr + Length(r.snaps[i].watchpoint)
      && Unreadable(r.vm, r.At(k), a)
  }

  lemma {:induction false} BlindIff<S>(r: Run<S>, k: nat)
    ensures Readable(r.vm, r.At(k), r.snaps) <==> !Blind(r, k)
  {
    forall i | 0 <= i < |r.snaps|
      ensures Covered(r.vm, r.At(k), r.snaps[i].watchpoint) == None <==>
              exists a: u64 ::
                && r.snaps[i].watchpoint.addr <= a < r.snaps[i].watchpoint.addr + Length(r.snaps[i].watchpoint)
                && Unreadable(r.vm, r.At(k), a)
    {
      CoveredIff(r.vm, r.At(k), r.snaps[i].watchpoint, []);
    }
  }

  /**
    A failed step is reported as a trap, signal 5; a program that has ended with its exit code and no
    process; a watched byte that cannot be read as error 3, unless a breakpoint or the end of the
    range comes first; anything else as a trap.
  */
  lemma {:induction false} ReportIs<S>(r: Run<S>, k: nat)
    requires k >= 1
    ensures r.Report(k) ==
            if !r.vm.step(r.At(k - 1)).ok then Stop(R.Signal(5))
            else if !r.vm.running(r.At(k)) then Stop(R.Exited(0, r.vm.exitCode(r.At(k))))
            else if exists b <- r.breaks :: b.addr == r.vm.pc(r.At(k)) then Stop(R.Signal(5))
            else if r.kind.RangeStep? && (r.vm.pc(r.At(k)) < r.kind.start || r.kind.end <= r.vm.pc(r.At(k))) then
              Stop(R.Signal(5))
            else if Blind(r, k) then Failed(3) else Stop(R.Signal(5))
  {
    BlindIff(r, k);
  }

  /** So a watchpoint that has not looked yet misses whatever the first step does to its region. */
  lemma {:induction false} FirstStepUnseen<S>(r: Run<S>)
    requires forall i :: 0 <= i < |r.snaps| ==> !r.snaps[i].hasData
    requires Readable(r.vm, r.At(1), r.snaps)
    ensures r.EndsAt(1) <==> r.Fails(1) || r.Rests(1)
  {
    assert r.Before(1) == r.snaps;
  }

  // ---------------------------------------------------------------- the handler

  /** A check that has got as far as watchpoint `f`: those before it are refreshed, the rest are not. */
  predicate RefreshedTo<S>(vm: Vm<S>, m: S, before: seq<Snapshot>, after: seq<Snapshot>, f: nat) {
    && f <= |before| == |after|
    && (forall j :: 0 <= j < f ==> Covered(vm, m, before[j].watchpoint).Some? && after[j] == Refresh(vm, m, before[j]))
    && (forall j :: f <= j < |before| ==> after[j] == before[j])
  }

  /** A check that met an unreadable region at watchpoint `f`. */
  predicate PartlyRefreshed<S>(vm: Vm<S>, m: S, before: seq<Snapshot>, after: seq<Snapshot>, f: nat) {
    f < |before| && Covered(vm, m, before[f].watchpoint).None? && RefreshedTo(vm, m, before, after, f)
  }

  /** The snapshots that a run leaves behind when it ends after its `k`th step. */
  ghost predicate LeavesSnapshots<S>(r: Run<S>, k: nat, after: seq<Snapshot>) {
    if r.Fails(k) || r.Rests(k) then after == r.Before(k)
    else if Readable(r.vm, r.At(k), r.snaps) then after == Refreshed(r.vm, r.At(k), r.snaps)
    else exists f :: PartlyRefreshed(r.vm, r.At(k), r.Before(k), after, f)
  }

  /** A run that has ended after its `k`th step, with what it leaves behind. */
  ghost predicate Ended<S>(r: Run<S>, k: nat, machine: S, reply: Reply, after: seq<Snapshot>) {
    r.EndsAt(k) && machine == r.At(k) && reply == r.Report(k) && LeavesSnapshots(r, k, after)
  }

  /** A run that is about to take its `k`th step. */
  ghost predicate Poised<S>(r: Run<S>, k: nat, machine: S, now: seq<Snapshot>) {
    k >= 1 && r.QuietUntil(k) && machine == r.At(k - 1) && now == r.Before(k)
  }

  /** A run that has taken its `k`th step, but not looked at its watchpoints since. */
  ghost predicate Underway<S>(r: Run<S>, k: nat, machine: S, now: seq<Snapshot>) {
    k >= 1 && r.QuietUntil(k) && machine == r.At(k) && !r.Fails(k) && now == r.Before(k)
  }

  lemma {:induction false} Resting<S>(r: Run<S>, k: nat, machine: S, now: seq<Snapshot>)
    requires Underway(r, k, machine, now) && r.Rests(k)
    ensures Ended(r, k, machine, r.Final(k), now)
  {
  }

  lemma {:induction false} NotQuiet<S>(r: Run<S>, k: nat, machine: S, reply: Reply, now: seq<Snapshot>)
    requires k >= 1 && r.QuietUntil(k) && machine == r.At(k) && !r.Fails(k) && !r.Rests(k) && !r.Quiet(k)
    requires LeavesSnapshots(r, k, now)
    requires reply == if Readable(r.vm, r.At(k), r.snaps) then r.Final(k) else Failed(3)
    ensures Ended(r, k, machine, reply, now)
  {
  }

  lemma {:induction false} RefreshedAgain<S>(r: Run<S>, k: nat)
    ensures Readable(r.vm, r.At(k), r.Before(k)) <==> Readable(r.vm, r.At(k), r.snaps)
    ensures Readable(r.vm, r.At(k), r.snaps) ==>
              Refreshed(r.vm, r.At(k), r.Before(k)) == Refreshed(r.vm, r.At(k), r.snaps)
  {
    assert forall i :: 0 <= i < |r.snaps| ==> r.Before(k)[i].watchpoint == r.snaps[i].watchpoint;
    if Readable(r.vm, r.At(k), r.Before(k)) {
      forall i | 0 <= i < |r.snaps|
        ensures Covered(r.vm, r.At(k), r.snaps[i].watchpoint).Some?
      {
        assert r.Before(k)[i].watchpoint == r.snaps[i].watchpoint;
      }
    }
  }

  lemma {:induction false} ChangedNext<S>(vm: Vm<S>, m: S, snaps: seq<Snapshot>, i: nat)
    requires i < |snaps|
    ensures Changed(vm, m, snaps[..i + 1]) <==> Changed(vm, m, snaps[..i]) || Sees(vm, m, snaps[i])
  {
    if Changed(vm, m, snaps[..i]) {
      var j :| 0 <= j < i && Sees(vm, m, snaps[..i][j]);
      assert snaps[..i + 1][j] == snaps[j];
    }
    if Changed(vm, m, snaps[..i + 1]) {
      var j :| 0 <= j <= i && Sees(vm, m, snaps[..i + 1][j]);
      assert j < i ==> snaps[..i][j] == snaps[j];
    }
    assert snaps[..i + 1][i] == snaps[i];
  }

  /** `Vec::retain` */
  function Retained<T>(s: seq<T>, keep: T -> bool): seq<T> {
    if s == [] then []
    else Retained(s[..|s| - 1], keep) + if keep(s[|s| - 1]) then [s[|s| - 1]] else []
  }

  lemma {:induction false} RetainedAll<T>(s: seq<T>, keep: T -> bool)
    ensures |Retained(s, keep)| <= |s|
    ensures Retained(s, keep) == s <==> forall x <- s :: keep(x)
  {
    if s != [] {
      var front, last := s[..|s| - 1], s[|s| - 1];
      RetainedAll(front, keep);
      assert s == front + [last];
      if keep(last) && Retained(s, keep) == s {
        assert Retained(s, keep)[..|s| - 1] == Retained(front, keep);
      }
    }
  }

  /** Every element is kept or dropped by itself. */
  lemma {:induction false} RetainedParts<T>(a: seq<T>, x: T, b: seq<T>, keep: T -> bool)
    ensures Retained([], keep) == []
    ensures Retained(a + [x] + b, keep) == Retained(a, keep) + (if keep(x) then [x] else []) + Retained(b, keep)
    decreases |b|
  {
    if b == [] {
      assert a + [x] + b == a + [x] && (a + [x])[..|a|] == a;
    } else {
      var init, last := b[..|b| - 1], b[|b| - 1];
      RetainedParts(a, x, init, keep);
      var s := a + [x] + b;
      assert s[..|s| - 1] == a + [x] + init && s[|s| - 1] == last;
    }
  }

  lemma {:induction false} RemoveInsertedIff<T>(s: seq<T>, x: T, keep: T -> bool)
    requires !keep(x)
    ensures Retained(s + [x], keep) == s <==> forall y <- s :: keep(y)
  {
    assert (s + [x])[..|s|] == s;
    RetainedAll(s, keep);
  }

  function NotBreakpoint(b: Breakpoint): Breakpoint -> bool {
    x => x != b
  }

  function NotWatching(w: Watchpoint): Snapshot -> bool {
    (s: Snapshot) => s.watchpoint.addr != w.addr || s.watchpoint.nBytes != w.nBytes
  }

  /** The snapshot of a watchpoint that has not looked yet. */
  function Unseen(w: Watchpoint): Snapshot {
    Snapshot(w, Zeros(w.nBytes), false)
  }

  /** Removing a breakpoint undoes its insertion exactly when it was not set before: all its copies go. */
  lemma {:induction false} BreakpointUndoneIff(breakpoints: seq<Breakpoint>, b: Breakpoint)
    ensures Retained(breakpoints + [b], NotBreakpoint(b)) == breakpoints <==> b !in breakpoints
  {
    RemoveInsertedIff(breakpoints, b, NotBreakpoint(b));
  }

  /**
    Removing a watchpoint undoes its insertion exactly when its region was not watched before. What
    the other watchpoints have seen stays.
  */
  lemma {:induction false} WatchpointUndoneIff(snaps: seq<Snapshot>, w: Watchpoint)
    ensures Retained(snaps + [Unseen(w)], NotWatching(w)) == snaps <==> forall s <- snaps :: s.watchpoint != w
  {
    RemoveInsertedIff(snaps, Unseen(w), NotWatching(w));
  }

  ghost predicate Distinct<T>(s: seq<T>) {
    forall i, j :: 0 <= i < j < |s| ==> s[i] != s[j]
  }

  ghost function Snaps(ws: seq<WatchPointStatus>): (r: seq<Snapshot>)
    reads ws
    ensures |r| == |ws|
  {
    seq(|ws|, i requires 0 <= i < |ws| reads ws => ws[i].Snap())
  }

  class GdbHandler<S(!new)> {
    const vm: Vm<S>
    var machine: S
    var breakpoints: seq<Breakpoint>
    var watchpoints: seq<WatchPointStatus>

    ghost predicate Valid()
      reads this
    {
      Distinct(watchpoints)
    }

    /** The run that `kind` resumes. */
    ghost function Resumed(kind: G.VCont): Run<S>
      reads this, watchpoints
    {
      Run(vm, machine, breakpoints, Snaps(watchpoints), kind)
    }

    constructor (vm: Vm<S>, machine: S)
      ensures Valid() && this.vm == vm && this.machine == machine && breakpoints == [] && watchpoints == []
    {
      this.vm := vm;
      this.machine := machine;
      breakpoints := [];
      watchpoints := [];
    }

    predicate AtBreakpoint()
      reads this
    {
      exists b <- breakpoints :: b.addr == vm.pc(machine)
    }

    /** Every watchpoint looks, and remembers what it sees, also when an earlier one has seen a change. */
    method AtWatchpoint() returns (r: Option<bool>)
      requires Valid()
      modifies watchpoints
      ensures var before := old(Snaps(watchpoints));
              if Readable(vm, machine, before) then
                r == Some(Changed(vm, machine, before)) && Snaps(watchpoints) == Refreshed(vm, machine, before)
              else
                r == None && exists f :: PartlyRefreshed(vm, machine, before, Snaps(watchpoints), f)
    {
      ghost var before := Snaps(watchpoints);
      var result := false;
      var i := 0;
      while i < |watchpoints|
        invariant 0 <= i <= |watchpoints|
        invariant RefreshedTo(vm, machine, before, Snaps(watchpoints), i)
        invariant result <==> Changed(vm, machine, before[..i])
      {
        ghost var now := Snaps(watchpoints);
        var changed := watchpoints[i].HasChange(vm, machine);
        assert Snaps(watchpoints) == now[i := Refresh(vm, machine, now[i])];
        if changed.None? {
          assert Snaps(watchpoints) == now;
          assert PartlyRefreshed(vm, machine, before, Snaps(watchpoints), i);
          return None;
        }
        ChangedNext(vm, machine, before, i);
        result := result || changed.value;
        i := i + 1;
      }
      assert before[..i] == before;
      r := Some(result);
    }

    method Step() returns (ok: bool)
      modifies this`machine
      ensures machine == vm.step(old(machine)).next && ok == vm.step(old(machine)).ok
    {
      var stepped := vm.step(machine);
      machine := stepped.next;
      ok := stepped.ok;
    }

    /**
      vCont with its first action; without one the server panics. A run that never ends is not
      modelled: `bound` is a step after which this one would. `k` is the number of steps it takes.
    */
    method VCont(request: seq<G.Action>, ghost bound: nat) returns (reply: Reply, ghost k: nat)
      requires Valid()
      requires request != [] && (request[0].kind.Continue? || request[0].kind.RangeStep?) ==>
                 bound >= 1 && !Resumed(request[0].kind).Quiet(bound)
      modifies this`machine, watchpoints
      ensures Valid()
      ensures reply == Panicked <==> request == []
      ensures if request == [] then
                k == 0 && machine == old(machine) && Snaps(watchpoints) == old(Snaps(watchpoints))
              else
                var kind := request[0].kind;
                var run := old(Resumed(kind));
                if kind.Continue? || kind.RangeStep? then
                  Ended(run, k, machine, reply, Snaps(watchpoints))
                else
                  && Snaps(watchpoints) == old(Snaps(watchpoints))
                  && k == (if kind.Step? && vm.running(old(machine)) then 1 else 0)
                  && machine == run.At(k)
                  && reply == if !kind.Step? then Failed(5)
                              else if k == 1 && !vm.step(old(machine)).ok then Stop(R.Signal(5))
                              else if vm.running(machine) then Stop(R.Signal(5))
                              else Stop(R.Exited(0, vm.exitCode(machine)))
    {
      k := 0;
      if request == [] {
        return Panicked, k;
      }
      var kind := request[0].kind;
      match kind {
        case Continue =>
          reply, k := Resume(kind, bound);
          return;
        case RangeStep(_, _) =>
          reply, k := Resume(kind, bound);
          return;
        case Step =>
          if vm.running(machine) {
            k := 1;
            assert old(Resumed(kind)).At(0) == old(machine);
            var ok := Step();
            if !ok {
              return Stop(R.Signal(5)), k;
            }
          }
        case _ =>
          return Failed(5), k;
      }
      reply := Stopped();
    }

    /** One watch check of a run. */
    method Check(ghost run: Run<S>, ghost k: nat) returns (changed: Option<bool>)
      requires Valid() && run.vm == vm
      requires Underway(run, k, machine, Snaps(watchpoints)) && !run.Rests(k)
      modifies watchpoints
      ensures changed == Some(false) ==> run.Quiet(k) && Poised(run, k + 1, machine, Snaps(watchpoints))
      ensures changed == Some(true) ==> Ended(run, k, machine, run.Final(k), Snaps(watchpoints))
      ensures changed == None ==> Ended(run, k, machine, Failed(3), Snaps(watchpoints))
    {
      RefreshedAgain(run, k);
      changed := AtWatchpoint();
      if changed != Some(false) {
        NotQuiet(run, k, machine, if changed.None? then Failed(3) else run.Final(k), Snaps(watchpoints));
      }
    }

    /** The reply once the machine has stopped. */
    method Stopped() returns (reply: Reply)
      ensures reply == if vm.running(machine) then Stop(R.Signal(5)) else Stop(R.Exited(0, vm.exitCode(machine)))
    {
      if vm.running(machine) {
        reply := Stop(R.Signal(5));
      } else {
        reply := Stop(R.Exited(0, vm.exitCode(machine)));
      }
    }

    /** The `k`th step of a run. */
    method StepRun(ghost run: Run<S>, ghost k: nat) returns (ok: bool)
      requires run.vm == vm && Poised(run, k, machine, Snaps(watchpoints))
      modifies this`machine
      ensures ok ==> Underway(run, k, machine, Snaps(watchpoints))
      ensures !ok ==> Ended(run, k, machine, Stop(R.Signal(5)), Snaps(watchpoints))
    {
      ok := Step();
    }

    predicate KeepsGoing(kind: G.VCont)
      reads this
    {
      && (kind.RangeStep? ==> kind.start <= vm.pc(machine) < kind.end)
      && !AtBreakpoint()
      && vm.running(machine)
    }

    /** The loops of Continue and RangeStep; they differ in the range only. */
    method Resume(kind: G.VCont, ghost bound: nat) returns (reply: Reply, ghost k: nat)
      requires Valid() && (kind.Continue? || kind.RangeStep?)
      requires bound >= 1 && !Resumed(kind).Quiet(bound)
      modifies this`machine, watchpoints
      ensures Ended(old(Resumed(kind)), k, machine, reply, Snaps(watchpoints))
    {
      ghost var run := Resumed(kind);
      k := 1;
      assert Poised(run, k, machine, Snaps(watchpoints));
      var ok := StepRun(run, k);
      if !ok {
        return Stop(R.Signal(5)), k;
      }
      reply, k := Loop(kind, run, bound);
    }

    method Loop(kind: G.VCont, ghost run: Run<S>, ghost bound: nat) returns (reply: Reply, ghost k: nat)
      requires Valid() && run.vm == vm && run.breaks == breakpoints && run.kind == kind
      requires Underway(run, 1, machine, Snaps(watchpoints)) && bound >= 1 && !run.Quiet(bound)
      modifies this`machine, watchpoints
      ensures Ended(run, k, machine, reply, Snaps(watchpoints))
    {
      k := 1;
      while KeepsGoing(kind)
        invariant k <= bound
        invariant Underway(run, k, machine, Snaps(watchpoints))
        decreases bound - k
      {
        var changed := Check(run, k);
        if changed.None? {
          return Failed(3), k;
        }
        if changed.value {
          reply := Stopped();
          return;
        }
        k := k + 1;
        var ok := StepRun(run, k);
        if !ok {
          return Stop(R.Signal(5)), k;
        }
      }
      Resting(run, k, machine, Snaps(watchpoints));
      reply := Stopped();
    }

    method InsertSoftwareBreakpoint(breakpoint: Breakpoint)
      modifies this`breakpoints
      ensures breakpoints == old(breakpoints) + [breakpoint]
    {
      breakpoints := breakpoints + [breakpoint];
    }

    method RemoveSoftwareBreakpoint(breakpoint: Breakpoint)
      modifies this`breakpoints
      ensures breakpoints == Retained(old(breakpoints), NotBreakpoint(breakpoint))
    {
      breakpoints := Retained(breakpoints, NotBreakpoint(breakpoint));
    }

    method InsertWriteWatchpoint(w: Watchpoint)
      requires Valid()
      modifies this`watchpoints
      ensures Valid()
      ensures Snaps(watchpoints) == old(Snaps(watchpoints)) + [Unseen(w)]
    {
      var wp := new WatchPointStatus(w);
      watchpoints := watchpoints + [wp];
    }

    method RemoveWriteWatchpoint(w: Watchpoint)
      requires Valid()
      modifies this`watchpoints
      ensures Valid()
      ensures Snaps(watchpoints) == Retained(old(Snaps(watchpoints)), NotWatching(w))
    {
      var kept := [];
      var i := 0;
      while i < |watchpoints|
        invariant 0 <= i <= |watchpoints|
        invariant forall x <- kept :: x in watchpoints[..i]
        invariant Distinct(kept)
        invariant Snaps(kept) == Retained(Snaps(watchpoints)[..i], NotWatching(w))
      {
        var b := watchpoints[i];
        assert b !in watchpoints[..i];
        assert Snaps(watchpoints)[..i + 1][..i] == Snaps(watchpoints)[..i];
        if b.watchpoint.addr != w.addr || b.watchpoint.nBytes != w.nBytes {
          kept := kept + [b];
        }
        i := i + 1;
      }
      assert Snaps(watchpoints)[..i] == Snaps(watchpoints);
      watchpoints := kept;
    }
  }
}
