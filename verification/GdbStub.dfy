/**
  The gdbstub target: one instruction at a time through a memory that records what is accessed,
  and the loop that runs until there is an event, polling the connection now and then.
*/
module GdbStub {
  import opened Bytes
  import opened Options

  datatype Access = Load(addr: u64) | Store(addr: u64)

  /** What executing the instruction at the pc does; nothing if it cannot be decoded or paid for. */
  datatype Executed<S> = Undecoded | Executed(next: S, accesses: seq<Access>, ok: bool)

  datatype Vm<!S> = Vm(
    execute: S -> Executed<S>,
    pc: S -> u64,
    running: S -> bool,
    exitCode: S -> byte,
    atEcall: S -> bool,
    a7: S -> u64)

  datatype ExecMode = Step | Continue | RangeStep(start: u64, end: u64)

  datatype FilteredSyscalls = Nothing | All | Filter(numbers: set<u64>) {
    predicate Filtered(number: u64) {
      All? || (Filter? && number in numbers)
    }
  }

  datatype VmEvent =
    | IncomingData
    | DoneStep
    | Exited(code: byte)
    | Break
    | WatchWrite(addr: u64)
    | WatchRead(addr: u64)
    | CatchSyscall(number: u64)
    | Error

  // ---------------------------------------------------------------- one step

  function Stores(accesses: seq<Access>): seq<u64> {
    if accesses == [] then []
    else
      var last := accesses[|accesses| - 1];
      Stores(accesses[..|accesses| - 1]) + if last.Store? then [last.addr] else []
  }

  function Loads(accesses: seq<Access>): seq<u64> {
    if accesses == [] then []
    else
      var last := accesses[|accesses| - 1];
      Loads(accesses[..|accesses| - 1]) + if last.Load? then [last.addr] else []
  }

  /** The parts of the handler that a run does not change. */
  datatype Setting<!S> = Setting(vm: Vm<S>, breaks: seq<u64>, catching: FilteredSyscalls) {
    function Next(m: S): S {
      if !vm.running(m) || vm.execute(m).Undecoded? then m else vm.execute(m).next
    }

    predicate Catches(m: S) {
      vm.atEcall(m) && catching.Filtered(vm.a7(m))
    }

    /** What a step from `m` reports, the most important first. */
    function EventOf(m: S): Option<VmEvent> {
      if !vm.running(m) then Some(Exited(vm.exitCode(m)))
      else
        var done := vm.execute(m);
        if done.Undecoded? || !done.ok then Some(Error)
        else if Catches(done.next) then Some(CatchSyscall(vm.a7(done.next)))
        else if vm.pc(done.next) in breaks then Some(Break)
        else if Stores(done.accesses) != [] then Some(WatchWrite(Last(Stores(done.accesses))))
        else if Loads(done.accesses) != [] then Some(WatchRead(Last(Loads(done.accesses))))
        else None
    }
  }

  function Last<T>(s: seq<T>): T
    requires s != []
  {
    s[|s| - 1]
  }

  lemma {:induction false} StoresIn(accesses: seq<Access>)
    ensures forall a :: a in Stores(accesses) <==> Store(a) in accesses
    ensures forall a :: a in Loads(accesses) <==> Load(a) in accesses
  {
    if accesses != [] {
      StoresIn(accesses[..|accesses| - 1]);
      assert accesses == accesses[..|accesses| - 1] + [Last(accesses)];
    }
  }

  lemma {:induction false} LastStored(accesses: seq<Access>) returns (i: nat)
    requires Stores(accesses) != []
    ensures i < |accesses| && accesses[i] == Store(Last(Stores(accesses)))
    ensures forall j :: i < j < |accesses| ==> accesses[j].Load?
  {
    if Last(accesses).Store? {
      i := |accesses| - 1;
    } else {
      i := LastStored(accesses[..|accesses| - 1]);
    }
  }

  /**
    A step is silent exactly when the machine runs, the instruction succeeds without touching
    memory, and no breakpoint or caught system call comes next. No watchpoint is asked about.
  */
  lemma {:induction false} SilentIff<S>(s: Setting<S>, m: S)
    ensures s.EventOf(m) == None <==>
            && s.vm.running(m) && s.vm.execute(m).Executed? && s.vm.execute(m).ok
            && s.vm.execute(m).accesses == []
            && !s.Catches(s.Next(m)) && s.vm.pc(s.Next(m)) !in s.breaks
  {
    var done := s.vm.execute(m);
    if done.Executed? {
      StoresIn(done.accesses);
      if done.accesses != [] {
        assert done.accesses[0] in done.accesses;
        assert done.accesses[0] == Store(done.accesses[0].addr) || done.accesses[0] == Load(done.accesses[0].addr);
        assert Stores(done.accesses) != [] || Loads(done.accesses) != [];
      }
    }
  }

  lemma {:induction false} LastLoaded(accesses: seq<Access>)
    requires Stores(accesses) == [] && accesses != []
    ensures Loads(accesses) != [] && Last(accesses) == Load(Last(Loads(accesses)))
  {
  }

  /** The step succeeds, and nothing that takes precedence over memory accesses comes of it. */
  ghost predicate Unremarkable<S>(s: Setting<S>, m: S) {
    && s.vm.running(m) && s.vm.execute(m).Executed? && s.vm.execute(m).ok
    && !s.Catches(s.Next(m)) && s.vm.pc(s.Next(m)) !in s.breaks
  }

  /**
    A write is reported exactly when the instruction made one, and then it is the last one that it
    made; a read exactly when it made reads only, and then it is its last access.
  */
  lemma {:induction false} WatchedByLastInstruction<S>(s: Setting<S>, m: S, a: u64)
    ensures s.EventOf(m) == Some(WatchWrite(a)) <==>
            Unremarkable(s, m) && exists i :: IsLastStore(s.vm.execute(m), i, a)
    ensures s.EventOf(m) == Some(WatchRead(a)) <==>
            Unremarkable(s, m) && ReadsOnly(s.vm.execute(m)) && Last(s.vm.execute(m).accesses) == Load(a)
  {
    var done := s.vm.execute(m);
    if Unremarkable(s, m) {
      StoresIn(done.accesses);
      if Stores(done.accesses) != [] {
        var i := LastStored(done.accesses);
        assert done.accesses[i] in done.accesses;
        assert IsLastStore(done, i, Last(Stores(done.accesses)));
      } else if done.accesses != [] {
        LastLoaded(done.accesses);
      }
    }
  }

  ghost predicate IsLastStore<S>(done: Executed<S>, i: nat, a: u64) {
    && done.Executed? && i < |done.accesses| && done.accesses[i] == Store(a)
    && forall j :: i < j < |done.accesses| ==> done.accesses[j].Load?
  }

  ghost predicate ReadsOnly<S>(done: Executed<S>) {
    done.Executed? && done.accesses != [] && forall b :: Store(b) !in done.accesses
  }

  /** The step succeeds and stops in front of a system call that is asked about. */
  ghost predicate Caught<S>(s: Setting<S>, m: S, number: u64) {
    && s.vm.running(m) && s.vm.execute(m).Executed? && s.vm.execute(m).ok
    && var next := s.vm.execute(m).next;
    && s.vm.atEcall(next) && number == s.vm.a7(next)
    && (s.catching.All? || (s.catching.Filter? && number in s.catching.numbers))
  }

  /**
    The events that take precedence over memory accesses. A machine that has stopped reports its
    exit code, an instruction that fails an error; a system call is reported with its number, and
    before a breakpoint at the same place.
  */
  lemma {:induction false} EventIff<S>(s: Setting<S>, m: S, code: byte, number: u64)
    ensures s.EventOf(m) == Some(Exited(code)) <==> !s.vm.running(m) && code == s.vm.exitCode(m)
    ensures s.EventOf(m) == Some(Error) <==>
            s.vm.running(m) && (s.vm.execute(m).Undecoded? || !s.vm.execute(m).ok)
    ensures s.EventOf(m) == Some(CatchSyscall(number)) <==> Caught(s, m, number)
    ensures s.EventOf(m) == Some(Break) <==>
            && s.vm.running(m) && s.vm.execute(m).Executed? && s.vm.execute(m).ok
            && !Caught(s, m, s.vm.a7(s.vm.execute(m).next)) && s.vm.pc(s.vm.execute(m).next) in s.breaks
  {
  }

  // ---------------------------------------------------------------- runs

  const POLL_INTERVAL: nat := 1024

  /** A run of `execute`: `polls(j)` is what the `j`th poll of the connection finds. */
  datatype Run<!S> = Run(setting: Setting<S>, m: S, mode: ExecMode, polls: nat -> bool) {
    function At(k: nat): S {
      if k == 0 then m else setting.Next(At(k - 1))
    }

    /** What the run ends with after its `k`th step, if it does. */
    function Outcome(k: nat): Option<VmEvent>
      requires k >= 1
    {
      var event := setting.EventOf(At(k - 1));
      if event.Some? then event
      else if mode.Step? || (mode.RangeStep? && !(mode.start <= setting.vm.pc(At(k)) < mode.end)) then Some(DoneStep)
      else if k % POLL_INTERVAL == 0 && polls(k / POLL_INTERVAL) then Some(IncomingData)
      else None
    }

    predicate SilentUntil(k: nat) {
      forall j :: 1 <= j < k ==> Outcome(j) == None
    }

    /** The number of polls made by a run of `k` steps. */
    function Polled(k: nat): nat {
      if k == 0 || Outcome(k) == None || Outcome(k) == Some(IncomingData) then 1 + k / POLL_INTERVAL
      else 1 + (k - 1) / POLL_INTERVAL
    }

    /** Data that waits already ends the run before the first step; otherwise the first step with an outcome does. */
    ghost predicate EndsWith(k: nat, event: VmEvent) {
      if polls(0) then k == 0 && event == IncomingData
      else k >= 1 && SilentUntil(k) && Outcome(k) == Some(event)
    }
  }

  /**
    After a step without an event, a step command is done at once and a range step as soon as the pc
    has left the range; the connection is asked every 1024 steps.
  */
  lemma {:induction false} OutcomeIff<S>(r: Run<S>, k: nat)
    requires k >= 1
    ensures r.Outcome(k) == Some(DoneStep) <==>
            r.setting.EventOf(r.At(k - 1)) == None && (r.mode == Step || LeftRange(r, k))
    ensures r.Outcome(k) == Some(IncomingData) <==>
            && r.setting.EventOf(r.At(k - 1)) == None && r.mode != Step && !LeftRange(r, k)
            && k % 1024 == 0 && r.polls(k / 1024)
  {
  }

  ghost predicate LeftRange<S>(r: Run<S>, k: nat) {
    var pc := r.setting.vm.pc(r.At(k));
    r.mode.RangeStep? && (pc < r.mode.start || r.mode.end <= pc)
  }

  /** Incoming data is left waiting for no more than 1024 steps. */
  lemma {:induction false} PollsInTime<S>(r: Run<S>, k: nat, event: VmEvent, j: nat)
    requires r.EndsWith(k, event) && 1024 * j < k
    ensures !r.polls(j)
  {
    var at := POLL_INTERVAL * j;
    if j > 0 {
      Multiple(j);
      assert r.Outcome(at) == None;
    }
  }

  lemma {:induction false} Multiple(j: nat)
    ensures (POLL_INTERVAL * j) % POLL_INTERVAL == 0 && (POLL_INTERVAL * j) / POLL_INTERVAL == j
  {
  }

  // ---------------------------------------------------------------- the handler

  const TWO31: int := 0x8000_0000
  const TWO32: nat := 0x1_0000_0000

  /** Addition of 1 in 32 bits, signed. */
  function Increment(n: int): int {
    if n == TWO31 - 1 then -TWO31 else n + 1
  }

  /** The counter after `k` increments. */
  ghost predicate Counts(n: int, k: nat) {
    exists laps: nat :: Lapped(n, k, laps)
  }

  predicate Lapped(n: int, k: nat, laps: nat) {
    n == k - TWO32 * laps
  }

  lemma {:induction false} CountsNext(n: int, k: nat)
    requires Counts(n, k)
    ensures Counts(Increment(n), k + 1)
  {
    var laps: nat :| Lapped(n, k, laps);
    assert Lapped(Increment(n), k + 1, if n == TWO31 - 1 then laps + 1 else laps);
  }

  /** The counter wraps around, but the wrapped counter is a multiple of 1024 when the number of steps is. */
  lemma {:induction false} WrappedMultiple(n: int, k: nat)
    requires Counts(n, k)
    ensures n % 1024 == k % 1024
  {
    var laps: nat :| Lapped(n, k, laps);
    var step := TWO32 / POLL_INTERVAL;
    assert TWO32 * laps == POLL_INTERVAL * (step * laps);
    Shift(k, step * laps);
  }

  lemma {:induction false} Shift(k: int, q: int)
    ensures (k - POLL_INTERVAL * q) % POLL_INTERVAL == k % POLL_INTERVAL
  {
  }

  /** A run that is over after `k` steps and `polled` polls. */
  ghost predicate Ended<S>(r: Run<S>, k: nat, machine: S, event: VmEvent, polled: nat) {
    r.EndsWith(k, event) && machine == r.At(k) && polled == r.Polled(k)
  }

  /** A run that goes on after `k` steps and `polled` polls. */
  ghost predicate Underway<S>(r: Run<S>, k: nat, machine: S, polled: nat) {
    !r.polls(0) && r.SilentUntil(k + 1) && machine == r.At(k) && polled == 1 + k / POLL_INTERVAL
  }

  lemma {:induction false} EndsEarly<S>(r: Run<S>, k: nat, machine: S, event: VmEvent, polled: nat)
    requires k >= 1 && Underway(r, k - 1, r.At(k - 1), polled) && machine == r.At(k)
    requires r.Outcome(k) == Some(event) && event != IncomingData
    ensures Ended(r, k, machine, event, polled)
  {
  }

  /** A step that yields nothing: the run ends only if a poll is due and finds data. */
  lemma {:induction false} EndsOrGoesOn<S>(r: Run<S>, k: nat, machine: S, polled: nat)
    requires k >= 1 && Underway(r, k - 1, r.At(k - 1), polled) && machine == r.At(k)
    requires r.setting.EventOf(r.At(k - 1)) == None && !r.mode.Step?
    requires r.mode.RangeStep? ==> r.mode.start <= r.setting.vm.pc(machine) < r.mode.end
    ensures if k % POLL_INTERVAL != 0 then Underway(r, k, machine, polled)
            else if r.polls(polled) then Ended(r, k, machine, IncomingData, polled + 1)
            else Underway(r, k, machine, polled + 1)
    ensures r.Outcome(k) == None <==> k % POLL_INTERVAL != 0 || !r.polls(polled)
  {
    Quotient(k);
  }

  lemma {:induction false} Quotient(k: nat)
    requires k >= 1
    ensures k / POLL_INTERVAL == (k - 1) / POLL_INTERVAL + if k % POLL_INTERVAL == 0 then 1 else 0
  {
  }

  class GdbStubHandler<S(!new)> {
    const vm: Vm<S>
    var execMode: ExecMode
    var machine: S
    var breakpoints: seq<u64>
    var catchSyscalls: FilteredSyscalls
    var memoryWrites: seq<u64>
    var memoryReads: seq<u64>

    ghost function Set(): Setting<S>
      reads this
    {
      Setting(vm, breakpoints, catchSyscalls)
    }

    constructor (vm: Vm<S>, machine: S)
      ensures this.vm == vm && this.machine == machine && execMode == Continue
      ensures breakpoints == [] && catchSyscalls == Nothing
    {
      this.vm := vm;
      this.machine := machine;
      execMode := Continue;
      breakpoints := [];
      catchSyscalls := Nothing;
      memoryWrites := [];
      memoryReads := [];
    }

    method ClearMemoryOps()
      modifies this`memoryWrites, this`memoryReads
      ensures memoryWrites == [] && memoryReads == []
    {
      memoryWrites := [];
      memoryReads := [];
    }

    /** The recording memory: a successful access is noted. */
    method Note(access: Access)
      modifies this`memoryWrites, this`memoryReads
      ensures memoryWrites == old(memoryWrites) + if access.Store? then [access.addr] else []
      ensures memoryReads == old(memoryReads) + if access.Load? then [access.addr] else []
    {
      match access
      case Load(addr) => memoryReads := memoryReads + [addr];
      case Store(addr) => memoryWrites := memoryWrites + [addr];
    }

    method StepInner() returns (ok: bool)
      modifies this`machine, this`memoryWrites, this`memoryReads
      ensures var done := vm.execute(old(machine));
              if done.Undecoded? then
                !ok && machine == old(machine) && memoryWrites == old(memoryWrites) && memoryReads == old(memoryReads)
              else
                && ok == done.ok && machine == done.next
                && memoryWrites == Stores(done.accesses) && memoryReads == Loads(done.accesses)
    {
      var done := vm.execute(machine);
      if done.Undecoded? {
        return false;
      }
      ClearMemoryOps();
      var i := 0;
      while i < |done.accesses|
        invariant 0 <= i <= |done.accesses|
        invariant memoryWrites == Stores(done.accesses[..i]) && memoryReads == Loads(done.accesses[..i])
      {
        Note(done.accesses[i]);
        assert done.accesses[..i + 1][..i] == done.accesses[..i];
        i := i + 1;
      }
      assert done.accesses[..i] == done.accesses;
      machine := done.next;
      ok := done.ok;
    }

    method TakeStep() returns (event: Option<VmEvent>)
      modifies this`machine, this`memoryWrites, this`memoryReads
      ensures machine == Set().Next(old(machine)) && event == Set().EventOf(old(machine))
    {
      if !vm.running(machine) {
        return Some(Exited(vm.exitCode(machine)));
      }
      var ok := StepInner();
      if !ok {
        return Some(Error);
      }
      if vm.atEcall(machine) && catchSyscalls.Filtered(vm.a7(machine)) {
        return Some(CatchSyscall(vm.a7(machine)));
      }
      if vm.pc(machine) in breakpoints {
        return Some(Break);
      }
      if memoryWrites != [] {
        event := Some(WatchWrite(Last(memoryWrites)));
        memoryWrites := memoryWrites[..|memoryWrites| - 1];
        return;
      }
      if memoryReads != [] {
        event := Some(WatchRead(Last(memoryReads)));
        memoryReads := memoryReads[..|memoryReads| - 1];
        return;
      }
      event := None;
    }

    ghost function Resumed(polls: nat -> bool): Run<S>
      reads this
    {
      Run(Set(), machine, execMode, polls)
    }

    /**
      `polls` stands for the connection: what each poll in turn finds. A run without end is not
      modelled: `bound` is a step at which this one would end. `k` counts the steps taken, `polled`
      the polls made.
    */
    method Execute(polls: nat -> bool, ghost bound: nat) returns (event: VmEvent, ghost k: nat, polled: nat)
      requires bound >= 1 && Resumed(polls).Outcome(bound) != None
      modifies this`machine, this`memoryWrites, this`memoryReads
      ensures Ended(old(Resumed(polls)), k, machine, event, polled)
    {
      ghost var run := Resumed(polls);
      k, polled := 0, 1;
      if polls(0) {
        return IncomingData, k, polled;
      }
      if execMode.Step? {
        k := 1;
        assert run.At(0) == machine;
        var stepped := TakeStep();
        event := if stepped.Some? then stepped.value else DoneStep;
        return;
      }
      event, k, polled := Loop(polls, run, bound);
    }

    method Loop(polls: nat -> bool, ghost run: Run<S>, ghost bound: nat) returns (event: VmEvent, ghost k: nat,
        polled: nat)
      requires run == Resumed(polls) && !run.mode.Step? && !polls(0)
      requires bound >= 1 && run.Outcome(bound) != None
      modifies this`machine, this`memoryWrites, this`memoryReads
      ensures Ended(run, k, machine, event, polled)
    {
      k, polled := 0, 1;
      var executedCycles := 0;
      assert Lapped(0, 0, 0);
      while true
        invariant k < bound
        invariant Underway(run, k, machine, polled)
        invariant Counts(executedCycles, k)
        decreases bound - k
      {
        var stepped := TakeStep();
        k := k + 1;
        if stepped.Some? {
          event := stepped.value;
          EndsEarly(run, k, machine, event, polled);
          return;
        }
        if execMode.RangeStep? && !(execMode.start <= vm.pc(machine) < execMode.end) {
          event := DoneStep;
          EndsEarly(run, k, machine, event, polled);
          return;
        }
        CountsNext(executedCycles, k - 1);
        executedCycles := Increment(executedCycles);
        WrappedMultiple(executedCycles, k);
        EndsOrGoesOn(run, k, machine, polled);
        if executedCycles % POLL_INTERVAL == 0 {
          polled := polled + 1;
          if polls(polled - 1) {
            return IncomingData, k, polled;
          }
        }
      }
    }
  }
}
