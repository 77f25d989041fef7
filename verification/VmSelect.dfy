/**
  Choosing the machine to debug: run until the `specify`th exec or spawn, keeping the machines
  that wait for a spawned one on a stack, and stop in the program that was started.
*/
module VmSelect {
  import opened Bytes
  import opened Options

  /**
    A program as what its instructions do. `cycles` is the machine's counter after an instruction;
    a spawned machine starts at `start`, and `data` is what its caller's update will be made from.
  */
  datatype Prog =
    | Step(cycles: u64, next: Prog)
    | Exec(cycles: u64, prog: Prog)
    | Spawn(data: nat, start: u64, child: Prog, next: Prog)
    | Exit
    | Fault

  /** `data` is what the machine was spawned with. */
  datatype Machine = Machine(prog: Prog, running: bool, cycles: u64, maxCycles: u64, data: Option<nat>)

  datatype State = State(machine: Machine, suspended: seq<Machine>, spawnData: Option<nat>, specify: nat)

  datatype Selection = Selected(machine: Machine) | Failed | Panicked

  datatype Outcome = Going(state: State) | Over(result: Selection)

  const SPAWN_CYCLES: u64 := 500

  // ---------------------------------------------------------------- the order of events

  /**
    The programs that running a program to its end starts, and the data of its spawns, in order;
    `ok` if it gets there.
  */
  datatype Trace = Trace(started: seq<Prog>, spawned: seq<nat>, ok: bool)

  function Then(a: Trace, b: Trace): Trace {
    if a.ok then Trace(a.started + b.started, a.spawned + b.spawned, b.ok) else a
  }

  const NOTHING := Trace([], [], true)

  /** An exec or a spawn by itself. */
  function Starts(p: Prog): Trace
    requires p.Exec? || p.Spawn?
  {
    if p.Exec? then Trace([p.prog], [], true) else Trace([p.child], [p.data], true)
  }

  /** Exec gives up the rest of a program; spawn runs another one to its end first. */
  function Events(p: Prog): Trace {
    match p
    case Step(_, next) => Events(next)
    case Exec(_, prog) => Then(Starts(p), Events(prog))
    case Spawn(_, _, child, next) => Then(Then(Starts(p), Events(child)), Events(next))
    case Exit => NOTHING
    case Fault => NOTHING.(ok := false)
  }

  /** What is still to come once the running machine has come to its end. */
  function Resumed(suspended: seq<Machine>): Trace
    decreases |suspended|, 0
  {
    if suspended == [] then NOTHING
    else Pending(suspended[|suspended| - 1].prog, suspended[..|suspended| - 1])
  }

  /** What is still to come for a machine and those that wait for it. */
  function Pending(p: Prog, suspended: seq<Machine>): Trace
    decreases |suspended|, 1
  {
    Then(Events(p), Resumed(suspended))
  }

  lemma {:induction false} ThenAssociates(a: Trace, b: Trace, c: Trace)
    ensures Then(Then(a, b), c) == Then(a, Then(b, c))
  {
    assert a.started + b.started + c.started == a.started + (b.started + c.started);
    assert a.spawned + b.spawned + c.spawned == a.spawned + (b.spawned + c.spawned);
  }

  lemma {:induction false} NothingThen(t: Trace)
    ensures Then(NOTHING, t) == t && Then(t, NOTHING) == t
  {
    assert t.started + [] == t.started && t.spawned + [] == t.spawned;
  }

  // ---------------------------------------------------------------- one instruction

  function Wrap(n: int): (r: u64) {
    n % U64_LIMIT
  }

  /** The waiting machine is charged for the spawn, and the new one gets what is left of its limit. */
  function Waiting(m: Machine): Machine
    requires m.prog.Spawn?
  {
    m.(prog := m.prog.next, cycles := Wrap(m.cycles + SPAWN_CYCLES))
  }

  function Spawned(m: Machine): Machine
    requires m.prog.Spawn?
  {
    Machine(m.prog.child, true, m.prog.start, Wrap(Wrap(m.maxCycles - SPAWN_CYCLES) - m.cycles), Some(m.prog.data))
  }

  /** One turn of the loops: an instruction, and the return to the waiting machine if it was the last. */
  function Next(s: State): Outcome {
    var m := s.machine;
    match m.prog
    case Fault => Over(Failed)
    case Step(cycles, next) => Going(s.(machine := m.(prog := next, cycles := cycles)))
    case Exec(cycles, prog) =>
      if s.specify == 0 then Over(Selected(m))
      else Going(s.(machine := m.(prog := prog, cycles := cycles), specify := s.specify - 1))
    case Spawn(data, _, _, _) =>
      if s.specify == 0 then Over(Selected(m))
      else Going(State(Spawned(m), s.suspended + [Waiting(m)], Some(data), s.specify - 1))
    case Exit =>
      if s.suspended == [] || s.spawnData.None? then Over(Panicked)
      else Going(s.(machine := s.suspended[|s.suspended| - 1], suspended := s.suspended[..|s.suspended| - 1]))
  }

  function Size(p: Prog): nat {
    match p
    case Step(_, next) => 1 + Size(next)
    case Exec(_, prog) => 1 + Size(prog)
    case Spawn(_, _, child, next) => 1 + Size(child) + Size(next)
    case Exit => 1
    case Fault => 1
  }

  /** All that is left to do. */
  function Work(p: Prog, suspended: seq<Machine>): nat
    decreases |suspended|
  {
    Size(p) + if suspended == [] then 0 else
      Work(suspended[|suspended| - 1].prog, suspended[..|suspended| - 1])
  }

  lemma {:induction false} NextDecreases(s: State)
    ensures Next(s).Going? ==>
              Work(Next(s).state.machine.prog, Next(s).state.suspended) < Work(s.machine.prog, s.suspended)
  {
    if s.machine.prog.Spawn? {
      var more := s.suspended + [Waiting(s.machine)];
      assert more[..|more| - 1] == s.suspended;
    }
  }

  /** What the search comes to from `s`. */
  function Search(s: State): Selection
    decreases Work(s.machine.prog, s.suspended)
  {
    if s.specify == 0 then Selected(s.machine)
    else
      NextDecreases(s);
      match Next(s)
      case Over(r) => r
      case Going(s') => Search(s')
  }

  ghost predicate LeadsTo(s: State, r: Selection) {
    Search(s) == r
  }

  lemma {:induction false} LeadsNext(s: State, r: Selection)
    requires LeadsTo(s, r) && s.specify > 0
    ensures match Next(s)
            case Over(result) => r == result
            case Going(s') => LeadsTo(s', r) && Work(s'.machine.prog, s'.suspended) < Work(s.machine.prog, s.suspended)
  {
    NextDecreases(s);
  }

  /** The spawn itself: the counter is set to the limit but 500, and back once the call is made. */
  method RunSpawn(m: Machine) returns (waiting: Machine, child: Machine)
    requires m.prog.Spawn?
    ensures waiting == Waiting(m) && child == Spawned(m)
    ensures Wrap(waiting.cycles + child.maxCycles) == m.maxCycles
  {
    var cyclesCurrent := m.cycles;
    waiting := m.(cycles := Wrap(m.maxCycles - SPAWN_CYCLES));
    var cyclesDiff := Wrap(waiting.cycles - cyclesCurrent);
    waiting := waiting.(prog := m.prog.next);
    waiting := waiting.(cycles := Wrap(cyclesCurrent + SPAWN_CYCLES));
    child := Machine(m.prog.child, true, m.prog.start, cyclesDiff, Some(m.prog.data));
    SpawnBalances(m);
  }

  /** `machine_sget` */
  method MachineSget(machine: Machine, specify: nat) returns (r: Selection)
    requires machine.running
    ensures r == Search(State(machine, [], None, specify))
  {
    var m := machine;
    var left := specify;
    var machineVec: seq<Machine> := [];
    var spawnData: Option<nat> := None;
    ghost var result := Search(State(m, machineVec, spawnData, left));
    while left != 0
      invariant m.running && forall w <- machineVec :: w.running
      invariant LeadsTo(State(m, machineVec, spawnData, left), result)
      decreases Work(m.prog, machineVec)
    {
      ghost var work := Work(m.prog, machineVec);
      while m.running
        invariant left != 0 && forall w <- machineVec :: w.running
        invariant m.running || m.prog.Exit?
        invariant LeadsTo(State(m.(running := true), machineVec, spawnData, left), result)
        invariant Work(m.prog, machineVec) <= work
        decreases m.running, Work(m.prog, machineVec)
      {
        assert m.(running := true) == m;
        LeadsNext(State(m, machineVec, spawnData, left), result);
        match m.prog {
          case Fault =>
            return Failed;
          case Exec(cycles, prog) =>
            m := m.(prog := prog, cycles := cycles);
            left := left - 1;
            break;
          case Spawn(data, start, child, next) =>
            var waiting, spawned := RunSpawn(m);
            machineVec := machineVec + [waiting];
            m := spawned;
            spawnData := Some(data);
            left := left - 1;
            break;
          case Step(cycles, next) =>
            m := m.(prog := next, cycles := cycles);
          case Exit =>
            m := m.(running := false);
        }
      }
      if !m.running {
        LeadsNext(State(m.(running := true), machineVec, spawnData, left), result);
        if machineVec == [] || spawnData.None? {
          return Panicked;
        }
        m := machineVec[|machineVec| - 1];
        machineVec := machineVec[..|machineVec| - 1];
      }
    }
    r := Selected(m);
  }

  // ---------------------------------------------------------------- the right program

  lemma {:induction false} NextPending(s: State)
    requires s.specify > 0 && Next(s).Going?
    ensures var s' := Next(s).state;
            var (now, left) := (Pending(s.machine.prog, s.suspended), Pending(s'.machine.prog, s'.suspended));
            if s'.specify == s.specify then now == left
            else now == Then(Starts(s.machine.prog), left) && Starts(s.machine.prog).started == [s'.machine.prog]
  {
    var m, left := s.machine, Resumed(s.suspended);
    match m.prog
    case Spawn(_, _, child, next) =>
      var more := s.suspended + [Waiting(m)];
      assert more[..|more| - 1] == s.suspended;
      ThenAssociates(Then(Starts(m.prog), Events(child)), Events(next), left);
      ThenAssociates(Starts(m.prog), Events(child), Pending(next, s.suspended));
    case Exec(_, prog) =>
      ThenAssociates(Starts(m.prog), Events(prog), left);
    case Exit =>
      NothingThen(left);
    case _ =>
  }

  /** There is data for the caller whenever there is a caller. */
  predicate Ready(s: State) {
    s.suspended != [] ==> s.spawnData.Some?
  }

  /** What the search should come to: the `n`th program started, counted from 1. */
  ghost predicate IsNth(r: Selection, m: Machine, t: Trace, n: nat) {
    if n == 0 then r == Selected(m)
    else if n <= |t.started| then r.Selected? && r.machine.prog == t.started[n - 1]
    else r == if t.ok then Panicked else Failed
  }

  /** A turn takes what is started by it from what is to come. */
  lemma {:induction false} NthNext(r: Selection, m: Machine, m': Machine, starts: Trace, left: Trace, n: nat)
    requires n > 0 && starts.ok && starts.started == [m'.prog] && IsNth(r, m', left, n - 1)
    ensures IsNth(r, m, Then(starts, left), n)
  {
    var t := Then(starts, left);
    assert t.started == [m'.prog] + left.started;
  }

  lemma {:induction false} SearchEnds(s: State)
    requires Ready(s) && s.specify > 0 && Next(s).Over?
    ensures IsNth(Next(s).result, s.machine, Pending(s.machine.prog, s.suspended), s.specify)
  {
  }

  lemma {:induction false} NextIsNth(s: State, r: Selection)
    requires s.specify > 0 && Next(s).Going?
    requires var s' := Next(s).state; IsNth(r, s'.machine, Pending(s'.machine.prog, s'.suspended), s'.specify)
    ensures IsNth(r, s.machine, Pending(s.machine.prog, s.suspended), s.specify)
  {
    NextPending(s);
    var s' := Next(s).state;
    if s'.specify != s.specify {
      NthNext(r, s.machine, s'.machine, Starts(s.machine.prog), Pending(s'.machine.prog, s'.suspended), s.specify);
    }
  }

  lemma {:induction false} SearchIsNth(s: State)
    requires Ready(s)
    ensures IsNth(Search(s), s.machine, Pending(s.machine.prog, s.suspended), s.specify)
    decreases Work(s.machine.prog, s.suspended)
  {
    if s.specify > 0 {
      if Next(s).Going? {
        NextDecreases(s);
        SearchIsNth(Next(s).state);
        NextIsNth(s, Search(s));
      } else {
        SearchEnds(s);
      }
    }
  }

  /**
    The search stops in the program that the `specify`th exec or spawn starts, in the order in which
    the programs run. It pops an empty stack exactly when everything runs to its end before that.
  */
  lemma {:induction false} SelectsNth(machine: Machine, specify: nat)
    ensures IsNth(Search(State(machine, [], None, specify)), machine, Events(machine.prog), specify)
  {
    NothingThen(Events(machine.prog));
    SearchIsNth(State(machine, [], None, specify));
  }

  // ---------------------------------------------------------------- cycle budgets

  /** The machines that wait, the oldest first, and the one that runs. */
  function All(s: State): (r: seq<Machine>)
    ensures |r| == |s.suspended| + 1
  {
    s.suspended + [s.machine]
  }

  /** A waiting machine's counter and its child's limit add up to its own limit, in 64 bits. */
  predicate BalancedAt(ms: seq<Machine>, i: nat)
    requires i + 1 < |ms|
  {
    Wrap(ms[i].cycles + ms[i + 1].maxCycles) == ms[i].maxCycles
  }

  predicate Balanced(ms: seq<Machine>) {
    forall i :: 0 <= i < |ms| - 1 ==> BalancedAt(ms, i)
  }

  /** The same without wrapping around. */
  predicate ExactAt(ms: seq<Machine>, i: nat)
    requires i + 1 < |ms|
  {
    ms[i].cycles + ms[i + 1].maxCycles == ms[i].maxCycles
  }

  predicate Exact(ms: seq<Machine>) {
    forall i :: 0 <= i < |ms| - 1 ==> ExactAt(ms, i)
  }

  lemma {:induction false} WrapSum(a: int, b: int)
    ensures Wrap(Wrap(a) + b) == Wrap(a + b)
  {
    var k := a / U64_LIMIT;
    assert a == Wrap(a) + U64_LIMIT * k;
    AddLaps(Wrap(a) + b, k);
  }

  lemma {:induction false} AddLaps(a: int, k: int)
    ensures (a + U64_LIMIT * k) % U64_LIMIT == a % U64_LIMIT
  {
  }

  lemma {:induction false} SpawnBalances(m: Machine)
    requires m.prog.Spawn?
    ensures Wrap(Waiting(m).cycles + Spawned(m).maxCycles) == m.maxCycles
  {
    SpawnDivides(m.cycles, m.maxCycles);
  }

  lemma {:induction false} SpawnDivides(cycles: u64, limit: u64)
    ensures Wrap(Wrap(cycles + SPAWN_CYCLES) + Wrap(Wrap(limit - SPAWN_CYCLES) - cycles)) == limit
  {
    WrapSum(limit - SPAWN_CYCLES, 0 - cycles);
    WrapBoth(cycles + SPAWN_CYCLES, limit - SPAWN_CYCLES - cycles);
    Laps(limit);
  }

  lemma {:induction false} WrapBoth(a: int, b: int)
    ensures Wrap(Wrap(a) + Wrap(b)) == Wrap(a + b)
  {
    WrapSum(a, Wrap(b));
    WrapSum(b, a);
  }

  /**
    A spawn costs its caller 500 cycles. It divides the limit without wrapping around exactly when
    500 cycles are left, or when the counter laps.
  */
  lemma {:induction false} SpawnExactIff(m: Machine)
    requires m.prog.Spawn?
    ensures Waiting(m).cycles + Spawned(m).maxCycles == m.maxCycles <==>
            || m.cycles + 500 <= m.maxCycles
            || 0x1_0000_0000_0000_0000 <= m.cycles + 500 <= 0x1_0000_0000_0000_0000 + m.maxCycles
    ensures Waiting(m) ==
            Machine(m.prog.next, m.running, (m.cycles + 500) % 0x1_0000_0000_0000_0000, m.maxCycles, m.data)
    ensures Spawned(m) ==
            Machine(m.prog.child, true, m.prog.start, (m.maxCycles - 500 - m.cycles) % 0x1_0000_0000_0000_0000,
                    Some(m.prog.data))
    ensures m.cycles + 500 <= m.maxCycles ==> Spawned(m).maxCycles == m.maxCycles - 500 - m.cycles
  {
    var c := m.cycles + SPAWN_CYCLES;
    WrapSum(m.maxCycles - SPAWN_CYCLES, 0 - m.cycles);
    var left := m.maxCycles - c;
    assert Spawned(m).maxCycles == Wrap(left);
    Laps(c);
    Laps(left);
  }

  /** Within one lap of the range on either side, wrapping is adding or taking away one lap; or two below. */
  lemma {:induction false} Laps(n: int)
    ensures 0 <= n < U64_LIMIT ==> Wrap(n) == n
    ensures U64_LIMIT <= n < 2 * U64_LIMIT ==> Wrap(n) == n - U64_LIMIT
    ensures 0 - U64_LIMIT <= n < 0 ==> Wrap(n) == n + U64_LIMIT
    ensures 0 - 2 * U64_LIMIT <= n < 0 - U64_LIMIT ==> Wrap(n) == n + 2 * U64_LIMIT
  {
  }

  /** Every instruction keeps the balance of all machines. */
  lemma {:induction false} NextBalances(s: State)
    requires Balanced(All(s)) && s.specify > 0 && Next(s).Going?
    ensures Balanced(All(Next(s).state))
  {
    var before, after := All(s), All(Next(s).state);
    if s.machine.prog.Spawn? {
      SpawnBalances(s.machine);
    }
    forall i | 0 <= i < |after| - 1
      ensures BalancedAt(after, i)
    {
      if i < |before| - 1 {
        assert BalancedAt(before, i);
      }
    }
  }

  /** Nothing but a spawn that divides its limit badly ends exactness. */
  lemma {:induction false} NextExactIff(s: State)
    requires Exact(All(s)) && s.specify > 0 && Next(s).Going?
    ensures Exact(All(Next(s).state)) <==>
            (s.machine.prog.Spawn? ==> Waiting(s.machine).cycles + Spawned(s.machine).maxCycles == s.machine.maxCycles)
  {
    var before, after := All(s), All(Next(s).state);
    if s.machine.prog.Spawn? {
      var last := |before| - 1;
      assert ExactAt(after, last) <==>
             Waiting(s.machine).cycles + Spawned(s.machine).maxCycles == s.machine.maxCycles;
    }
    forall i | 0 <= i < |after| - 1 && (s.machine.prog.Spawn? ==> i < |before| - 1)
      ensures ExactAt(after, i)
    {
      assert ExactAt(before, i);
    }
  }

  /** The states of a search, one instruction after the other. */
  ghost predicate Reaches(s: State, k: nat, t: State)
    decreases k
  {
    if k == 0 then s == t
    else s.specify > 0 && Next(s).Going? && Reaches(Next(s).state, k - 1, t)
  }

  /** At least 500 cycles are left wherever a spawn is on the way. */
  ghost predicate Affords(s: State, k: nat)
    decreases k
  {
    k > 0 && s.specify > 0 && Next(s).Going? ==>
      && (s.machine.prog.Spawn? ==> s.machine.cycles + SPAWN_CYCLES <= s.machine.maxCycles)
      && Affords(Next(s).state, k - 1)
  }

  /** An instruction that neither spawns nor ends: the counter after it, and whether it is an exec. */
  datatype Instruction = Instruction(cycles: u64, execs: bool)

  function Straight(ins: seq<Instruction>, rest: Prog): Prog {
    if ins == [] then rest
    else
      var next := Straight(ins[1..], rest);
      if ins[0].execs then Exec(ins[0].cycles, next) else Step(ins[0].cycles, next)
  }

  function Execs(ins: seq<Instruction>): nat {
    if ins == [] then 0 else (if ins[0].execs then 1 else 0) + Execs(ins[1..])
  }

  /**
    A program that goes straight on leaves its machine with the counter of its last instruction.
    The machine's limit and data and all machines that wait are untouched; only execs count.
  */
  lemma {:induction false} RunsStraight(s: State, ins: seq<Instruction>, rest: Prog) returns (t: State)
    requires s.machine.prog == Straight(ins, rest) && s.specify > Execs(ins)
    ensures Reaches(s, |ins|, t) && t.machine.prog == rest && t.specify == s.specify - Execs(ins)
    ensures t.machine.cycles == if ins == [] then s.machine.cycles else ins[|ins| - 1].cycles
    ensures t.machine.maxCycles == s.machine.maxCycles && t.machine.data == s.machine.data
    ensures t.suspended == s.suspended && t.spawnData == s.spawnData
    decreases |ins|
  {
    if ins == [] {
      t := s;
    } else {
      t := RunsStraight(Next(s).state, ins[1..], rest);
    }
  }

  function Used(suspended: seq<Machine>): nat {
    if suspended == [] then 0 else Used(suspended[..|suspended| - 1]) + suspended[|suspended| - 1].cycles
  }

  /** The limit of the whole run. */
  function Limit(s: State): nat {
    All(s)[0].maxCycles
  }

  lemma {:induction false} Telescopes(s: State)
    requires Exact(All(s))
    ensures Used(s.suspended) + s.machine.maxCycles == Limit(s)
    decreases |s.suspended|
  {
    if s.suspended != [] {
      var last := |s.suspended| - 1;
      var outer := s.(machine := s.suspended[last], suspended := s.suspended[..last]);
      assert All(outer) == s.suspended;
      assert ExactAt(All(s), last);
      forall i | 0 <= i < |All(outer)| - 1
        ensures ExactAt(All(outer), i)
      {
        assert ExactAt(All(s), i);
      }
      Telescopes(outer);
    }
  }

  lemma {:induction false} RunStaysExact(s: State, k: nat, t: State)
    requires Exact(All(s)) && Reaches(s, k, t) && Affords(s, k)
    ensures Exact(All(t)) && Limit(t) == Limit(s)
    decreases k
  {
    if k > 0 {
      if s.machine.prog.Spawn? {
        SpawnExactIff(s.machine);
      }
      NextExactIff(s);
      RunStaysExact(Next(s).state, k - 1, t);
    }
  }

  /**
    Over a whole search whose spawns each find 500 cycles left, the counters of the machines that
    wait and the limit of the one that runs always add up to the limit of the whole.
  */
  lemma {:induction false} BudgetIsConserved(machine: Machine, specify: nat, k: nat, t: State)
    requires Reaches(State(machine, [], None, specify), k, t) && Affords(State(machine, [], None, specify), k)
    ensures Used(t.suspended) + t.machine.maxCycles == machine.maxCycles
    ensures Exact(All(t))
  {
    RunStaysExact(State(machine, [], None, specify), k, t);
    Telescopes(t);
  }

  lemma {:induction false} RunStaysBalanced(s: State, k: nat, t: State)
    requires Balanced(All(s)) && Reaches(s, k, t)
    ensures Balanced(All(t))
    decreases k
  {
    if k > 0 {
      NextBalances(s);
      RunStaysBalanced(Next(s).state, k - 1, t);
    }
  }

  // ---------------------------------------------------------------- returning to the caller

  /** The data at hand after these spawns, if it was `d` before. */
  function Latest(spawned: seq<nat>, d: Option<nat>): Option<nat> {
    if spawned == [] then d else Some(spawned[|spawned| - 1])
  }

  lemma {:induction false} LatestThen(a: seq<nat>, b: seq<nat>, d: Option<nat>)
    ensures Latest(a + b, d) == Latest(b, Latest(a, d))
  {
  }

  lemma {:induction false} LatestOfSpawn(p: Prog, d: Option<nat>)
    requires p.Spawn? && Events(p).ok
    ensures Events(p.child).ok && Events(p.next).ok
    ensures |Events(p).started| == 1 + |Events(p.child).started| + |Events(p.next).started|
    ensures Latest(Events(p).spawned, d)
            == Latest(Events(p.next).spawned, Latest(Events(p.child).spawned, Some(p.data)))
  {
    LatestThen([p.data], Events(p.child).spawned, d);
    LatestThen([p.data] + Events(p.child).spawned, Events(p.next).spawned, d);
  }

  lemma {:induction false} ReachesThen(s: State, k: nat, t: State, j: nat, u: State)
    requires Reaches(s, k, t) && Reaches(t, j, u)
    ensures Reaches(s, k + j, u)
    decreases k
  {
    if k > 0 {
      ReachesThen(Next(s).state, k - 1, t, j, u);
    }
  }

  /** A spawned program that has ended leads back to its caller. */
  lemma {:induction false} Returns(s: State, i: nat, ended: State) returns (back: State)
    requires s.machine.prog.Spawn? && s.specify > 0 && Reaches(Next(s).state, i, ended)
    requires ended.machine.prog == Exit && ended.suspended == s.suspended + [Waiting(s.machine)]
    requires ended.spawnData.Some? && ended.specify > 0
    ensures back == State(Waiting(s.machine), s.suspended, ended.spawnData, ended.specify)
    ensures Reaches(s, i + 2, back)
  {
    back := Next(ended).state;
    assert ended.suspended[..|ended.suspended| - 1] == s.suspended;
    assert Reaches(ended, 1, back);
    ReachesThen(Next(s).state, i, ended, 1, back);
  }

  /**
    A program that runs to its end, before the search is over, gets there with the machines that
    waited untouched; the data at hand is then that of the last spawn, whoever made it.
  */
  lemma {:induction false} RunsToExit(s: State) returns (k: nat, t: State)
    requires Events(s.machine.prog).ok && s.specify > |Events(s.machine.prog).started|
    ensures Reaches(s, k, t) && t.machine.prog == Exit && t.suspended == s.suspended
    ensures t.machine.data == s.machine.data && t.spawnData == Latest(Events(s.machine.prog).spawned, s.spawnData)
    ensures t.specify == s.specify - |Events(s.machine.prog).started|
    decreases Size(s.machine.prog)
  {
    match s.machine.prog
    case Exit => k, t := 0, s;
    case Step(_, _) =>
      k, t := RunsToExit(Next(s).state);
      k := k + 1;
    case Exec(_, prog) =>
      assert Events(s.machine.prog).spawned == Events(prog).spawned;
      k, t := RunsToExit(Next(s).state);
      k := k + 1;
    case Spawn(data, _, child, next) =>
      LatestOfSpawn(s.machine.prog, s.spawnData);
      var i, ended := RunsToExit(Next(s).state);
      var back := Returns(s, i, ended);
      var j;
      j, t := RunsToExit(back);
      ReachesThen(s, i + 2, back, j, t);
      k := i + 2 + j;
  }

  /**
    A spawned program returns to its caller, which goes on after the spawn as it was left. The
    caller is updated from the data of its own child exactly when no program was spawned meanwhile,
    or the last one that was came with the same data.
  */
  lemma {:induction false} SpawnReturns(s: State) returns (k: nat, t: State)
    requires s.machine.prog.Spawn? && Events(s.machine.prog.child).ok
    requires s.specify > 1 + |Events(s.machine.prog.child).started|
    ensures Reaches(s, k, t) && t.machine.prog == Exit && t.suspended == s.suspended + [Waiting(s.machine)]
    ensures Next(t).Going? && Next(t).state.machine == Waiting(s.machine) && Next(t).state.suspended == s.suspended
    ensures t.machine.data == Some(s.machine.prog.data)
    ensures t.spawnData == Latest(Events(s.machine.prog.child).spawned, t.machine.data)
    ensures var meanwhile := Events(s.machine.prog.child).spawned;
            t.spawnData == t.machine.data <==>
            meanwhile == [] || meanwhile[|meanwhile| - 1] == s.machine.prog.data
  {
    k, t := RunsToExit(Next(s).state);
    k := k + 1;
  }

  /** A machine whose child spawns another is returned to with the data of that one at hand. */
  lemma {:induction false} NestedSpawnMisleads(m: Machine, a: nat, b: nat, start: u64, specify: nat)
      returns (k: nat, t: State)
    requires m.prog == Spawn(a, start, Spawn(b, start, Exit, Exit), Exit) && a != b && specify > 2
    ensures Reaches(State(m, [], None, specify), k, t) && t.machine.prog == Exit && t.suspended == [Waiting(m)]
    ensures t.machine.data == Some(a) && t.spawnData == Some(b)
  {
    assert Events(Exit) == NOTHING;
    assert Events(m.prog.child).spawned == [b] && |Events(m.prog.child).started| == 1;
    k, t := SpawnReturns(State(m, [], None, specify));
  }
}
