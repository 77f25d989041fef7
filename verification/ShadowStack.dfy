/**
  What the profile means. `Frame` is a well-nested execution: a function body that works,
  hops, calls and at last returns or tail calls. `BodyTree` says where its cycles belong, each
  function charging itself. The profiler sees only a flat stream of jumps and guesses
  returns by searching for a link; on well-behaved executions it arrives at the same tree.
*/
module ShadowStack {
  import opened Bytes
  import opened CallTree

  datatype Act =
    | Work(pc: u64, cycles: nat)
    | Hop(pc: u64, cycles: nat, target: u64, next: u64)
    | Invoke(pc: u64, cycles: nat, callee: Frame)

  datatype Acts = Done | Then(first: Act, rest: Acts)

  /** `link` is the address after the call, where a plain call returns to. */
  datatype Frame = Frame(addr: u64, link: u64, body: Acts, exit: Exit)

  /** A return, or a jump to another function that returns in this one's place. `next` is the address after it. */
  datatype Exit =
    | Return(pc: u64, cycles: nat, next: u64)
    | TailCall(pc: u64, cycles: nat, callee: Frame)

  // ---------------------------------------------------------------- the instruction stream

  function ActEvents(a: Act): seq<Event> {
    match a
    case Work(pc, cycles) => [Event(pc, cycles, NoJump)]
    case Hop(pc, cycles, target, next) => [Event(pc, cycles, Jump(target, next))]
    case Invoke(pc, cycles, f) => [Event(pc, cycles, Jump(f.addr, f.link))] + FrameEvents(f, f.link)
  }

  function ActsEvents(acts: Acts): seq<Event> {
    match acts
    case Done => []
    case Then(a, rest) => ActEvents(a) + ActsEvents(rest)
  }

  /** The events of a frame once entered, returning to `ret`. */
  function FrameEvents(f: Frame, ret: u64): seq<Event> {
    ActsEvents(f.body)
    + match f.exit
      case Return(pc, cycles, next) => [Event(pc, cycles, Jump(ret, next))]
      case TailCall(pc, cycles, g) => [Event(pc, cycles, Jump(g.addr, g.link))] + FrameEvents(g, ret)
  }

  // ---------------------------------------------------------------- where the cycles belong

  function ActTree(nodes: seq<Record>, me: nat, a: Act): (r: seq<Record>)
    requires me < |nodes|
    ensures |r| >= |nodes|
    decreases a
  {
    var nodes1 := Charged(nodes, me, a.cycles, a.pc);
    if a.Invoke? then CallTreeOf(nodes1, me, a.pc, a.callee) else nodes1
  }

  function ActsTree(nodes: seq<Record>, me: nat, acts: Acts): (r: seq<Record>)
    requires me < |nodes|
    ensures |r| >= |nodes|
    decreases acts
  {
    match acts
    case Done => nodes
    case Then(a, rest) => ActsTree(ActTree(nodes, me, a), me, rest)
  }

  /** A call from node `me` adds a child that charges itself; a tail call adds a child to that. */
  function CallTreeOf(nodes: seq<Record>, me: nat, pc: u64, f: Frame): (r: seq<Record>)
    requires me < |nodes|
    ensures |r| >= |nodes|
    decreases f
  {
    var callee := |nodes|;
    var nodes1 := ActsTree(nodes + [Record(f.addr, f.link, pc, me, 0)], callee, f.body);
    var nodes2 := Charged(nodes1, callee, f.exit.cycles, f.exit.pc);
    match f.exit
    case Return(_, _, _) => nodes2
    case TailCall(_, _, g) => CallTreeOf(nodes2, callee, f.exit.pc, g)
  }

  // ---------------------------------------------------------------- well-behaved executions

  /** Calls go to known functions; a hop is to neither a function nor an active frame's link. */
  ghost predicate ActFair(functions: set<u64>, active: set<u64>, a: Act)
    decreases a, 0
  {
    match a
    case Work(_, _) => true
    case Hop(_, _, target, _) => target !in functions && target !in active
    case Invoke(_, _, f) => FrameFair(functions, active, f, f.link)
  }

  ghost predicate ActsFair(functions: set<u64>, active: set<u64>, acts: Acts)
    decreases acts, 0
  {
    match acts
    case Done => true
    case Then(a, rest) => ActFair(functions, active, a) && ActsFair(functions, active, rest)
  }

  /** A frame's return address is no function, and a tail call does not stand right before it. */
  ghost predicate FrameFair(functions: set<u64>, active: set<u64>, f: Frame, ret: u64)
    decreases f, 0
  {
    && f.addr in functions && ret !in functions
    && ActsFair(functions, active + {f.link}, f.body)
    && (f.exit.TailCall? ==>
          f.exit.callee.link != ret && FrameFair(functions, active + {f.link}, f.exit.callee, ret))
  }
}
