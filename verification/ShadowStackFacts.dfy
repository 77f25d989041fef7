/** The profiler's tree of a well-behaved execution is the execution's call tree. */
module ShadowStackFacts {
  import opened Bytes
  import opened Options
  import opened CallTree
  import opened ShadowStack

  // ---------------------------------------------------------------- searching for a link

  /** The links on the path from `i` to the root. */
  function LinksAt(nodes: seq<Record>, i: nat): set<u64>
    requires WellFormed(nodes) && i < |nodes|
  {
    {nodes[i].link} + if i == 0 then {} else LinksAt(nodes, nodes[i].parent)
  }

  lemma {:induction false} FindMisses(nodes: seq<Record>, i: nat, addr: u64)
    requires WellFormed(nodes) && i < |nodes| && addr !in LinksAt(nodes, i)
    ensures Find(nodes, i, addr) == -1
  {
    if i > 0 {
      FindMisses(nodes, nodes[i].parent, addr);
    }
  }

  /** `after` has all of `before`'s nodes, changed at most in cycles and pc. */
  ghost predicate Extends(before: seq<Record>, after: seq<Record>) {
    && |before| <= |after|
    && forall k :: 0 <= k < |before| ==>
         before[k].addr == after[k].addr && before[k].link == after[k].link && before[k].parent == after[k].parent
  }

  lemma {:induction false} FindStable(before: seq<Record>, after: seq<Record>, i: nat, addr: u64)
    requires WellFormed(before) && WellFormed(after) && i < |before| && Extends(before, after)
    ensures Find(after, i, addr) == Find(before, i, addr)
    decreases i
  {
    if i > 0 {
      FindStable(before, after, before[i].parent, addr);
    }
  }

  lemma {:induction false} LinksStable(before: seq<Record>, after: seq<Record>, i: nat)
    requires WellFormed(before) && WellFormed(after) && i < |before| && Extends(before, after)
    ensures LinksAt(after, i) == LinksAt(before, i)
    decreases i
  {
    if i > 0 {
      LinksStable(before, after, before[i].parent);
    }
  }

  lemma {:induction false} RunAppend(t: Tree, functions: set<u64>, a: seq<Event>, b: seq<Event>)
    requires Ok(t) && Run(t, functions, a).Some?
    ensures Run(t, functions, a + b) == Run(Run(t, functions, a).value, functions, b)
    decreases |a|
  {
    if a == [] {
      assert a + b == b;
    } else {
      assert (a + b)[1..] == a[1..] + b;
      RunAppend(Stepped(t, functions, a[0]).value, functions, a[1..], b);
    }
  }

  // ---------------------------------------------------------------- the profiler agrees

  lemma {:induction false} ActTreeExtends(nodes: seq<Record>, me: nat, a: Act)
    requires WellFormed(nodes) && me < |nodes|
    ensures WellFormed(ActTree(nodes, me, a)) && Extends(nodes, ActTree(nodes, me, a))
    decreases a
  {
    if a.Invoke? {
      CallTreeExtends(Charged(nodes, me, a.cycles, a.pc), me, a.pc, a.callee);
    }
  }

  lemma {:induction false} ActsTreeExtends(nodes: seq<Record>, me: nat, acts: Acts)
    requires WellFormed(nodes) && me < |nodes|
    ensures WellFormed(ActsTree(nodes, me, acts)) && Extends(nodes, ActsTree(nodes, me, acts))
    decreases acts
  {
    if acts.Then? {
      ActTreeExtends(nodes, me, acts.first);
      ActsTreeExtends(ActTree(nodes, me, acts.first), me, acts.rest);
    }
  }

  lemma {:induction false} CallTreeExtends(nodes: seq<Record>, me: nat, pc: u64, f: Frame)
    requires WellFormed(nodes) && me < |nodes|
    ensures WellFormed(CallTreeOf(nodes, me, pc, f)) && Extends(nodes, CallTreeOf(nodes, me, pc, f))
    decreases f
  {
    var callee, entered := |nodes|, nodes + [Record(f.addr, f.link, pc, me, 0)];
    ActsTreeExtends(entered, callee, f.body);
    if f.exit.TailCall? {
      CallTreeExtends(Charged(ActsTree(entered, callee, f.body), callee, f.exit.cycles, f.exit.pc), callee, f.exit.pc,
                      f.exit.callee);
    }
  }

  lemma {:induction false} RunAct(nodes: seq<Record>, me: nat, functions: set<u64>, active: set<u64>, a: Act)
    requires WellFormed(nodes) && me < |nodes|
    requires ActFair(functions, active, a) && LinksAt(nodes, me) <= active
    ensures Run(Tree(nodes, me), functions, ActEvents(a)) == Some(Tree(ActTree(nodes, me, a), me))
    decreases a
  {
    var nodes1 := Charged(nodes, me, a.cycles, a.pc);
    LinksStable(nodes, nodes1, me);
    match a
    case Work(pc, cycles) => RunOne(Tree(nodes, me), functions, Event(pc, cycles, NoJump));
    case Hop(pc, cycles, target, next) =>
      FindMisses(nodes1, me, target);
      RunOne(Tree(nodes, me), functions, Event(pc, cycles, Jump(target, next)));
    case Invoke(pc, cycles, f) =>
      RunFrame(nodes1, me, pc, functions, active, f, f.link, me);
      RunFirst(Tree(nodes, me), functions, Event(pc, cycles, Jump(f.addr, f.link)), FrameEvents(f, f.link));
  }

  lemma {:induction false} RunOne(t: Tree, functions: set<u64>, e: Event)
    requires Ok(t)
    ensures Run(t, functions, [e]) == Stepped(t, functions, e)
  {
    RunFirst(t, functions, e, []);
    assert [e] + [] == [e];
  }

  lemma {:induction false} RunFirst(t: Tree, functions: set<u64>, e: Event, es: seq<Event>)
    requires Ok(t)
    ensures Run(t, functions, [e] + es)
            == match Stepped(t, functions, e)
               case None => None
               case Some(t1) => Run(t1, functions, es)
  {
    assert ([e] + es)[1..] == es;
  }

  lemma {:induction false} RunActs(nodes: seq<Record>, me: nat, functions: set<u64>, active: set<u64>, acts: Acts)
    requires WellFormed(nodes) && me < |nodes|
    requires ActsFair(functions, active, acts) && LinksAt(nodes, me) <= active
    ensures Run(Tree(nodes, me), functions, ActsEvents(acts)) == Some(Tree(ActsTree(nodes, me, acts), me))
    decreases acts
  {
    if acts.Then? {
      var nodes1 := ActTree(nodes, me, acts.first);
      RunAct(nodes, me, functions, active, acts.first);
      ActTreeExtends(nodes, me, acts.first);
      LinksStable(nodes, nodes1, me);
      RunActs(nodes1, me, functions, active, acts.rest);
      RunAppend(Tree(nodes, me), functions, ActEvents(acts.first), ActsEvents(acts.rest));
    }
  }

  /** Where a return to `ret` from node `i` leads: `home` is the parent of the nearest frame with that link. */
  ghost predicate LeadsHome(nodes: seq<Record>, i: nat, ret: u64, home: nat)
    requires WellFormed(nodes) && i < |nodes|
  {
    Find(nodes, i, ret) > 0 && nodes[Find(nodes, i, ret)].parent == home
  }

  /** Once entered, a frame runs to its end and the profiler is back at `home`, with the frame's own tree grown. */
  lemma {:induction false} RunFrame(nodes: seq<Record>, me: nat, pc: u64, functions: set<u64>, active: set<u64>,
                                    f: Frame, ret: u64, home: nat)
    requires WellFormed(nodes) && me < |nodes|
    requires FrameFair(functions, active, f, ret) && LinksAt(nodes, me) <= active
    requires if f.link == ret then home == me else LeadsHome(nodes, me, ret, home)
    ensures Run(Tree(nodes + [Record(f.addr, f.link, pc, me, 0)], |nodes|), functions, FrameEvents(f, ret))
            == Some(Tree(CallTreeOf(nodes, me, pc, f), home))
    decreases f
  {
    var callee, entered := |nodes|, nodes + [Record(f.addr, f.link, pc, me, 0)];
    EnteredLinks(nodes, me, pc, f, ret, home);
    RunActs(entered, callee, functions, active + {f.link}, f.body);
    ActsTreeExtends(entered, callee, f.body);
    var worked := ActsTree(entered, callee, f.body);
    var left := Charged(worked, callee, f.exit.cycles, f.exit.pc);
    FindStable(entered, left, callee, ret);
    LinksStable(entered, left, callee);
    match f.exit
    case Return(exitPc, cycles, next) =>
      RunOne(Tree(worked, callee), functions, Event(exitPc, cycles, Jump(ret, next)));
      RunAppend(Tree(entered, callee), functions, ActsEvents(f.body), [Event(exitPc, cycles, Jump(ret, next))]);
    case TailCall(exitPc, cycles, g) =>
      RunFrame(left, callee, exitPc, functions, active + {f.link}, g, ret, home);
      RunFirst(Tree(worked, callee), functions, Event(exitPc, cycles, Jump(g.addr, g.link)), FrameEvents(g, ret));
      RunAppend(Tree(entered, callee), functions, ActsEvents(f.body),
                [Event(exitPc, cycles, Jump(g.addr, g.link))] + FrameEvents(g, ret));
  }

  lemma {:induction false} EnteredLinks(nodes: seq<Record>, me: nat, pc: u64, f: Frame, ret: u64, home: nat)
    requires WellFormed(nodes) && me < |nodes|
    requires if f.link == ret then home == me else LeadsHome(nodes, me, ret, home)
    ensures var entered := nodes + [Record(f.addr, f.link, pc, me, 0)];
            && WellFormed(entered) && LinksAt(entered, |nodes|) == {f.link} + LinksAt(nodes, me)
            && LeadsHome(entered, |nodes|, ret, home)
  {
    var entered := nodes + [Record(f.addr, f.link, pc, me, 0)];
    LinksStable(nodes, entered, me);
    FindStable(nodes, entered, me, ret);
  }

  /**
    A well-behaved program: the profiler's tree is the program's call tree, every cycle in the
    frame that spent it, tail calls below their caller, recursion included, and the profiler
    ends where it began.
  */
  lemma {:induction false} ProfileIsCallTree(entry: u64, functions: set<u64>, program: Acts)
    requires ActsFair(functions, {0}, program)
    ensures Run(Root(entry), functions, ActsEvents(program))
            == Some(Tree(ActsTree(Root(entry).nodes, 0, program), 0))
  {
    RunActs(Root(entry).nodes, 0, functions, {0}, program);
  }
}
