/**
  The call stack at every moment of a run: the path from the root to the profiler's current node.
*/
module CallStack {
  import opened Bytes
  import opened Options
  import opened CallTree
  import opened ShadowStack
  import opened ShadowStackFacts

  /** A frame that has not returned: the function, and where a return from it goes. */
  datatype OpenFrame = OpenFrame(addr: u64, link: u64)

  /** The frames on the path from the root to node `i`, the outermost first. */
  function StackAt(nodes: seq<Record>, i: nat): (r: seq<OpenFrame>)
    requires WellFormed(nodes) && i < |nodes|
    ensures r != []
  {
    (if i == 0 then [] else StackAt(nodes, nodes[i].parent)) + [OpenFrame(nodes[i].addr, nodes[i].link)]
  }

  lemma {:induction false} StackStable(before: seq<Record>, after: seq<Record>, i: nat)
    requires WellFormed(before) && WellFormed(after) && i < |before| && Extends(before, after)
    ensures StackAt(after, i) == StackAt(before, i)
    decreases i
  {
    if i > 0 {
      StackStable(before, after, before[i].parent);
    }
  }

  // ---------------------------------------------------------------- any run

  /** The innermost frame that a return to `addr` closes, or -1. */
  function Nearest(stack: seq<OpenFrame>, addr: u64): (k: int)
    ensures -1 <= k < |stack|
    ensures k >= 0 ==> stack[k].link == addr
    ensures forall j :: k < j < |stack| ==> stack[j].link != addr
  {
    if stack == [] then -1
    else if stack[|stack| - 1].link == addr then |stack| - 1
    else Nearest(stack[..|stack| - 1], addr)
  }

  /**
    A call opens a frame; a return closes the nearest frame with that link and all above it; `None`
    closes the root.
  */
  function StackStep(stack: seq<OpenFrame>, functions: set<u64>, e: Event): Option<seq<OpenFrame>> {
    match e.jump
    case NoJump => Some(stack)
    case Jump(addr, link) =>
      if addr in functions then Some(stack + [OpenFrame(addr, link)])
      else
        var k := Nearest(stack, addr);
        if k < 0 then Some(stack) else if k == 0 then None else Some(stack[..k])
  }

  function StackRun(stack: seq<OpenFrame>, functions: set<u64>, es: seq<Event>): Option<seq<OpenFrame>>
    decreases |es|
  {
    if es == [] then Some(stack)
    else
      match StackStep(stack, functions, es[0])
      case None => None
      case Some(next) => StackRun(next, functions, es[1..])
  }

  lemma {:induction false} FindIsNearest(nodes: seq<Record>, i: nat, addr: u64)
    requires WellFormed(nodes) && i < |nodes|
    ensures var (f, k) := (Find(nodes, i, addr), Nearest(StackAt(nodes, i), addr));
            && (f < 0 <==> k < 0) && (f == 0 <==> k == 0)
            && (f > 0 ==> StackAt(nodes, nodes[f].parent) == StackAt(nodes, i)[..k])
    decreases i
  {
    var stack := StackAt(nodes, i);
    if i > 0 {
      var outer := StackAt(nodes, nodes[i].parent);
      assert stack[..|stack| - 1] == outer;
      if nodes[i].link != addr {
        FindIsNearest(nodes, nodes[i].parent, addr);
      }
    }
  }

  lemma {:induction false} StepIsStackStep(t: Tree, functions: set<u64>, e: Event)
    requires Ok(t)
    ensures var r := Stepped(t, functions, e);
            StackStep(StackAt(t.nodes, t.cur), functions, e)
            == if r.None? then None else Some(StackAt(r.value.nodes, r.value.cur))
  {
    var t1 := t.(nodes := Charged(t.nodes, t.cur, e.cycles, e.pc));
    StackStable(t.nodes, t1.nodes, t.cur);
    if e.jump.Jump? {
      if e.jump.addr in functions {
        StackStable(t1.nodes, Called(t1, e.jump.addr, e.jump.link, e.pc).nodes, t.cur);
      } else {
        FindIsNearest(t1.nodes, t1.cur, e.jump.addr);
      }
    }
  }

  /**
    Over any events, the path from the root to the current node is the call stack that the jumps
    make; the profiler panics exactly when they close the root.
  */
  lemma {:induction false} PathIsStack(t: Tree, functions: set<u64>, es: seq<Event>)
    requires Ok(t)
    ensures var r := Run(t, functions, es);
            StackRun(StackAt(t.nodes, t.cur), functions, es)
            == if r.None? then None else Some(StackAt(r.value.nodes, r.value.cur))
    decreases |es|
  {
    if es != [] {
      StepIsStackStep(t, functions, es[0]);
      var r := Stepped(t, functions, es[0]);
      if r.Some? {
        PathIsStack(r.value, functions, es[1..]);
      }
    }
  }

  // ---------------------------------------------------------------- well-behaved runs, at any moment

  /** An execution that has stopped: in the body at hand, or inside a frame that it has entered. */
  datatype Stopped =
    | Here(done: Acts)
    | Inside(done: Acts, pc: u64, cycles: nat, addr: u64, link: u64, inner: Stopped)

  function StoppedEvents(s: Stopped): seq<Event> {
    match s
    case Here(done) => ActsEvents(done)
    case Inside(done, pc, cycles, addr, link, inner) =>
      ActsEvents(done) + ([Event(pc, cycles, Jump(addr, link))] + StoppedEvents(inner))
  }

  /** The frames that are open where it stopped, the outermost first. */
  function OpenFrames(s: Stopped): seq<OpenFrame> {
    if s.Here? then [] else [OpenFrame(s.addr, s.link)] + OpenFrames(s.inner)
  }

  /** The call tree so far: everything done belongs where it was done, and the open frames have not returned. */
  function StoppedTree(nodes: seq<Record>, me: nat, s: Stopped): Tree
    requires me < |nodes|
    decreases s
  {
    var done := ActsTree(nodes, me, s.done);
    match s
    case Here(_) => Tree(done, me)
    case Inside(_, pc, cycles, addr, link, inner) =>
      StoppedTree(Charged(done, me, cycles, pc) + [Record(addr, link, pc, me, 0)], |done|, inner)
  }

  ghost predicate StoppedFair(functions: set<u64>, active: set<u64>, s: Stopped)
    decreases s
  {
    && ActsFair(functions, active, s.done)
    && (s.Inside? ==> s.addr in functions && StoppedFair(functions, active + {s.link}, s.inner))
  }

  /** The tree in which the inner part of a stopped execution starts. */
  function Entered(nodes: seq<Record>, me: nat, s: Stopped): (r: seq<Record>)
    requires WellFormed(nodes) && me < |nodes| && s.Inside?
    ensures |r| == |ActsTree(nodes, me, s.done)| + 1
  {
    Charged(ActsTree(nodes, me, s.done), me, s.cycles, s.pc) + [Record(s.addr, s.link, s.pc, me, 0)]
  }

  lemma {:induction false} InsideLinks(nodes: seq<Record>, me: nat, s: Stopped)
    requires WellFormed(nodes) && me < |nodes| && s.Inside?
    ensures var entered := Entered(nodes, me, s);
            WellFormed(entered) && LinksAt(entered, |entered| - 1) == {s.link} + LinksAt(nodes, me)
  {
    ActsTreeExtends(nodes, me, s.done);
    LinksStable(nodes, Entered(nodes, me, s), me);
  }

  lemma {:induction false} InsideStack(nodes: seq<Record>, me: nat, s: Stopped)
    requires WellFormed(nodes) && me < |nodes| && s.Inside?
    ensures var entered := Entered(nodes, me, s);
            WellFormed(entered)
            && StackAt(entered, |entered| - 1) == StackAt(nodes, me) + [OpenFrame(s.addr, s.link)]
  {
    ActsTreeExtends(nodes, me, s.done);
    StackStable(nodes, Entered(nodes, me, s), me);
  }

  /** The path to the tree's current node. */
  ghost predicate StackIs(t: Tree, stack: seq<OpenFrame>) {
    Ok(t) && StackAt(t.nodes, t.cur) == stack
  }

  lemma {:induction false} StoppedStack(nodes: seq<Record>, me: nat, s: Stopped, stack: seq<OpenFrame>)
    requires me < |nodes| && StackIs(Tree(nodes, me), stack)
    ensures StackIs(StoppedTree(nodes, me, s), stack + OpenFrames(s))
    decreases s
  {
    if s.Here? {
      ActsTreeExtends(nodes, me, s.done);
      StackStable(nodes, ActsTree(nodes, me, s.done), me);
      assert stack + OpenFrames(s) == stack;
    } else {
      var entered := Entered(nodes, me, s);
      var open := [OpenFrame(s.addr, s.link)];
      InsideStack(nodes, me, s);
      StoppedStack(entered, |entered| - 1, s.inner, stack + open);
      assert stack + OpenFrames(s) == stack + open + OpenFrames(s.inner);
    }
  }

  lemma {:induction false} RunStopped(nodes: seq<Record>, me: nat, functions: set<u64>, active: set<u64>, s: Stopped)
    requires WellFormed(nodes) && me < |nodes|
    requires StoppedFair(functions, active, s) && LinksAt(nodes, me) <= active
    ensures Run(Tree(nodes, me), functions, StoppedEvents(s)) == Some(StoppedTree(nodes, me, s))
    decreases s
  {
    RunActs(nodes, me, functions, active, s.done);
    if s.Inside? {
      var entered := Entered(nodes, me, s);
      InsideLinks(nodes, me, s);
      RunStopped(entered, |entered| - 1, functions, active + {s.link}, s.inner);
      RunInto(nodes, me, functions, s);
    }
  }

  lemma {:induction false} RunInto(nodes: seq<Record>, me: nat, functions: set<u64>, s: Stopped)
    requires WellFormed(nodes) && me < |nodes| && s.Inside? && s.addr in functions
    requires Run(Tree(nodes, me), functions, ActsEvents(s.done)) == Some(Tree(ActsTree(nodes, me, s.done), me))
    ensures var entered := Entered(nodes, me, s);
            && WellFormed(entered)
            && Run(Tree(nodes, me), functions, StoppedEvents(s))
               == Run(Tree(entered, |entered| - 1), functions, StoppedEvents(s.inner))
  {
    ActsTreeExtends(nodes, me, s.done);
    Enters(Tree(nodes, me), Tree(ActsTree(nodes, me, s.done), me), functions, ActsEvents(s.done),
           Event(s.pc, s.cycles, Jump(s.addr, s.link)), StoppedEvents(s.inner));
  }

  /** Events that lead from `t` to `mid`, then a call, then more. */
  lemma {:induction false} Enters(t: Tree, mid: Tree, functions: set<u64>, es: seq<Event>, e: Event, more: seq<Event>)
    requires Ok(t) && Run(t, functions, es) == Some(mid)
    requires Ok(mid) && e.jump.Jump? && e.jump.addr in functions
    ensures var r := Record(e.jump.addr, e.jump.link, e.pc, mid.cur, 0);
            Run(t, functions, es + ([e] + more))
            == Run(Tree(Charged(mid.nodes, mid.cur, e.cycles, e.pc) + [r], |mid.nodes|), functions, more)
  {
    RunFirst(mid, functions, e, more);
    RunAppend(t, functions, es, [e] + more);
  }

  /** The acts of a body, up to `k` events. */
  lemma {:induction false} CutActs(functions: set<u64>, active: set<u64>, acts: Acts, k: nat) returns (s: Stopped)
    requires ActsFair(functions, active, acts) && k <= |ActsEvents(acts)|
    ensures StoppedEvents(s) == ActsEvents(acts)[..k] && StoppedFair(functions, active, s)
    decreases acts
  {
    if acts.Done? {
      s := Here(Done);
    } else {
      var first, rest := ActEvents(acts.first), ActsEvents(acts.rest);
      if k >= |first| {
        s := CutActs(functions, active, acts.rest, k - |first|);
        s := if s.Here? then Here(Then(acts.first, s.done)) else s.(done := Then(acts.first, s.done));
        assert (first + rest)[..k] == first + rest[..k - |first|];
      } else if k == 0 {
        s := Here(Done);
      } else {
        var f := acts.first.callee;
        var inner := CutFrame(functions, active, f, f.link, k - 1);
        s := Inside(Done, acts.first.pc, acts.first.cycles, f.addr, f.link, inner);
        assert (first + rest)[..k] == [first[0]] + FrameEvents(f, f.link)[..k - 1];
        assert ActsEvents(Done) == [];
      }
    }
  }

  lemma {:induction false} CutFrame(functions: set<u64>, active: set<u64>, f: Frame, ret: u64, k: nat)
      returns (s: Stopped)
    requires FrameFair(functions, active, f, ret) && k < |FrameEvents(f, ret)|
    ensures StoppedEvents(s) == FrameEvents(f, ret)[..k] && StoppedFair(functions, active + {f.link}, s)
    decreases f
  {
    var body := ActsEvents(f.body);
    if k <= |body| {
      s := CutActs(functions, active + {f.link}, f.body, k);
      assert FrameEvents(f, ret)[..k] == body[..k];
    } else {
      var g := f.exit.callee;
      var inner := CutFrame(functions, active + {f.link}, g, ret, k - |body| - 1);
      s := Inside(f.body, f.exit.pc, f.exit.cycles, g.addr, g.link, inner);
      var e := Event(f.exit.pc, f.exit.cycles, Jump(g.addr, g.link));
      assert FrameEvents(f, ret)[..k] == body + ([e] + FrameEvents(g, ret)[..k - |body| - 1]);
    }
  }

  /**
    A program that stops anywhere, also inside a callee: the profiler's tree is the call tree so
    far, and the path from the root to its current node is the program's call stack.
  */
  lemma {:induction false} StoppedProfileIsCallTree(entry: u64, functions: set<u64>, s: Stopped)
    requires StoppedFair(functions, {0}, s)
    ensures var t := StoppedTree(Root(entry).nodes, 0, s);
            && Run(Root(entry), functions, StoppedEvents(s)) == Some(t)
            && StackIs(t, [OpenFrame(entry, 0)] + OpenFrames(s))
  {
    RunStopped(Root(entry).nodes, 0, functions, {0}, s);
    StoppedStack(Root(entry).nodes, 0, s, [OpenFrame(entry, 0)]);
  }

  /** After every instruction of a well-behaved program the profiler's current path is the program's call stack. */
  lemma {:induction false} StackAtEveryStep(entry: u64, functions: set<u64>, program: Acts, k: nat) returns (s: Stopped)
    requires ActsFair(functions, {0}, program) && k <= |ActsEvents(program)|
    ensures StoppedEvents(s) == ActsEvents(program)[..k]
    ensures var t := StoppedTree(Root(entry).nodes, 0, s);
            && Run(Root(entry), functions, ActsEvents(program)[..k]) == Some(t)
            && StackIs(t, [OpenFrame(entry, 0)] + OpenFrames(s))
  {
    s := CutActs(functions, {0}, program, k);
    StoppedProfileIsCallTree(entry, functions, s);
  }

  // ---------------------------------------------------------------- printing it

  function LinkDetails(detail: u64 -> string, stack: seq<OpenFrame>): (r: seq<string>)
    ensures |r| == |stack| && forall k :: 0 <= k < |stack| ==> r[k] == detail(stack[k].link)
  {
    seq(|stack|, k requires 0 <= k < |stack| => detail(stack[k].link))
  }

  function Reversed<T>(s: seq<T>): (r: seq<T>)
    ensures |r| == |s| && forall k :: 0 <= k < |s| ==> r[k] == s[|s| - 1 - k]
  {
    seq(|s|, k requires 0 <= k < |s| => s[|s| - 1 - k])
  }

  lemma {:induction false} ReversedSnoc<T>(s: seq<T>, x: T)
    ensures Reversed(s + [x]) == [x] + Reversed(s)
  {
  }

  /**
    The stack trace: where each open frame was called from, the outermost first, and at last where
    the current one has got to.
  */
  method DisplayStacktrace(p: Profile, detail: u64 -> string, prefix: string) returns (lines: seq<string>)
    requires p.Valid()
    ensures var trace := LinkDetails(detail, StackAt(p.tree.nodes, p.tree.cur)) + [detail(p.tree.nodes[p.tree.cur].pc)];
            |lines| == |trace| && forall k :: 0 <= k < |lines| ==> lines[k] == prefix + trace[k] + "\n"
  {
    ghost var whole := LinkDetails(detail, StackAt(p.tree.nodes, p.tree.cur)) + [detail(p.tree.nodes[p.tree.cur].pc)];
    var frame := p.cur;
    ghost var i := p.tree.cur;
    assert p.Matches(i);
    var stack := [detail(frame.pc)];
    while true
      invariant 0 <= i < |p.nodes| && frame == p.nodes[i]
      invariant LinkDetails(detail, StackAt(p.tree.nodes, i)) + Reversed(stack) == whole
      decreases i
    {
      assert p.Matches(i);
      OneUp(p.tree.nodes, i, detail, stack, whole);
      stack := stack + [detail(frame.link)];
      if frame.parent == null {
        break;
      }
      frame := frame.parent;
      i := p.tree.nodes[i].parent;
    }
    stack := Reversed(stack);
    lines := seq(|stack|, k requires 0 <= k < |stack| => prefix + stack[k] + "\n");
  }

  lemma {:induction false} OneUp(nodes: seq<Record>, i: nat, detail: u64 -> string, stack: seq<string>,
      whole: seq<string>)
    requires WellFormed(nodes) && i < |nodes| && LinkDetails(detail, StackAt(nodes, i)) + Reversed(stack) == whole
    ensures var more := Reversed(stack + [detail(nodes[i].link)]);
            whole == if i == 0 then more else LinkDetails(detail, StackAt(nodes, nodes[i].parent)) + more
  {
    ReversedSnoc(stack, detail(nodes[i].link));
    if i > 0 {
      LinkOf(nodes, i, detail);
    }
  }

  lemma {:induction false} LinkOf(nodes: seq<Record>, i: nat, detail: u64 -> string)
    requires WellFormed(nodes) && 0 < i < |nodes|
    ensures LinkDetails(detail, StackAt(nodes, i))
            == LinkDetails(detail, StackAt(nodes, nodes[i].parent)) + [detail(nodes[i].link)]
  {
  }
}
