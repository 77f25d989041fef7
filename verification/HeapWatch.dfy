/**
  The profiler's guard against a stack that runs into the heap: which runs it stops, and how it
  follows the end of the heap through the program's calls of sbrk.
*/
module HeapWatch {
  import opened Bytes
  import opened Options
  import opened CallTree
  import ShadowStack
  import ShadowStackFacts
  import CallTreeFacts

  /** An instruction as the profiler meets it: with the registers before it. */
  datatype Seen = Seen(event: Event, regs: Regs)

  function EventsOf(ss: seq<Seen>): (r: seq<Event>)
    ensures |r| == |ss|
  {
    seq(|ss|, i requires 0 <= i < |ss| => ss[i].event)
  }

  function WatchRun(w: Watch, functions: set<u64>, sbrk: u64, ss: seq<Seen>): (r: Outcome)
    requires w.Valid()
    ensures r.Going? ==> r.watch.Valid()
    decreases |ss|
  {
    if ss == [] then Going(w)
    else
      match Watched(w, functions, sbrk, ss[0].event, ss[0].regs)
      case Going(w1) => WatchRun(w1, functions, sbrk, ss[1..])
      case stopped => stopped
  }

  lemma {:induction false} EventsTail(ss: seq<Seen>)
    requires ss != []
    ensures EventsOf(ss)[0] == ss[0].event && EventsOf(ss)[1..] == EventsOf(ss[1..])
  {
  }

  /** The guard does not touch the tree: a run that it lets through is a run of the tree, and so is one that panics. */
  lemma {:induction false} WatchIsRun(w: Watch, functions: set<u64>, sbrk: u64, ss: seq<Seen>)
    requires w.Valid()
    ensures match WatchRun(w, functions, sbrk, ss)
            case Going(w') => Run(w.tree, functions, EventsOf(ss)) == Some(w'.tree)
            case Panicked => Run(w.tree, functions, EventsOf(ss)) == None
            case Overlapping => true
    decreases |ss|
  {
    if ss != [] {
      EventsTail(ss);
      var first := Watched(w, functions, sbrk, ss[0].event, ss[0].regs);
      if first.Going? {
        WatchIsRun(first.watch, functions, sbrk, ss[1..]);
      }
    }
  }

  /** The run reaches its `k`th instruction, and finds the stack in the heap there. */
  ghost predicate OverlapAt(w: Watch, functions: set<u64>, sbrk: u64, ss: seq<Seen>, k: nat)
    requires w.Valid() && k < |ss|
  {
    var before := WatchRun(w, functions, sbrk, ss[..k]);
    before.Going? && ss[k].regs[2] < before.watch.heap
  }

  lemma {:induction false} OverlapNext(w: Watch, functions: set<u64>, sbrk: u64, ss: seq<Seen>, k: nat)
    requires w.Valid() && k + 1 < |ss|
    ensures OverlapAt(w, functions, sbrk, ss, k + 1) <==>
            Watched(w, functions, sbrk, ss[0].event, ss[0].regs).Going? &&
            OverlapAt(Watched(w, functions, sbrk, ss[0].event, ss[0].regs).watch, functions, sbrk, ss[1..], k)
  {
    assert ss[..k + 1][1..] == ss[1..][..k];
  }

  /** A run is stopped by the guard exactly when it reaches an instruction whose stack pointer lies in the heap. */
  lemma {:induction false} StoppedIff(w: Watch, functions: set<u64>, sbrk: u64, ss: seq<Seen>)
    requires w.Valid()
    ensures WatchRun(w, functions, sbrk, ss) == Overlapping <==>
            exists k :: 0 <= k < |ss| && OverlapAt(w, functions, sbrk, ss, k)
    decreases |ss|
  {
    if ss != [] {
      var first := Watched(w, functions, sbrk, ss[0].event, ss[0].regs);
      assert OverlapAt(w, functions, sbrk, ss, 0) <==> first == Overlapping;
      if first.Going? {
        StoppedIff(first.watch, functions, sbrk, ss[1..]);
        if WatchRun(first.watch, functions, sbrk, ss[1..]) == Overlapping {
          var k :| 0 <= k < |ss[1..]| && OverlapAt(first.watch, functions, sbrk, ss[1..], k);
          OverlapNext(w, functions, sbrk, ss, k);
        }
      }
      if k :| 1 <= k < |ss| && OverlapAt(w, functions, sbrk, ss, k) {
        OverlapNext(w, functions, sbrk, ss, k - 1);
      }
    }
  }

  /** Some frame on the way from the current node to the root returns to `addr`. */
  ghost predicate ReturnsTo(t: Tree, addr: u64)
    requires Ok(t)
  {
    exists f: nat :: f <= t.cur && CallTreeFacts.Above(t.nodes, f, t.cur) && t.nodes[f].link == addr
  }

  /**
    One instruction moves the end of the heap exactly when it leaves a frame, by a jump that is not a
    call, while sbrk is current. It then is the sum of the argument and the result of sbrk.
  */
  lemma {:induction false} HeapMovesIff(w: Watch, functions: set<u64>, sbrk: u64, e: Event, regs: Regs)
    requires w.Valid() && Watched(w, functions, sbrk, e, regs).Going?
    ensures Watched(w, functions, sbrk, e, regs).watch.heap ==
            if e.jump.Jump? && e.jump.addr !in functions && ReturnsTo(w.tree, e.jump.addr)
               && w.tree.nodes[w.tree.cur].addr == sbrk
            then (w.entered[w.tree.cur][10] as int + regs[10] as int) % 0x1_0000_0000_0000_0000
            else w.heap
  {
    if e.jump.Jump? {
      CallTreeFacts.FindIff(w.tree.nodes, w.tree.cur, e.jump.addr);
    }
  }

  /** The heap stays while nothing jumps to sbrk. */
  lemma {:induction false} HeapStays(w: Watch, functions: set<u64>, sbrk: u64, ss: seq<Seen>)
    requires w.Valid() && WatchRun(w, functions, sbrk, ss).Going?
    requires forall i :: 0 <= i < |w.tree.nodes| ==> w.tree.nodes[i].addr != sbrk
    requires forall s <- ss :: s.event.jump.Jump? ==> s.event.jump.addr != sbrk
    ensures WatchRun(w, functions, sbrk, ss).watch.heap == w.heap
    decreases |ss|
  {
    if ss != [] {
      assert ss[0] in ss;
      HeapStays(Watched(w, functions, sbrk, ss[0].event, ss[0].regs).watch, functions, sbrk, ss[1..]);
    }
  }

  /** The tree gets to the `k`th instruction, whose stack pointer lies below where the heap was at first. */
  ghost predicate LowAt(w: Watch, functions: set<u64>, ss: seq<Seen>, k: nat)
    requires w.Valid() && k < |ss|
  {
    Run(w.tree, functions, EventsOf(ss[..k])).Some? && ss[k].regs[2] < w.heap
  }

  /**
    A program that does not jump to sbrk, linked or not, is stopped exactly at a stack pointer below
    the end of its data. One without the symbol for that end is never stopped, since it is then
    taken to be zero.
  */
  lemma {:induction false} StoppedWithoutSbrkIff(w: Watch, functions: set<u64>, sbrk: u64, ss: seq<Seen>)
    requires w.Valid()
    requires forall i :: 0 <= i < |w.tree.nodes| ==> w.tree.nodes[i].addr != sbrk
    requires forall s <- ss :: s.event.jump.Jump? ==> s.event.jump.addr != sbrk
    ensures WatchRun(w, functions, sbrk, ss) == Overlapping <==> exists k :: 0 <= k < |ss| && LowAt(w, functions, ss, k)
  {
    StoppedIff(w, functions, sbrk, ss);
    forall k | 0 <= k < |ss|
      ensures OverlapAt(w, functions, sbrk, ss, k) ==> LowAt(w, functions, ss, k)
      ensures LowAt(w, functions, ss, k) ==> WatchRun(w, functions, sbrk, ss) == Overlapping
    {
      WatchIsRun(w, functions, sbrk, ss[..k]);
      if WatchRun(w, functions, sbrk, ss[..k]).Going? {
        HeapStays(w, functions, sbrk, ss[..k]);
        assert LowAt(w, functions, ss, k) <==> OverlapAt(w, functions, sbrk, ss, k);
      } else if WatchRun(w, functions, sbrk, ss[..k]) == Overlapping {
        StoppedEarlier(w, functions, sbrk, ss, k);
      }
    }
  }

  lemma {:induction false} StoppedEarlier(w: Watch, functions: set<u64>, sbrk: u64, ss: seq<Seen>, k: nat)
    requires w.Valid() && k <= |ss| && WatchRun(w, functions, sbrk, ss[..k]) == Overlapping
    ensures WatchRun(w, functions, sbrk, ss) == Overlapping
  {
    StoppedIff(w, functions, sbrk, ss[..k]);
    var j :| 0 <= j < k && OverlapAt(w, functions, sbrk, ss[..k], j);
    assert ss[..k][..j] == ss[..j];
    assert OverlapAt(w, functions, sbrk, ss, j);
    StoppedIff(w, functions, sbrk, ss);
  }

  /** `after` has all of `before`'s nodes, with the registers they were entered with. */
  ghost predicate Grows(before: Watch, after: Watch) {
    ShadowStackFacts.Extends(before.tree.nodes, after.tree.nodes) && before.entered <= after.entered
  }

  lemma {:induction false} WatchedGrows(w: Watch, functions: set<u64>, sbrk: u64, e: Event, regs: Regs)
    requires w.Valid() && Watched(w, functions, sbrk, e, regs).Going?
    ensures Grows(w, Watched(w, functions, sbrk, e, regs).watch)
  {
  }

  lemma {:induction false} RunGrows(w: Watch, functions: set<u64>, sbrk: u64, ss: seq<Seen>)
    requires w.Valid() && WatchRun(w, functions, sbrk, ss).Going?
    ensures Grows(w, WatchRun(w, functions, sbrk, ss).watch)
    decreases |ss|
  {
    if ss != [] {
      WatchedGrows(w, functions, sbrk, ss[0].event, ss[0].regs);
      RunGrows(Watched(w, functions, sbrk, ss[0].event, ss[0].regs).watch, functions, sbrk, ss[1..]);
    }
  }

  /** `w` is in the frame that was entered as node `i`, with `regs`, for a call of `addr` that returns to `link`. */
  ghost predicate Inside(w: Watch, i: nat, addr: u64, link: u64, regs: Regs) {
    w.Valid() && w.tree.cur == i < |w.tree.nodes| && i > 0
    && w.tree.nodes[i].addr == addr && w.tree.nodes[i].link == link && w.entered[i] == regs
  }

  lemma {:induction false} LeavesSbrk(w: Watch, functions: set<u64>, sbrk: u64, link: u64, regs: Regs, back: Seen)
    requires Inside(w, w.tree.cur, sbrk, link, regs) && link !in functions
    requires back.event.jump.Jump? && back.event.jump.addr == link && w.heap <= back.regs[2]
    ensures Watched(w, functions, sbrk, back.event, back.regs).Going?
    ensures var after := Watched(w, functions, sbrk, back.event, back.regs).watch;
            && after.heap == NewBreak(regs[A0], back.regs[A0])
            && after.tree.cur == w.tree.nodes[w.tree.cur].parent
  {
  }

  /** `x` read as a two's complement number of 64 bits. */
  function Signed(x: u64): int {
    if x < 0x8000_0000_0000_0000 then x else x - 0x1_0000_0000_0000_0000
  }

  lemma {:induction false} WrapsToBreak(increment: u64, oldBreak: u64)
    requires 0 <= oldBreak + Signed(increment) < 0x1_0000_0000_0000_0000
    ensures (increment + oldBreak) % 0x1_0000_0000_0000_0000 == oldBreak + Signed(increment)
  {
    if increment >= 0x8000_0000_0000_0000 {
      assert increment + oldBreak == oldBreak + Signed(increment) + 0x1_0000_0000_0000_0000;
    }
  }

  /**
    A call of sbrk, with whatever it does, its own calls included, until it returns: the heap then
    ends at the sum, in 64 bits, of its argument and its result, which are in register 10. If sbrk
    returns the old break, as it does, that is the new one, which may also be lower. A well-behaved
    body is one as for the call tree.
  */
  lemma {:induction false} SbrkMovesHeap(w: Watch, functions: set<u64>, active: set<u64>, sbrk: u64, call: Seen,
      body: ShadowStack.Acts, during: seq<Seen>, back: Seen) returns (inside: Watch, after: Watch)
    requires w.Valid() && ShadowStackFacts.LinksAt(w.tree.nodes, w.tree.cur) <= active
    requires sbrk in functions && call.event.jump.Jump? && call.event.jump.addr == sbrk
    requires back.event.jump.Jump? && back.event.jump.addr == call.event.jump.link
    requires call.event.jump.link !in functions
    requires EventsOf(during) == ShadowStack.ActsEvents(body)
    requires ShadowStack.ActsFair(functions, active + {call.event.jump.link}, body)
    requires !WatchRun(w, functions, sbrk, [call] + during).Overlapping?
    ensures WatchRun(w, functions, sbrk, [call] + during) == Going(inside)
    ensures inside.heap <= back.regs[2] ==>
              && Watched(inside, functions, sbrk, back.event, back.regs) == Going(after)
              && after.heap == (call.regs[10] as int + back.regs[10] as int) % 0x1_0000_0000_0000_0000
              && after.tree.cur == w.tree.cur
    ensures inside.heap <= back.regs[2] && 0 <= back.regs[10] + Signed(call.regs[10]) < 0x1_0000_0000_0000_0000 ==>
              after.heap == back.regs[10] + Signed(call.regs[10])
  {
    if 0 <= back.regs[10] + Signed(call.regs[10]) < 0x1_0000_0000_0000_0000 {
      WrapsToBreak(call.regs[10], back.regs[10]);
    }
    inside := RunsInside(w, functions, active, sbrk, call, body, during);
    after := inside;
    if inside.heap <= back.regs[2] {
      LeavesSbrk(inside, functions, sbrk, call.event.jump.link, call.regs, back);
      after := Watched(inside, functions, sbrk, back.event, back.regs).watch;
    }
  }

  lemma {:induction false} RunsInside(w: Watch, functions: set<u64>, active: set<u64>, sbrk: u64, call: Seen,
      body: ShadowStack.Acts, during: seq<Seen>) returns (inside: Watch)
    requires w.Valid() && ShadowStackFacts.LinksAt(w.tree.nodes, w.tree.cur) <= active
    requires sbrk in functions && call.event.jump.Jump? && call.event.jump.addr == sbrk
    requires EventsOf(during) == ShadowStack.ActsEvents(body)
    requires ShadowStack.ActsFair(functions, active + {call.event.jump.link}, body)
    requires !WatchRun(w, functions, sbrk, [call] + during).Overlapping?
    ensures WatchRun(w, functions, sbrk, [call] + during) == Going(inside)
    ensures Inside(inside, |w.tree.nodes|, sbrk, call.event.jump.link, call.regs)
    ensures inside.tree.nodes[|w.tree.nodes|].parent == w.tree.cur
  {
    assert ([call] + during)[1..] == during;
    var entered := Watched(w, functions, sbrk, call.event, call.regs).watch;
    var nodes, me := entered.tree.nodes, entered.tree.cur;
    ShadowStackFacts.LinksStable(w.tree.nodes, nodes, w.tree.cur);
    ShadowStackFacts.RunActs(nodes, me, functions, active + {call.event.jump.link}, body);
    WatchIsRun(entered, functions, sbrk, during);
    inside := WatchRun(entered, functions, sbrk, during).watch;
    RunGrows(entered, functions, sbrk, during);
  }
}
