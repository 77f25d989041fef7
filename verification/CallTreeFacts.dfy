/**
  Invariants of the call tree over any run: the current node is on the rightmost path from
  the root, and the tree's cycles are exactly the cycles charged.
*/
module CallTreeFacts {
  import opened Bytes
  import opened CallTree
  import opened Options

  /** Node `i` is `j` or one of its ancestors. */
  predicate Above(nodes: seq<Record>, i: nat, j: nat)
    requires WellFormed(nodes) && j < |nodes|
  {
    i == j || (i < j && Above(nodes, i, nodes[j].parent))
  }

  /** Every node was attached to a node on the path from the root to the node created before it. */
  ghost predicate Spine(nodes: seq<Record>)
    requires WellFormed(nodes)
  {
    forall j :: 0 < j < |nodes| ==> AttachedToSpine(nodes, j)
  }

  predicate AttachedToSpine(nodes: seq<Record>, j: nat)
    requires WellFormed(nodes) && 0 < j < |nodes|
  {
    Above(nodes, nodes[j].parent, j - 1)
  }

  /** The current node lies on the path from the root to the youngest node. */
  ghost predicate OnSpine(t: Tree)
    requires Ok(t)
  {
    Spine(t.nodes) && Above(t.nodes, t.cur, |t.nodes| - 1)
  }

  lemma {:induction false} AboveTransitive(nodes: seq<Record>, i: nat, j: nat, k: nat)
    requires WellFormed(nodes) && j < |nodes| && k < |nodes|
    requires Above(nodes, i, j) && Above(nodes, j, k)
    ensures Above(nodes, i, k)
    decreases k
  {
    if j != k {
      AboveTransitive(nodes, i, j, nodes[k].parent);
    }
  }

  /** The nodes below `i` are consecutive. */
  lemma {:induction false} BelowIsContiguous(nodes: seq<Record>, i: nat, k: nat, j: nat)
    requires WellFormed(nodes) && Spine(nodes) && i <= k <= j < |nodes| && Above(nodes, i, j)
    ensures Above(nodes, i, k)
    decreases j
  {
    if k < j {
      if i < j {
        assert AttachedToSpine(nodes, j);
        AboveTransitive(nodes, i, nodes[j].parent, j - 1);
        BelowIsContiguous(nodes, i, k, j - 1);
      }
    }
  }

  /** Ancestry depends on parents only, and later nodes do not change it. */
  lemma {:induction false} AboveStable(nodes: seq<Record>, nodes': seq<Record>, i: nat, j: nat)
    requires WellFormed(nodes) && WellFormed(nodes') && j < |nodes| && j < |nodes'|
    requires forall k :: 0 <= k <= j ==> nodes[k].parent == nodes'[k].parent
    ensures Above(nodes, i, j) == Above(nodes', i, j)
    decreases j
  {
    if i < j {
      AboveStable(nodes, nodes', i, nodes[j].parent);
    }
  }

  lemma {:induction false} FindAbove(nodes: seq<Record>, i: nat, addr: u64)
    requires WellFormed(nodes) && i < |nodes|
    ensures var f := Find(nodes, i, addr);
            f >= 0 ==> Above(nodes, f, i)
  {
    if nodes[i].link != addr && i != 0 {
      FindAbove(nodes, nodes[i].parent, addr);
    }
  }

  lemma {:induction false} ChargedOnSpine(t: Tree, cycles: nat, pc: u64)
    requires Ok(t) && OnSpine(t)
    ensures OnSpine(t.(nodes := Charged(t.nodes, t.cur, cycles, pc)))
  {
    var nodes' := Charged(t.nodes, t.cur, cycles, pc);
    forall j | 0 < j < |nodes'| ensures AttachedToSpine(nodes', j) {
      assert AttachedToSpine(t.nodes, j);
      AboveStable(t.nodes, nodes', t.nodes[j].parent, j - 1);
    }
    AboveStable(t.nodes, nodes', t.cur, |t.nodes| - 1);
  }

  lemma {:induction false} CalledOnSpine(t: Tree, addr: u64, link: u64, pc: u64)
    requires Ok(t) && OnSpine(t)
    ensures OnSpine(Called(t, addr, link, pc))
  {
    var nodes' := Called(t, addr, link, pc).nodes;
    forall j | 0 < j < |nodes'| ensures AttachedToSpine(nodes', j) {
      assert j < |t.nodes| ==> AttachedToSpine(t.nodes, j);
      AboveStable(t.nodes, nodes', nodes'[j].parent, j - 1);
    }
  }

  lemma {:induction false} LeftOnSpine(t: Tree, addr: u64)
    requires Ok(t) && OnSpine(t) && Left(t, addr).Some?
    ensures OnSpine(Left(t, addr).value)
  {
    var f := Find(t.nodes, t.cur, addr);
    if f > 0 {
      FindAbove(t.nodes, t.cur, addr);
      AboveTransitive(t.nodes, t.nodes[f].parent, f, t.cur);
      AboveTransitive(t.nodes, t.nodes[f].parent, t.cur, |t.nodes| - 1);
    }
  }

  lemma {:induction false} SteppedOnSpine(t: Tree, functions: set<u64>, e: Event)
    requires Ok(t) && OnSpine(t) && Stepped(t, functions, e).Some?
    ensures OnSpine(Stepped(t, functions, e).value)
  {
    var t1 := t.(nodes := Charged(t.nodes, t.cur, e.cycles, e.pc));
    ChargedOnSpine(t, e.cycles, e.pc);
    if e.jump.Jump? {
      if e.jump.addr in functions {
        CalledOnSpine(t1, e.jump.addr, e.jump.link, e.pc);
      } else {
        LeftOnSpine(t1, e.jump.addr);
      }
    }
  }

  /** Over any run that does not panic, the tree keeps its rightmost spine. */
  lemma {:induction false} RunOnSpine(t: Tree, functions: set<u64>, es: seq<Event>)
    requires Ok(t) && OnSpine(t) && Run(t, functions, es).Some?
    ensures OnSpine(Run(t, functions, es).value)
    decreases |es|
  {
    if es != [] {
      SteppedOnSpine(t, functions, es[0]);
      RunOnSpine(Stepped(t, functions, es[0]).value, functions, es[1..]);
    }
  }

  // ---------------------------------------------------------------- conservation

  function TotalCycles(nodes: seq<Record>): nat {
    if nodes == [] then 0 else TotalCycles(nodes[..|nodes| - 1]) + nodes[|nodes| - 1].cycles
  }

  function ChargedCycles(es: seq<Event>): nat {
    if es == [] then 0 else es[0].cycles + ChargedCycles(es[1..])
  }

  lemma {:induction false} ChargedTotal(nodes: seq<Record>, i: nat, cycles: nat, pc: u64)
    requires i < |nodes|
    ensures TotalCycles(Charged(nodes, i, cycles, pc)) == TotalCycles(nodes) + cycles
  {
    var n := |nodes| - 1;
    var nodes' := Charged(nodes, i, cycles, pc);
    if i < n {
      ChargedTotal(nodes[..n], i, cycles, pc);
      assert nodes'[..n] == Charged(nodes[..n], i, cycles, pc);
    } else {
      assert nodes'[..n] == nodes[..n];
    }
  }

  /** Calls and returns create and lose no cycles: the tree holds what was charged. */
  lemma {:induction false} RunConservesCycles(t: Tree, functions: set<u64>, es: seq<Event>)
    requires Ok(t) && Run(t, functions, es).Some?
    ensures TotalCycles(Run(t, functions, es).value.nodes) == TotalCycles(t.nodes) + ChargedCycles(es)
    decreases |es|
  {
    if es != [] {
      var e := es[0];
      var t1 := t.(nodes := Charged(t.nodes, t.cur, e.cycles, e.pc));
      ChargedTotal(t.nodes, t.cur, e.cycles, e.pc);
      if e.jump.Jump? {
        var called := Called(t1, e.jump.addr, e.jump.link, e.pc);
        assert called.nodes[..|t1.nodes|] == t1.nodes;
      }
      RunConservesCycles(Stepped(t, functions, e).value, functions, es[1..]);
    }
  }

  // ---------------------------------------------------------------- what each node holds

  predicate Calls(functions: set<u64>, e: Event) {
    e.jump.Jump? && e.jump.addr in functions
  }

  /** An event is charged to the node that is current before it; only a call makes a node, and starts it at the call. */
  lemma {:induction false} StepCharges(t: Tree, functions: set<u64>, e: Event)
    requires Ok(t) && Stepped(t, functions, e).Some?
    ensures var (cur, after) := (t.nodes[t.cur], Stepped(t, functions, e).value);
            && |after.nodes| == |t.nodes| + (if Calls(functions, e) then 1 else 0)
            && after.nodes[t.cur] == Record(cur.addr, cur.link, e.pc, cur.parent, cur.cycles + e.cycles)
            && (forall i :: 0 <= i < |t.nodes| && i != t.cur ==> after.nodes[i] == t.nodes[i])
            && (Calls(functions, e) ==>
                && after.cur == |t.nodes|
                && after.nodes[|t.nodes|] == Record(e.jump.addr, e.jump.link, e.pc, t.cur, 0))
  {
  }

  lemma {:induction false} RunSnoc(t: Tree, functions: set<u64>, es: seq<Event>, e: Event)
    requires Ok(t)
    ensures var r := Run(t, functions, es);
            Run(t, functions, es + [e]) == if r.None? then None else Stepped(r.value, functions, e)
    decreases |es|
  {
    if es != [] {
      assert (es + [e])[1..] == es[1..] + [e];
      var r := Stepped(t, functions, es[0]);
      if r.Some? {
        RunSnoc(r.value, functions, es[1..], e);
      }
    } else {
      assert [e][1..] == [];
    }
  }

  /** The cycles of the events before which node `i` was current. */
  function OwnCycles(t: Tree, functions: set<u64>, es: seq<Event>, i: nat): nat
    requires Ok(t)
  {
    if es == [] then 0
    else
      var init, last := es[..|es| - 1], es[|es| - 1];
      var before := Run(t, functions, init);
      OwnCycles(t, functions, init, i) + if before.Some? && before.value.cur == i then last.cycles else 0
  }

  /** The `k`th event is charged to node `i`, or makes it. */
  ghost predicate Touches(t: Tree, functions: set<u64>, es: seq<Event>, k: nat, i: nat)
    requires Ok(t)
  {
    && k < |es| && Run(t, functions, es[..k]).Some?
    && var before := Run(t, functions, es[..k]).value;
    && (before.cur == i || (Calls(functions, es[k]) && i == |before.nodes|))
  }

  /** `pc` is that of the last event that touched node `i`, or the one that it had at first. */
  ghost predicate PcIs(t: Tree, functions: set<u64>, es: seq<Event>, i: nat, pc: u64)
    requires Ok(t)
  {
    || (exists k: nat ::
          && Touches(t, functions, es, k, i) && es[k].pc == pc
          && forall j: nat :: j > k ==> !Touches(t, functions, es, j, i))
    || ((forall j: nat :: !Touches(t, functions, es, j, i)) && i < |t.nodes| && t.nodes[i].pc == pc)
  }

  lemma {:induction false} TouchesBefore(t: Tree, functions: set<u64>, init: seq<Event>, e: Event, k: nat, i: nat)
    requires Ok(t) && k != |init|
    ensures Touches(t, functions, init + [e], k, i) <==> Touches(t, functions, init, k, i)
  {
    if k < |init| {
      assert (init + [e])[..k] == init[..k];
    }
  }

  lemma {:induction false} PcNext(t: Tree, functions: set<u64>, init: seq<Event>, e: Event, i: nat, pc: u64)
    requires Ok(t) && Run(t, functions, init).Some?
    ensures Touches(t, functions, init + [e], |init|, i) ==> PcIs(t, functions, init + [e], i, e.pc)
    ensures !Touches(t, functions, init + [e], |init|, i) && PcIs(t, functions, init, i, pc) ==>
              PcIs(t, functions, init + [e], i, pc)
  {
    var es := init + [e];
    forall k: nat | k != |init|
      ensures Touches(t, functions, es, k, i) <==> Touches(t, functions, init, k, i)
    {
      TouchesBefore(t, functions, init, e, k, i);
    }
    if !Touches(t, functions, es, |init|, i) && PcIs(t, functions, init, i, pc) {
      if k: nat :| Touches(t, functions, init, k, i) && init[k].pc == pc
                   && forall j: nat :: j > k ==> !Touches(t, functions, init, j, i) {
        assert Touches(t, functions, es, k, i) && es[k].pc == pc;
      }
    }
  }

  /**
    After any run, a node holds the cycles of exactly the events before which it was current, and
    has the pc of the last of them, or of the call that made it.
  */
  lemma {:induction false} NodeHistory(t: Tree, functions: set<u64>, es: seq<Event>, i: nat)
    requires Ok(t) && Run(t, functions, es).Some? && i < |Run(t, functions, es).value.nodes|
    ensures var node := Run(t, functions, es).value.nodes[i];
            && node.cycles == (if i < |t.nodes| then t.nodes[i].cycles else 0) + OwnCycles(t, functions, es, i)
            && PcIs(t, functions, es, i, node.pc)
    ensures |t.nodes| <= |Run(t, functions, es).value.nodes|
    decreases |es|
  {
    if es != [] {
      var init, e := es[..|es| - 1], es[|es| - 1];
      assert es == init + [e];
      RunSnoc(t, functions, init, e);
      var before := Run(t, functions, init).value;
      StepCharges(before, functions, e);
      assert es[..|init|] == init;
      if i < |before.nodes| {
        NodeHistory(t, functions, init, i);
        PcNext(t, functions, init, e, i, before.nodes[i].pc);
      } else {
        NodeHistory(t, functions, init, 0);
        PcNext(t, functions, init, e, i, 0);
        NeverCurrent(t, functions, init, i);
      }
    }
  }

  /** A node that is not there yet has nothing. */
  lemma {:induction false} NeverCurrent(t: Tree, functions: set<u64>, es: seq<Event>, i: nat)
    requires Ok(t) && Run(t, functions, es).Some? && i >= |Run(t, functions, es).value.nodes|
    ensures OwnCycles(t, functions, es, i) == 0
    decreases |es|
  {
    if es != [] {
      var init, e := es[..|es| - 1], es[|es| - 1];
      assert es == init + [e];
      RunSnoc(t, functions, init, e);
      StepCharges(Run(t, functions, init).value, functions, e);
      NeverCurrent(t, functions, init, i);
    }
  }

  /** A frame is left exactly when some node on the way from the current one to the root links to the target. */
  lemma {:induction false} FindIff(nodes: seq<Record>, i: nat, addr: u64)
    requires WellFormed(nodes) && i < |nodes|
    ensures Find(nodes, i, addr) >= 0 <==> exists f: nat :: f <= i && Above(nodes, f, i) && nodes[f].link == addr
    decreases i
  {
    FindAbove(nodes, i, addr);
    if nodes[i].link != addr && i != 0 {
      FindIff(nodes, nodes[i].parent, addr);
    }
  }
}
