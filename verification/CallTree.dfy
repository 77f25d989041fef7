/**
  The profiler's call tree. Nodes point at their parent and children and are updated in
  place as instructions execute; `Tree` is the value the linked nodes stand for, with nodes
  numbered in the order of their creation.
*/
module CallTree {
  import opened Bytes
  import opened Options

  /** `parent` is the number of the parent node, or -1 at the root. */
  datatype Record = Record(addr: u64, link: u64, pc: u64, parent: int, cycles: nat)

  datatype Tree = Tree(nodes: seq<Record>, cur: nat)

  datatype Jump = NoJump | Jump(addr: u64, link: u64)

  /** One executed instruction: where it was, what it cost, and where it jumped. */
  datatype Event = Event(pc: u64, cycles: nat, jump: Jump)

  // ---------------------------------------------------------------- the tree as a value

  predicate WellFormed(nodes: seq<Record>) {
    && nodes != [] && nodes[0].parent == -1
    && forall i :: 0 < i < |nodes| ==> 0 <= nodes[i].parent < i
  }

  predicate Ok(t: Tree) {
    WellFormed(t.nodes) && t.cur < |t.nodes|
  }

  /** The children of node `i` among the first `n` nodes, oldest first. */
  function ChildrenTo(nodes: seq<Record>, i: nat, n: nat): (r: seq<nat>)
    requires n <= |nodes|
    ensures forall k :: 0 <= k < |r| ==> r[k] < n && nodes[r[k]].parent == i
  {
    if n == 0 then []
    else ChildrenTo(nodes, i, n - 1) + if nodes[n - 1].parent == i then [n - 1] else []
  }

  function Children(nodes: seq<Record>, i: nat): (r: seq<nat>)
    ensures forall k :: 0 <= k < |r| ==> r[k] < |nodes| && nodes[r[k]].parent == i
  {
    ChildrenTo(nodes, i, |nodes|)
  }

  function Root(entry: u64): Tree {
    Tree([Record(entry, 0, 0, -1, 0)], 0)
  }

  function Charged(nodes: seq<Record>, i: nat, cycles: nat, pc: u64): seq<Record>
    requires i < |nodes|
  {
    nodes[i := nodes[i].(cycles := nodes[i].cycles + cycles, pc := pc)]
  }

  function Called(t: Tree, addr: u64, link: u64, pc: u64): Tree {
    Tree(t.nodes + [Record(addr, link, pc, t.cur, 0)], |t.nodes|)
  }

  /** The nearest node on the way from `i` to the root whose link is `addr`, or -1. */
  function Find(nodes: seq<Record>, i: nat, addr: u64): (r: int)
    requires WellFormed(nodes) && i < |nodes|
    ensures -1 <= r <= i && (r >= 0 ==> nodes[r].link == addr)
  {
    if nodes[i].link == addr then i
    else if i == 0 then -1
    else Find(nodes, nodes[i].parent, addr)
  }

  /** A jump that is not a call: a return if some active frame links to `addr`. `None` is the panic at the root. */
  function Left(t: Tree, addr: u64): Option<Tree>
    requires Ok(t)
  {
    var f := Find(t.nodes, t.cur, addr);
    if f < 0 then Some(t)
    else if f == 0 then None
    else Some(t.(cur := t.nodes[f].parent))
  }

  function Stepped(t: Tree, functions: set<u64>, e: Event): (r: Option<Tree>)
    requires Ok(t)
    ensures r.Some? ==> Ok(r.value)
  {
    var t1 := t.(nodes := Charged(t.nodes, t.cur, e.cycles, e.pc));
    match e.jump
    case NoJump => Some(t1)
    case Jump(addr, link) =>
      if addr in functions then Some(Called(t1, addr, link, e.pc)) else Left(t1, addr)
  }

  function Run(t: Tree, functions: set<u64>, es: seq<Event>): (r: Option<Tree>)
    requires Ok(t)
    ensures r.Some? ==> Ok(r.value)
    decreases |es|
  {
    if es == [] then Some(t)
    else
      match Stepped(t, functions, es[0])
      case None => None
      case Some(t1) => Run(t1, functions, es[1..])
  }

  // ---------------------------------------------------------------- the heap and the stack

  type Regs = s: seq<u64> | |s| == 32 witness seq(32, _ => 0)

  const NO_REGS: Regs := seq(32, _ => 0)

  const SP: nat := 2
  const A0: nat := 10

  /** The tree, with the registers that each node was entered with, and where the heap is known to end. */
  datatype Watch = Watch(tree: Tree, entered: seq<Regs>, heap: u64) {
    predicate Valid() {
      Ok(tree) && |entered| == |tree.nodes|
    }
  }

  /** The instruction leaves some frame on the way to the root. */
  predicate Leaves(t: Tree, functions: set<u64>, e: Event)
    requires Ok(t)
  {
    e.jump.Jump? && e.jump.addr !in functions && Find(t.nodes, t.cur, e.jump.addr) >= 0
  }

  /** `wrapping_add` of sbrk's argument and its result. */
  function NewBreak(incr: u64, result: u64): u64 {
    (incr + result) % U64_LIMIT
  }

  /** The heap moves when a frame is left while sbrk is current. */
  function HeapAfter(w: Watch, functions: set<u64>, sbrk: u64, e: Event, regs: Regs): u64
    requires w.Valid()
  {
    if Leaves(w.tree, functions, e) && w.tree.nodes[w.tree.cur].addr == sbrk then
      NewBreak(w.entered[w.tree.cur][A0], regs[A0])
    else
      w.heap
  }

  datatype Outcome = Going(watch: Watch) | Overlapping | Panicked

  /** One instruction: refused if the stack has run into the heap, or else a step of the tree. */
  function Watched(w: Watch, functions: set<u64>, sbrk: u64, e: Event, regs: Regs): (r: Outcome)
    requires w.Valid()
    ensures r.Going? ==> r.watch.Valid()
  {
    if regs[SP] < w.heap then Overlapping
    else
      match Stepped(w.tree, functions, e)
      case None => Panicked
      case Some(t) =>
        var entered := if |t.nodes| > |w.tree.nodes| then w.entered + [regs] else w.entered;
        Going(Watch(t, entered, HeapAfter(w, functions, sbrk, e, regs)))
  }

  // ---------------------------------------------------------------- the linked nodes

  /** `childs` lists the nodes that stand for the children of record `i`. */
  ghost predicate ChildsAre(nodes: seq<Node>, records: seq<Record>, i: nat, childs: seq<Node>)
    requires |nodes| == |records|
  {
    && |childs| == |Children(records, i)|
    && forall k :: 0 <= k < |childs| ==> childs[k] == nodes[Children(records, i)[k]]
  }

  /** What a step of the profiler comes to: it goes on, reports an overlap, or panics. */
  datatype Status = Fine | OverlapError | Panic

  /** The fields of a node that its record stands for. */
  datatype NodeView = NodeView(addr: u64, link: u64, pc: u64, parent: Node?, childs: seq<Node>, cycles: nat,
    entry: Regs)

  function WithChild(v: NodeView, current: bool, chd: Node): NodeView {
    if current then v.(childs := v.childs + [chd]) else v
  }

  /** `v` carries the fields of record `i`. */
  ghost predicate StandsFor(v: NodeView, nodes: seq<Node>, records: seq<Record>, entered: seq<Regs>, i: nat)
    requires i < |nodes| == |records| == |entered| && WellFormed(records)
  {
    var r := records[i];
    && v.addr == r.addr && v.link == r.link && v.pc == r.pc && v.cycles == r.cycles && v.entry == entered[i]
    && v.parent == (if i == 0 then null else nodes[r.parent])
    && ChildsAre(nodes, records, i, v.childs)
  }

  class Node {
    var addr: u64
    var link: u64
    var pc: u64
    var parent: Node?
    var childs: seq<Node>
    var cycles: nat
    var entryRegs: Regs
    var exitRegs: Regs

    constructor (addr: u64, link: u64, pc: u64, parent: Node?, regs: Regs)
      ensures this.addr == addr && this.link == link && this.pc == pc && this.parent == parent
      ensures childs == [] && cycles == 0 && entryRegs == regs && exitRegs == NO_REGS
    {
      this.addr, this.link, this.pc, this.parent := addr, link, pc, parent;
      childs, cycles, entryRegs, exitRegs := [], 0, regs, NO_REGS;
    }

    ghost function View(): NodeView
      reads this
    {
      NodeView(addr, link, pc, parent, childs, cycles, entryRegs)
    }
  }

  class Profile {
    var root: Node
    var cur: Node
    const functions: set<u64>
    const sbrkAddr: u64
    var sbrkHeap: u64
    ghost var nodes: seq<Node>
    ghost var tree: Tree
    ghost var entered: seq<Regs>

    ghost predicate Valid()
      reads this, nodes
    {
      && View().Valid() && |nodes| == |tree.nodes|
      && (forall i, j :: 0 <= i < j < |nodes| ==> nodes[i] != nodes[j])
      && root == nodes[0] && cur == nodes[tree.cur]
      && (forall i :: 0 <= i < |nodes| ==> Matches(i))
    }

    ghost function View(): Watch
      reads this
    {
      Watch(tree, entered, sbrkHeap)
    }

    /** Node `i` carries the fields of record `i`. */
    ghost predicate Matches(i: nat)
      requires i < |nodes| == |tree.nodes| == |entered| && WellFormed(tree.nodes)
      reads this, nodes
    {
      StandsFor(nodes[i].View(), nodes, tree.nodes, entered, i)
    }

    constructor (entry: u64, functions: set<u64>, sbrkAddr: u64, end: u64)
      ensures Valid() && fresh(nodes) && View() == Watch(Root(entry), [NO_REGS], end)
      ensures this.functions == functions && this.sbrkAddr == sbrkAddr
      ensures tree == Tree([Record(entry, 0, 0, -1, 0)], 0) && |entered| == 1
      ensures forall k :: 0 <= k < 32 ==> entered[0][k] == 0
    {
      var n := new Node(entry, 0, 0, null, NO_REGS);
      root, cur := n, n;
      this.functions, this.sbrkAddr := functions, sbrkAddr;
      sbrkHeap := end;
      nodes, tree, entered := [n], Root(entry), [NO_REGS];
      RootHasNoChildren(entry);
    }

    /**
      `step`: refuse a stack in the heap; else charge the current node, then call, return or carry
      on. `e` is the instruction's event and `regs` are the registers before it.
    */
    method Step(e: Event, regs: Regs) returns (status: Status)
      requires Valid()
      modifies this, nodes
      ensures match Watched(old(View()), functions, sbrkAddr, e, regs)
              case Overlapping => status == OverlapError && Valid() && View() == old(View())
              case Panicked => status == Panic
              case Going(w) =>
                status == Fine && Valid() && View() == w && old(nodes) <= nodes && fresh(nodes[|old(nodes)|..])
    {
      if regs[SP] < sbrkHeap {
        return OverlapError;
      }
      Charge(e.cycles, e.pc);
      FindCharged(old(tree), e.cycles, e.pc, old(tree.cur), e.jump);
      if e.jump.Jump? {
        if e.jump.addr in functions {
          Call(e.jump.addr, e.jump.link, e.pc, regs);
        } else {
          status := QuitOrSkip(e.jump.addr, regs);
          return;
        }
      }
      status := Fine;
    }

    method Charge(cycles: nat, pc: u64)
      requires Valid()
      modifies cur, `tree
      ensures Valid() && unchanged(`root, `cur, `nodes, `entered, `sbrkHeap)
      ensures tree == Tree(Charged(old(tree.nodes), old(tree.cur), cycles, pc), old(tree.cur))
    {
      cur.cycles := cur.cycles + cycles;
      cur.pc := pc;
      ghost var before := tree.nodes;
      tree := tree.(nodes := Charged(tree.nodes, tree.cur, cycles, pc));
      forall i | 0 <= i < |nodes| ensures Matches(i) {
        assert old(Matches(i));
        ChargedChildren(before, tree.cur, cycles, pc, i, |before|);
      }
    }

    /** The `call` closure: a new last child of the current node becomes current. */
    method Call(addr: u64, link: u64, pc: u64, regs: Regs)
      requires Valid()
      modifies this, cur
      ensures Valid() && View() == Watch(Called(old(tree), addr, link, pc), old(entered) + [regs], old(sbrkHeap))
      ensures root == old(root) && old(nodes) <= nodes && fresh(nodes[|old(nodes)|..])
    {
      ghost var views := Views();
      assert forall i :: 0 <= i < |nodes| ==> Matches(i) && views[i] == nodes[i].View();
      var chd := AddChild(addr, link, pc, regs);
      cur := chd;
      nodes := nodes + [chd];
      entered := entered + [regs];
      tree := Called(tree, addr, link, pc);
      CallIsValid(old(tree), old(nodes), old(entered), views, addr, link, pc, chd, regs);
    }

    ghost function Views(): (r: seq<NodeView>)
      reads this, nodes
      ensures |r| == |nodes| && forall i :: 0 <= i < |nodes| ==> r[i] == nodes[i].View()
    {
      seq(|nodes|, i requires 0 <= i < |nodes| reads this, nodes => nodes[i].View())
    }

    /** After a call every node stands for its record again. */
    lemma {:induction false} CallIsValid(t: Tree, ns: seq<Node>, regsOf: seq<Regs>, views: seq<NodeView>, addr: u64,
        link: u64, pc: u64, chd: Node, regs: Regs)
      requires Ok(t) && |ns| == |t.nodes| == |regsOf| == |views|
      requires nodes == ns + [chd] && entered == regsOf + [regs] && tree == Called(t, addr, link, pc)
      requires root == nodes[0] && cur == chd && forall i, j :: 0 <= i < j < |nodes| ==> nodes[i] != nodes[j]
      requires forall i :: 0 <= i < |ns| ==> StandsFor(views[i], ns, t.nodes, regsOf, i)
      requires forall i :: 0 <= i < |ns| ==> nodes[i].View() == WithChild(views[i], i == t.cur, chd)
      requires chd.View() == NodeView(addr, link, pc, ns[t.cur], [], 0, regs)
      ensures Valid()
    {
      forall i | 0 <= i < |nodes| ensures Matches(i) {
        if i < |ns| {
          CallKeeps(views[i], ns, t, regsOf, addr, link, pc, chd, regs, i);
        } else {
          CallAdds(ns, t, regsOf, addr, link, pc, chd, regs);
        }
      }
    }

    /** A new node, the last child of the current one. */
    method AddChild(addr: u64, link: u64, pc: u64, regs: Regs) returns (chd: Node)
      requires Valid()
      modifies cur
      ensures fresh(chd) && chd.View() == NodeView(addr, link, pc, cur, [], 0, regs)
      ensures forall i :: 0 <= i < |nodes| ==>
                nodes[i].View() == WithChild(old(nodes[i].View()), i == tree.cur, chd)
    {
      chd := new Node(addr, link, pc, cur, regs);
      cur.childs := cur.childs + [chd];
    }

    /** The `sbrk_or_skip` closure: if the current node is sbrk, its argument and result are the new end of the heap. */
    method SbrkOrSkip()
      requires Valid()
      modifies `sbrkHeap
      ensures Valid()
      ensures sbrkHeap == if tree.nodes[tree.cur].addr == sbrkAddr
                          then NewBreak(entered[tree.cur][A0], cur.exitRegs[A0]) else old(sbrkHeap)
    {
      assert Matches(tree.cur);
      if cur.addr == sbrkAddr {
        sbrkHeap := NewBreak(cur.entryRegs[A0], cur.exitRegs[A0]);
      }
      forall i | 0 <= i < |nodes| ensures Matches(i) {
        assert old(Matches(i));
      }
    }

    /** The registers at the exit are kept in the current node, whichever frame is left. */
    method SaveExit(regs: Regs)
      requires Valid()
      modifies cur`exitRegs
      ensures Valid() && cur.exitRegs == regs
    {
      cur.exitRegs := regs;
      forall i | 0 <= i < |nodes| ensures Matches(i) {
        assert old(Matches(i));
      }
    }

    /** Continue in the parent of node `i`. */
    method ContinueIn(ghost i: nat, p: Node)
      requires Valid() && 0 < i < |nodes| && p == nodes[tree.nodes[i].parent]
      modifies `cur, `tree
      ensures Valid() && tree == old(tree).(cur := old(tree).nodes[i].parent)
    {
      cur := p;
      tree := tree.(cur := tree.nodes[i].parent);
      forall k | 0 <= k < |nodes| ensures Matches(k) {
        assert old(Matches(k));
      }
    }

    /**
      The `quit_or_skip` closure: walk up to a frame with this link, note what sbrk returned, and
      continue in the frame's parent.
    */
    method QuitOrSkip(addr: u64, regs: Regs) returns (status: Status)
      requires Valid()
      modifies `cur, `tree, `sbrkHeap, cur`exitRegs
      ensures status == if Left(old(tree), addr).None? then Panic else Fine
      ensures status == Fine ==> Valid() && tree == Left(old(tree), addr).value
      ensures status == Fine ==>
                var t := old(tree);
                sbrkHeap == if Find(t.nodes, t.cur, addr) >= 0 && t.nodes[t.cur].addr == sbrkAddr
                            then NewBreak(entered[t.cur][A0], regs[A0]) else old(sbrkHeap)
    {
      var f := cur;
      ghost var i := tree.cur;
      while true
        invariant 0 <= i < |nodes| && f == nodes[i]
        invariant Find(tree.nodes, i, addr) == Find(tree.nodes, tree.cur, addr)
        decreases i
      {
        assert Matches(i);
        if f.link == addr {
          SaveExit(regs);
          SbrkOrSkip();
          assert Matches(i);
          if f.parent == null {
            return Panic;
          }
          ContinueIn(i, f.parent);
          return Fine;
        }
        if f.parent == null {
          return Fine;
        }
        f := f.parent;
        i := tree.nodes[i].parent;
      }
    }
  }

  /** Charging does not move links. */
  lemma {:induction false} FindCharged(t: Tree, cycles: nat, pc: u64, i: nat, jump: Jump)
    requires Ok(t) && i < |t.nodes|
    ensures jump.Jump? ==>
              Find(Charged(t.nodes, t.cur, cycles, pc), i, jump.addr) == Find(t.nodes, i, jump.addr)
  {
    if jump.Jump? && t.nodes[i].link != jump.addr && i > 0 {
      FindCharged(t, cycles, pc, t.nodes[i].parent, jump);
    }
  }

  lemma {:induction false} RootHasNoChildren(entry: u64)
    ensures Children(Root(entry).nodes, 0) == []
  {
    assert ChildrenTo(Root(entry).nodes, 0, 0) == [];
  }

  lemma {:induction false} ChargedChildren(nodes: seq<Record>, at: nat, cycles: nat, pc: u64, i: nat, n: nat)
    requires at < |nodes| && n <= |nodes|
    ensures ChildrenTo(Charged(nodes, at, cycles, pc), i, n) == ChildrenTo(nodes, i, n)
  {
    if n > 0 {
      ChargedChildren(nodes, at, cycles, pc, i, n - 1);
    }
  }

  lemma {:induction false} ChildrenPrefix(nodes: seq<Record>, more: seq<Record>, i: nat, n: nat)
    requires n <= |nodes|
    ensures ChildrenTo(nodes + more, i, n) == ChildrenTo(nodes, i, n)
  {
    if n > 0 {
      ChildrenPrefix(nodes, more, i, n - 1);
    }
  }

  lemma {:induction false} NoChildren(nodes: seq<Record>, i: nat, n: nat)
    requires WellFormed(nodes) && n <= |nodes| <= i + 1
    ensures ChildrenTo(nodes, i, n) == []
  {
    if n > 0 {
      NoChildren(nodes, i, n - 1);
    }
  }

  lemma {:induction false} CalledChildren(t: Tree, addr: u64, link: u64, pc: u64, i: nat)
    requires Ok(t)
    ensures Children(Called(t, addr, link, pc).nodes, i)
            == Children(t.nodes, i) + if i == t.cur then [|t.nodes|] else []
    ensures i >= |t.nodes| ==> Children(t.nodes, i) == []
  {
    ChildrenPrefix(t.nodes, [Record(addr, link, pc, t.cur, 0)], i, |t.nodes|);
    if i >= |t.nodes| {
      NoChildren(t.nodes, i, |t.nodes|);
    }
  }

  lemma {:induction false} CalledChilds(nodes: seq<Node>, t: Tree, addr: u64, link: u64, pc: u64, chd: Node, i: nat,
      childs: seq<Node>)
    requires Ok(t) && |nodes| == |t.nodes| && ChildsAre(nodes, t.nodes, i, childs)
    ensures ChildsAre(nodes + [chd], Called(t, addr, link, pc).nodes, i, if i == t.cur then childs + [chd] else childs)
  {
    CalledChildren(t, addr, link, pc, i);
  }

  /** A call adds a child to the current node and leaves the others alone. */
  lemma {:induction false} CallKeeps(v: NodeView, nodes: seq<Node>, t: Tree, entered: seq<Regs>, addr: u64, link: u64,
      pc: u64, chd: Node, regs: Regs, i: nat)
    requires Ok(t) && |nodes| == |t.nodes| == |entered| && i < |nodes| && StandsFor(v, nodes, t.nodes, entered, i)
    ensures StandsFor(WithChild(v, i == t.cur, chd), nodes + [chd], Called(t, addr, link, pc).nodes, entered + [regs],
                      i)
  {
    CalledChilds(nodes, t, addr, link, pc, chd, i, v.childs);
  }

  lemma {:induction false} CallAdds(nodes: seq<Node>, t: Tree, entered: seq<Regs>, addr: u64, link: u64, pc: u64,
      chd: Node, regs: Regs)
    requires Ok(t) && |nodes| == |t.nodes| == |entered|
    ensures StandsFor(NodeView(addr, link, pc, nodes[t.cur], [], 0, regs), nodes + [chd],
                      Called(t, addr, link, pc).nodes, entered + [regs], |nodes|)
  {
    CalledChildren(t, addr, link, pc, |t.nodes|);
  }
}
