/**
  Walking the call tree depth first. On a tree with a rightmost spine the walk visits the
  nodes in the order in which they were created.
*/
module CallOrder {
  import opened CallTree
  import opened CallTreeFacts

  /** Node `i`, then each child's subtree, oldest child first. */
  function Walk(nodes: seq<Record>, i: nat): (r: seq<nat>)
    requires WellFormed(nodes) && i < |nodes|
    ensures forall k :: 0 <= k < |r| ==> r[k] < |nodes|
    decreases |nodes| - i, 1, 0
  {
    [i] + WalkList(nodes, i, |Children(nodes, i)|)
  }

  /** The subtrees of the first `k` children of `i`. */
  function WalkList(nodes: seq<Record>, i: nat, k: nat): (r: seq<nat>)
    requires WellFormed(nodes) && i < |nodes| && k <= |Children(nodes, i)|
    ensures forall j :: 0 <= j < |r| ==> r[j] < |nodes|
    decreases |nodes| - i, 0, k
  {
    if k == 0 then []
    else WalkList(nodes, i, k - 1) + Walk(nodes, Children(nodes, i)[k - 1])
  }

  // ---------------------------------------------------------------- the youngest node

  /** All nodes but the youngest. */
  function Older(nodes: seq<Record>): (r: seq<Record>)
    requires WellFormed(nodes) && |nodes| > 1
    ensures WellFormed(r) && |r| == |nodes| - 1
  {
    nodes[..|nodes| - 1]
  }

  /** The youngest node adds itself to its parent's children and changes no other list. */
  lemma {:induction false} LastChild(nodes: seq<Record>, i: nat)
    requires WellFormed(nodes) && |nodes| > 1
    ensures Children(nodes, i)
            == Children(Older(nodes), i) + if nodes[|nodes| - 1].parent == i then [|nodes| - 1] else []
  {
    var n := |nodes| - 1;
    ChildrenPrefix(nodes[..n], nodes[n..], i, n);
    assert nodes[..n] + nodes[n..] == nodes;
  }

  lemma {:induction false} ChildrenAscend(nodes: seq<Record>, i: nat, n: nat, j: nat, k: nat)
    requires n <= |nodes| && j < k < |ChildrenTo(nodes, i, n)|
    ensures ChildrenTo(nodes, i, n)[j] < ChildrenTo(nodes, i, n)[k]
  {
    if k < |ChildrenTo(nodes, i, n - 1)| {
      ChildrenAscend(nodes, i, n - 1, j, k);
    }
  }

  /** Only the last child of a node can be on the path to the youngest node. */
  lemma {:induction false} EarlierChildrenAside(nodes: seq<Record>, i: nat, j: nat)
    requires WellFormed(nodes) && Spine(nodes) && j + 1 < |Children(nodes, i)|
    ensures !Above(nodes, Children(nodes, i)[j], |nodes| - 1)
  {
    var cs := Children(nodes, i);
    ChildrenAscend(nodes, i, |nodes|, j, j + 1);
    if Above(nodes, cs[j], |nodes| - 1) {
      BelowIsContiguous(nodes, cs[j], cs[j + 1], |nodes| - 1);
      assert false;
    }
  }

  lemma {:induction false} ChildOnPath(nodes: seq<Record>, i: nat, j: nat) returns (c: nat)
    requires WellFormed(nodes) && j < |nodes| && i < j && Above(nodes, i, j)
    ensures i < c <= j && nodes[c].parent == i && Above(nodes, c, j)
    decreases j
  {
    if nodes[j].parent == i {
      c := j;
    } else {
      c := ChildOnPath(nodes, i, nodes[j].parent);
    }
  }

  lemma {:induction false} ChildIndex(nodes: seq<Record>, i: nat, n: nat, c: nat) returns (k: nat)
    requires n <= |nodes| && c < n && nodes[c].parent == i
    ensures k < |ChildrenTo(nodes, i, n)| && ChildrenTo(nodes, i, n)[k] == c
  {
    if c == n - 1 {
      k := |ChildrenTo(nodes, i, n)| - 1;
    } else {
      k := ChildIndex(nodes, i, n - 1, c);
    }
  }

  /** What the youngest node adds to the walk from `i`: itself, if it is below `i`. */
  function Added(nodes: seq<Record>, i: nat): seq<nat>
    requires WellFormed(nodes) && i < |nodes|
  {
    if Above(nodes, i, |nodes| - 1) then [|nodes| - 1] else []
  }

  /** What it adds to the walk through the first `k` of the older children `cs`: only the last one can grow. */
  function AddedByLast(nodes: seq<Record>, cs: seq<nat>, k: nat): seq<nat>
    requires WellFormed(nodes) && k <= |cs| && (forall j :: 0 <= j < |cs| ==> cs[j] < |nodes|)
  {
    if 0 < k == |cs| then Added(nodes, cs[k - 1]) else []
  }

  lemma {:induction false} OlderChildGrowth(nodes: seq<Record>, i: nat, k: nat)
    requires WellFormed(nodes) && Spine(nodes) && |nodes| > 1 && 0 < k <= |Children(Older(nodes), i)|
    ensures var cs := Children(Older(nodes), i);
            k <= |Children(nodes, i)| && Children(nodes, i)[k - 1] == cs[k - 1]
            && Added(nodes, cs[k - 1]) == AddedByLast(nodes, cs, k)
  {
    LastChild(nodes, i);
    if k < |Children(Older(nodes), i)| {
      EarlierChildrenAside(nodes, i, k - 1);
    }
  }

  /** A node that is below `i` without being its child is below the last of the children of `i`. */
  lemma {:induction false} BelowLastChild(nodes: seq<Record>, i: nat)
    requires WellFormed(nodes) && Spine(nodes) && i < |nodes| - 1 && nodes[|nodes| - 1].parent != i
    requires Above(nodes, i, |nodes| - 1)
    ensures var cs := Children(nodes, i);
            cs != [] && Above(nodes, cs[|cs| - 1], |nodes| - 1)
  {
    var c := ChildOnPath(nodes, i, |nodes| - 1);
    var k := ChildIndex(nodes, i, |nodes|, c);
    if k + 1 < |Children(nodes, i)| {
      EarlierChildrenAside(nodes, i, k);
    }
  }

  lemma {:induction false} GrowthOfLast(nodes: seq<Record>, i: nat)
    requires WellFormed(nodes) && Spine(nodes) && i < |nodes| - 1 && nodes[|nodes| - 1].parent != i
    ensures var cs := Children(Older(nodes), i);
            Children(nodes, i) == cs && AddedByLast(nodes, cs, |cs|) == Added(nodes, i)
  {
    LastChild(nodes, i);
    var cs := Children(nodes, i);
    if Above(nodes, i, |nodes| - 1) {
      BelowLastChild(nodes, i);
    } else if cs != [] && Above(nodes, cs[|cs| - 1], |nodes| - 1) {
      AboveTransitive(nodes, i, cs[|cs| - 1], |nodes| - 1);
    }
  }

  lemma {:induction false} GrowthOfParent(nodes: seq<Record>, i: nat)
    requires WellFormed(nodes) && Spine(nodes) && i < |nodes| - 1 && nodes[|nodes| - 1].parent == i
    ensures var cs := Children(Older(nodes), i);
            Children(nodes, i) == cs + [|nodes| - 1] && AddedByLast(nodes, cs, |cs|) == []
            && Added(nodes, i) == [|nodes| - 1]
  {
    LastChild(nodes, i);
    assert Above(nodes, i, i);
    var cs := Children(Older(nodes), i);
    if cs != [] {
      EarlierChildrenAside(nodes, i, |cs| - 1);
      assert Children(nodes, i)[|cs| - 1] == cs[|cs| - 1];
    }
  }

  lemma {:induction false} WalkOfYoungest(nodes: seq<Record>)
    requires WellFormed(nodes)
    ensures Walk(nodes, |nodes| - 1) == [|nodes| - 1]
  {
    NoChildren(nodes, |nodes| - 1, |nodes|);
  }

  // ---------------------------------------------------------------- the walk grows at its end

  /** The walk through the first `k` children grew by what the last of them grew. */
  ghost predicate ListGrown(nodes: seq<Record>, i: nat, k: nat)
    requires WellFormed(nodes) && |nodes| > 1 && i < |nodes| - 1
    requires k <= |Children(Older(nodes), i)| <= |Children(nodes, i)|
  {
    WalkList(nodes, i, k) == WalkList(Older(nodes), i, k) + AddedByLast(nodes, Children(Older(nodes), i), k)
  }

  /** The youngest node comes last in the walk from each of its ancestors, and in no other. */
  lemma {:induction false} WalkGrows(nodes: seq<Record>, i: nat)
    requires WellFormed(nodes) && Spine(nodes) && i < |nodes| - 1
    ensures Walk(nodes, i) == Walk(Older(nodes), i) + Added(nodes, i)
    decreases |nodes| - i, 1, 0
  {
    LastChild(nodes, i);
    WalkListGrows(nodes, i, |Children(Older(nodes), i)|);
    if nodes[|nodes| - 1].parent == i {
      ParentWalkGrows(nodes, i);
    } else {
      GrowthOfLast(nodes, i);
    }
  }

  lemma {:induction false} ParentWalkGrows(nodes: seq<Record>, i: nat)
    requires WellFormed(nodes) && Spine(nodes) && i < |nodes| - 1 && nodes[|nodes| - 1].parent == i
    requires |Children(Older(nodes), i)| <= |Children(nodes, i)|
    requires ListGrown(nodes, i, |Children(Older(nodes), i)|)
    ensures Walk(nodes, i) == Walk(Older(nodes), i) + Added(nodes, i)
  {
    GrowthOfParent(nodes, i);
    ChildAppended(nodes, i, |Children(Older(nodes), i)|);
  }

  lemma {:induction false} ChildAppended(nodes: seq<Record>, i: nat, m: nat)
    requires WellFormed(nodes) && i < |nodes| - 1 && m == |Children(Older(nodes), i)|
    requires Children(nodes, i) == Children(Older(nodes), i) + [|nodes| - 1]
    requires WalkList(nodes, i, m) == WalkList(Older(nodes), i, m)
    ensures Walk(nodes, i) == Walk(Older(nodes), i) + [|nodes| - 1]
  {
    var list, youngest := WalkList(Older(nodes), i, m), [|nodes| - 1];
    WalkOfYoungest(nodes);
    WalkListAt(nodes, i, m + 1);
    WalkAt(nodes, i);
    WalkAt(Older(nodes), i);
    assert [i] + (list + youngest) == [i] + list + youngest;
  }

  lemma {:induction false} WalkAt(nodes: seq<Record>, i: nat)
    requires WellFormed(nodes) && i < |nodes|
    ensures Walk(nodes, i) == [i] + WalkList(nodes, i, |Children(nodes, i)|)
  {
  }

  lemma {:induction false} WalkListAt(nodes: seq<Record>, i: nat, k: nat)
    requires WellFormed(nodes) && i < |nodes| && 0 < k <= |Children(nodes, i)|
    ensures WalkList(nodes, i, k) == WalkList(nodes, i, k - 1) + Walk(nodes, Children(nodes, i)[k - 1])
  {
  }

  lemma {:induction false} WalkListGrows(nodes: seq<Record>, i: nat, k: nat)
    requires WellFormed(nodes) && Spine(nodes) && i < |nodes| - 1
    requires k <= |Children(Older(nodes), i)| <= |Children(nodes, i)|
    ensures ListGrown(nodes, i, k)
    decreases |nodes| - i, 0, k
  {
    if k > 0 {
      var c := Children(Older(nodes), i)[k - 1];
      OlderChildGrowth(nodes, i, k);
      WalkListGrows(nodes, i, k - 1);
      WalkGrows(nodes, c);
      var list, walk := WalkList(Older(nodes), i, k - 1), Walk(Older(nodes), c);
      WalkListAt(nodes, i, k);
      WalkListAt(Older(nodes), i, k);
      assert list + (walk + Added(nodes, c)) == list + walk + Added(nodes, c);
    }
  }

  /** The first `n` numbers. */
  function UpTo(n: nat): (r: seq<nat>)
    ensures |r| == n && forall k :: 0 <= k < n ==> r[k] == k
  {
    seq(n, k => k)
  }

  /** Walking the whole tree visits every node once, in the order of creation. */
  lemma {:induction false} WalkIsCreationOrder(nodes: seq<Record>)
    requires WellFormed(nodes) && Spine(nodes)
    ensures Walk(nodes, 0) == UpTo(|nodes|)
    decreases |nodes|
  {
    if |nodes| == 1 {
      WalkOfYoungest(nodes);
    } else {
      OlderSpine(nodes);
      WalkIsCreationOrder(Older(nodes));
      WalkGrows(nodes, 0);
      RootAbove(nodes, |nodes| - 1);
    }
  }

  lemma {:induction false} OlderSpine(nodes: seq<Record>)
    requires WellFormed(nodes) && Spine(nodes) && |nodes| > 1
    ensures Spine(Older(nodes))
  {
    var older := Older(nodes);
    forall j | 0 < j < |older| ensures AttachedToSpine(older, j) {
      assert AttachedToSpine(nodes, j);
      AboveStable(nodes, older, nodes[j].parent, j - 1);
    }
  }

  lemma {:induction false} RootAbove(nodes: seq<Record>, j: nat)
    requires WellFormed(nodes) && j < |nodes|
    ensures Above(nodes, 0, j)
    decreases j
  {
    if j > 0 {
      RootAbove(nodes, nodes[j].parent);
    }
  }
}
