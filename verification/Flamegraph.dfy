/**
  Printing the call tree: a recursive walk that carries the line prefix down. On a tree
  with a rightmost spine it prints one line per node, in the order the calls were made.
*/
module Flamegraph {
  import opened Bytes
  import GdbGrammar
  import GdbText
  import opened CallTree
  import CallTreeFacts
  import opened CallOrder

  function Digit(d: nat): char
    requires d < 10
  {
    ['0', '1', '2', '3', '4', '5', '6', '7', '8', '9'][d]
  }

  function Decimal(n: nat): string {
    if n < 10 then [Digit(n)] else Decimal(n / 10) + [Digit(n % 10)]
  }

  /** `{:x}` */
  function Hexadecimal(n: nat): string {
    var digits := GdbText.Hex(n);
    seq(|digits|, i requires 0 <= i < |digits| => digits[i] as char)
  }

  /** What the debug information says of an address; "??" where it says nothing. */
  datatype Tags = Tags(addr: u64, file: string, func: string) {
    function Func(): string {
      if func != "??" then func else "func_0x" + Hexadecimal(addr)
    }

    function Simple(): string { file + ":" + Func() }
  }

  /** A function without a name is called after its address, and no other one is. */
  lemma {:induction false} UnnamedDiffer(a: Tags, b: Tags)
    ensures a.func != "??" ==> a.Func() == a.func
    ensures a.func == "??" ==> |a.Func()| > 7 && a.Func()[..7] == "func_0x"
    ensures a.func == b.func == "??" && a.addr != b.addr ==> a.Func() != b.Func()
  {
    if a.func == "??" {
      assert a.Func()[..7] == "func_0x" && a.Func()[7..] == Hexadecimal(a.addr);
    }
    if a.func == b.func == "??" && a.Func() == b.Func() {
      assert b.Func()[7..] == Hexadecimal(b.addr);
      SameDigits(a.addr, b.addr);
      GdbGrammar.HexNumHex(a.addr);
      GdbGrammar.HexNumHex(b.addr);
    }
  }

  lemma {:induction false} SameDigits(a: nat, b: nat)
    requires Hexadecimal(a) == Hexadecimal(b)
    ensures GdbText.Hex(a) == GdbText.Hex(b)
  {
    var (x, y) := (GdbText.Hex(a), GdbText.Hex(b));
    forall i | 0 <= i < |x| ensures x[i] == y[i] {
      assert Hexadecimal(a)[i] == x[i] as char && Hexadecimal(b)[i] == y[i] as char;
    }
  }

  /** A line without its newline. */
  function LineText(name: string, cycles: nat): string { name + " " + Decimal(cycles) }

  function Line(name: string, cycles: nat): string { LineText(name, cycles) + "\n" }

  // ---------------------------------------------------------------- the recursive walk

  /** The text printed for the subtree of `i` below the given prefix. */
  function Flame(nodes: seq<Record>, tag: u64 -> string, i: nat, prefix: string): string
    requires WellFormed(nodes) && i < |nodes|
    decreases |nodes| - i, 1, 0
  {
    var name := prefix + tag(nodes[i].addr);
    Line(name, nodes[i].cycles) + FlameList(nodes, tag, i, |Children(nodes, i)|, name + "; ")
  }

  /** The text printed for the first `k` children of `i`. */
  function FlameList(nodes: seq<Record>, tag: u64 -> string, i: nat, k: nat, prefix: string): string
    requires WellFormed(nodes) && i < |nodes| && k <= |Children(nodes, i)|
    decreases |nodes| - i, 0, k
  {
    if k == 0 then ""
    else FlameList(nodes, tag, i, k - 1, prefix) + Flame(nodes, tag, Children(nodes, i)[k - 1], prefix)
  }

  method DisplayFlamegraph(p: Profile, tag: u64 -> string) returns (out: string)
    requires p.Valid()
    ensures out == Flame(p.tree.nodes, tag, 0, "")
  {
    out := DisplayFlamegraphRec(p, tag, "", p.root, 0);
  }

  method DisplayFlamegraphRec(p: Profile, tag: u64 -> string, prefix: string, node: Node, ghost i: nat)
      returns (out: string)
    requires p.Valid() && i < |p.nodes| && node == p.nodes[i]
    ensures out == Flame(p.tree.nodes, tag, i, prefix)
    decreases |p.nodes| - i
  {
    assert p.Matches(i);
    var prefixName := prefix + tag(node.addr);
    out := Line(prefixName, node.cycles);
    ghost var children := Children(p.tree.nodes, i);
    for k := 0 to |node.childs|
      invariant out == Line(prefixName, node.cycles) + FlameList(p.tree.nodes, tag, i, k, prefixName + "; ")
    {
      assert i < children[k];
      var sub := DisplayFlamegraphRec(p, tag, prefixName + "; ", node.childs[k], children[k]);
      out := out + sub;
    }
  }

  // ---------------------------------------------------------------- one line per node

  /** The labels from the root down to `i`, joined. */
  function PathName(nodes: seq<Record>, tag: u64 -> string, i: nat): string
    requires WellFormed(nodes) && i < |nodes|
  {
    if i == 0 then tag(nodes[0].addr)
    else PathName(nodes, tag, nodes[i].parent) + "; " + tag(nodes[i].addr)
  }

  function Prefix(nodes: seq<Record>, tag: u64 -> string, i: nat): string
    requires WellFormed(nodes) && i < |nodes|
  {
    if i == 0 then "" else PathName(nodes, tag, nodes[i].parent) + "; "
  }

  function LineOf(nodes: seq<Record>, tag: u64 -> string, i: nat): string
    requires WellFormed(nodes) && i < |nodes|
  {
    Line(PathName(nodes, tag, i), nodes[i].cycles)
  }

  function Concat(ss: seq<string>): string {
    if ss == [] then "" else Concat(ss[..|ss| - 1]) + ss[|ss| - 1]
  }

  /** The lines of the nodes `order`, in that order. */
  function Lines(nodes: seq<Record>, tag: u64 -> string, order: seq<nat>): (r: seq<string>)
    requires WellFormed(nodes) && forall k :: 0 <= k < |order| ==> order[k] < |nodes|
    ensures |r| == |order| && forall k :: 0 <= k < |r| ==> r[k] == LineOf(nodes, tag, order[k])
  {
    seq(|order|, k requires 0 <= k < |order| => LineOf(nodes, tag, order[k]))
  }

  lemma {:induction false} ConcatAppend(a: seq<string>, b: seq<string>)
    ensures Concat(a + b) == Concat(a) + Concat(b)
  {
    if b == [] {
      assert a + b == a;
    } else {
      var init := b[..|b| - 1];
      assert (a + b)[..|a + b| - 1] == a + init;
      ConcatAppend(a, init);
    }
  }

  lemma {:induction false} LinesAppend(nodes: seq<Record>, tag: u64 -> string, a: seq<nat>, b: seq<nat>)
    requires WellFormed(nodes)
    requires (forall k :: 0 <= k < |a| ==> a[k] < |nodes|) && (forall k :: 0 <= k < |b| ==> b[k] < |nodes|)
    ensures Concat(Lines(nodes, tag, a + b)) == Concat(Lines(nodes, tag, a)) + Concat(Lines(nodes, tag, b))
  {
    assert Lines(nodes, tag, a + b) == Lines(nodes, tag, a) + Lines(nodes, tag, b);
    ConcatAppend(Lines(nodes, tag, a), Lines(nodes, tag, b));
  }

  lemma {:induction false} OneLine(nodes: seq<Record>, tag: u64 -> string, i: nat)
    requires WellFormed(nodes) && i < |nodes|
    ensures Concat(Lines(nodes, tag, [i])) == LineOf(nodes, tag, i)
  {
    assert Lines(nodes, tag, [i]) == [LineOf(nodes, tag, i)];
    assert Concat([LineOf(nodes, tag, i)]) == Concat([]) + LineOf(nodes, tag, i);
  }

  lemma {:induction false} FlameAt(nodes: seq<Record>, tag: u64 -> string, i: nat)
    requires WellFormed(nodes) && i < |nodes|
    ensures Flame(nodes, tag, i, Prefix(nodes, tag, i))
            == LineOf(nodes, tag, i)
               + FlameList(nodes, tag, i, |Children(nodes, i)|, PathName(nodes, tag, i) + "; ")
  {
    assert Prefix(nodes, tag, i) + tag(nodes[i].addr) == PathName(nodes, tag, i);
  }

  lemma {:induction false} FlameListAt(nodes: seq<Record>, tag: u64 -> string, i: nat, k: nat)
    requires WellFormed(nodes) && i < |nodes| && 0 < k <= |Children(nodes, i)|
    ensures var prefix := PathName(nodes, tag, i) + "; ";
            var c := Children(nodes, i)[k - 1];
            FlameList(nodes, tag, i, k, prefix)
            == FlameList(nodes, tag, i, k - 1, prefix) + Flame(nodes, tag, c, Prefix(nodes, tag, c))
  {
  }

  lemma {:induction false} FlameIsLines(nodes: seq<Record>, tag: u64 -> string, i: nat)
    requires WellFormed(nodes) && i < |nodes|
    ensures Flame(nodes, tag, i, Prefix(nodes, tag, i)) == Concat(Lines(nodes, tag, Walk(nodes, i)))
    decreases |nodes| - i, 1, 0
  {
    FlameAt(nodes, tag, i);
    FlameListIsLines(nodes, tag, i, |Children(nodes, i)|);
    WalkAt(nodes, i);
    OneLine(nodes, tag, i);
    LinesAppend(nodes, tag, [i], WalkList(nodes, i, |Children(nodes, i)|));
  }

  lemma {:induction false} FlameListIsLines(nodes: seq<Record>, tag: u64 -> string, i: nat, k: nat)
    requires WellFormed(nodes) && i < |nodes| && k <= |Children(nodes, i)|
    ensures FlameList(nodes, tag, i, k, PathName(nodes, tag, i) + "; ")
            == Concat(Lines(nodes, tag, WalkList(nodes, i, k)))
    decreases |nodes| - i, 0, k
  {
    if k > 0 {
      var c := Children(nodes, i)[k - 1];
      FlameListIsLines(nodes, tag, i, k - 1);
      FlameIsLines(nodes, tag, c);
      FlameListAt(nodes, tag, i, k);
      WalkListAt(nodes, i, k);
      LinesAppend(nodes, tag, WalkList(nodes, i, k - 1), Walk(nodes, c));
    }
  }

  /**
    The flamegraph has exactly one line per call, in call order, each with the whole path from
    the root and the cycles of that call alone.
  */
  lemma {:induction false} FlameIsCallOrder(nodes: seq<Record>, tag: u64 -> string)
    requires WellFormed(nodes) && CallTreeFacts.Spine(nodes)
    ensures Flame(nodes, tag, 0, "") == Concat(Lines(nodes, tag, UpTo(|nodes|)))
  {
    FlameIsLines(nodes, tag, 0);
    WalkIsCreationOrder(nodes);
  }
}
