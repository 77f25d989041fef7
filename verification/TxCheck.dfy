/**
  The check of a mock transaction: its mock cells must be exactly the cells that the transaction
  refers to, dep-group members included.
*/
module TxCheck {
  import opened Bytes
  import opened Options

  type Hash = seq<byte>

  datatype OutPoint = OutPoint(txHash: Hash, index: nat)

  datatype DepType = Code | DepGroup

  datatype CellDep = CellDep(outPoint: OutPoint, depType: DepType)

  datatype CellInput = CellInput(previousOutput: OutPoint, since: nat)

  /** An output with its data and the block it is in. */
  datatype Cell = Cell(output: seq<byte>, data: seq<byte>, header: Option<Hash>)

  datatype MockInput = MockInput(input: CellInput, cell: Cell)

  datatype MockCellDep = MockCellDep(cellDep: CellDep, cell: Cell)

  datatype MockTx = MockTx(
    mockInputs: seq<MockInput>,
    mockDeps: seq<MockCellDep>,
    mockHeaders: seq<Hash>,
    inputs: seq<CellInput>,
    cellDeps: seq<CellDep>,
    headerDeps: seq<Hash>)

  /** The two codecs that live in libraries: the list of out-points in a dep group, and the text a dep is sorted by. */
  datatype Codec = Codec(outPoints: seq<byte> -> Option<seq<OutPoint>>, text: CellDep -> string)

  /** Different deps have different texts. */
  ghost predicate Faithful(codec: Codec) {
    forall a, b :: TextDetermines(codec, a, b)
  }

  predicate TextDetermines(codec: Codec, a: CellDep, b: CellDep) {
    codec.text(a) == codec.text(b) ==> a == b
  }

  // ---------------------------------------------------------------- sorting

  /** The order of strings by their characters. */
  predicate TextLe(a: string, b: string) {
    a == "" || (b != "" && (a[0] < b[0] || (a[0] == b[0] && TextLe(a[1..], b[1..]))))
  }

  lemma {:induction false} TextLeTotal(a: string, b: string)
    ensures TextLe(a, b) || TextLe(b, a)
    ensures TextLe(a, b) && TextLe(b, a) ==> a == b
  {
    if a != "" && b != "" && a[0] == b[0] {
      TextLeTotal(a[1..], b[1..]);
      assert a == [a[0]] + a[1..] && b == [b[0]] + b[1..];
    }
  }

  lemma {:induction false} TextLeTransitive(a: string, b: string, c: string)
    requires TextLe(a, b) && TextLe(b, c)
    ensures TextLe(a, c)
  {
    if a != "" && a[0] == b[0] == c[0] {
      TextLeTransitive(a[1..], b[1..], c[1..]);
    }
  }

  predicate DepLe(codec: Codec, a: CellDep, b: CellDep) {
    TextLe(codec.text(a), codec.text(b))
  }

  predicate Sorted(codec: Codec, s: seq<CellDep>) {
    forall i, j :: 0 <= i < j < |s| ==> InOrder(codec, s, i, j)
  }

  predicate InOrder(codec: Codec, s: seq<CellDep>, i: nat, j: nat)
    requires i < j < |s|
  {
    DepLe(codec, s[i], s[j])
  }

  lemma {:induction false} SortedSnoc(codec: Codec, s: seq<CellDep>, d: CellDep)
    ensures Sorted(codec, s + [d]) <==> Sorted(codec, s) && forall i :: 0 <= i < |s| ==> DepLe(codec, s[i], d)
  {
    var r := s + [d];
    forall i, j | 0 <= i < j < |s|
      ensures InOrder(codec, r, i, j) <==> InOrder(codec, s, i, j)
    {
    }
    forall i | 0 <= i < |s|
      ensures InOrder(codec, r, i, |s|) <==> DepLe(codec, s[i], d)
    {
    }
  }

  /** `sort_by`: a stable insertion stands for the library's sort. */
  function Insert(codec: Codec, d: CellDep, s: seq<CellDep>): seq<CellDep> {
    if s == [] then [d]
    else if DepLe(codec, s[|s| - 1], d) then s + [d]
    else Insert(codec, d, s[..|s| - 1]) + [s[|s| - 1]]
  }

  function Sort(codec: Codec, s: seq<CellDep>): seq<CellDep> {
    if s == [] then [] else Insert(codec, s[|s| - 1], Sort(codec, s[..|s| - 1]))
  }

  lemma {:induction false} InsertSorts(codec: Codec, d: CellDep, s: seq<CellDep>)
    requires Sorted(codec, s)
    ensures Sorted(codec, Insert(codec, d, s))
    ensures multiset(Insert(codec, d, s)) == multiset(s) + multiset{d}
  {
    if s != [] {
      var init, last := s[..|s| - 1], s[|s| - 1];
      assert s == init + [last];
      SortedSnoc(codec, init, last);
      if DepLe(codec, last, d) {
        forall i | 0 <= i < |s|
          ensures DepLe(codec, s[i], d)
        {
          if i < |s| - 1 {
            assert s[i] == init[i];
            TextLeTransitive(codec.text(s[i]), codec.text(last), codec.text(d));
          }
        }
        SortedSnoc(codec, s, d);
      } else {
        InsertSorts(codec, d, init);
        TextLeTotal(codec.text(last), codec.text(d));
        var r := Insert(codec, d, init);
        forall i | 0 <= i < |r|
          ensures DepLe(codec, r[i], last)
        {
          assert r[i] in multiset(r);
          if r[i] != d {
            assert r[i] in multiset(init);
          }
        }
        SortedSnoc(codec, r, last);
      }
    }
  }

  lemma {:induction false} SortSorts(codec: Codec, s: seq<CellDep>)
    ensures Sorted(codec, Sort(codec, s)) && multiset(Sort(codec, s)) == multiset(s)
  {
    if s != [] {
      SortSorts(codec, s[..|s| - 1]);
      InsertSorts(codec, s[|s| - 1], Sort(codec, s[..|s| - 1]));
      assert s == s[..|s| - 1] + [s[|s| - 1]];
    }
  }

  /** There is only one way to sort. */
  lemma {:induction false} SortedUnique(codec: Codec, a: seq<CellDep>, b: seq<CellDep>)
    requires Faithful(codec) && Sorted(codec, a) && Sorted(codec, b) && multiset(a) == multiset(b)
    ensures a == b
  {
    assert |a| == |multiset(a)| == |multiset(b)| == |b|;
    if a != [] {
      SameLast(codec, a, b);
      InitOf(codec, a);
      InitOf(codec, b);
      SortedUnique(codec, a[..|a| - 1], b[..|b| - 1]);
    }
  }

  lemma {:induction false} SameLast(codec: Codec, a: seq<CellDep>, b: seq<CellDep>)
    requires Faithful(codec) && Sorted(codec, a) && Sorted(codec, b) && multiset(a) == multiset(b)
    requires a != [] && b != []
    ensures a[|a| - 1] == b[|b| - 1]
  {
    LastIsLargest(codec, a, b);
    LastIsLargest(codec, b, a);
    TextLeTotal(codec.text(a[|a| - 1]), codec.text(b[|b| - 1]));
    assert TextDetermines(codec, a[|a| - 1], b[|b| - 1]);
  }

  lemma {:induction false} InitOf(codec: Codec, s: seq<CellDep>)
    requires s != [] && Sorted(codec, s)
    ensures s == s[..|s| - 1] + [s[|s| - 1]]
    ensures multiset(s[..|s| - 1]) == multiset(s) - multiset{s[|s| - 1]}
    ensures Sorted(codec, s[..|s| - 1])
  {
    assert s == s[..|s| - 1] + [s[|s| - 1]];
    SortedSnoc(codec, s[..|s| - 1], s[|s| - 1]);
  }

  lemma {:induction false} LastIsLargest(codec: Codec, a: seq<CellDep>, b: seq<CellDep>)
    requires Sorted(codec, b) && multiset(a) == multiset(b) && a != [] && b != []
    ensures DepLe(codec, a[|a| - 1], b[|b| - 1])
  {
    var x := a[|a| - 1];
    assert x in multiset(b);
    var i :| 0 <= i < |b| && b[i] == x;
    TextLeTotal(codec.text(x), codec.text(x));
    assert i < |b| - 1 ==> InOrder(codec, b, i, |b| - 1);
  }

  /** Comparing two lists after sorting is comparing them as multisets. */
  lemma {:induction false} SortedEqualIff(codec: Codec, a: seq<CellDep>, b: seq<CellDep>)
    ensures Sort(codec, a) == Sort(codec, b) ==> multiset(a) == multiset(b)
    ensures Faithful(codec) && multiset(a) == multiset(b) ==> Sort(codec, a) == Sort(codec, b)
  {
    SortSorts(codec, a);
    SortSorts(codec, b);
    if Faithful(codec) && multiset(a) == multiset(b) {
      SortedUnique(codec, Sort(codec, a), Sort(codec, b));
    }
  }

  // ---------------------------------------------------------------- check

  function MockCellDeps(tx: MockTx): (r: seq<CellDep>)
    ensures |r| == |tx.mockDeps| && forall i :: 0 <= i < |r| ==> r[i] == tx.mockDeps[i].cellDep
  {
    seq(|tx.mockDeps|, i requires 0 <= i < |tx.mockDeps| => tx.mockDeps[i].cellDep)
  }

  function MockCellInputs(tx: MockTx): (r: seq<CellInput>)
    ensures |r| == |tx.mockInputs|
  {
    seq(|tx.mockInputs|, i requires 0 <= i < |tx.mockInputs| => tx.mockInputs[i].input)
  }

  /** The members of a dep group; an empty group is refused. */
  function ParseDepGroupData(codec: Codec, data: seq<byte>): Option<seq<OutPoint>> {
    if data == [] then None
    else
      match codec.outPoints(data)
      case None => None
      case Some(v) => if v == [] then None else Some(v)
  }

  function CodeDeps(members: seq<OutPoint>): (r: seq<CellDep>)
    ensures |r| == |members|
  {
    seq(|members|, i requires 0 <= i < |members| => CellDep(members[i], Code))
  }

  /** The deps that come from the dep groups among `mocks`, if all of them can be parsed. */
  function GroupDeps(codec: Codec, mocks: seq<MockCellDep>): Option<seq<CellDep>> {
    if mocks == [] then Some([])
    else
      var init, last := GroupDeps(codec, mocks[..|mocks| - 1]), mocks[|mocks| - 1];
      if init.None? || last.cellDep.depType.Code? then init
      else
        match ParseDepGroupData(codec, last.cell.data)
        case None => None
        case Some(members) => Some(init.value + CodeDeps(members))
  }

  /** What an acceptable transaction is. */
  ghost predicate Acceptable(codec: Codec, tx: MockTx) {
    && GroupDeps(codec, tx.mockDeps).Some?
    && multiset(MockCellDeps(tx)) == multiset(tx.cellDeps + GroupDeps(codec, tx.mockDeps).value)
    && |tx.mockInputs| == |tx.inputs|
    && (forall i :: 0 <= i < |tx.inputs| ==> tx.mockInputs[i].input == tx.inputs[i])
    && |tx.mockHeaders| == |tx.headerDeps|
  }

  lemma {:induction false} GroupDepsFail(codec: Codec, mocks: seq<MockCellDep>, n: nat)
    requires n <= |mocks| && GroupDeps(codec, mocks[..n]).None?
    ensures GroupDeps(codec, mocks).None?
  {
    if n < |mocks| {
      assert mocks[..|mocks| - 1][..n] == mocks[..n];
      GroupDepsFail(codec, mocks[..|mocks| - 1], n);
    } else {
      assert mocks[..n] == mocks;
    }
  }

  /** A dep group without data, whose data are not a list of out-points, or whose list is empty. */
  predicate BadGroup(codec: Codec, mock: MockCellDep) {
    && mock.cellDep.depType == DepGroup
    && (mock.cell.data == [] || codec.outPoints(mock.cell.data) == None || codec.outPoints(mock.cell.data) == Some([]))
  }

  lemma {:induction false} GroupDepsFailIff(codec: Codec, mocks: seq<MockCellDep>)
    ensures GroupDeps(codec, mocks).None? <==> exists m <- mocks :: BadGroup(codec, m)
  {
    if mocks != [] {
      var init, last := mocks[..|mocks| - 1], mocks[|mocks| - 1];
      assert mocks == init + [last];
      GroupDepsFailIff(codec, init);
      assert BadGroup(codec, last) <==>
             last.cellDep.depType.DepGroup? && ParseDepGroupData(codec, last.cell.data).None?;
    }
  }

  method CollectDeps(codec: Codec, tx: MockTx) returns (r: Option<seq<CellDep>>)
    ensures r == if GroupDeps(codec, tx.mockDeps).None? then None
                 else Some(tx.cellDeps + GroupDeps(codec, tx.mockDeps).value)
  {
    var cellDeps := tx.cellDeps;
    for i := 0 to |tx.mockDeps|
      invariant GroupDeps(codec, tx.mockDeps[..i]).Some?
      invariant cellDeps == tx.cellDeps + GroupDeps(codec, tx.mockDeps[..i]).value
    {
      assert tx.mockDeps[..i + 1][..i] == tx.mockDeps[..i];
      var dep := tx.mockDeps[i];
      if dep.cellDep.depType.DepGroup? {
        var subOutpoints := ParseDepGroupData(codec, dep.cell.data);
        if subOutpoints.None? {
          GroupDepsFail(codec, tx.mockDeps, i + 1);
          return None;
        }
        cellDeps := cellDeps + CodeDeps(subOutpoints.value);
      }
    }
    assert tx.mockDeps[..|tx.mockDeps|] == tx.mockDeps;
    r := Some(cellDeps);
  }

  method Check(codec: Codec, tx: MockTx) returns (ok: bool)
    ensures ok ==> Acceptable(codec, tx)
    ensures Faithful(codec) && Acceptable(codec, tx) ==> ok
    ensures (exists m <- tx.mockDeps :: BadGroup(codec, m)) ==> !ok
  {
    GroupDepsFailIff(codec, tx.mockDeps);
    var collected := CollectDeps(codec, tx);
    if collected.None? {
      return false;
    }
    var mockCellDeps := Sort(codec, MockCellDeps(tx));
    var cellDeps := Sort(codec, collected.value);
    SortedEqualIff(codec, MockCellDeps(tx), collected.value);
    var same := SameElements(mockCellDeps, cellDeps);
    if !same {
      return false;
    }
    same := SameElements(MockCellInputs(tx), tx.inputs);
    if !same {
      return false;
    }
    ok := |tx.mockHeaders| == |tx.headerDeps|;
  }

  /** The length first, then element by element. */
  method SameElements<T(==)>(a: seq<T>, b: seq<T>) returns (same: bool)
    ensures same <==> a == b
  {
    if |a| != |b| {
      return false;
    }
    for i := 0 to |a|
      invariant a[..i] == b[..i]
    {
      if a[i] != b[i] {
        return false;
      }
    }
    same := true;
  }
}
