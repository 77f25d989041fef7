/** A transaction that passes the check is resolved from its mock cells alone. */
module TxAccepted {
  import opened Bytes
  import opened Options
  import opened TxCheck
  import opened TxResource
  import opened TxTaken

  predicate DistinctOutPoints(mocks: seq<MockCellDep>) {
    forall i, j :: 0 <= i < j < |mocks| ==> mocks[i].cellDep.outPoint != mocks[j].cellDep.outPoint
  }

  // ---------------------------------------------------------------- what passing the check gives

  lemma {:induction false} FirstDepIs(mocks: seq<MockCellDep>, i: nat)
    requires DistinctOutPoints(mocks) && i < |mocks|
    ensures FirstDep(mocks, mocks[i].cellDep.outPoint) == Some(mocks[i].cell)
  {
    if i > 0 {
      FirstDepIs(mocks[1..], i - 1);
    }
  }

  /** A group among the mock deps could be parsed, and its members are among the deps collected. */
  lemma {:induction false} GroupMembers(codec: Codec, mocks: seq<MockCellDep>, i: nat)
    requires GroupDeps(codec, mocks).Some? && i < |mocks| && mocks[i].cellDep.depType.DepGroup?
    ensures codec.outPoints(mocks[i].cell.data).Some?
    ensures forall m <- codec.outPoints(mocks[i].cell.data).value :: CellDep(m, Code) in GroupDeps(codec, mocks).value
  {
    if i == |mocks| - 1 {
      var members := codec.outPoints(mocks[i].cell.data).value;
      var added := CodeDeps(members);
      forall m | m in members
        ensures CellDep(m, Code) in added
      {
        var k :| 0 <= k < |members| && members[k] == m;
        assert added[k] == CellDep(m, Code);
      }
    } else {
      GroupMembers(codec, mocks[..|mocks| - 1], i);
    }
  }

  lemma {:induction false} GroupOf(codec: Codec, mocks: seq<MockCellDep>, dep: CellDep) returns (i: nat)
    requires GroupDeps(codec, mocks).Some? && dep in GroupDeps(codec, mocks).value
    ensures dep.depType.Code? && i < |mocks| && mocks[i].cellDep.depType.DepGroup?
    ensures codec.outPoints(mocks[i].cell.data).Some? && dep.outPoint in codec.outPoints(mocks[i].cell.data).value
  {
    var init, last := mocks[..|mocks| - 1], mocks[|mocks| - 1];
    if dep in GroupDeps(codec, init).value {
      i := GroupOf(codec, init, dep);
    } else {
      i := |mocks| - 1;
      var members := ParseDepGroupData(codec, last.cell.data).value;
      assert dep in CodeDeps(members);
    }
  }

  lemma {:induction false} MockOf(codec: Codec, tx: MockTx, dep: CellDep) returns (i: nat)
    requires Acceptable(codec, tx)
    requires dep in tx.cellDeps || dep in GroupDeps(codec, tx.mockDeps).value
    ensures i < |tx.mockDeps| && tx.mockDeps[i].cellDep == dep
  {
    assert dep in tx.cellDeps + GroupDeps(codec, tx.mockDeps).value;
    assert dep in multiset(tx.cellDeps + GroupDeps(codec, tx.mockDeps).value);
    assert dep in MockCellDeps(tx);
    i :| 0 <= i < |tx.mockDeps| && MockCellDeps(tx)[i] == dep;
  }

  /** In an accepted transaction every dep needs nothing but mock cells. */
  lemma {:induction false} AcceptedResolvable(codec: Codec, tx: MockTx, dep: CellDep)
    requires Acceptable(codec, tx) && DistinctOutPoints(tx.mockDeps) && dep in tx.cellDeps
    ensures Resolvable(codec, tx, dep)
  {
    var i := MockOf(codec, tx, dep);
    FirstDepIs(tx.mockDeps, i);
    if dep.depType.DepGroup? {
      GroupMembers(codec, tx.mockDeps, i);
      forall m | m in codec.outPoints(tx.mockDeps[i].cell.data).value
        ensures FirstDep(tx.mockDeps, m).Some?
      {
        var j := MockOf(codec, tx, CellDep(m, Code));
        FirstDepIs(tx.mockDeps, j);
      }
    }
  }

  /** Conversely every mock dep is wanted: it is a dep, or a member of one. */
  lemma {:induction false} MockIsWanted(codec: Codec, tx: MockTx, live: OutPoint -> Option<Cell>, i: nat)
    requires Acceptable(codec, tx) && DistinctOutPoints(tx.mockDeps) && i < |tx.mockDeps|
    ensures tx.mockDeps[i].cellDep.outPoint in AllKeys(codec, tx, live, tx.cellDeps)
  {
    var dep := WantedAs(codec, tx, i);
    if dep in tx.cellDeps {
      KeysIn(codec, tx, live, tx.cellDeps, dep);
    } else {
      var j := GroupOf(codec, tx.mockDeps, dep);
      var group := WantedAs(codec, tx, j);
      if group !in tx.cellDeps {
        var k := GroupOf(codec, tx.mockDeps, group);
      }
      FirstDepIs(tx.mockDeps, j);
      KeysIn(codec, tx, live, tx.cellDeps, group);
    }
  }

  lemma {:induction false} WantedAs(codec: Codec, tx: MockTx, i: nat) returns (dep: CellDep)
    requires Acceptable(codec, tx) && i < |tx.mockDeps|
    ensures dep == tx.mockDeps[i].cellDep
    ensures dep in tx.cellDeps || dep in GroupDeps(codec, tx.mockDeps).value
  {
    dep := tx.mockDeps[i].cellDep;
    assert MockCellDeps(tx)[i] == dep;
    assert dep in multiset(MockCellDeps(tx));
    assert dep in tx.cellDeps + GroupDeps(codec, tx.mockDeps).value;
  }

  function MockOutPoints(tx: MockTx): set<OutPoint> {
    (set m <- tx.mockInputs :: m.input.previousOutput) + set m <- tx.mockDeps :: m.cellDep.outPoint
  }

  lemma {:induction false} AcceptedKeys(codec: Codec, tx: MockTx, live: OutPoint -> Option<Cell>)
    requires Acceptable(codec, tx) && DistinctOutPoints(tx.mockDeps)
    ensures AllKeys(codec, tx, live, tx.cellDeps) == set m <- tx.mockDeps :: m.cellDep.outPoint
  {
    forall key | key in AllKeys(codec, tx, live, tx.cellDeps)
      ensures exists m <- tx.mockDeps :: m.cellDep.outPoint == key
    {
      var dep := KeysFrom(codec, tx, live, tx.cellDeps, key);
      AcceptedResolvable(codec, tx, dep);
      assert FirstDep(tx.mockDeps, key).Some?;
    }
    forall m | m in tx.mockDeps
      ensures m.cellDep.outPoint in AllKeys(codec, tx, live, tx.cellDeps)
    {
      var i :| 0 <= i < |tx.mockDeps| && tx.mockDeps[i] == m;
      MockIsWanted(codec, tx, live, i);
    }
  }

  lemma {:induction false} AcceptedInputs(codec: Codec, tx: MockTx)
    requires Acceptable(codec, tx)
    ensures forall input <- tx.inputs :: FirstInput(tx.mockInputs, input).Some?
    ensures (set input <- tx.inputs :: input.previousOutput) == set m <- tx.mockInputs :: m.input.previousOutput
  {
    forall input | input in tx.inputs
      ensures exists m <- tx.mockInputs :: m.input == input
    {
      var i :| 0 <= i < |tx.inputs| && tx.inputs[i] == input;
      assert MockCellInputs(tx)[i] == tx.mockInputs[i].input;
      assert tx.mockInputs[i] in tx.mockInputs;
    }
    forall m | m in tx.mockInputs
      ensures m.input in tx.inputs
    {
      var i :| 0 <= i < |tx.mockInputs| && tx.mockInputs[i] == m;
      assert MockCellInputs(tx)[i] == tx.inputs[i];
    }
  }

  /**
    An accepted transaction is resolved without asking the loader for anything, whatever the loader
    would say, exactly when every dep finds its cell, its group and its members among the mock cells
    that come first for their out-points, and every header it names is mocked.
  */
  lemma {:induction false} AcceptedResolvesIff(codec: Codec, tx: MockTx, answers: Answers)
    requires Acceptable(codec, tx)
    ensures Silent(Cells(codec, tx, answers.cell)) && HeadersSilent(Headers(tx, answers.header)) <==>
            && (forall dep <- tx.cellDeps :: Resolvable(codec, tx, dep))
            && (forall h <- tx.headerDeps :: h in tx.mockHeaders)
  {
    AcceptedInputs(codec, tx);
    ResolvesAloneIff(codec, tx, answers);
  }

  /**
    In particular when the mock deps have distinct out-points. The cells are then exactly the mock
    cells: each mock dep's own cell at its out-point, and a mock input's at its out-point unless a dep
    has the same, or another mock input.
  */
  lemma {:induction false} AcceptedResolves(codec: Codec, tx: MockTx, live: OutPoint -> Option<Cell>)
    requires Acceptable(codec, tx) && DistinctOutPoints(tx.mockDeps)
    ensures Silent(Cells(codec, tx, live)) && forall dep <- tx.cellDeps :: Resolvable(codec, tx, dep)
    ensures HoldsMocks(tx, Cells(codec, tx, live).cells)
  {
    var start := Progress(map[], [], true);
    forall dep | dep in tx.cellDeps
      ensures Resolvable(codec, tx, dep)
    {
      AcceptedResolvable(codec, tx, dep);
    }
    AcceptedInputs(codec, tx);
    InputsSilentIff(tx, live, start, tx.inputs);
    var inputs := AddInputs(tx, live, start, tx.inputs);
    DepsSilentIff(codec, tx, live, inputs, tx.cellDeps);
    DepsTaken(codec, tx, live, inputs, tx.cellDeps);
    InputKeys(tx, live);
    AcceptedKeys(codec, tx, live);
    DepsHold(tx, live, inputs.cells, Cells(codec, tx, live).cells);
    forall i | 0 <= i < |tx.mockInputs| && OnlyInput(tx, i)
      ensures HoldsInput(tx, Cells(codec, tx, live).cells, i)
    {
      InputHolds(codec, tx, live, i);
    }
  }

  predicate HoldsDep(tx: MockTx, cells: map<OutPoint, Meta>, i: nat)
    requires i < |tx.mockDeps|
  {
    var o := tx.mockDeps[i].cellDep.outPoint;
    o in cells && cells[o] == Meta(o, tx.mockDeps[i].cell)
  }

  predicate HoldsInput(tx: MockTx, cells: map<OutPoint, Meta>, i: nat)
    requires i < |tx.mockInputs|
  {
    var o := tx.mockInputs[i].input.previousOutput;
    o in cells && cells[o] == Meta(o, tx.mockInputs[i].cell)
  }

  /** No mock dep and no other mock input has this one's out-point. */
  predicate OnlyInput(tx: MockTx, i: nat)
    requires i < |tx.mockInputs|
  {
    var o := tx.mockInputs[i].input.previousOutput;
    && (forall m <- tx.mockDeps :: m.cellDep.outPoint != o)
    && (forall j :: 0 <= j < |tx.mockInputs| && j != i ==> tx.mockInputs[j].input.previousOutput != o)
  }

  predicate HoldsMocks(tx: MockTx, cells: map<OutPoint, Meta>) {
    && cells.Keys == MockOutPoints(tx)
    && (forall i :: 0 <= i < |tx.mockDeps| ==> HoldsDep(tx, cells, i))
    && (forall i :: 0 <= i < |tx.mockInputs| && OnlyInput(tx, i) ==> HoldsInput(tx, cells, i))
  }

  lemma {:induction false} InputKeys(tx: MockTx, live: OutPoint -> Option<Cell>)
    requires AddInputs(tx, live, Progress(map[], [], true), tx.inputs).ok
    ensures AddInputs(tx, live, Progress(map[], [], true), tx.inputs).cells.Keys
            == set input <- tx.inputs :: input.previousOutput
  {
    forall o: OutPoint
      ensures o in AddInputs(tx, live, Progress(map[], [], true), tx.inputs).cells <==> HasInput(tx.inputs, o)
    {
      InputTaken(tx, live, tx.inputs, o);
    }
  }

  lemma {:induction false} DepsHold(tx: MockTx, live: OutPoint -> Option<Cell>, before: map<OutPoint, Meta>,
      after: map<OutPoint, Meta>)
    requires DistinctOutPoints(tx.mockDeps)
    requires Overlaid(tx, live, before, after, set m <- tx.mockDeps :: m.cellDep.outPoint)
    ensures forall i :: 0 <= i < |tx.mockDeps| ==> HoldsDep(tx, after, i)
  {
    forall i | 0 <= i < |tx.mockDeps|
      ensures HoldsDep(tx, after, i)
    {
      FirstDepIs(tx.mockDeps, i);
      assert tx.mockDeps[i] in tx.mockDeps;
    }
  }

  lemma {:induction false} OnlyCell(tx: MockTx, i: nat, input: CellInput)
    requires i < |tx.mockInputs| && OnlyInput(tx, i) && FirstInput(tx.mockInputs, input).Some?
    requires input.previousOutput == tx.mockInputs[i].input.previousOutput
    ensures FirstInput(tx.mockInputs, input) == Some(tx.mockInputs[i].cell)
  {
    var m :| m in tx.mockInputs && m.input == input && FirstInput(tx.mockInputs, input) == Some(m.cell);
    var j :| 0 <= j < |tx.mockInputs| && tx.mockInputs[j] == m;
    assert j == i;
  }

  lemma {:induction false} InputHolds(codec: Codec, tx: MockTx, live: OutPoint -> Option<Cell>, i: nat)
    requires Acceptable(codec, tx) && i < |tx.mockInputs| && OnlyInput(tx, i)
    requires var inputs := AddInputs(tx, live, Progress(map[], [], true), tx.inputs).cells;
             Overlaid(tx, live, inputs, Cells(codec, tx, live).cells, set m <- tx.mockDeps :: m.cellDep.outPoint)
    ensures HoldsInput(tx, Cells(codec, tx, live).cells, i)
  {
    var start := Progress(map[], [], true);
    var o := tx.mockInputs[i].input.previousOutput;
    AcceptedInputs(codec, tx);
    InputsSilentIff(tx, live, start, tx.inputs);
    assert MockCellInputs(tx)[i] == tx.inputs[i] && tx.inputs[i] in tx.inputs;
    InputTaken(tx, live, tx.inputs, o);
    var k := InputHeld(tx, live, tx.inputs, o);
    OnlyCell(tx, i, tx.inputs[k]);
  }

  /**
    With two mock deps for one out-point, of which the first is a decoy, an accepted transaction may
    still send the resolver to the loader, whatever the codec.
  */
  lemma {:induction false} DuplicateMisleads(codec: Codec, data: seq<byte>, decoy: seq<byte>, a: OutPoint, b: OutPoint,
                                             c: OutPoint)
      returns (tx: MockTx)
    requires data != [] && codec.outPoints(data) == Some([b]) && codec.outPoints(decoy) == Some([c])
    requires a != b && b != c && a != c
    ensures Acceptable(codec, tx) && !DistinctOutPoints(tx.mockDeps)
    ensures forall live :: Cells(codec, tx, live).asked != []
  {
    var code, group, member := CellDep(a, Code), CellDep(a, DepGroup), CellDep(b, Code);
    var mocks := [MockCellDep(code, Cell([], decoy, None)), MockCellDep(group, Cell([], data, None)),
                  MockCellDep(member, Cell([], [], None))];
    tx := MockTx([], mocks, [], [], [code, group], []);
    GroupsOf(codec, mocks, b);
    assert MockCellDeps(tx) == [code, group, member];
    assert tx.cellDeps + [member] == [code, group, member];
    assert MockCellInputs(tx) == [];
    assert mocks[0].cellDep.outPoint == mocks[1].cellDep.outPoint;
    forall live: OutPoint -> Option<Cell>
      ensures Cells(codec, tx, live).asked != []
    {
      DecoyAsked(codec, tx, live, a, c);
    }
  }

  lemma {:induction false} GroupsOf(codec: Codec, mocks: seq<MockCellDep>, b: OutPoint)
    requires |mocks| == 3 && mocks[0].cellDep.depType.Code?
    requires mocks[1].cellDep.depType.DepGroup? && mocks[2].cellDep.depType.Code?
    requires mocks[1].cell.data != [] && codec.outPoints(mocks[1].cell.data) == Some([b])
    ensures GroupDeps(codec, mocks) == Some([CellDep(b, Code)])
  {
    var one, two := mocks[..1], mocks[..2];
    assert one[..|one| - 1] == [] && GroupDeps(codec, one) == Some([]);
    assert two[..|two| - 1] == one && two[|two| - 1] == mocks[1];
    var none: seq<CellDep> := [];
    assert none + CodeDeps([b]) == CodeDeps([b]) == [CellDep(b, Code)];
    assert ParseDepGroupData(codec, mocks[1].cell.data) == Some([b]);
    assert GroupDeps(codec, two) == Some([CellDep(b, Code)]);
  }

  /** A dep of the group is looked up under the first mock cell, whose data name something else. */
  lemma {:induction false} DecoyAsked(codec: Codec, tx: MockTx, live: OutPoint -> Option<Cell>, a: OutPoint,
      c: OutPoint)
    requires tx.inputs == [] && tx.cellDeps == [CellDep(a, Code), CellDep(a, DepGroup)]
    requires FirstDep(tx.mockDeps, a).Some? && FirstDep(tx.mockDeps, c).None?
    requires codec.outPoints(FirstDep(tx.mockDeps, a).value.data) == Some([c])
    ensures Cells(codec, tx, live).asked == [c]
  {
    var start := Progress(map[], [], true);
    var deps := tx.cellDeps;
    var first := deps[..1];
    assert first[..|first| - 1] == [] && first[|first| - 1] == deps[0];
    assert AddDeps(codec, tx, live, start, []) == start;
    var one := AddDeps(codec, tx, live, start, first);
    assert one == AddDep(codec, tx, live, start, deps[0]);
    assert one.ok && one.asked == [];
    var members := [c];
    assert members[..0] == [];
    assert AddMembers(tx, live, one, members).asked == [c];
  }

  /**
    Header deps are only counted: a transaction may be accepted without the header that it names, and
    the loader is then asked for it.
  */
  lemma {:induction false} HeadersOnlyCounted(codec: Codec, h: Hash, other: Hash) returns (tx: MockTx)
    requires h != other
    ensures Acceptable(codec, tx) && forall dep <- tx.cellDeps :: Resolvable(codec, tx, dep)
    ensures forall live :: Headers(tx, live).asked == [h]
  {
    tx := MockTx([], [], [other], [], [], [h]);
    assert MockCellDeps(tx) == [] && MockCellInputs(tx) == [];
    forall live: Hash -> Option<Hash>
      ensures Headers(tx, live).asked == [h]
    {
      assert AddHeaders(tx, live, [h][..0]).asked == [];
    }
  }
}
