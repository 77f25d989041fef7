/** What a resolved transaction holds, whatever the loader says. */
module TxTaken {
  import opened Options
  import opened TxCheck
  import opened TxResource

  function DepCell(tx: MockTx, live: OutPoint -> Option<Cell>, o: OutPoint): Option<Cell> {
    LookUp(live, FirstDep(tx.mockDeps, o), o)
  }

  function InputCell(tx: MockTx, live: OutPoint -> Option<Cell>, input: CellInput): Option<Cell> {
    LookUp(live, FirstInput(tx.mockInputs, input), input.previousOutput)
  }

  // ---------------------------------------------------------------- inputs

  /** The input that decides about `o`: the last with this out-point. */
  predicate IsLastInput(inputs: seq<CellInput>, o: OutPoint, k: nat) {
    && k < |inputs| && inputs[k].previousOutput == o
    && forall j :: k < j < |inputs| ==> inputs[j].previousOutput != o
  }

  predicate HasInput(inputs: seq<CellInput>, o: OutPoint) {
    exists input <- inputs :: input.previousOutput == o
  }

  lemma {:induction false} HasInputSnoc(init: seq<CellInput>, last: CellInput, o: OutPoint)
    ensures HasInput(init + [last], o) <==> HasInput(init, o) || last.previousOutput == o
  {
    assert last in init + [last];
  }

  lemma {:induction false} InputTaken(tx: MockTx, live: OutPoint -> Option<Cell>, inputs: seq<CellInput>, o: OutPoint)
    requires AddInputs(tx, live, Progress(map[], [], true), inputs).ok
    ensures o in AddInputs(tx, live, Progress(map[], [], true), inputs).cells <==> HasInput(inputs, o)
  {
    if inputs != [] {
      var init, last := inputs[..|inputs| - 1], inputs[|inputs| - 1];
      assert inputs == init + [last];
      InputTaken(tx, live, init, o);
      HasInputSnoc(init, last, o);
    }
  }

  lemma {:induction false} InputHeld(tx: MockTx, live: OutPoint -> Option<Cell>, inputs: seq<CellInput>, o: OutPoint)
      returns (k: nat)
    requires AddInputs(tx, live, Progress(map[], [], true), inputs).ok
    requires o in AddInputs(tx, live, Progress(map[], [], true), inputs).cells
    ensures IsLastInput(inputs, o, k) && InputCell(tx, live, inputs[k]).Some?
    ensures AddInputs(tx, live, Progress(map[], [], true), inputs).cells[o]
            == Meta(o, InputCell(tx, live, inputs[k]).value)
  {
    var init, last := inputs[..|inputs| - 1], inputs[|inputs| - 1];
    k := |inputs| - 1;
    if last.previousOutput != o {
      k := InputHeld(tx, live, init, o);
    }
  }

  lemma {:induction false} InputsOkIff(tx: MockTx, live: OutPoint -> Option<Cell>, p: Progress, inputs: seq<CellInput>)
    ensures AddInputs(tx, live, p, inputs).ok <==>
            p.ok && forall input <- inputs :: InputCell(tx, live, input).Some?
  {
    if inputs != [] {
      var init, last := inputs[..|inputs| - 1], inputs[|inputs| - 1];
      assert inputs == init + [last];
      InputsOkIff(tx, live, p, init);
      assert forall input :: input in inputs <==> input in init || input == last;
      assert AddInputs(tx, live, p, inputs).ok <==> AddInputs(tx, live, p, init).ok && InputCell(tx, live, last).Some?;
    }
  }

  // ---------------------------------------------------------------- deps

  /** `after` has the cells of deps at `keys`, and is otherwise like `before`. */
  ghost predicate Overlaid(tx: MockTx, live: OutPoint -> Option<Cell>, before: map<OutPoint, Meta>,
      after: map<OutPoint, Meta>, keys: set<OutPoint>) {
    && after.Keys == before.Keys + keys
    && (forall o <- keys :: DepCell(tx, live, o).Some? && after[o] == Meta(o, DepCell(tx, live, o).value))
    && (forall o <- before :: o !in keys ==> after[o] == before[o])
  }

  lemma {:induction false} OverlaidTwice(tx: MockTx, live: OutPoint -> Option<Cell>, a: map<OutPoint, Meta>,
      b: map<OutPoint, Meta>, c: map<OutPoint, Meta>, some: set<OutPoint>, more: set<OutPoint>)
    requires Overlaid(tx, live, a, b, some) && Overlaid(tx, live, b, c, more)
    ensures Overlaid(tx, live, a, c, some + more)
  {
  }

  lemma {:induction false} OverlaidOne(tx: MockTx, live: OutPoint -> Option<Cell>, cells: map<OutPoint, Meta>,
      o: OutPoint)
    requires DepCell(tx, live, o).Some?
    ensures Overlaid(tx, live, cells, cells[o := Meta(o, DepCell(tx, live, o).value)], {o})
  {
  }

  lemma {:induction false} OverlaidSnoc(tx: MockTx, live: OutPoint -> Option<Cell>, a: map<OutPoint, Meta>,
      b: map<OutPoint, Meta>, c: map<OutPoint, Meta>, init: seq<OutPoint>, last: OutPoint)
    requires Overlaid(tx, live, a, b, set m | m in init) && Overlaid(tx, live, b, c, {last})
    ensures Overlaid(tx, live, a, c, set m | m in init + [last])
  {
    OverlaidTwice(tx, live, a, b, c, set m | m in init, {last});
    assert (set m | m in init + [last]) == (set m | m in init) + {last};
  }

  lemma {:induction false} MembersTaken(tx: MockTx, live: OutPoint -> Option<Cell>, p: Progress,
      members: seq<OutPoint>)
    requires AddMembers(tx, live, p, members).ok
    ensures p.ok && Overlaid(tx, live, p.cells, AddMembers(tx, live, p, members).cells, set m | m in members)
  {
    if members != [] {
      var init, last := members[..|members| - 1], members[|members| - 1];
      assert members == init + [last];
      MembersTaken(tx, live, p, init);
      var q := AddMembers(tx, live, p, init);
      OverlaidOne(tx, live, q.cells, last);
      OverlaidSnoc(tx, live, p.cells, q.cells, AddMembers(tx, live, p, members).cells, init, last);
    }
  }

  lemma {:induction false} MembersOkIff(tx: MockTx, live: OutPoint -> Option<Cell>, p: Progress,
      members: seq<OutPoint>)
    ensures AddMembers(tx, live, p, members).ok <==> p.ok && forall m <- members :: DepCell(tx, live, m).Some?
  {
    if members != [] {
      var init, last := members[..|members| - 1], members[|members| - 1];
      assert members == init + [last];
      MembersOkIff(tx, live, p, init);
      assert forall m :: m in members <==> m in init || m == last;
      assert AddMembers(tx, live, p, members).ok <==> AddMembers(tx, live, p, init).ok && DepCell(tx, live, last).Some?;
    }
  }

  /** The members of a dep whose cell has these data, if they can be read. */
  function MembersIn(codec: Codec, dep: CellDep, cell: Cell): Option<seq<OutPoint>> {
    if dep.depType.Code? then Some([]) else codec.outPoints(cell.data)
  }

  /** The out-points that a dep stands for: its own and those of its members. */
  function KeysOf(codec: Codec, tx: MockTx, live: OutPoint -> Option<Cell>, dep: CellDep): set<OutPoint> {
    var cell := DepCell(tx, live, dep.outPoint);
    var members := if cell.None? then None else MembersIn(codec, dep, cell.value);
    {dep.outPoint} + if members.Some? then set m | m in members.value else {}
  }

  function AllKeys(codec: Codec, tx: MockTx, live: OutPoint -> Option<Cell>, deps: seq<CellDep>): set<OutPoint> {
    if deps == [] then {}
    else AllKeys(codec, tx, live, deps[..|deps| - 1]) + KeysOf(codec, tx, live, deps[|deps| - 1])
  }

  lemma {:induction false} DepTaken(codec: Codec, tx: MockTx, live: OutPoint -> Option<Cell>, p: Progress,
      dep: CellDep)
    requires AddDep(codec, tx, live, p, dep).ok
    ensures p.ok
    ensures Overlaid(tx, live, p.cells, AddDep(codec, tx, live, p, dep).cells, KeysOf(codec, tx, live, dep))
  {
    var q, cell := AddDep(codec, tx, live, p, dep), DepCell(tx, live, dep.outPoint).value;
    var members := MembersIn(codec, dep, cell).value;
    var start := Progress(p.cells, Asked(p, FirstDep(tx.mockDeps, dep.outPoint), dep.outPoint), true);
    var r := AddMembers(tx, live, start, members);
    MembersTaken(tx, live, start, members);
    OverlaidOne(tx, live, r.cells, dep.outPoint);
    OverlaidTwice(tx, live, p.cells, r.cells, q.cells, set m | m in members, {dep.outPoint});
    assert KeysOf(codec, tx, live, dep) == (set m | m in members) + {dep.outPoint};
  }

  lemma {:induction false} DepsTaken(codec: Codec, tx: MockTx, live: OutPoint -> Option<Cell>, p: Progress,
      deps: seq<CellDep>)
    requires AddDeps(codec, tx, live, p, deps).ok
    ensures p.ok
    ensures Overlaid(tx, live, p.cells, AddDeps(codec, tx, live, p, deps).cells, AllKeys(codec, tx, live, deps))
  {
    if deps != [] {
      var init, last := deps[..|deps| - 1], deps[|deps| - 1];
      var q := AddDeps(codec, tx, live, p, init);
      DepTaken(codec, tx, live, q, last);
      DepsTaken(codec, tx, live, p, init);
      OverlaidTwice(tx, live, p.cells, q.cells, AddDeps(codec, tx, live, p, deps).cells,
                    AllKeys(codec, tx, live, init), KeysOf(codec, tx, live, last));
    }
  }

  lemma {:induction false} KeysIn(codec: Codec, tx: MockTx, live: OutPoint -> Option<Cell>, deps: seq<CellDep>,
      dep: CellDep)
    requires dep in deps
    ensures KeysOf(codec, tx, live, dep) <= AllKeys(codec, tx, live, deps)
  {
    if deps[|deps| - 1] != dep {
      KeysIn(codec, tx, live, deps[..|deps| - 1], dep);
    }
  }

  lemma {:induction false} KeysFrom(codec: Codec, tx: MockTx, live: OutPoint -> Option<Cell>, deps: seq<CellDep>,
      key: OutPoint) returns (dep: CellDep)
    requires key in AllKeys(codec, tx, live, deps)
    ensures dep in deps && key in KeysOf(codec, tx, live, dep)
  {
    dep := deps[|deps| - 1];
    if key !in KeysOf(codec, tx, live, dep) {
      dep := KeysFrom(codec, tx, live, deps[..|deps| - 1], key);
    }
  }

  /** A dep that the mock cells and the loader are enough for. */
  predicate Obtainable(codec: Codec, tx: MockTx, live: OutPoint -> Option<Cell>, dep: CellDep) {
    var cell := DepCell(tx, live, dep.outPoint);
    && cell.Some? && MembersIn(codec, dep, cell.value).Some?
    && forall m <- MembersIn(codec, dep, cell.value).value :: DepCell(tx, live, m).Some?
  }

  lemma {:induction false} DepOkIff(codec: Codec, tx: MockTx, live: OutPoint -> Option<Cell>, p: Progress,
      dep: CellDep)
    ensures AddDep(codec, tx, live, p, dep).ok <==> p.ok && Obtainable(codec, tx, live, dep)
  {
    var cell := DepCell(tx, live, dep.outPoint);
    var start := Progress(p.cells, Asked(p, FirstDep(tx.mockDeps, dep.outPoint), dep.outPoint), true);
    if p.ok && cell.Some? && MembersIn(codec, dep, cell.value).Some? {
      MembersOkIff(tx, live, start, MembersIn(codec, dep, cell.value).value);
    }
  }

  lemma {:induction false} DepsOkIff(codec: Codec, tx: MockTx, live: OutPoint -> Option<Cell>, p: Progress,
      deps: seq<CellDep>)
    ensures AddDeps(codec, tx, live, p, deps).ok <==>
            p.ok && forall dep <- deps :: Obtainable(codec, tx, live, dep)
  {
    if deps != [] {
      var init, last := deps[..|deps| - 1], deps[|deps| - 1];
      assert deps == init + [last];
      DepsOkIff(codec, tx, live, p, init);
      DepOkIff(codec, tx, live, AddDeps(codec, tx, live, p, init), last);
    }
  }

  // ---------------------------------------------------------------- headers

  lemma {:induction false} HeadersTaken(tx: MockTx, live: Hash -> Option<Hash>, hashes: seq<Hash>)
    ensures var p := AddHeaders(tx, live, hashes);
            && (p.ok <==> forall h <- hashes :: h in tx.mockHeaders || live(h).Some?)
            && (p.ok ==>
                p.headers.Keys == (set h | h in hashes) && forall h <- p.headers :: HeaderTaken(tx, live, p, h))
  {
    if hashes != [] {
      var init, last := hashes[..|hashes| - 1], hashes[|hashes| - 1];
      assert hashes == init + [last];
      HeadersTaken(tx, live, init);
    }
  }

  /** A mock header stands for itself, any other is the loader's. */
  predicate HeaderTaken(tx: MockTx, live: Hash -> Option<Hash>, p: HeaderProgress, h: Hash)
    requires h in p.headers
  {
    if h in tx.mockHeaders then p.headers[h] == h else live(h) == Some(p.headers[h])
  }

  // ---------------------------------------------------------------- all of it

  /** `o` is a dep of the transaction, or a member of one that is a group. */
  ghost predicate Wanted(codec: Codec, tx: MockTx, live: OutPoint -> Option<Cell>, o: OutPoint) {
    exists dep <- tx.cellDeps :: dep.outPoint == o || IsMember(codec, tx, live, dep, o)
  }

  ghost predicate IsMember(codec: Codec, tx: MockTx, live: OutPoint -> Option<Cell>, dep: CellDep, o: OutPoint) {
    && dep.depType.DepGroup?
    && exists cell :: IsDepCell(tx, live, dep.outPoint, cell) && Lists(codec, cell, o)
  }

  predicate Lists(codec: Codec, cell: Cell, o: OutPoint) {
    codec.outPoints(cell.data).Some? && o in codec.outPoints(cell.data).value
  }

  lemma {:induction false} KeyIff(codec: Codec, tx: MockTx, live: OutPoint -> Option<Cell>, dep: CellDep, o: OutPoint)
    ensures o in KeysOf(codec, tx, live, dep) <==> dep.outPoint == o || IsMember(codec, tx, live, dep, o)
  {
    var cell := DepCell(tx, live, dep.outPoint);
    if cell.Some? {
      DepCellIff(tx, live, dep.outPoint, cell.value);
    }
    forall c | IsDepCell(tx, live, dep.outPoint, c)
      ensures cell == Some(c)
    {
      DepCellIff(tx, live, dep.outPoint, c);
    }
  }

  lemma {:induction false} WantedIff(codec: Codec, tx: MockTx, live: OutPoint -> Option<Cell>, o: OutPoint)
    ensures o in AllKeys(codec, tx, live, tx.cellDeps) <==> Wanted(codec, tx, live, o)
  {
    if o in AllKeys(codec, tx, live, tx.cellDeps) {
      var dep := KeysFrom(codec, tx, live, tx.cellDeps, o);
      KeyIff(codec, tx, live, dep, o);
    }
    if Wanted(codec, tx, live, o) {
      var dep :| dep in tx.cellDeps && (dep.outPoint == o || IsMember(codec, tx, live, dep, o));
      KeyIff(codec, tx, live, dep, o);
      KeysIn(codec, tx, live, tx.cellDeps, dep);
    }
  }

  /** The cell at a dep's or a member's out-point; another one is that of the last input with the out-point. */
  ghost predicate CellTaken(codec: Codec, tx: MockTx, live: OutPoint -> Option<Cell>, cells: map<OutPoint, Meta>,
      o: OutPoint)
  {
    && (o in cells <==> Wanted(codec, tx, live, o) || HasInput(tx.inputs, o))
    && (o in cells ==>
        && cells[o].outPoint == o
        && if Wanted(codec, tx, live, o) then IsDepCell(tx, live, o, cells[o].cell)
           else exists k: nat :: IsLastInput(tx.inputs, o, k) && IsInputCell(tx, live, tx.inputs[k], cells[o].cell))
  }

  lemma {:induction false} CellIsTaken(codec: Codec, tx: MockTx, live: OutPoint -> Option<Cell>, o: OutPoint)
    requires Cells(codec, tx, live).ok
    ensures CellTaken(codec, tx, live, Cells(codec, tx, live).cells, o)
  {
    var inputs := AddInputs(tx, live, Progress(map[], [], true), tx.inputs);
    var cells := Cells(codec, tx, live).cells;
    DepsTaken(codec, tx, live, inputs, tx.cellDeps);
    WantedIff(codec, tx, live, o);
    InputTaken(tx, live, tx.inputs, o);
    if Wanted(codec, tx, live, o) {
      DepCellIff(tx, live, o, cells[o].cell);
    } else if o in cells {
      var k := InputHeld(tx, live, tx.inputs, o);
      InputCellIff(tx, live, tx.inputs[k], cells[o].cell);
    }
  }

  /**
    Whatever the loader says: the cells are there for exactly the inputs, the deps and the members of
    groups, deps over inputs; the headers for exactly the header deps.
  */
  lemma {:induction false} ResourceHolds(codec: Codec, tx: MockTx, answers: Answers)
    requires Resolved(Cells(codec, tx, answers.cell), Headers(tx, answers.header)).Some?
    ensures var r := Resolved(Cells(codec, tx, answers.cell), Headers(tx, answers.header)).value;
            && (forall o :: CellTaken(codec, tx, answers.cell, r.cells, o))
            && r.headers.Keys == (set h | h in tx.headerDeps)
            && forall h <- r.headers ::
                 if h in tx.mockHeaders then r.headers[h] == h else answers.header(h) == Some(r.headers[h])
  {
    forall o: OutPoint
      ensures CellTaken(codec, tx, answers.cell, Cells(codec, tx, answers.cell).cells, o)
    {
      CellIsTaken(codec, tx, answers.cell, o);
    }
    HeadersTaken(tx, answers.header, tx.headerDeps);
    var p := Headers(tx, answers.header);
    assert forall h <- p.headers :: HeaderTaken(tx, answers.header, p, h);
  }

  ghost predicate HasDepCell(tx: MockTx, live: OutPoint -> Option<Cell>, o: OutPoint) {
    exists cell :: IsDepCell(tx, live, o, cell)
  }

  ghost predicate HasInputCell(tx: MockTx, live: OutPoint -> Option<Cell>, input: CellInput) {
    exists cell :: IsInputCell(tx, live, input, cell)
  }

  /** The cell of a dep can be had, and if it is a group, its members can be read and had too. */
  ghost predicate CanBeHad(codec: Codec, tx: MockTx, live: OutPoint -> Option<Cell>, dep: CellDep) {
    exists cell ::
      && IsDepCell(tx, live, dep.outPoint, cell)
      && (dep.depType.DepGroup? ==>
          codec.outPoints(cell.data).Some? && forall m <- codec.outPoints(cell.data).value :: HasDepCell(tx, live, m))
  }

  lemma {:induction false} HasDepCellIff(tx: MockTx, live: OutPoint -> Option<Cell>, o: OutPoint)
    ensures DepCell(tx, live, o).Some? <==> HasDepCell(tx, live, o)
  {
    if DepCell(tx, live, o).Some? {
      DepCellIff(tx, live, o, DepCell(tx, live, o).value);
    }
    if HasDepCell(tx, live, o) {
      var cell :| IsDepCell(tx, live, o, cell);
      DepCellIff(tx, live, o, cell);
    }
  }

  lemma {:induction false} HasInputCellIff(tx: MockTx, live: OutPoint -> Option<Cell>, input: CellInput)
    ensures InputCell(tx, live, input).Some? <==> HasInputCell(tx, live, input)
  {
    if InputCell(tx, live, input).Some? {
      InputCellIff(tx, live, input, InputCell(tx, live, input).value);
    }
    if HasInputCell(tx, live, input) {
      var cell :| IsInputCell(tx, live, input, cell);
      InputCellIff(tx, live, input, cell);
    }
  }

  lemma {:induction false} ObtainableIff(codec: Codec, tx: MockTx, live: OutPoint -> Option<Cell>, dep: CellDep)
    ensures Obtainable(codec, tx, live, dep) <==> CanBeHad(codec, tx, live, dep)
  {
    var cell := DepCell(tx, live, dep.outPoint);
    if cell.Some? {
      DepCellIff(tx, live, dep.outPoint, cell.value);
      if dep.depType.DepGroup? && codec.outPoints(cell.value.data).Some? {
        forall m | m in codec.outPoints(cell.value.data).value
          ensures DepCell(tx, live, m).Some? <==> HasDepCell(tx, live, m)
        {
          HasDepCellIff(tx, live, m);
        }
      }
    }
    forall c | IsDepCell(tx, live, dep.outPoint, c)
      ensures cell == Some(c)
    {
      DepCellIff(tx, live, dep.outPoint, c);
    }
  }

  /** A resolution succeeds exactly when every cell and every header can be had. */
  lemma {:induction false} ResolvesIff(codec: Codec, tx: MockTx, answers: Answers)
    ensures Resolved(Cells(codec, tx, answers.cell), Headers(tx, answers.header)).Some? <==>
            && (forall input <- tx.inputs :: HasInputCell(tx, answers.cell, input))
            && (forall dep <- tx.cellDeps :: CanBeHad(codec, tx, answers.cell, dep))
            && (forall h <- tx.headerDeps :: h in tx.mockHeaders || answers.header(h).Some?)
  {
    var start := Progress(map[], [], true);
    InputsOkIff(tx, answers.cell, start, tx.inputs);
    DepsOkIff(codec, tx, answers.cell, AddInputs(tx, answers.cell, start, tx.inputs), tx.cellDeps);
    HeadersTaken(tx, answers.header, tx.headerDeps);
    forall input | input in tx.inputs
      ensures InputCell(tx, answers.cell, input).Some? <==> HasInputCell(tx, answers.cell, input)
    {
      HasInputCellIff(tx, answers.cell, input);
    }
    forall dep | dep in tx.cellDeps
      ensures Obtainable(codec, tx, answers.cell, dep) <==> CanBeHad(codec, tx, answers.cell, dep)
    {
      ObtainableIff(codec, tx, answers.cell, dep);
    }
  }
}
