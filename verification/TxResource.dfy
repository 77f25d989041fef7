/**
  The resolver of a mock transaction: every cell it needs is taken from the mock cells, or else
  asked of a loader.
*/
module TxResource {
  import opened Options
  import opened TxCheck

  datatype Meta = Meta(outPoint: OutPoint, cell: Cell)

  datatype Resource = Resource(cells: map<OutPoint, Meta>, headers: map<Hash, Hash>)

  /** The loader's answers: none is an error, or nothing found; either ends the resolution. */
  datatype Answers = Answers(cell: OutPoint -> Option<Cell>, header: Hash -> Option<Hash>)

  // ---------------------------------------------------------------- looking up

  function FirstInput(mocks: seq<MockInput>, input: CellInput): (r: Option<Cell>)
    ensures r.Some? <==> exists m <- mocks :: m.input == input
    ensures r.Some? ==> exists m <- mocks :: m.input == input && r == Some(m.cell)
  {
    if mocks == [] then None
    else if mocks[0].input == input then Some(mocks[0].cell)
    else FirstInput(mocks[1..], input)
  }

  function FirstDep(mocks: seq<MockCellDep>, outPoint: OutPoint): (r: Option<Cell>)
    ensures r.Some? <==> exists m <- mocks :: m.cellDep.outPoint == outPoint
    ensures r.Some? ==> exists m <- mocks :: m.cellDep.outPoint == outPoint && r == Some(m.cell)
  {
    if mocks == [] then None
    else if mocks[0].cellDep.outPoint == outPoint then Some(mocks[0].cell)
    else FirstDep(mocks[1..], outPoint)
  }

  /** How far a resolution has come: the cells so far, what the loader was asked, whether all went well. */
  datatype Progress = Progress(cells: map<OutPoint, Meta>, asked: seq<OutPoint>, ok: bool)

  /** The cell for `outPoint`: a mock cell, or what the loader says. */
  function LookUp(live: OutPoint -> Option<Cell>, found: Option<Cell>, outPoint: OutPoint): Option<Cell> {
    if found.Some? then found else live(outPoint)
  }

  /** The mock dep that counts for `o`: the first with this out-point. */
  predicate IsMockDep(tx: MockTx, o: OutPoint, i: nat) {
    && i < |tx.mockDeps| && tx.mockDeps[i].cellDep.outPoint == o
    && forall j :: 0 <= j < i ==> tx.mockDeps[j].cellDep.outPoint != o
  }

  predicate IsMockInput(tx: MockTx, input: CellInput, i: nat) {
    && i < |tx.mockInputs| && tx.mockInputs[i].input == input
    && forall j :: 0 <= j < i ==> tx.mockInputs[j].input != input
  }

  /** The cell of a dep, or of a member of one: that of the first mock dep, or what the loader says if there is none. */
  ghost predicate IsDepCell(tx: MockTx, live: OutPoint -> Option<Cell>, o: OutPoint, cell: Cell) {
    || (exists i: nat :: IsMockDep(tx, o, i) && tx.mockDeps[i].cell == cell)
    || ((forall m <- tx.mockDeps :: m.cellDep.outPoint != o) && live(o) == Some(cell))
  }

  /** A mock input is the same out-point and the same `since`; the loader is asked for the out-point. */
  ghost predicate IsInputCell(tx: MockTx, live: OutPoint -> Option<Cell>, input: CellInput, cell: Cell) {
    || (exists i: nat :: IsMockInput(tx, input, i) && tx.mockInputs[i].cell == cell)
    || ((forall m <- tx.mockInputs :: m.input != input) && live(input.previousOutput) == Some(cell))
  }

  lemma {:induction false} FirstDepAt(mocks: seq<MockCellDep>, o: OutPoint, i: nat)
    requires i < |mocks| && mocks[i].cellDep.outPoint == o
    requires forall j :: 0 <= j < i ==> mocks[j].cellDep.outPoint != o
    ensures FirstDep(mocks, o) == Some(mocks[i].cell)
  {
    if i > 0 {
      FirstDepAt(mocks[1..], o, i - 1);
    }
  }

  lemma {:induction false} FirstInputAt(mocks: seq<MockInput>, input: CellInput, i: nat)
    requires i < |mocks| && mocks[i].input == input
    requires forall j :: 0 <= j < i ==> mocks[j].input != input
    ensures FirstInput(mocks, input) == Some(mocks[i].cell)
  {
    if i > 0 {
      FirstInputAt(mocks[1..], input, i - 1);
    }
  }

  lemma {:induction false} MockDepOf(mocks: seq<MockCellDep>, o: OutPoint) returns (i: nat)
    requires exists m <- mocks :: m.cellDep.outPoint == o
    ensures i < |mocks| && mocks[i].cellDep.outPoint == o
    ensures forall j :: 0 <= j < i ==> mocks[j].cellDep.outPoint != o
  {
    i := 0;
    while mocks[i].cellDep.outPoint != o
      invariant i < |mocks| && exists m <- mocks[i..] :: m.cellDep.outPoint == o
      invariant forall j :: 0 <= j < i ==> mocks[j].cellDep.outPoint != o
      decreases |mocks| - i
    {
      i := i + 1;
    }
  }

  lemma {:induction false} MockInputOf(mocks: seq<MockInput>, input: CellInput) returns (i: nat)
    requires exists m <- mocks :: m.input == input
    ensures i < |mocks| && mocks[i].input == input
    ensures forall j :: 0 <= j < i ==> mocks[j].input != input
  {
    i := 0;
    while mocks[i].input != input
      invariant i < |mocks| && exists m <- mocks[i..] :: m.input == input
      invariant forall j :: 0 <= j < i ==> mocks[j].input != input
      decreases |mocks| - i
    {
      i := i + 1;
    }
  }

  lemma {:induction false} DepCellIff(tx: MockTx, live: OutPoint -> Option<Cell>, o: OutPoint, cell: Cell)
    ensures LookUp(live, FirstDep(tx.mockDeps, o), o) == Some(cell) <==> IsDepCell(tx, live, o, cell)
  {
    if exists m <- tx.mockDeps :: m.cellDep.outPoint == o {
      var i := MockDepOf(tx.mockDeps, o);
      FirstDepAt(tx.mockDeps, o, i);
      assert IsMockDep(tx, o, i) && forall j: nat :: IsMockDep(tx, o, j) ==> j == i;
    }
  }

  lemma {:induction false} InputCellIff(tx: MockTx, live: OutPoint -> Option<Cell>, input: CellInput, cell: Cell)
    ensures LookUp(live, FirstInput(tx.mockInputs, input), input.previousOutput) == Some(cell) <==>
            IsInputCell(tx, live, input, cell)
  {
    if exists m <- tx.mockInputs :: m.input == input {
      var i := MockInputOf(tx.mockInputs, input);
      FirstInputAt(tx.mockInputs, input, i);
      assert IsMockInput(tx, input, i) && forall j: nat :: IsMockInput(tx, input, j) ==> j == i;
    }
  }

  function Asked(p: Progress, found: Option<Cell>, outPoint: OutPoint): seq<OutPoint> {
    if found.Some? then p.asked else p.asked + [outPoint]
  }

  function Add(live: OutPoint -> Option<Cell>, p: Progress, found: Option<Cell>, outPoint: OutPoint): Progress {
    if !p.ok then p
    else
      var cell := LookUp(live, found, outPoint);
      Progress(if cell.Some? then p.cells[outPoint := Meta(outPoint, cell.value)] else p.cells,
               Asked(p, found, outPoint), cell.Some?)
  }

  function AddInputs(tx: MockTx, live: OutPoint -> Option<Cell>, p: Progress, inputs: seq<CellInput>): Progress {
    if inputs == [] then p
    else
      var init, last := AddInputs(tx, live, p, inputs[..|inputs| - 1]), inputs[|inputs| - 1];
      Add(live, init, FirstInput(tx.mockInputs, last), last.previousOutput)
  }

  function AddMembers(tx: MockTx, live: OutPoint -> Option<Cell>, p: Progress, members: seq<OutPoint>): Progress {
    if members == [] then p
    else
      var init, last := AddMembers(tx, live, p, members[..|members| - 1]), members[|members| - 1];
      Add(live, init, FirstDep(tx.mockDeps, last), last)
  }

  /** A dep whose cell is known: its members, if it is a group, and then itself. */
  function AddFound(codec: Codec, tx: MockTx, live: OutPoint -> Option<Cell>, p: Progress, dep: CellDep,
      cell: Cell): Progress {
    var members := if dep.depType.Code? then Some([]) else codec.outPoints(cell.data);
    if members.None? then p.(ok := false)
    else
      var q := AddMembers(tx, live, p, members.value);
      if !q.ok then q else q.(cells := q.cells[dep.outPoint := Meta(dep.outPoint, cell)])
  }

  function AddDep(codec: Codec, tx: MockTx, live: OutPoint -> Option<Cell>, p: Progress, dep: CellDep): Progress {
    if !p.ok then p
    else
      var found := FirstDep(tx.mockDeps, dep.outPoint);
      var cell, asked := LookUp(live, found, dep.outPoint), Asked(p, found, dep.outPoint);
      if cell.None? then Progress(p.cells, asked, false)
      else AddFound(codec, tx, live, Progress(p.cells, asked, true), dep, cell.value)
  }

  function AddDeps(codec: Codec, tx: MockTx, live: OutPoint -> Option<Cell>, p: Progress,
      deps: seq<CellDep>): Progress {
    if deps == [] then p
    else AddDep(codec, tx, live, AddDeps(codec, tx, live, p, deps[..|deps| - 1]), deps[|deps| - 1])
  }

  /** All cells of the transaction: the inputs, then the deps. */
  function Cells(codec: Codec, tx: MockTx, live: OutPoint -> Option<Cell>): Progress {
    AddDeps(codec, tx, live, AddInputs(tx, live, Progress(map[], [], true), tx.inputs), tx.cellDeps)
  }

  function FirstHeader(mocks: seq<Hash>, hash: Hash): (r: Option<Hash>)
    ensures r == if hash in mocks then Some(hash) else None
  {
    if mocks == [] then None
    else if mocks[0] == hash then Some(hash)
    else FirstHeader(mocks[1..], hash)
  }

  /** The same for headers. */
  datatype HeaderProgress = HeaderProgress(headers: map<Hash, Hash>, asked: seq<Hash>, ok: bool)

  function AddHeader(tx: MockTx, live: Hash -> Option<Hash>, p: HeaderProgress, hash: Hash): HeaderProgress {
    if !p.ok then p
    else
      var found := FirstHeader(tx.mockHeaders, hash);
      var header := if found.Some? then found else live(hash);
      HeaderProgress(if header.Some? then p.headers[hash := header.value] else p.headers,
                     if found.Some? then p.asked else p.asked + [hash], header.Some?)
  }

  function AddHeaders(tx: MockTx, live: Hash -> Option<Hash>, hashes: seq<Hash>): HeaderProgress {
    if hashes == [] then HeaderProgress(map[], [], true)
    else AddHeader(tx, live, AddHeaders(tx, live, hashes[..|hashes| - 1]), hashes[|hashes| - 1])
  }

  /** All headers of the transaction. */
  function Headers(tx: MockTx, live: Hash -> Option<Hash>): HeaderProgress {
    AddHeaders(tx, live, tx.headerDeps)
  }

  lemma {:induction false} HeadersFail(tx: MockTx, live: Hash -> Option<Hash>, hashes: seq<Hash>, n: nat)
    requires n <= |hashes| && !AddHeaders(tx, live, hashes[..n]).ok
    ensures AddHeaders(tx, live, hashes) == AddHeaders(tx, live, hashes[..n])
  {
    if n < |hashes| {
      assert hashes[..|hashes| - 1][..n] == hashes[..n];
      HeadersFail(tx, live, hashes[..|hashes| - 1], n);
    } else {
      assert hashes[..n] == hashes;
    }
  }

  lemma {:induction false} InputsFail(tx: MockTx, live: OutPoint -> Option<Cell>, p: Progress, inputs: seq<CellInput>,
      n: nat)
    requires n <= |inputs| && !AddInputs(tx, live, p, inputs[..n]).ok
    ensures AddInputs(tx, live, p, inputs) == AddInputs(tx, live, p, inputs[..n])
  {
    if n < |inputs| {
      assert inputs[..|inputs| - 1][..n] == inputs[..n];
      InputsFail(tx, live, p, inputs[..|inputs| - 1], n);
    } else {
      assert inputs[..n] == inputs;
    }
  }

  lemma {:induction false} MembersFail(tx: MockTx, live: OutPoint -> Option<Cell>, p: Progress,
      members: seq<OutPoint>, n: nat)
    requires n <= |members| && !AddMembers(tx, live, p, members[..n]).ok
    ensures AddMembers(tx, live, p, members) == AddMembers(tx, live, p, members[..n])
  {
    if n < |members| {
      assert members[..|members| - 1][..n] == members[..n];
      MembersFail(tx, live, p, members[..|members| - 1], n);
    } else {
      assert members[..n] == members;
    }
  }

  lemma {:induction false} DepsFail(codec: Codec, tx: MockTx, live: OutPoint -> Option<Cell>, p: Progress,
      deps: seq<CellDep>, n: nat)
    requires n <= |deps| && !AddDeps(codec, tx, live, p, deps[..n]).ok
    ensures AddDeps(codec, tx, live, p, deps) == AddDeps(codec, tx, live, p, deps[..n])
  {
    if n < |deps| {
      assert deps[..|deps| - 1][..n] == deps[..n];
      DepsFail(codec, tx, live, p, deps[..|deps| - 1], n);
    } else {
      assert deps[..n] == deps;
    }
  }

  /** What a resolution comes to: nothing if a cell or a header cannot be had. */
  function Resolved(cells: Progress, headers: HeaderProgress): Option<Resource> {
    if cells.ok && headers.ok then Some(Resource(cells.cells, headers.headers)) else None
  }

  // ---------------------------------------------------------------- when the loader is not asked

  /** The members that a dep brings with it when its cell is the mock one. */
  function MembersOf(codec: Codec, tx: MockTx, dep: CellDep): Option<seq<OutPoint>> {
    if dep.depType.Code? then Some([])
    else
      match FirstDep(tx.mockDeps, dep.outPoint)
      case None => None
      case Some(cell) => codec.outPoints(cell.data)
  }

  predicate AllMocked(tx: MockTx, members: seq<OutPoint>) {
    forall k :: 0 <= k < |members| ==> FirstDep(tx.mockDeps, members[k]).Some?
  }

  lemma {:induction false} AllMockedSnoc(tx: MockTx, init: seq<OutPoint>, last: OutPoint)
    ensures AllMocked(tx, init + [last]) <==> AllMocked(tx, init) && FirstDep(tx.mockDeps, last).Some?
  {
    var members := init + [last];
    assert members[|init|] == last;
    assert forall k :: 0 <= k < |init| ==> members[k] == init[k];
  }

  /** A dep that needs nothing but mock cells. */
  predicate Resolvable(codec: Codec, tx: MockTx, dep: CellDep) {
    && FirstDep(tx.mockDeps, dep.outPoint).Some?
    && MembersOf(codec, tx, dep).Some?
    && AllMocked(tx, MembersOf(codec, tx, dep).value)
  }

  /** A resolution that has gone well and has asked the loader nothing. */
  predicate Silent(p: Progress) {
    p.ok && p.asked == []
  }

  lemma {:induction false} AskedNothingIff(p: Progress, found: Option<Cell>, outPoint: OutPoint)
    ensures Asked(p, found, outPoint) == [] <==> p.asked == [] && found.Some?
  {
    assert |Asked(p, found, outPoint)| == |p.asked| + if found.Some? then 0 else 1;
  }

  lemma {:induction false} MembersSilentIff(tx: MockTx, live: OutPoint -> Option<Cell>, p: Progress,
      members: seq<OutPoint>)
    ensures Silent(AddMembers(tx, live, p, members)) <==>
            Silent(p) && AllMocked(tx, members)
  {
    if members != [] {
      var init, last := members[..|members| - 1], members[|members| - 1];
      assert members == init + [last];
      MembersSilentIff(tx, live, p, init);
      AskedNothingIff(AddMembers(tx, live, p, init), FirstDep(tx.mockDeps, last), last);
      AllMockedSnoc(tx, init, last);
    }
  }

  lemma {:induction false} DepSilentIff(codec: Codec, tx: MockTx, live: OutPoint -> Option<Cell>, p: Progress,
      dep: CellDep)
    ensures Silent(AddDep(codec, tx, live, p, dep)) <==> Silent(p) && Resolvable(codec, tx, dep)
  {
    if p.ok {
      var found := FirstDep(tx.mockDeps, dep.outPoint);
      var cell := LookUp(live, found, dep.outPoint);
      AskedNothingIff(p, found, dep.outPoint);
      if cell.Some? {
        FoundSilentIff(codec, tx, live, Progress(p.cells, Asked(p, found, dep.outPoint), true), dep, cell.value);
      }
    }
  }

  lemma {:induction false} FoundSilentIff(codec: Codec, tx: MockTx, live: OutPoint -> Option<Cell>, p: Progress,
      dep: CellDep, cell: Cell)
    ensures var members := if dep.depType.Code? then Some([]) else codec.outPoints(cell.data);
            Silent(AddFound(codec, tx, live, p, dep, cell)) <==>
            Silent(p) && members.Some? && AllMocked(tx, members.value)
  {
    var members := if dep.depType.Code? then Some([]) else codec.outPoints(cell.data);
    if members.Some? {
      MembersSilentIff(tx, live, p, members.value);
    }
  }

  lemma {:induction false} DepsSilentIff(codec: Codec, tx: MockTx, live: OutPoint -> Option<Cell>, p: Progress,
      deps: seq<CellDep>)
    ensures Silent(AddDeps(codec, tx, live, p, deps)) <==>
            Silent(p) && forall dep <- deps :: Resolvable(codec, tx, dep)
  {
    if deps != [] {
      var init, last := deps[..|deps| - 1], deps[|deps| - 1];
      assert deps == init + [last];
      DepsSilentIff(codec, tx, live, p, init);
      DepSilentIff(codec, tx, live, AddDeps(codec, tx, live, p, init), last);
    }
  }

  predicate AllInputsMocked(tx: MockTx, inputs: seq<CellInput>) {
    forall k :: 0 <= k < |inputs| ==> FirstInput(tx.mockInputs, inputs[k]).Some?
  }

  lemma {:induction false} AllInputsSnoc(tx: MockTx, init: seq<CellInput>, last: CellInput)
    ensures AllInputsMocked(tx, init + [last]) <==>
            AllInputsMocked(tx, init) && FirstInput(tx.mockInputs, last).Some?
  {
    var inputs := init + [last];
    assert inputs[|init|] == last;
    assert forall k :: 0 <= k < |init| ==> inputs[k] == init[k];
  }

  lemma {:induction false} InputsSilentIff(tx: MockTx, live: OutPoint -> Option<Cell>, p: Progress,
      inputs: seq<CellInput>)
    ensures Silent(AddInputs(tx, live, p, inputs)) <==>
            Silent(p) && AllInputsMocked(tx, inputs)
  {
    if inputs != [] {
      var init, last := inputs[..|inputs| - 1], inputs[|inputs| - 1];
      assert inputs == init + [last];
      InputsSilentIff(tx, live, p, init);
      var q, found := AddInputs(tx, live, p, init), FirstInput(tx.mockInputs, last);
      AskedNothingIff(q, found, last.previousOutput);
      AllInputsSnoc(tx, init, last);
      assert Silent(Add(live, q, found, last.previousOutput)) <==> Silent(q) && found.Some?;
    }
  }

  predicate HeadersSilent(h: HeaderProgress) {
    h.ok && h.asked == []
  }

  lemma {:induction false} HeadersSilentIff(tx: MockTx, live: Hash -> Option<Hash>, hashes: seq<Hash>)
    ensures HeadersSilent(AddHeaders(tx, live, hashes)) <==> forall h <- hashes :: h in tx.mockHeaders
  {
    if hashes != [] {
      var init, last := hashes[..|hashes| - 1], hashes[|hashes| - 1];
      assert hashes == init + [last];
      HeadersSilentIff(tx, live, init);
      var p := AddHeaders(tx, live, init);
      assert |AddHeader(tx, live, p, last).asked| == |p.asked| + if p.ok && last !in tx.mockHeaders then 1 else 0;
    }
  }

  /** All that the transaction names is mocked, and found where the resolver looks for it. */
  predicate Complete(codec: Codec, tx: MockTx) {
    && AllInputsMocked(tx, tx.inputs)
    && (forall dep <- tx.cellDeps :: Resolvable(codec, tx, dep))
    && (forall h <- tx.headerDeps :: h in tx.mockHeaders)
  }

  /** Any transaction is resolved without a question to the loader exactly when it is complete. */
  lemma {:induction false} ResolvesAloneIff(codec: Codec, tx: MockTx, answers: Answers)
    ensures Silent(Cells(codec, tx, answers.cell)) && HeadersSilent(Headers(tx, answers.header))
       <==> Complete(codec, tx)
  {
    var start := Progress(map[], [], true);
    InputsSilentIff(tx, answers.cell, start, tx.inputs);
    DepsSilentIff(codec, tx, answers.cell, AddInputs(tx, answers.cell, start, tx.inputs), tx.cellDeps);
    HeadersSilentIff(tx, answers.header, tx.headerDeps);
  }

  // ---------------------------------------------------------------- a loader that has nothing

  /** `DummyResourceLoader`: whatever it is asked is missing. */
  const NOTHING := Answers((o: OutPoint) => None, (h: Hash) => None)

  /** With it, whoever asks fails: what goes well has asked nothing. */
  predicate FailsIfAsked(before: Progress, after: Progress) {
    after.ok ==> before.ok && after.asked == before.asked
  }

  lemma {:induction false} InputsFailIfAsked(tx: MockTx, p: Progress, inputs: seq<CellInput>)
    ensures FailsIfAsked(p, AddInputs(tx, NOTHING.cell, p, inputs))
  {
    if inputs != [] {
      InputsFailIfAsked(tx, p, inputs[..|inputs| - 1]);
    }
  }

  lemma {:induction false} MembersFailIfAsked(tx: MockTx, p: Progress, members: seq<OutPoint>)
    ensures FailsIfAsked(p, AddMembers(tx, NOTHING.cell, p, members))
  {
    if members != [] {
      MembersFailIfAsked(tx, p, members[..|members| - 1]);
    }
  }

  lemma {:induction false} DepsFailIfAsked(codec: Codec, tx: MockTx, p: Progress, deps: seq<CellDep>)
    ensures FailsIfAsked(p, AddDeps(codec, tx, NOTHING.cell, p, deps))
  {
    if deps != [] {
      var q, dep := AddDeps(codec, tx, NOTHING.cell, p, deps[..|deps| - 1]), deps[|deps| - 1];
      DepsFailIfAsked(codec, tx, p, deps[..|deps| - 1]);
      var found := FirstDep(tx.mockDeps, dep.outPoint);
      if q.ok && found.Some? && dep.depType.DepGroup? && codec.outPoints(found.value.data).Some? {
        MembersFailIfAsked(tx, q, codec.outPoints(found.value.data).value);
      }
    }
  }

  lemma {:induction false} HeadersFailIfAsked(tx: MockTx, hashes: seq<Hash>)
    ensures var p := AddHeaders(tx, NOTHING.header, hashes); p.ok ==> p.asked == []
  {
    if hashes != [] {
      HeadersFailIfAsked(tx, hashes[..|hashes| - 1]);
    }
  }

  lemma {:induction false} NothingResolvesIff(codec: Codec, tx: MockTx)
    ensures Resolved(Cells(codec, tx, NOTHING.cell), Headers(tx, NOTHING.header)).Some? <==> Complete(codec, tx)
  {
    var start := Progress(map[], [], true);
    InputsFailIfAsked(tx, start, tx.inputs);
    DepsFailIfAsked(codec, tx, AddInputs(tx, NOTHING.cell, start, tx.inputs), tx.cellDeps);
    HeadersFailIfAsked(tx, tx.headerDeps);
    ResolvesAloneIff(codec, tx, NOTHING);
  }

  // ---------------------------------------------------------------- the resolver

  class Loader {
    const answers: Answers
    var askedCells: seq<OutPoint>
    var askedHeaders: seq<Hash>

    constructor (answers: Answers)
      ensures this.answers == answers && askedCells == [] && askedHeaders == []
    {
      this.answers := answers;
      askedCells := [];
      askedHeaders := [];
    }

    method GetLiveCell(outPoint: OutPoint) returns (r: Option<Cell>)
      modifies this`askedCells
      ensures r == answers.cell(outPoint) && askedCells == old(askedCells) + [outPoint]
    {
      askedCells := askedCells + [outPoint];
      r := answers.cell(outPoint);
    }

    method GetHeader(hash: Hash) returns (r: Option<Hash>)
      modifies this`askedHeaders
      ensures r == answers.header(hash) && askedHeaders == old(askedHeaders) + [hash]
    {
      askedHeaders := askedHeaders + [hash];
      r := answers.header(hash);
    }
  }

  method GetInputCell(tx: MockTx, input: CellInput, loader: Loader) returns (r: Option<Cell>)
    modifies loader`askedCells
    ensures var found := FirstInput(tx.mockInputs, input);
            && r == LookUp(loader.answers.cell, found, input.previousOutput)
            && loader.askedCells == old(loader.askedCells) + if found.Some? then [] else [input.previousOutput]
    ensures forall cell :: r == Some(cell) <==> IsInputCell(tx, loader.answers.cell, input, cell)
  {
    forall cell
      ensures LookUp(loader.answers.cell, FirstInput(tx.mockInputs, input), input.previousOutput) == Some(cell) <==>
              IsInputCell(tx, loader.answers.cell, input, cell)
    {
      InputCellIff(tx, loader.answers.cell, input, cell);
    }
    for i := 0 to |tx.mockInputs|
      invariant FirstInput(tx.mockInputs, input) == FirstInput(tx.mockInputs[i..], input)
    {
      if tx.mockInputs[i].input == input {
        return Some(tx.mockInputs[i].cell);
      }
    }
    r := loader.GetLiveCell(input.previousOutput);
  }

  method GetDepCell(tx: MockTx, outPoint: OutPoint, loader: Loader) returns (r: Option<Cell>)
    modifies loader`askedCells
    ensures var found := FirstDep(tx.mockDeps, outPoint);
            && r == LookUp(loader.answers.cell, found, outPoint)
            && loader.askedCells == old(loader.askedCells) + if found.Some? then [] else [outPoint]
    ensures forall cell :: r == Some(cell) <==> IsDepCell(tx, loader.answers.cell, outPoint, cell)
  {
    forall cell
      ensures LookUp(loader.answers.cell, FirstDep(tx.mockDeps, outPoint), outPoint) == Some(cell) <==>
              IsDepCell(tx, loader.answers.cell, outPoint, cell)
    {
      DepCellIff(tx, loader.answers.cell, outPoint, cell);
    }
    for i := 0 to |tx.mockDeps|
      invariant FirstDep(tx.mockDeps, outPoint) == FirstDep(tx.mockDeps[i..], outPoint)
    {
      if tx.mockDeps[i].cellDep.outPoint == outPoint {
        return Some(tx.mockDeps[i].cell);
      }
    }
    r := loader.GetLiveCell(outPoint);
  }

  /** A resolution that has come to `p` since the loader had been asked `before`. */
  ghost predicate At(p: Progress, before: seq<OutPoint>, cells: map<OutPoint, Meta>, loader: Loader)
    reads loader
  {
    p.ok && cells == p.cells && loader.askedCells == before + p.asked
  }

  lemma {:induction false} InputsNext(tx: MockTx, live: OutPoint -> Option<Cell>, p: Progress, i: nat)
    requires i < |tx.inputs|
    ensures var input := tx.inputs[i];
            AddInputs(tx, live, p, tx.inputs[..i + 1])
            == Add(live, AddInputs(tx, live, p, tx.inputs[..i]), FirstInput(tx.mockInputs, input), input.previousOutput)
  {
    assert tx.inputs[..i + 1][..i] == tx.inputs[..i];
  }

  method ResolveInputs(tx: MockTx, loader: Loader) returns (ok: bool, cells: map<OutPoint, Meta>)
    modifies loader`askedCells
    ensures var p := AddInputs(tx, loader.answers.cell, Progress(map[], [], true), tx.inputs);
            && ok == p.ok && (ok ==> cells == p.cells)
            && loader.askedCells == old(loader.askedCells) + p.asked
  {
    ghost var live, start := loader.answers.cell, Progress(map[], [], true);
    ghost var before := loader.askedCells;
    cells := map[];
    for i := 0 to |tx.inputs|
      invariant At(AddInputs(tx, live, start, tx.inputs[..i]), before, cells, loader)
    {
      InputsNext(tx, live, start, i);
      var input := tx.inputs[i];
      var cell := GetInputCell(tx, input, loader);
      if cell.None? {
        InputsFail(tx, live, start, tx.inputs, i + 1);
        return false, cells;
      }
      cells := cells[input.previousOutput := Meta(input.previousOutput, cell.value)];
    }
    assert tx.inputs[..|tx.inputs|] == tx.inputs;
    ok := true;
  }

  method ResolveMembers(tx: MockTx, members: seq<OutPoint>, cells: map<OutPoint, Meta>, loader: Loader)
    returns (ok: bool, cells': map<OutPoint, Meta>)
    modifies loader`askedCells
    ensures var p := AddMembers(tx, loader.answers.cell, Progress(cells, [], true), members);
            && ok == p.ok && (ok ==> cells' == p.cells)
            && loader.askedCells == old(loader.askedCells) + p.asked
  {
    ghost var live, start := loader.answers.cell, Progress(cells, [], true);
    ghost var before := loader.askedCells;
    cells' := cells;
    for i := 0 to |members|
      invariant At(AddMembers(tx, live, start, members[..i]), before, cells', loader)
    {
      assert members[..i + 1][..i] == members[..i];
      var cell := GetDepCell(tx, members[i], loader);
      if cell.None? {
        MembersFail(tx, live, start, members, i + 1);
        return false, cells';
      }
      cells' := cells'[members[i] := Meta(members[i], cell.value)];
    }
    assert members[..|members|] == members;
    ok := true;
  }

  /** What was asked before has no influence on what members add. */
  lemma {:induction false} MembersShift(tx: MockTx, live: OutPoint -> Option<Cell>, cells: map<OutPoint, Meta>,
                                        asked: seq<OutPoint>, members: seq<OutPoint>)
    ensures var (p, q) := (AddMembers(tx, live, Progress(cells, [], true), members),
                           AddMembers(tx, live, Progress(cells, asked, true), members));
            q == p.(asked := asked + p.asked)
  {
    if members != [] {
      MembersShift(tx, live, cells, asked, members[..|members| - 1]);
      var p := AddMembers(tx, live, Progress(cells, [], true), members[..|members| - 1]);
      var last := members[|members| - 1];
      assert asked + (p.asked + [last]) == (asked + p.asked) + [last];
    }
  }

  lemma {:induction false} FoundShift(codec: Codec, tx: MockTx, live: OutPoint -> Option<Cell>,
      cells: map<OutPoint, Meta>, asked: seq<OutPoint>, dep: CellDep, cell: Cell)
    ensures var (p, q) := (AddFound(codec, tx, live, Progress(cells, [], true), dep, cell),
                           AddFound(codec, tx, live, Progress(cells, asked, true), dep, cell));
            q == p.(asked := asked + p.asked)
  {
    var members := if dep.depType.Code? then Some([]) else codec.outPoints(cell.data);
    if members.Some? {
      MembersShift(tx, live, cells, asked, members.value);
    }
  }

  method ResolveFound(codec: Codec, tx: MockTx, dep: CellDep, cell: Cell, cells: map<OutPoint, Meta>, loader: Loader)
    returns (ok: bool, cells': map<OutPoint, Meta>)
    modifies loader`askedCells
    ensures var p := AddFound(codec, tx, loader.answers.cell, Progress(cells, [], true), dep, cell);
            && ok == p.ok && (ok ==> cells' == p.cells)
            && loader.askedCells == old(loader.askedCells) + p.asked
  {
    cells' := cells;
    if dep.depType.DepGroup? {
      var members := codec.outPoints(cell.data);
      if members.None? {
        return false, cells';
      }
      ok, cells' := ResolveMembers(tx, members.value, cells, loader);
      if !ok {
        return;
      }
    }
    cells' := cells'[dep.outPoint := Meta(dep.outPoint, cell)];
    ok := true;
  }

  method ResolveDep(codec: Codec, tx: MockTx, dep: CellDep, cells: map<OutPoint, Meta>, loader: Loader,
      ghost asked: seq<OutPoint>)
    returns (ok: bool, cells': map<OutPoint, Meta>)
    modifies loader`askedCells
    ensures var p := AddDep(codec, tx, loader.answers.cell, Progress(cells, asked, true), dep);
            && ok == p.ok && (ok ==> cells' == p.cells)
            && asked <= p.asked && loader.askedCells == old(loader.askedCells) + p.asked[|asked|..]
  {
    ghost var now := Asked(Progress(cells, asked, true), FirstDep(tx.mockDeps, dep.outPoint), dep.outPoint);
    var cell := GetDepCell(tx, dep.outPoint, loader);
    assert asked <= now && loader.askedCells == old(loader.askedCells) + now[|asked|..];
    if cell.None? {
      return false, cells;
    }
    FoundShift(codec, tx, loader.answers.cell, cells, now, dep, cell.value);
    ok, cells' := ResolveFound(codec, tx, dep, cell.value, cells, loader);
  }

  lemma {:induction false} Suffixes<T>(a: seq<T>, b: seq<T>, c: seq<T>)
    requires a <= b <= c
    ensures a <= c && c[|a|..] == b[|a|..] + c[|b|..]
  {
  }

  method ResolveDeps(codec: Codec, tx: MockTx, cells: map<OutPoint, Meta>, loader: Loader, ghost asked: seq<OutPoint>)
    returns (ok: bool, cells': map<OutPoint, Meta>)
    modifies loader`askedCells
    ensures var p := AddDeps(codec, tx, loader.answers.cell, Progress(cells, asked, true), tx.cellDeps);
            && ok == p.ok && (ok ==> cells' == p.cells)
            && asked <= p.asked && loader.askedCells == old(loader.askedCells) + p.asked[|asked|..]
  {
    ghost var live, start := loader.answers.cell, Progress(cells, asked, true);
    ghost var now := start;
    cells' := cells;
    for i := 0 to |tx.cellDeps|
      invariant now == AddDeps(codec, tx, live, start, tx.cellDeps[..i])
      invariant now.ok && cells' == now.cells && asked <= now.asked
      invariant loader.askedCells == old(loader.askedCells) + now.asked[|asked|..]
    {
      assert tx.cellDeps[..i + 1][..i] == tx.cellDeps[..i];
      ghost var next := AddDep(codec, tx, live, now, tx.cellDeps[i]);
      ok, cells' := ResolveDep(codec, tx, tx.cellDeps[i], cells', loader, now.asked);
      Suffixes(asked, now.asked, next.asked);
      if !ok {
        DepsFail(codec, tx, live, start, tx.cellDeps, i + 1);
        return;
      }
      now := next;
    }
    assert tx.cellDeps[..|tx.cellDeps|] == tx.cellDeps;
    ok := true;
  }

  method GetHeader(tx: MockTx, hash: Hash, loader: Loader) returns (r: Option<Hash>)
    modifies loader`askedHeaders
    ensures var found := FirstHeader(tx.mockHeaders, hash);
            && r == (if found.Some? then found else loader.answers.header(hash))
            && loader.askedHeaders == old(loader.askedHeaders) + if found.Some? then [] else [hash]
  {
    for i := 0 to |tx.mockHeaders|
      invariant FirstHeader(tx.mockHeaders, hash) == FirstHeader(tx.mockHeaders[i..], hash)
    {
      if tx.mockHeaders[i] == hash {
        return Some(hash);
      }
    }
    r := loader.GetHeader(hash);
  }

  method ResolveHeaders(tx: MockTx, loader: Loader) returns (ok: bool, headers: map<Hash, Hash>)
    modifies loader`askedHeaders
    ensures var p := Headers(tx, loader.answers.header);
            && ok == p.ok && (ok ==> headers == p.headers)
            && loader.askedHeaders == old(loader.askedHeaders) + p.asked
  {
    ghost var live := loader.answers.header;
    headers := map[];
    for i := 0 to |tx.headerDeps|
      invariant var p := AddHeaders(tx, live, tx.headerDeps[..i]);
                p.ok && headers == p.headers && loader.askedHeaders == old(loader.askedHeaders) + p.asked
    {
      assert tx.headerDeps[..i + 1][..i] == tx.headerDeps[..i];
      var hash := tx.headerDeps[i];
      var header := GetHeader(tx, hash, loader);
      if header.None? {
        HeadersFail(tx, live, tx.headerDeps, i + 1);
        return false, headers;
      }
      headers := headers[hash := header.value];
    }
    assert tx.headerDeps[..|tx.headerDeps|] == tx.headerDeps;
    ok := true;
  }

  /** `Resource::from_both`: cells first, and headers only once all cells are there. */
  method FromBoth(codec: Codec, tx: MockTx, loader: Loader) returns (r: Option<Resource>)
    modifies loader
    ensures var (p, h) := (Cells(codec, tx, loader.answers.cell), Headers(tx, loader.answers.header));
            && r == Resolved(p, h)
            && loader.askedCells == old(loader.askedCells) + p.asked
            && loader.askedHeaders == old(loader.askedHeaders) + if p.ok then h.asked else []
    ensures r.Some? && loader.askedCells == old(loader.askedCells) && loader.askedHeaders == old(loader.askedHeaders)
       <==> Complete(codec, tx)
  {
    ResolvesAloneIff(codec, tx, loader.answers);
    var ok, cells := ResolveInputs(tx, loader);
    ghost var inputs := AddInputs(tx, loader.answers.cell, Progress(map[], [], true), tx.inputs);
    if !ok {
      DepsFail(codec, tx, loader.answers.cell, inputs, tx.cellDeps, 0);
      return None;
    }
    ghost var p := Cells(codec, tx, loader.answers.cell);
    ok, cells := ResolveDeps(codec, tx, cells, loader, inputs.asked);
    assert p.asked == inputs.asked + p.asked[|inputs.asked|..];
    if !ok {
      return None;
    }
    var headers;
    ok, headers := ResolveHeaders(tx, loader);
    r := if ok then Some(Resource(cells, headers)) else None;
  }

  /** `Resource::from_mock_tx` */
  method FromMockTx(codec: Codec, tx: MockTx) returns (r: Option<Resource>)
    ensures r == Resolved(Cells(codec, tx, NOTHING.cell), Headers(tx, NOTHING.header))
    ensures r.Some? <==> Complete(codec, tx)
  {
    NothingResolvesIff(codec, tx);
    var loader := new Loader(NOTHING);
    r := FromBoth(codec, tx, loader);
  }
}
