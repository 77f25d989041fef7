/** The converter from end to end: flamegraph text in, pprof profile out. */
module PprofConverter {
  import opened Bytes
  import opened Options
  import opened CallTree
  import opened CallTreeFacts
  import F = Flamegraph
  import T = FlamegraphText
  import I = PprofInput
  import opened Interning

  const UNKNOWN: string := "<Unknown>"

  const UNITS := Units("cycles", "count", "fakecpu", "nanoseconds")

  function Named(s: I.Symbol): Symbol {
    Symbol(if s.name.Some? then s.name.value else UNKNOWN, if s.file.Some? then s.file.value else UNKNOWN, 0)
  }

  /** The file is what stands before the first colon, the name what follows it, without angle brackets. */
  lemma {:induction false} LabelRead(text: string, file: string, name: string)
    ensures ':' !in text ==>
            Named(I.ParseSymbol(text)) == Symbol(I.NormalizeFunctionName(text), "<Unknown>", 0)
    ensures text == file + ":" + name && ':' !in file ==>
            Named(I.ParseSymbol(text)) == Symbol(I.NormalizeFunctionName(name), file, 0)
  {
    var j := I.FindChar(text, ':');
    if text == file + ":" + name && ':' !in file {
      assert text[|file|] == ':';
      assert forall k :: 0 <= k < |file| ==> text[k] == file[k];
      assert j == |file| && text[..j] == file && text[j + 1..] == name;
    }
  }

  /** What the values of the samples are called. */
  lemma {:induction false} UnitsRead(p: Interning.Pprof, frames: seq<Frame>, frequency: int)
    requires frequency != 0 && forall f <- frames :: !Refused(f.count, frequency)
    requires Describes(p, frames, UNITS, frequency)
    ensures |p.sampleType| == 2
    ensures Text(p, p.sampleType[0].fieldType) == Some("cycles") && Text(p, p.sampleType[0].unit) == Some("count")
    ensures Text(p, p.sampleType[1].fieldType) == Some("fakecpu")
    ensures Text(p, p.sampleType[1].unit) == Some("nanoseconds")
    ensures p.periodType == p.sampleType[1]
  {
  }

  function NamedStack(stack: seq<I.Symbol>): (r: seq<Symbol>)
    ensures |r| == |stack|
  {
    seq(|stack|, i requires 0 <= i < |stack| => Named(stack[i]))
  }

  predicate Fits(frames: seq<I.Frame>) {
    forall f <- frames :: f.cycles < U64_LIMIT
  }

  function NamedFrames(frames: seq<I.Frame>): (r: seq<Frame>)
    requires Fits(frames)
    ensures |r| == |frames|
  {
    seq(|frames|, i requires 0 <= i < |frames| => Frame(NamedStack(frames[i].stack), frames[i].cycles))
  }

  lemma {:induction false} ParsedFit(lines: seq<string>)
    ensures var r := I.MapAll(I.ParseLine, lines); r.Some? ==> Fits(r.value)
  {
    if lines != [] {
      ParsedFit(lines[..|lines| - 1]);
    }
  }

  /** The frames of a flamegraph text, with the names and files that stand for missing ones. */
  function Read(text: string): Option<seq<Frame>> {
    var lines := I.SplitLines(text);
    ParsedFit(lines);
    match I.MapAll(I.ParseLine, lines)
    case None => None
    case Some(frames) => Some(NamedFrames(frames))
  }

  /** `order` stands for the order in which the hash set lists the strings of the input. */
  method Convert(text: string, frequency: int, order: seq<string>) returns (r: Option<Interning.Pprof>)
    requires Read(text).Some? ==> Enumerates(order, Strings(Read(text).value, UNITS))
    ensures r.None? <==>
            Read(text).None? || frequency == 0 || exists f <- Read(text).value :: Refused(f.count, frequency)
    ensures r.Some? ==> Describes(r.value, Read(text).value, UNITS, frequency)
  {
    var lines := I.SplitLines(text);
    var frames := I.ReadFrames(lines);
    if frames.None? {
      return None;
    }
    ParsedFit(lines);
    r := BuildProfile(NamedFrames(frames.value), UNITS, frequency, order);
  }

  /** A call tree that the converter can read: counts of 64 bits and labels without the separators of the text. */
  predicate Printable(nodes: seq<Record>, tags: u64 -> F.Tags) {
    forall i :: 0 <= i < |nodes| ==> nodes[i].cycles < U64_LIMIT && T.Clean(tags(nodes[i].addr))
  }

  /** The function names on the way from node `i` up to the root, as the converter writes them. */
  function Callers(nodes: seq<Record>, tags: u64 -> F.Tags, i: nat): seq<string>
    requires WellFormed(nodes) && i < |nodes|
    decreases i
  {
    [I.NormalizeFunctionName(tags(nodes[i].addr).Func())] + if i == 0 then [] else Callers(nodes, tags, nodes[i].parent)
  }

  function StackNames(p: Interning.Pprof, s: Sample): (r: seq<Option<string>>)
    ensures |r| == |s.locationId|
  {
    seq(|s.locationId|, j requires 0 <= j < |s.locationId| =>
      var symbol := SymbolAt(p, s.locationId[j]); if symbol.None? then None else Some(symbol.value.name))
  }

  function AllSome(names: seq<string>): (r: seq<Option<string>>)
    ensures |r| == |names|
  {
    seq(|names|, j requires 0 <= j < |names| => Some(names[j]))
  }

  /** The stack of a node is its own symbol and then its parent's stack. */
  lemma {:induction false} StackOfParent(nodes: seq<Record>, tags: u64 -> F.Tags, i: nat)
    requires WellFormed(nodes) && i < |nodes|
    ensures var stack := T.FrameOf(nodes, tags, i).stack;
            stack == [T.SymbolOf(tags(nodes[i].addr))]
                     + if i == 0 then [] else T.FrameOf(nodes, tags, nodes[i].parent).stack
  {
    if i > 0 {
      var up := T.PathOf(nodes, nodes[i].parent);
      assert T.PathSymbols(nodes, tags, up + [i]) == T.PathSymbols(nodes, tags, up) + [T.SymbolOf(tags(nodes[i].addr))];
      ReverseSnoc(T.PathSymbols(nodes, tags, up), T.SymbolOf(tags(nodes[i].addr)));
    } else {
      assert T.PathSymbols(nodes, tags, [0]) == [T.SymbolOf(tags(nodes[0].addr))];
    }
  }

  lemma {:induction false} ReverseSnoc<X>(s: seq<X>, x: X)
    ensures I.Reverse(s + [x]) == [x] + I.Reverse(s)
  {
  }

  predicate NamesAre(stack: seq<I.Symbol>, names: seq<string>) {
    |stack| == |names| && forall j :: 0 <= j < |stack| ==> stack[j].name == Some(names[j])
  }

  lemma {:induction false} CallersAre(nodes: seq<Record>, tags: u64 -> F.Tags, i: nat)
    requires WellFormed(nodes) && i < |nodes|
    ensures NamesAre(T.FrameOf(nodes, tags, i).stack, Callers(nodes, tags, i))
    decreases i
  {
    StackOfParent(nodes, tags, i);
    if i > 0 {
      CallersAre(nodes, tags, nodes[i].parent);
    }
  }

  /** The frames that stand for a call tree. */
  function TreeFrames(nodes: seq<Record>, tags: u64 -> F.Tags): (r: seq<Frame>)
    requires WellFormed(nodes) && Printable(nodes, tags)
    ensures |r| == |nodes|
  {
    assert Fits(T.Frames(nodes, tags)) by {
      forall f | f in T.Frames(nodes, tags)
        ensures f.cycles < U64_LIMIT
      {
        var i :| 0 <= i < |nodes| && T.Frames(nodes, tags)[i] == f;
        assert f == T.FrameOf(nodes, tags, i);
      }
    }
    NamedFrames(T.Frames(nodes, tags))
  }

  lemma {:induction false} PrintedReads(nodes: seq<Record>, tags: u64 -> F.Tags)
    requires WellFormed(nodes) && Spine(nodes) && Printable(nodes, tags)
    ensures Read(F.Flame(nodes, T.SimpleTag(tags), 0, "")) == Some(TreeFrames(nodes, tags))
  {
    T.FlamegraphReads(nodes, tags);
  }

  lemma {:induction false} TreeFrameIs(nodes: seq<Record>, tags: u64 -> F.Tags, i: nat)
    requires WellFormed(nodes) && Printable(nodes, tags) && i < |nodes|
    ensures var frame := TreeFrames(nodes, tags)[i];
            && frame.count == nodes[i].cycles
            && |frame.stack| == |Callers(nodes, tags, i)|
            && forall j :: 0 <= j < |frame.stack| ==> frame.stack[j].name == Callers(nodes, tags, i)[j]
  {
    assert T.Frames(nodes, tags)[i] == T.FrameOf(nodes, tags, i);
    CallersAre(nodes, tags, i);
  }

  /** Sample `i` has the cycles of call `i`, and its locations name its function and all its callers. */
  predicate SampleMeans(p: Interning.Pprof, nodes: seq<Record>, tags: u64 -> F.Tags, frequency: int, i: nat)
    requires WellFormed(nodes) && Printable(nodes, tags) && i < |nodes|
  {
    && i < |p.sample|
    && !Refused(nodes[i].cycles, frequency)
    && p.sample[i].value == [AsI64(nodes[i].cycles), Nanoseconds(nodes[i].cycles, frequency)]
    && StackNames(p, p.sample[i]) == AllSome(Callers(nodes, tags, i))
  }

  /** From call tree to profile: printed, read and interned, the `i`th call of the tree is the `i`th sample. */
  lemma {:induction false} TreeReadsBack(nodes: seq<Record>, tags: u64 -> F.Tags, p: Interning.Pprof, frequency: int)
    requires WellFormed(nodes) && Spine(nodes) && Printable(nodes, tags)
    requires frequency != 0 && forall f <- TreeFrames(nodes, tags) :: !Refused(f.count, frequency)
    requires Describes(p, TreeFrames(nodes, tags), UNITS, frequency)
    ensures Read(F.Flame(nodes, T.SimpleTag(tags), 0, "")) == Some(TreeFrames(nodes, tags))
    ensures |p.sample| == |nodes| && forall i :: 0 <= i < |nodes| ==> SampleMeans(p, nodes, tags, frequency, i)
  {
    PrintedReads(nodes, tags);
    forall i | 0 <= i < |nodes|
      ensures SampleMeans(p, nodes, tags, frequency, i)
    {
      NodeReadsBack(nodes, tags, p, frequency, i);
    }
  }

  lemma {:induction false} NodeReadsBack(nodes: seq<Record>, tags: u64 -> F.Tags, p: Interning.Pprof, frequency: int,
      i: nat)
    requires WellFormed(nodes) && Printable(nodes, tags) && i < |nodes|
    requires frequency != 0 && forall f <- TreeFrames(nodes, tags) :: !Refused(f.count, frequency)
    requires Describes(p, TreeFrames(nodes, tags), UNITS, frequency)
    ensures SampleMeans(p, nodes, tags, frequency, i)
  {
    var frames := TreeFrames(nodes, tags);
    TreeFrameIs(nodes, tags, i);
    assert frames[i] in frames;
    StackNamesAre(p, frames, frequency, i, Callers(nodes, tags, i));
  }

  lemma {:induction false} StackNamesAre(p: Interning.Pprof, frames: seq<Frame>, frequency: int, i: nat,
      names: seq<string>)
    requires frequency != 0 && forall f <- frames :: !Refused(f.count, frequency)
    requires Describes(p, frames, UNITS, frequency)
    requires i < |frames| && |names| == |frames[i].stack|
    requires forall j :: 0 <= j < |names| ==> frames[i].stack[j].name == names[j]
    ensures |p.sample| == |frames| && StackNames(p, p.sample[i]) == AllSome(names)
  {
    forall j | 0 <= j < |names|
      ensures StackNames(p, p.sample[i])[j] == Some(names[j])
    {
      StacksReadBack(p, frames, UNITS, frequency, i, j);
    }
  }

  // ---------------------------------------------------------------- from events to samples

  lemma {:induction false} CountsOf(frames: seq<Frame>, nodes: seq<Record>)
    requires |frames| == |nodes| && forall i :: 0 <= i < |nodes| ==> frames[i].count == nodes[i].cycles
    ensures TotalCount(frames) == TotalCycles(nodes)
  {
    if nodes != [] {
      CountsOf(frames[..|frames| - 1], nodes[..|nodes| - 1]);
    }
  }

  /**
    Whatever the instructions of a run were: the profile that is printed at its end is read back
    whole, and its samples account for every cycle of the run.
  */
  lemma {:induction false} SamplesAccountForRun(entry: u64, functions: set<u64>, es: seq<Event>, tags: u64 -> F.Tags)
    requires Run(Root(entry), functions, es).Some?
    requires Printable(Run(Root(entry), functions, es).value.nodes, tags)
    ensures var nodes := Run(Root(entry), functions, es).value.nodes;
            var read := Read(F.Flame(nodes, T.SimpleTag(tags), 0, ""));
            read.Some? && |read.value| == |nodes| && TotalCount(read.value) == ChargedCycles(es)
  {
    var start := Root(entry);
    var nodes := Run(start, functions, es).value.nodes;
    RunOnSpine(start, functions, es);
    RunConservesCycles(start, functions, es);
    assert start.nodes[..0] == [] && TotalCycles(start.nodes) == 0;
    PrintedReads(nodes, tags);
    forall i | 0 <= i < |nodes|
      ensures TreeFrames(nodes, tags)[i].count == nodes[i].cycles
    {
      TreeFrameIs(nodes, tags, i);
    }
    CountsOf(TreeFrames(nodes, tags), nodes);
  }
}
