/** Reading back what the profiler printed. */
module FlamegraphText {
  import opened Bytes
  import opened Options
  import opened CallTree
  import CallTreeFacts
  import CallOrder
  import opened Flamegraph
  import opened PprofInput

  // ---------------------------------------------------------------- separators

  predicate HasSeparator(s: string) {
    exists i :: 0 <= i < |s| - 1 && s[i] == ';' && s[i + 1] == ' '
  }

  function Join(labels: seq<string>): string {
    if labels == [] then ""
    else if |labels| == 1 then labels[0]
    else Join(labels[..|labels| - 1]) + SEPARATOR + labels[|labels| - 1]
  }

  /** A text that does not start with a separator keeps its first character apart. */
  lemma {:induction false} SplitFirst(s: string, rest: string)
    requires |s| >= 2 && s[..2] != SEPARATOR && rest == s[1..]
    ensures Split(s) == [[s[0]] + Split(rest)[0]] + Split(rest)[1..]
  {
  }

  lemma {:induction false} PrependFirst(c: char, a: seq<string>, b: seq<string>)
    requires a != []
    ensures [[c] + (a + b)[0]] + (a + b)[1..] == ([[c] + a[0]] + a[1..]) + b
  {
    assert (a + b)[1..] == a[1..] + b;
  }

  lemma {:induction false} ShortSplit(a: string)
    requires |a| == 1
    ensures Split(a) == [a] && Split("") == [""] && [[a[0]] + ""] == [a]
  {
    assert [a[0]] + "" == a;
  }

  /** A separator between two texts is found whatever the texts are. */
  lemma {:induction false} SplitAtSeparator(a: string, b: string)
    ensures Split(a + SEPARATOR + b) == Split(a) + Split(b)
  {
    var s := a + SEPARATOR + b;
    if |a| == 0 {
      assert s == SEPARATOR + b;
      assert s[2..] == b;
    } else if |a| == 1 || a[..2] != SEPARATOR {
      SplitAtSeparator(a[1..], b);
      SplitPastFirst(a, b);
    } else {
      assert s[..2] == a[..2];
      assert s[2..] == a[2..] + SEPARATOR + b;
      SplitAtSeparator(a[2..], b);
    }
  }

  lemma {:induction false} SplitPastFirst(a: string, b: string)
    requires |a| == 1 || (|a| > 1 && a[..2] != SEPARATOR)
    requires Split(a[1..] + SEPARATOR + b) == Split(a[1..]) + Split(b)
    ensures Split(a + SEPARATOR + b) == Split(a) + Split(b)
  {
    var s := a + SEPARATOR + b;
    var rest := a[1..] + SEPARATOR + b;
    assert s[1..] == rest;
    NoSeparatorFirst(a, b);
    SplitFirst(s, rest);
    PrependFirst(a[0], Split(a[1..]), Split(b));
    if |a| == 1 {
      ShortSplit(a);
      assert a[1..] == "";
    } else {
      SplitFirst(a, a[1..]);
    }
  }

  lemma {:induction false} NoSeparatorFirst(a: string, b: string)
    requires |a| == 1 || (|a| > 1 && a[..2] != SEPARATOR)
    ensures (a + SEPARATOR + b)[..2] != SEPARATOR
  {
    var s := a + SEPARATOR + b;
    if |a| == 1 {
      assert s[..2][1] == ';';
    } else {
      assert s[..2] == a[..2];
    }
  }

  lemma {:induction false} SplitWhole(s: string)
    ensures HasSeparator(s) ==> |Split(s)| > 1
    ensures !HasSeparator(s) ==> Split(s) == [s]
  {
    if |s| >= 2 {
      if s[..2] == SEPARATOR {
        assert s[0] == ';' && s[0 + 1] == ' ';
      } else {
        SplitWhole(s[1..]);
        assert [s[0]] + s[1..] == s;
        assert HasSeparator(s) == HasSeparator(s[1..]) by {
          if HasSeparator(s) {
            var i :| 0 <= i < |s| - 1 && s[i] == ';' && s[i + 1] == ' ';
            assert s[1..][i - 1] == ';' && s[1..][i - 1 + 1] == ' ';
          }
          if HasSeparator(s[1..]) {
            var i :| 0 <= i < |s[1..]| - 1 && s[1..][i] == ';' && s[1..][i + 1] == ' ';
            assert s[i + 1] == ';' && s[i + 1 + 1] == ' ';
          }
        }
      }
    }
  }

  predicate NoSeparators(labels: seq<string>) {
    forall k :: 0 <= k < |labels| ==> !HasSeparator(labels[k])
  }

  lemma {:induction false} NoSeparatorsSnoc(labels: seq<string>, last: string)
    ensures NoSeparators(labels + [last]) <==> NoSeparators(labels) && !HasSeparator(last)
  {
    var more := labels + [last];
    assert more[|labels|] == last;
    assert forall k :: 0 <= k < |labels| ==> more[k] == labels[k];
  }

  lemma {:induction false} AppendsEqualIff(a: seq<string>, b: seq<string>, init: seq<string>, last: string)
    requires |a| >= |init| && |b| >= 1
    ensures |a + b| == |init + [last]| <==> |a| == |init| && |b| == 1
    ensures a + b == init + [last] <==> a == init && b == [last]
  {
    if a + b == init + [last] {
      assert (a + b)[..|init|] == init && (a + b)[|init|..] == [last];
    }
  }

  /** The labels of a path come back as they were exactly when none of them contains a separator. */
  lemma {:induction false} SplitJoinIff(labels: seq<string>)
    requires labels != []
    ensures Split(Join(labels)) == labels <==> NoSeparators(labels)
    ensures |Split(Join(labels))| >= |labels|
    ensures |Split(Join(labels))| == |labels| <==> NoSeparators(labels)
  {
    var n := |labels| - 1;
    SplitWhole(labels[n]);
    NoSeparatorsSnoc(labels[..n], labels[n]);
    assert labels == labels[..n] + [labels[n]];
    if n > 0 {
      SplitJoinIff(labels[..n]);
      SplitAtSeparator(Join(labels[..n]), labels[n]);
      AppendsEqualIff(Split(Join(labels[..n])), Split(labels[n]), labels[..n], labels[n]);
    }
  }

  // ---------------------------------------------------------------- numbers

  lemma {:induction false} DecimalDigits(n: nat)
    ensures Decimal(n) != "" && (forall i :: 0 <= i < |Decimal(n)| ==> '0' <= Decimal(n)[i] <= '9')
    ensures ParseDigits(Decimal(n)) == Some(n)
  {
    if n >= 10 {
      DecimalDigits(n / 10);
      assert Decimal(n)[..|Decimal(n)| - 1] == Decimal(n / 10);
    } else {
      assert ParseDigits([]) == Some(0);
      assert Decimal(n)[..0] == [];
    }
  }

  lemma {:induction false} ParseU64Decimal(n: nat)
    ensures ParseU64(Decimal(n)) == if n < U64_LIMIT then Some(n) else None
  {
    DecimalDigits(n);
  }

  // ---------------------------------------------------------------- one line

  lemma {:induction false} RFindLast(s: string, c: char, tail: string)
    requires c !in tail
    ensures RFindChar(s + [c] + tail, c) == |s|
  {
    var line := s + [c] + tail;
    if tail != "" {
      assert line[..|line| - 1] == s + [c] + tail[..|tail| - 1];
      RFindLast(s, c, tail[..|tail| - 1]);
    } else {
      assert line == s + [c];
    }
  }

  lemma {:induction false} ParseLineOf(name: string, cycles: nat)
    requires cycles < U64_LIMIT
    ensures ParseLine(LineText(name, cycles)) == Some(Frame(Reverse(ParseSymbols(Split(name))), cycles))
  {
    DecimalDigits(cycles);
    ParseU64Decimal(cycles);
    var line := LineText(name, cycles);
    assert line == name + [' '] + Decimal(cycles);
    RFindLast(name, ' ', Decimal(cycles));
    assert line[..|name|] == name && line[|name| + 1..] == Decimal(cycles);
  }

  lemma {:induction false} FindFirst(s: string, c: char, i: nat)
    requires i <= |s| && c !in s[..i] && (i < |s| ==> s[i] == c)
    ensures FindChar(s, c) == i
  {
    var r := FindChar(s, c);
    assert forall k :: 0 <= k < i ==> s[k] in s[..i];
    assert forall k :: 0 <= k < r ==> s[k] in s[..r];
  }

  /** The symbol read back from a label has the right file and function exactly when the file has no colon. */
  lemma {:induction false} ParseSymbolIff(file: string, func: string)
    ensures ParseSymbol(file + ":" + func) == Symbol(Some(NormalizeFunctionName(func)), Some(file)) <==> ':' !in file
  {
    var s := file + ":" + func;
    if ':' !in file {
      assert s[..|file|] == file;
      FindFirst(s, ':', |file|);
      assert s[|file| + 1..] == func;
    } else {
      var i :| 0 <= i < |file| && file[i] == ':';
      var j := FindChar(s, ':');
      assert s[i] == ':' && forall k :: 0 <= k < j ==> s[k] in s[..j];
      assert |s[..j]| < |file|;
    }
  }

  // ---------------------------------------------------------------- the whole text

  /** The nodes from the root to `i`. */
  function PathOf(nodes: seq<Record>, i: nat): (r: seq<nat>)
    requires WellFormed(nodes) && i < |nodes|
    ensures r != [] && forall k :: 0 <= k < |r| ==> r[k] < |nodes|
  {
    if i == 0 then [0] else PathOf(nodes, nodes[i].parent) + [i]
  }

  function Labels(nodes: seq<Record>, tag: u64 -> string, path: seq<nat>): (r: seq<string>)
    requires forall k :: 0 <= k < |path| ==> path[k] < |nodes|
    ensures |r| == |path| && forall k :: 0 <= k < |path| ==> r[k] == tag(nodes[path[k]].addr)
  {
    seq(|path|, k requires 0 <= k < |path| => tag(nodes[path[k]].addr))
  }

  lemma {:induction false} PathNameIsJoin(nodes: seq<Record>, tag: u64 -> string, i: nat)
    requires WellFormed(nodes) && i < |nodes|
    ensures PathName(nodes, tag, i) == Join(Labels(nodes, tag, PathOf(nodes, i)))
    decreases i
  {
    if i > 0 {
      PathNameIsJoin(nodes, tag, nodes[i].parent);
      var labels := Labels(nodes, tag, PathOf(nodes, i));
      assert labels[..|labels| - 1] == Labels(nodes, tag, PathOf(nodes, nodes[i].parent));
    }
  }

  lemma {:induction false} SplitFirstLine(line: string, rest: string)
    requires '\n' !in line && (line != "" ==> line[|line| - 1] != '\r')
    ensures SplitLines(line + "\n" + rest) == [line] + SplitLines(rest)
  {
    var text := line + "\n" + rest;
    assert text[..|line|] == line;
    FindFirst(text, '\n', |line|);
    assert text[|line| + 1..] == rest;
  }

  /** Lines joined by line feeds are split where they were joined. */
  lemma {:induction false} SplitConcat(lines: seq<string>)
    requires forall k :: 0 <= k < |lines| ==>
      '\n' !in lines[k] && (lines[k] != "" ==> lines[k][|lines[k]| - 1] != '\r')
    ensures SplitLines(Concat(Terminated(lines))) == lines
  {
    if lines != [] {
      var rest := lines[1..];
      SplitConcat(rest);
      assert Terminated(lines) == [lines[0] + "\n"] + Terminated(rest);
      ConcatAppend([lines[0] + "\n"], Terminated(rest));
      assert Concat([lines[0] + "\n"]) == lines[0] + "\n";
      SplitFirstLine(lines[0], Concat(Terminated(rest)));
    }
  }

  function Terminated(lines: seq<string>): (r: seq<string>)
    ensures |r| == |lines| && forall k :: 0 <= k < |r| ==> r[k] == lines[k] + "\n"
  {
    seq(|lines|, k requires 0 <= k < |lines| => lines[k] + "\n")
  }

  /** What the converter needs of a label: no separator, no line feed, no colon in the file name. */
  predicate Clean(t: Tags) {
    !HasSeparator(t.Simple()) && '\n' !in t.Simple() && ':' !in t.file
  }

  function SymbolOf(t: Tags): Symbol {
    Symbol(Some(NormalizeFunctionName(t.Func())), Some(t.file))
  }

  /** The frame that stands for node `i`: its path, leaf first, and its own cycles. */
  function FrameOf(nodes: seq<Record>, tags: u64 -> Tags, i: nat): Frame
    requires WellFormed(nodes) && i < |nodes|
  {
    Frame(Reverse(PathSymbols(nodes, tags, PathOf(nodes, i))), nodes[i].cycles)
  }

  function Frames(nodes: seq<Record>, tags: u64 -> Tags): (r: seq<Frame>)
    requires WellFormed(nodes)
    ensures |r| == |nodes| && forall i :: 0 <= i < |r| ==> r[i] == FrameOf(nodes, tags, i)
  {
    seq(|nodes|, i requires 0 <= i < |nodes| => FrameOf(nodes, tags, i))
  }

  function SimpleTag(tags: u64 -> Tags): u64 -> string {
    (addr: u64) => tags(addr).Simple()
  }

  function PathSymbols(nodes: seq<Record>, tags: u64 -> Tags, path: seq<nat>): (r: seq<Symbol>)
    requires forall k :: 0 <= k < |path| ==> path[k] < |nodes|
    ensures |r| == |path| && forall k :: 0 <= k < |path| ==> r[k] == SymbolOf(tags(nodes[path[k]].addr))
  {
    seq(|path|, k requires 0 <= k < |path| => SymbolOf(tags(nodes[path[k]].addr)))
  }

  lemma {:induction false} ParsePath(nodes: seq<Record>, tags: u64 -> Tags, path: seq<nat>)
    requires path != [] && forall k :: 0 <= k < |path| ==> path[k] < |nodes|
    requires forall k :: 0 <= k < |nodes| ==> Clean(tags(nodes[k].addr))
    ensures ParseSymbols(Split(Join(Labels(nodes, SimpleTag(tags), path)))) == PathSymbols(nodes, tags, path)
  {
    var labels := Labels(nodes, SimpleTag(tags), path);
    SplitJoinIff(labels);
    forall k | 0 <= k < |path| ensures ParseSymbol(labels[k]) == SymbolOf(tags(nodes[path[k]].addr)) {
      var t := tags(nodes[path[k]].addr);
      ParseSymbolIff(t.file, t.Func());
    }
  }

  lemma {:induction false} ParseNode(nodes: seq<Record>, tags: u64 -> Tags, i: nat)
    requires WellFormed(nodes) && i < |nodes| && nodes[i].cycles < U64_LIMIT
    requires forall k :: 0 <= k < |nodes| ==> Clean(tags(nodes[k].addr))
    ensures ParseLine(LineText(PathName(nodes, SimpleTag(tags), i), nodes[i].cycles)) == Some(FrameOf(nodes, tags, i))
  {
    ParseLineOf(PathName(nodes, SimpleTag(tags), i), nodes[i].cycles);
    PathNameIsJoin(nodes, SimpleTag(tags), i);
    ParsePath(nodes, tags, PathOf(nodes, i));
  }

  lemma {:induction false} NoLineFeed(nodes: seq<Record>, tag: u64 -> string, i: nat)
    requires WellFormed(nodes) && i < |nodes|
    requires forall k :: 0 <= k < |nodes| ==> '\n' !in tag(nodes[k].addr)
    ensures '\n' !in PathName(nodes, tag, i)
    decreases i
  {
    if i > 0 {
      NoLineFeed(nodes, tag, nodes[i].parent);
    }
  }

  lemma {:induction false} ParseAll(lines: seq<string>, frames: seq<Frame>)
    requires |lines| == |frames| && forall i :: 0 <= i < |lines| ==> ParseLine(lines[i]) == Some(frames[i])
    ensures MapAll(ParseLine, lines) == Some(frames)
  {
    if lines != [] {
      var n := |lines| - 1;
      ParseAll(lines[..n], frames[..n]);
      assert frames == frames[..n] + [frames[n]];
    }
  }

  /** The lines of the flamegraph, without their line feeds. */
  function BareLines(nodes: seq<Record>, tag: u64 -> string): (r: seq<string>)
    requires WellFormed(nodes)
    ensures |r| == |nodes|
    ensures forall i :: 0 <= i < |r| ==> r[i] == LineText(PathName(nodes, tag, i), nodes[i].cycles)
  {
    seq(|nodes|, i requires 0 <= i < |nodes| => LineText(PathName(nodes, tag, i), nodes[i].cycles))
  }

  lemma {:induction false} BareTerminated(nodes: seq<Record>, tag: u64 -> string)
    requires WellFormed(nodes)
    ensures Lines(nodes, tag, CallOrder.UpTo(|nodes|)) == Terminated(BareLines(nodes, tag))
  {
  }

  lemma {:induction false} BareLineEnds(name: string, cycles: nat)
    requires '\n' !in name
    ensures var line := LineText(name, cycles);
            '\n' !in line && line != "" && line[|line| - 1] != '\r'
  {
    DecimalDigits(cycles);
  }

  /** The converter's lines are the profiler's lines. */
  lemma {:induction false} FlameLines(nodes: seq<Record>, tag: u64 -> string)
    requires WellFormed(nodes) && CallTreeFacts.Spine(nodes)
    requires forall k :: 0 <= k < |nodes| ==> '\n' !in tag(nodes[k].addr)
    ensures SplitLines(Flame(nodes, tag, 0, "")) == BareLines(nodes, tag)
  {
    var bare := BareLines(nodes, tag);
    FlameIsCallOrder(nodes, tag);
    BareTerminated(nodes, tag);
    forall i | 0 <= i < |bare| ensures '\n' !in bare[i] && bare[i] != "" && bare[i][|bare[i]| - 1] != '\r' {
      NoLineFeed(nodes, tag, i);
      BareLineEnds(PathName(nodes, tag, i), nodes[i].cycles);
    }
    SplitConcat(bare);
  }

  // ---------------------------------------------------------------- labels that do not come back

  /** The number of line feeds. */
  function Feeds(s: string): nat {
    if s == "" then 0 else Feeds(s[..|s| - 1]) + if s[|s| - 1] == '\n' then 1 else 0
  }

  lemma {:induction false} FeedsAppend(a: string, b: string)
    ensures Feeds(a + b) == Feeds(a) + Feeds(b)
  {
    if b == "" {
      assert a + b == a;
    } else {
      assert (a + b)[..|a + b| - 1] == a + b[..|b| - 1];
      FeedsAppend(a, b[..|b| - 1]);
    }
  }

  lemma {:induction false} FeedsOf(s: string)
    ensures Feeds(s) > 0 <==> '\n' in s
  {
    if s != "" {
      FeedsOf(s[..|s| - 1]);
      assert s == s[..|s| - 1] + [s[|s| - 1]];
    }
  }

  lemma {:induction false} FeedsAfterFirst(text: string, j: nat)
    requires j < |text| && text[j] == '\n' && '\n' !in text[..j]
    ensures Feeds(text) == 1 + Feeds(text[j + 1..])
  {
    var first := text[..j] + ['\n'];
    assert text == first + text[j + 1..];
    assert first[..|first| - 1] == text[..j];
    FeedsOf(text[..j]);
    FeedsAppend(first, text[j + 1..]);
  }

  /** Every line feed ends a line. */
  lemma {:induction false} LinesPerFeed(text: string)
    ensures |SplitLines(text)| >= Feeds(text)
    decreases |text|
  {
    if text != "" {
      var j := FindChar(text, '\n');
      if j < |text| {
        FeedsAfterFirst(text, j);
        LinesPerFeed(text[j + 1..]);
      } else {
        assert text[..j] == text;
        FeedsOf(text);
      }
    }
  }

  predicate Fed(line: string, n: nat) {
    Feeds(line) >= n
  }

  lemma {:induction false} FedAppend(a: string, m: nat, b: string, n: nat)
    requires Fed(a, m) && Fed(b, n)
    ensures Fed(a + b, m + n)
  {
    FeedsAppend(a, b);
  }

  lemma {:induction false} FedAll(lines: seq<string>)
    requires forall i :: 0 <= i < |lines| ==> Fed(lines[i], 1)
    ensures Fed(Concat(lines), |lines|)
  {
    if lines != [] {
      var n := |lines| - 1;
      FedAll(lines[..n]);
      FedAppend(Concat(lines[..n]), n, lines[n], 1);
    }
  }

  lemma {:induction false} FedTwice(lines: seq<string>, k: nat)
    requires k < |lines| && Fed(lines[k], 2) && forall i :: 0 <= i < |lines| ==> Fed(lines[i], 1)
    ensures Fed(Concat(lines), |lines| + 1)
  {
    var n := |lines| - 1;
    if k < n {
      FedTwice(lines[..n], k);
      FedAppend(Concat(lines[..n]), n + 1, lines[n], 1);
    } else {
      FedAll(lines[..n]);
      FedAppend(Concat(lines[..n]), n, lines[n], 2);
    }
  }

  lemma {:induction false} FeedsOfPath(nodes: seq<Record>, tag: u64 -> string, i: nat)
    requires WellFormed(nodes) && i < |nodes|
    ensures Feeds(PathName(nodes, tag, i)) >= Feeds(tag(nodes[i].addr))
  {
    if i > 0 {
      FeedsAppend(PathName(nodes, tag, nodes[i].parent) + "; ", tag(nodes[i].addr));
    }
  }

  lemma {:induction false} FeedsOfLine(name: string, cycles: nat)
    ensures Feeds(Line(name, cycles)) >= Feeds(name) + 1
  {
    FeedsAppend(LineText(name, cycles), "\n");
    FeedsAppend(name + " ", Decimal(cycles));
    FeedsAppend(name, " ");
    assert Feeds("\n") == 1 by {
      assert "\n"[..0] == "";
    }
  }

  /** A line feed in a label makes more lines than there are calls. */
  lemma {:induction false} FeedBreaksLines(nodes: seq<Record>, tag: u64 -> string, k: nat)
    requires WellFormed(nodes) && CallTreeFacts.Spine(nodes) && k < |nodes| && '\n' in tag(nodes[k].addr)
    ensures |SplitLines(Flame(nodes, tag, 0, ""))| > |nodes|
  {
    var lines := Lines(nodes, tag, CallOrder.UpTo(|nodes|));
    FlameIsCallOrder(nodes, tag);
    forall i | 0 <= i < |lines|
      ensures Fed(lines[i], 1) && (i == k ==> Fed(lines[i], 2))
    {
      FeedsOfPath(nodes, tag, i);
      FeedsOfLine(PathName(nodes, tag, i), nodes[i].cycles);
      FeedsOf(tag(nodes[i].addr));
    }
    FedTwice(lines, k);
    LinesPerFeed(Concat(lines));
  }

  /** A node whose line reads back has a clean label, line feeds apart. */
  lemma {:induction false} ReadsBackClean(nodes: seq<Record>, tags: u64 -> Tags, i: nat)
    requires WellFormed(nodes) && i < |nodes| && nodes[i].cycles < U64_LIMIT
    requires ParseLine(LineText(PathName(nodes, SimpleTag(tags), i), nodes[i].cycles)) == Some(FrameOf(nodes, tags, i))
    ensures var t := tags(nodes[i].addr); !HasSeparator(t.Simple()) && ':' !in t.file
  {
    var path := PathOf(nodes, i);
    var labels := Labels(nodes, SimpleTag(tags), path);
    var n := |path| - 1;
    ParseLineOf(PathName(nodes, SimpleTag(tags), i), nodes[i].cycles);
    PathNameIsJoin(nodes, SimpleTag(tags), i);
    SplitJoinIff(labels);
    ReverseInjective(ParseSymbols(Split(Join(labels))), PathSymbols(nodes, tags, path));
    assert path[n] == i && labels[n] == tags(nodes[i].addr).Simple();
    assert ParseSymbols(Split(Join(labels)))[n] == PathSymbols(nodes, tags, path)[n];
    ParseSymbolIff(tags(nodes[i].addr).file, tags(nodes[i].addr).Func());
  }

  lemma {:induction false} ReverseInjective<T>(a: seq<T>, b: seq<T>)
    requires Reverse(a) == Reverse(b)
    ensures a == b
  {
    forall k | 0 <= k < |a|
      ensures a[k] == b[k]
    {
      assert Reverse(a)[|a| - 1 - k] == Reverse(b)[|a| - 1 - k];
    }
  }

  lemma {:induction false} MapAllEach<A, B>(f: A -> Option<B>, s: seq<A>, r: seq<B>)
    requires MapAll(f, s) == Some(r)
    ensures |r| == |s| && forall i :: 0 <= i < |s| ==> f(s[i]) == Some(r[i])
  {
    if s != [] {
      var init := MapAll(f, s[..|s| - 1]).value;
      assert r == init + [f(s[|s| - 1]).value];
      MapAllEach(f, s[..|s| - 1], init);
    }
  }

  /** Counts that the converter can read. */
  predicate CountsFit(nodes: seq<Record>) {
    forall i :: 0 <= i < |nodes| ==> nodes[i].cycles < U64_LIMIT
  }

  predicate AllClean(nodes: seq<Record>, tags: u64 -> Tags) {
    forall i :: 0 <= i < |nodes| ==> Clean(tags(nodes[i].addr))
  }

  /**
    Printing a call tree and reading it back gives one frame per call, in call order, with the
    call's whole path leaf first and exactly its own cycles.
  */
  lemma {:induction false} FlamegraphReads(nodes: seq<Record>, tags: u64 -> Tags)
    requires WellFormed(nodes) && CallTreeFacts.Spine(nodes) && CountsFit(nodes) && AllClean(nodes, tags)
    ensures MapAll(ParseLine, SplitLines(Flame(nodes, SimpleTag(tags), 0, ""))) == Some(Frames(nodes, tags))
  {
    var tag := SimpleTag(tags);
    FlameLines(nodes, tag);
    var bare := BareLines(nodes, tag);
    forall i | 0 <= i < |bare| ensures ParseLine(bare[i]) == Some(Frames(nodes, tags)[i]) {
      ParseNode(nodes, tags, i);
    }
    ParseAll(bare, Frames(nodes, tags));
  }

  lemma {:induction false} ReadingMeansClean(nodes: seq<Record>, tags: u64 -> Tags)
    requires WellFormed(nodes) && CallTreeFacts.Spine(nodes) && CountsFit(nodes)
    requires MapAll(ParseLine, SplitLines(Flame(nodes, SimpleTag(tags), 0, ""))) == Some(Frames(nodes, tags))
    ensures AllClean(nodes, tags)
  {
    var tag := SimpleTag(tags);
    MapAllEach(ParseLine, SplitLines(Flame(nodes, tag, 0, "")), Frames(nodes, tags));
    forall k | 0 <= k < |nodes|
      ensures '\n' !in tag(nodes[k].addr)
    {
      if '\n' in tag(nodes[k].addr) {
        FeedBreaksLines(nodes, tag, k);
      }
    }
    FlameLines(nodes, tag);
    forall i | 0 <= i < |nodes|
      ensures Clean(tags(nodes[i].addr))
    {
      assert ParseLine(BareLines(nodes, tag)[i]) == Some(Frames(nodes, tags)[i]);
      ReadsBackClean(nodes, tags, i);
      assert '\n' !in tag(nodes[i].addr);
    }
  }

  /** The printed call tree reads back as its frames exactly when every label is clean. */
  lemma {:induction false} FlamegraphRoundTripIff(nodes: seq<Record>, tags: u64 -> Tags)
    requires WellFormed(nodes) && CallTreeFacts.Spine(nodes) && CountsFit(nodes)
    ensures MapAll(ParseLine, SplitLines(Flame(nodes, SimpleTag(tags), 0, ""))) == Some(Frames(nodes, tags))
       <==> AllClean(nodes, tags)
  {
    if AllClean(nodes, tags) {
      FlamegraphReads(nodes, tags);
    }
    if MapAll(ParseLine, SplitLines(Flame(nodes, SimpleTag(tags), 0, ""))) == Some(Frames(nodes, tags)) {
      ReadingMeansClean(nodes, tags);
    }
  }

  /** A Rust array type in a function name splits one label into two. */
  lemma {:induction false} ArrayTypeSplits()
    ensures Split("f:[u; 4]") == ["f:[u", "4]"]
  {
    SplitAtSeparator("f:[u", "4]");
    assert "f:[u" + SEPARATOR + "4]" == "f:[u; 4]";
    SplitWhole("f:[u");
    SplitWhole("4]");
  }
}
