/**
  The converter's reader: split the flamegraph text into lines, a line into labels and a
  cycle count, a label into file and function name. `None` is one of its panics.
*/
module PprofInput {
  import opened Bytes
  import opened Options

  datatype Symbol = Symbol(name: Option<string>, file: Option<string>)

  datatype Frame = Frame(stack: seq<Symbol>, cycles: nat)

  /** The first position of `c` in `s`, or `|s|`. */
  function FindChar(s: string, c: char): (r: nat)
    ensures r <= |s| && c !in s[..r] && (r < |s| ==> s[r] == c)
  {
    if s == "" || s[0] == c then 0 else 1 + FindChar(s[1..], c)
  }

  /** The last position of `c` in `s`, or -1. */
  function RFindChar(s: string, c: char): (r: int)
    ensures -1 <= r < |s| && c !in s[r + 1..] && (r >= 0 ==> s[r] == c)
  {
    if s == "" then -1
    else if s[|s| - 1] == c then |s| - 1
    else RFindChar(s[..|s| - 1], c)
  }

  const SEPARATOR: string := "; "

  /** `str::split("; ")`: the pieces between the leftmost non-overlapping separators. */
  function Split(s: string): (r: seq<string>)
    ensures |r| >= 1
  {
    if |s| < 2 then [s]
    else if s[..2] == SEPARATOR then [""] + Split(s[2..])
    else
      var r := Split(s[1..]);
      [[s[0]] + r[0]] + r[1..]
  }

  /** `str::replace` of one character by another. */
  function Replace(s: string, from: char, to: char): (r: string)
    ensures |r| == |s|
    ensures forall i :: 0 <= i < |s| ==> r[i] == if s[i] == from then to else s[i]
  {
    if s == "" then "" else [if s[0] == from then to else s[0]] + Replace(s[1..], from, to)
  }

  /** Two passes: the second does not touch what the first has put in. */
  function NormalizeFunctionName(name: string): (r: string)
    ensures |r| == |name|
    ensures forall i :: 0 <= i < |r| ==> r[i] == if name[i] == '<' then '{' else if name[i] == '>' then '}' else name[i]
    ensures '<' !in r && '>' !in r
    ensures r == name <==> '<' !in name && '>' !in name
  {
    Replace(Replace(name, '<', '{'), '>', '}')
  }

  function ParseSymbol(s: string): Symbol {
    var j := FindChar(s, ':');
    if j < |s| then Symbol(Some(NormalizeFunctionName(s[j + 1..])), Some(s[..j]))
    else Symbol(Some(NormalizeFunctionName(s)), None)
  }

  function ParseDigits(s: string): Option<nat> {
    if s == "" then Some(0)
    else
      var init, d := ParseDigits(s[..|s| - 1]), s[|s| - 1];
      if init.None? || d < '0' || d > '9' then None
      else Some(10 * init.value + (d as int - '0' as int))
  }

  /** `u64::from_str`: digits with an optional plus sign, below 2^64. */
  function ParseU64(s: string): Option<nat> {
    var digits := if s != "" && s[0] == '+' then s[1..] else s;
    var n := ParseDigits(digits);
    if digits == "" || n.None? || n.value >= U64_LIMIT then None else n
  }

  function Reverse<T>(s: seq<T>): (r: seq<T>)
    ensures |r| == |s| && forall i :: 0 <= i < |s| ==> r[i] == s[|s| - 1 - i]
  {
    seq(|s|, i requires 0 <= i < |s| => s[|s| - 1 - i])
  }

  function ParseSymbols(labels: seq<string>): (r: seq<Symbol>)
    ensures |r| == |labels| && forall i :: 0 <= i < |r| ==> r[i] == ParseSymbol(labels[i])
  {
    seq(|labels|, i requires 0 <= i < |labels| => ParseSymbol(labels[i]))
  }

  function ParseLine(line: string): Option<Frame> {
    var i := RFindChar(line, ' ');
    if i < 0 then None
    else
      match ParseU64(line[i + 1..])
      case None => None
      case Some(cycles) => Some(Frame(Reverse(ParseSymbols(Split(line[..i]))), cycles))
  }

  /** Apply `f` to every element; the first failure is the result of the whole. */
  function MapAll<A, B>(f: A -> Option<B>, s: seq<A>): Option<seq<B>> {
    if s == [] then Some([])
    else
      var init, last := MapAll(f, s[..|s| - 1]), f(s[|s| - 1]);
      if init.None? || last.None? then None else Some(init.value + [last.value])
  }

  /** The converter's loop over the input lines. */
  method ReadFrames(lines: seq<string>) returns (r: Option<seq<Frame>>)
    ensures r == MapAll(ParseLine, lines)
  {
    var frames := [];
    for i := 0 to |lines|
      invariant MapAll(ParseLine, lines[..i]) == Some(frames)
    {
      assert lines[..i + 1][..i] == lines[..i];
      var frame := ParseLine(lines[i]);
      if frame.None? {
        FailureSpreads(ParseLine, lines, i + 1);
        return None;
      }
      frames := frames + [frame.value];
    }
    assert lines[..|lines|] == lines;
    return Some(frames);
  }

  lemma {:induction false} FailureSpreads<A, B>(f: A -> Option<B>, s: seq<A>, n: nat)
    requires n <= |s| && MapAll(f, s[..n]).None?
    ensures MapAll(f, s).None?
  {
    if n < |s| {
      assert s[..|s| - 1][..n] == s[..n];
      FailureSpreads(f, s[..|s| - 1], n);
    } else {
      assert s[..n] == s;
    }
  }

  /** A terminated line loses its line feed and one carriage return before it. */
  function Chomp(s: string): string {
    if s != "" && s[|s| - 1] == '\r' then s[..|s| - 1] else s
  }

  /** `BufRead::lines`. */
  function SplitLines(text: string): seq<string> {
    if text == "" then []
    else
      var j := FindChar(text, '\n');
      if j == |text| then [text] else [Chomp(text[..j])] + SplitLines(text[j + 1..])
  }

  /** A line without its line feed, and how it ends in the text. */
  datatype Written = Written(line: string, carriageReturn: bool)

  /** The line has no line feed, and no carriage return that would be taken for a part of its ending. */
  predicate Plain(w: Written) {
    '\n' !in w.line && (w.carriageReturn || w.line == "" || w.line[|w.line| - 1] != '\r')
  }

  function TextOf(ws: seq<Written>): string {
    if ws == [] then ""
    else ws[0].line + ((if ws[0].carriageReturn then "\r\n" else "\n") + TextOf(ws[1..]))
  }

  function LinesOf(ws: seq<Written>): seq<string> {
    if ws == [] then [] else [ws[0].line] + LinesOf(ws[1..])
  }

  lemma {:induction false} FirstLine(line: string, cr: bool, rest: string)
    requires Plain(Written(line, cr))
    ensures SplitLines(line + ((if cr then "\r\n" else "\n") + rest)) == [line] + SplitLines(rest)
  {
    var text := line + ((if cr then "\r\n" else "\n") + rest);
    var j := |line| + if cr then 1 else 0;
    assert text[j] == '\n' && forall k :: 0 <= k < j ==> text[k] != '\n';
    assert FindChar(text, '\n') == j;
    assert text[j + 1..] == rest;
    assert text[..j] == line + if cr then "\r" else "";
    assert Chomp(text[..j]) == line;
  }

  /**
    Lines come back without a line feed or a carriage return and line feed behind them; the last
    line need not end, and then it keeps all of its characters.
  */
  lemma {:induction false} LinesComeBack(ws: seq<Written>, last: string)
    requires (forall i :: 0 <= i < |ws| ==> Plain(ws[i])) && '\n' !in last
    ensures SplitLines(TextOf(ws) + last) == LinesOf(ws) + if last == "" then [] else [last]
  {
    if ws == [] {
      assert "" + last == last;
      LastLine(last);
    } else {
      LinesComeBack(ws[1..], last);
      FirstLine(ws[0].line, ws[0].carriageReturn, TextOf(ws[1..]) + last);
      Nest(ws[0].line, if ws[0].carriageReturn then "\r\n" else "\n", TextOf(ws[1..]), last);
      Nest([], [ws[0].line], LinesOf(ws[1..]), if last == "" then [] else [last]);
    }
  }

  lemma {:induction false} LastLine(last: string)
    requires '\n' !in last
    ensures SplitLines(last) == if last == "" then [] else [last]
  {
  }

  lemma {:induction false} Nest<T>(a: seq<T>, b: seq<T>, c: seq<T>, d: seq<T>)
    ensures a + (b + c) + d == a + (b + (c + d))
    ensures [] + (b + c) + d == b + c + d && [] + (b + (c + d)) == b + (c + d)
  {
  }

  predicate AllDigits(s: string) {
    forall i :: 0 <= i < |s| ==> '0' <= s[i] <= '9'
  }

  lemma {:induction false} DigitsIff(s: string)
    ensures ParseDigits(s).Some? <==> AllDigits(s)
  {
    if s != "" {
      var init := s[..|s| - 1];
      DigitsIff(init);
      assert s == init + [s[|s| - 1]];
    }
  }

  /** A number is written in digits only, behind at most one plus sign, and fits in 64 bits. */
  lemma {:induction false} ParseU64Iff(s: string, n: nat)
    ensures ParseU64(s) == Some(n) <==>
            exists digits :: IsNumeral(s, digits) && ParseDigits(digits) == Some(n) && n < 0x1_0000_0000_0000_0000
  {
    var digits := if s != "" && s[0] == '+' then s[1..] else s;
    if ParseU64(s) == Some(n) {
      DigitsIff(digits);
      assert s[0] == '+' ==> s == "+" + digits;
      assert IsNumeral(s, digits);
    }
  }

  predicate IsNumeral(s: string, digits: string) {
    digits != "" && AllDigits(digits) && (s == digits || s == "+" + digits)
  }
}
