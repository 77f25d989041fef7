/**
  The thread-id and vCont grammars (GDB manual, appendix "GDB Remote Serial Protocol",
  section "Packets"), parsed as the server does and rendered as the protocol writes them.
*/
module GdbGrammar {
  import opened Bytes
  import opened Options
  import opened GdbText
  import opened GdbResponse
  import W = GdbWriter

  /** A parse: a value and the input after it, a failure that another alternative may follow, or a panic. */
  datatype Parse<+T> = Fail | Panic | Got(value: T, rest: seq<byte>)

  const U32: nat := 0x1_0000_0000

  const COMMA: byte := ',' as int
  const COLON: byte := ':' as int
  const SEMICOLON: byte := ';' as int

  predicate StartsWith(s: seq<byte>, tag: string)
    requires IsAscii(tag)
  {
    Ascii(tag) <= s
  }

  predicate Leads(s: seq<byte>, c: char) {
    s != [] && s[0] == c as int
  }

  // ---------------------------------------------------------------- numbers

  /** The number of leading hexadecimal digits. */
  function HexRun(s: seq<byte>): (r: nat)
    ensures r <= |s| && IsHex(s[..r]) && (r < |s| ==> HexValue(s[r]).None?)
  {
    if s == [] || HexValue(s[0]).None? then 0
    else
      assert s[..1 + HexRun(s[1..])] == [s[0]] + s[1..][..HexRun(s[1..])];
      1 + HexRun(s[1..])
  }

  function HexNum(s: seq<byte>): nat
    requires IsHex(s)
  {
    if s == [] then 0 else 16 * HexNum(s[..|s| - 1]) + HexValue(s[|s| - 1]).value
  }

  /** `hex_value`: one or more digits; too many of them panic. */
  function ParseHex(s: seq<byte>): (r: Parse<nat>)
    ensures r.Got? ==> |r.rest| < |s| && r.value < U64_LIMIT
  {
    var n := HexRun(s);
    if n == 0 then Fail
    else if HexNum(s[..n]) >= U64_LIMIT then Panic
    else Got(HexNum(s[..n]), s[n..])
  }

  function ParseHexByte(s: seq<byte>): (r: Parse<byte>)
    ensures r.Got? ==> |r.rest| < |s|
  {
    if |s| < 2 || HexValue(s[0]).None? || HexValue(s[1]).None? then Fail
    else Got(16 * HexValue(s[0]).value + HexValue(s[1]).value, s[2..])
  }

  // ---------------------------------------------------------------- thread ids

  /** `0`, `-1` or a number, in this order; the number is cut to 32 bits. */
  function ParseIdElement(s: seq<byte>): (r: Parse<Id>)
    ensures r.Got? ==> |r.rest| < |s|
  {
    if Leads(s, '0') then Got(Any, s[1..])
    else if StartsWith(s, "-1") then Got(All, s[2..])
    else
      match ParseHex(s)
      case Fail => Fail
      case Panic => Panic
      case Got(v, rest) => Got(Id(v % U32), rest)
  }

  function ParseIdPair(s: seq<byte>): (r: Parse<ThreadId>)
    ensures r.Got? ==> |r.rest| < |s|
  {
    match ParseIdElement(s)
    case Fail => Fail
    case Panic => Panic
    case Got(pid, rest) =>
      if !Leads(rest, '.') then Fail
      else
        match ParseIdElement(rest[1..])
        case Fail => Fail
        case Panic => Panic
        case Got(tid, rest') => Got(ThreadId(pid, tid), rest')
  }

  function ParseThreadId(s: seq<byte>): (r: Parse<ThreadId>)
    ensures r.Got? ==> |r.rest| < |s|
  {
    match ParseIdElement(s)
    case Panic => Panic
    case Got(pid, rest) => Got(ThreadId(pid, Any), rest)
    case Fail =>
      if !Leads(s, 'p') then Fail
      else
        match ParseIdPair(s[1..])
        case Panic => Panic
        case Got(id, rest) => Got(id, rest)
        case Fail =>
          match ParseIdElement(s[1..])
          case Panic => Panic
          case Fail => Fail
          case Got(pid, rest) => Got(ThreadId(pid, All), rest)
  }

  // ---------------------------------------------------------------- vCont

  datatype VCont =
    | Continue
    | ContinueWithSignal(signal: byte)
    | Step
    | StepWithSignal(signal: byte)
    | Stop
    | RangeStep(start: nat, end: nat)

  datatype Action = Action(kind: VCont, thread: Option<ThreadId>)

  datatype Command = CtrlC | VContSupported | VContActions(actions: seq<Action>) | OtherCommand

  function ParseKind(s: seq<byte>): (r: Parse<VCont>)
    ensures r.Got? ==> |r.rest| < |s|
  {
    if s == [] then Fail else ParseKindAfter(s[0] as char, s[1..])
  }

  function ParseKindAfter(letter: char, s: seq<byte>): (r: Parse<VCont>)
    ensures r.Got? ==> |r.rest| <= |s|
  {
    match letter
    case 'c' => Got(Continue, s)
    case 'C' =>
      (match ParseHexByte(s)
       case Got(signal, rest) => Got(ContinueWithSignal(signal), rest)
       case _ => Fail)
    case 's' => Got(Step, s)
    case 'S' =>
      (match ParseHexByte(s)
       case Got(signal, rest) => Got(StepWithSignal(signal), rest)
       case _ => Fail)
    case 't' => Got(Stop, s)
    case 'r' => ParseRange(s)
    case _ => Fail
  }

  function ParseRange(s: seq<byte>): (r: Parse<VCont>)
    ensures r.Got? ==> |r.rest| < |s|
  {
    match ParseHex(s)
    case Fail => Fail
    case Panic => Panic
    case Got(start, rest) =>
      if !Leads(rest, ',') then Fail
      else
        match ParseHex(rest[1..])
        case Fail => Fail
        case Panic => Panic
        case Got(end, rest') => Got(RangeStep(start, end), rest')
  }

  /** `;` action, and a thread id if a colon and a thread id follow. */
  function ParseAction(s: seq<byte>): (r: Parse<Action>)
    ensures r.Got? ==> |r.rest| < |s|
  {
    if !Leads(s, ';') then Fail
    else
      match ParseKind(s[1..])
      case Fail => Fail
      case Panic => Panic
      case Got(kind, rest) =>
        ParseThread(kind, rest)
  }

  function ParseThread(kind: VCont, s: seq<byte>): (r: Parse<Action>)
    ensures r.Got? ==> |r.rest| <= |s|
  {
    if !Leads(s, ':') then Got(Action(kind, None), s)
    else
      match ParseThreadId(s[1..])
      case Panic => Panic
      case Fail => Got(Action(kind, None), s)
      case Got(id, rest) => Got(Action(kind, Some(id)), rest)
  }

  /** `many0!`: as many actions as there are. */
  function ParseActions(s: seq<byte>): Parse<seq<Action>>
    decreases |s|
  {
    match ParseAction(s)
    case Fail => Got([], s)
    case Panic => Panic
    case Got(a, rest) =>
      match ParseActions(rest)
      case Got(more, rest') => Got([a] + more, rest')
      case _ => Panic
  }

  /** The alternatives of `v_command` up to vCont. */
  function ParseVCommand(s: seq<byte>): Parse<Command> {
    if StartsWith(s, "vCtrlC") then Got(CtrlC, s[6..])
    else if !StartsWith(s, "vCont") then Got(OtherCommand, s)
    else if Leads(s[5..], '?') then Got(VContSupported, s[6..])
    else
      match ParseActions(s[5..])
      case Got(actions, rest) => Got(VContActions(actions), rest)
      case _ => Panic
  }

  // ---------------------------------------------------------------- rendering

  function KindLetter(k: VCont): (c: char)
    ensures c < 128 as char
  {
    match k
    case Continue => 'c'
    case ContinueWithSignal(_) => 'C'
    case Step => 's'
    case StepWithSignal(_) => 'S'
    case Stop => 't'
    case RangeStep(_, _) => 'r'
  }

  function KindBody(k: VCont): seq<byte> {
    match k
    case ContinueWithSignal(signal) => Hex2(signal)
    case StepWithSignal(signal) => Hex2(signal)
    case RangeStep(start, end) => Hex(start) + ([COMMA] + Hex(end))
    case _ => []
  }

  function KindText(k: VCont): seq<byte> {
    [KindLetter(k) as int] + KindBody(k)
  }

  function ActionText(a: Action): seq<byte> {
    [SEMICOLON] + (KindText(a.kind) + ThreadText(a.thread))
  }

  function ThreadText(t: Option<ThreadId>): seq<byte> {
    if t.Some? then [COLON] + ThreadIdText(t.value) else []
  }

  function ActionsText(actions: seq<Action>): seq<byte> {
    if actions == [] then [] else ActionText(actions[0]) + ActionsText(actions[1..])
  }

  /** A number as its type has it: 32 bits. */
  predicate IdInRange(id: Id) { id.Id? ==> id.num < U32 }

  /** Every number as its type has it: ids of 32 bits, addresses of 64. */
  predicate ActionInRange(a: Action) {
    && (a.kind.RangeStep? ==> a.kind.start < U64_LIMIT && a.kind.end < U64_LIMIT)
    && (a.thread.Some? ==> IdInRange(a.thread.value.pid) && IdInRange(a.thread.value.tid))
  }

  predicate AllInRange(actions: seq<Action>) {
    forall i :: 0 <= i < |actions| ==> ActionInRange(actions[i])
  }

  /** What an id comes back as: the number zero is written as "any" is. */
  function ReadId(id: Id): Id {
    if id == Id(0) then Any else id
  }

  function ReadThread(t: ThreadId): ThreadId {
    ThreadId(ReadId(t.pid), ReadId(t.tid))
  }

  function ReadAction(a: Action): Action {
    if a.thread.Some? then Action(a.kind, Some(ReadThread(a.thread.value))) else a
  }

  function ReadActions(actions: seq<Action>): seq<Action> {
    if actions == [] then [] else [ReadAction(actions[0])] + ReadActions(actions[1..])
  }

  predicate NoZeroId(a: Action) {
    a.thread.Some? ==> a.thread.value.pid != Id(0) && a.thread.value.tid != Id(0)
  }

  // ---------------------------------------------------------------- round trips

  /** The next byte, if there is one, is not a hexadecimal digit. */
  predicate EndsNumber(rest: seq<byte>) { rest == [] || HexValue(rest[0]).None? }

  lemma {:induction false} HexNumHex(n: nat)
    ensures IsHex(Hex(n)) && HexNum(Hex(n)) == n
  {
    HexIsHex(n);
    if n >= 16 {
      HexNumHex(n / 16);
      HexValueDigit(n % 16);
      assert Hex(n)[..|Hex(n)| - 1] == Hex(n / 16);
    } else {
      HexValueDigit(n);
      assert Hex(n)[..0] == [] && HexNum([]) == 0;
    }
  }

  function Pow16(k: nat): nat {
    if k == 0 then 1 else 16 * Pow16(k - 1)
  }

  lemma {:induction false} Weigh(v: nat, p: nat, h: nat)
    ensures 16 * (v * p + h) == v * (16 * p) + 16 * h
  {
  }

  lemma {:induction false} HexSnoc(init: seq<byte>, last: byte)
    requires IsHex(init) && HexValue(last).Some?
    ensures IsHex(init + [last]) && HexNum(init + [last]) == 16 * HexNum(init) + HexValue(last).value
  {
    var s := init + [last];
    assert s[..|s| - 1] == init;
  }

  /** The first digit weighs most. */
  lemma {:induction false} HexPlaces(digit: byte, digits: seq<byte>)
    requires HexValue(digit).Some? && IsHex(digits)
    ensures IsHex([digit] + digits)
    ensures HexNum([digit] + digits) == HexValue(digit).value * Pow16(|digits|) + HexNum(digits)
    decreases |digits|
  {
    if digits == [] {
      HexSnoc([], digit);
      assert [] + [digit] == [digit] + digits;
    } else {
      var init, last := digits[..|digits| - 1], digits[|digits| - 1];
      HexPlaces(digit, init);
      HexSnoc([digit] + init, last);
      HexSnoc(init, last);
      assert digits == init + [last] && [digit] + digits == ([digit] + init) + [last];
      Weigh(HexValue(digit).value, Pow16(|init|), HexNum(init));
    }
  }

  lemma {:induction false} HexRunIs(digits: seq<byte>, rest: seq<byte>)
    requires IsHex(digits) && EndsNumber(rest)
    ensures HexRun(digits + rest) == |digits|
  {
    if digits != [] {
      assert (digits + rest)[1..] == digits[1..] + rest;
      HexRunIs(digits[1..], rest);
    } else {
      assert digits + rest == rest;
    }
  }

  /**
    Whatever digits the input starts with are read as the number they denote, leading zeros and all;
    without a digit nothing is read, and a number of more than 64 bits panics.
  */
  lemma {:induction false} ParseHexReads(digits: seq<byte>, rest: seq<byte>)
    requires IsHex(digits) && EndsNumber(rest)
    ensures ParseHex(digits + rest) ==
            if digits == [] then Fail
            else if HexNum(digits) < U64_LIMIT then Got(HexNum(digits), rest)
            else Panic
  {
    HexRunIs(digits, rest);
    assert (digits + rest)[..|digits|] == digits && (digits + rest)[|digits|..] == rest;
  }

  lemma {:induction false} ParseHexOf(n: nat, rest: seq<byte>)
    requires n < U64_LIMIT && EndsNumber(rest)
    ensures ParseHex(Hex(n) + rest) == Got(n, rest)
  {
    HexNumHex(n);
    ParseHexReads(Hex(n), rest);
  }

  lemma {:induction false} ParseHexByteOf(b: byte, rest: seq<byte>)
    ensures ParseHexByte(Hex2(b) + rest) == Got(b, rest)
  {
    HexValueDigit(b / 16);
    HexValueDigit(b % 16);
    assert (Hex2(b) + rest)[2..] == rest;
  }

  /** A positive number does not start with a zero. */
  lemma {:induction false} HexLeads(n: nat)
    requires n > 0
    ensures Hex(n)[0] != 0x30
  {
    if n >= 16 {
      HexLeads(n / 16);
    }
  }

  lemma {:induction false} ParseIdElementOf(id: Id, rest: seq<byte>)
    requires IdInRange(id) && EndsNumber(rest)
    ensures ParseIdElement(IdText(id) + rest) == Got(ReadId(id), rest)
  {
    var s := IdText(id) + rest;
    if id.Any? || id == Id(0) {
      assert IdText(id) == [0x30] && s[1..] == rest;
    } else if id.All? {
      assert s[0] == 0x2d && s[1] == 0x31 && s[2..] == rest;
    } else {
      ParseNumberOf(id.num, rest);
    }
  }

  lemma {:induction false} ParseNumberOf(n: nat, rest: seq<byte>)
    requires 0 < n < U32 && EndsNumber(rest)
    ensures ParseIdElement(Hex(n) + rest) == Got(Id(n), rest)
  {
    HexLeads(n);
    HexIsHex(n);
    assert (Hex(n) + rest)[0] == Hex(n)[0];
    ParseHexOf(n, rest);
  }

  lemma {:induction false} ParseIdPairOf(t: ThreadId, rest: seq<byte>)
    requires IdInRange(t.pid) && IdInRange(t.tid) && EndsNumber(rest)
    ensures ParseIdPair(IdText(t.pid) + (Ascii(".") + (IdText(t.tid) + rest))) == Got(ReadThread(t), rest)
  {
    var tail := Ascii(".") + (IdText(t.tid) + rest);
    assert HexValue(tail[0]).None?;
    ParseIdElementOf(t.pid, tail);
    assert Leads(tail, '.');
    assert tail[1..] == IdText(t.tid) + rest;
    ParseIdElementOf(t.tid, rest);
  }

  /** A thread id as the server writes it is read whole, and as itself exactly when neither id is the number zero. */
  lemma {:induction false} ThreadIdRoundTripIff(t: ThreadId, rest: seq<byte>)
    requires IdInRange(t.pid) && IdInRange(t.tid) && EndsNumber(rest)
    ensures ParseThreadId(ThreadIdText(t) + rest) == Got(ReadThread(t), rest)
    ensures ParseThreadId(ThreadIdText(t) + rest) == Got(t, rest) <==> t.pid != Id(0) && t.tid != Id(0)
  {
    var pair := IdText(t.pid) + (Ascii(".") + (IdText(t.tid) + rest));
    assert ThreadIdText(t) + rest == [0x70] + pair;
    ParseIdPairOf(t, rest);
    AfterP([0x70] + pair, pair);
  }

  lemma {:induction false} AfterP(s: seq<byte>, pair: seq<byte>)
    requires s == [0x70] + pair && ParseIdPair(pair).Got?
    ensures ParseThreadId(s) == ParseIdPair(pair)
  {
    assert s[0] == 0x70 && s[1..] == pair;
    assert ParseIdElement(s) == Fail;
  }

  /** An id alone is a process, with any of its threads; behind a `p` and without a dot, with all of them. */
  lemma {:induction false} ShortThreadIds(pid: Id, rest: seq<byte>)
    requires IdInRange(pid) && EndsNumber(rest)
    ensures ParseThreadId(IdText(pid) + rest) == Got(ThreadId(ReadId(pid), Any), rest)
    ensures rest == [] || rest[0] != '.' as int ==>
              ParseThreadId(['p' as int] + (IdText(pid) + rest)) == Got(ThreadId(ReadId(pid), All), rest)
  {
    ParseIdElementOf(pid, rest);
    var text := IdText(pid) + rest;
    if rest == [] || rest[0] != '.' as int {
      assert ParseIdPair(text) == Fail;
      OnlyP(['p' as int] + text, text);
    }
  }

  lemma {:induction false} OnlyP(s: seq<byte>, text: seq<byte>)
    requires s == ['p' as int] + text && ParseIdPair(text) == Fail && ParseIdElement(text).Got?
    ensures ParseThreadId(s) == Got(ThreadId(ParseIdElement(text).value, All), ParseIdElement(text).rest)
  {
    assert s[0] == 0x70 && s[1..] == text;
    assert ParseIdElement(s) == Fail;
  }

  /** A number of more than 32 bits loses its upper half. */
  lemma {:induction false} WideIds(n: nat, rest: seq<byte>)
    requires 0 < n < U64_LIMIT && EndsNumber(rest)
    ensures ParseIdElement(Hex(n) + rest) == Got(Id(n % 0x1_0000_0000), rest)
  {
    HexLeads(n);
    HexIsHex(n);
    assert (Hex(n) + rest)[0] == Hex(n)[0];
    ParseHexOf(n, rest);
  }

  lemma {:induction false} ParseKindOf(k: VCont, rest: seq<byte>)
    requires k.RangeStep? ==> k.start < U64_LIMIT && k.end < U64_LIMIT
    requires EndsNumber(rest)
    ensures ParseKind(KindText(k) + rest) == Got(k, rest)
  {
    var s := KindText(k) + rest;
    assert s[0] as char == KindLetter(k) && s[1..] == KindBody(k) + rest;
    ParseKindAfterOf(k, rest);
  }

  lemma {:induction false} ParseKindAfterOf(k: VCont, rest: seq<byte>)
    requires k.RangeStep? ==> k.start < U64_LIMIT && k.end < U64_LIMIT
    requires EndsNumber(rest)
    ensures ParseKindAfter(KindLetter(k), KindBody(k) + rest) == Got(k, rest)
  {
    if k.ContinueWithSignal? || k.StepWithSignal? {
      ParseSignalOf(k, rest);
    } else if k.RangeStep? {
      ParseRangeOf(k.start, k.end, rest);
    } else {
      ParseBareOf(k, rest);
    }
  }

  lemma {:induction false} ParseSignalOf(k: VCont, rest: seq<byte>)
    requires k.ContinueWithSignal? || k.StepWithSignal?
    ensures ParseKindAfter(KindLetter(k), KindBody(k) + rest) == Got(k, rest)
  {
    ParseHexByteOf(k.signal, rest);
  }

  lemma {:induction false} ParseBareOf(k: VCont, rest: seq<byte>)
    requires k.Continue? || k.Step? || k.Stop?
    ensures ParseKindAfter(KindLetter(k), KindBody(k) + rest) == Got(k, rest)
  {
    assert KindBody(k) + rest == rest;
  }

  lemma {:induction false} ParseRangeOf(start: nat, end: nat, rest: seq<byte>)
    requires start < U64_LIMIT && end < U64_LIMIT && EndsNumber(rest)
    ensures ParseRange(Hex(start) + ([COMMA] + Hex(end)) + rest) == Got(RangeStep(start, end), rest)
  {
    var tail := [COMMA] + (Hex(end) + rest);
    assert Hex(start) + ([COMMA] + Hex(end)) + rest == Hex(start) + tail;
    assert EndsNumber(tail);
    ParseHexOf(start, tail);
    ParseHexOf(end, rest);
    AfterComma(Hex(start) + tail, start, Hex(end) + rest);
  }

  lemma {:induction false} AfterComma(s: seq<byte>, start: nat, text: seq<byte>)
    requires ParseHex(s) == Got(start, [COMMA] + text) && ParseHex(text).Got?
    ensures ParseRange(s) == Got(RangeStep(start, ParseHex(text).value), ParseHex(text).rest)
  {
    assert ([COMMA] + text)[1..] == text;
  }

  /** What follows an action in a list: nothing, or the next action. */
  predicate ListTail(rest: seq<byte>) {
    rest == [] || rest[0] == SEMICOLON
  }

  lemma {:induction false} ParseActionOf(a: Action, rest: seq<byte>)
    requires ActionInRange(a) && ListTail(rest)
    ensures ParseAction(ActionText(a) + rest) == Got(ReadAction(a), rest)
  {
    var tail := ThreadText(a.thread) + rest;
    assert EndsNumber(tail);
    ParseKindOf(a.kind, tail);
    ParseThreadOf(a, rest);
    W.Regroup([SEMICOLON], KindText(a.kind) + ThreadText(a.thread), rest);
    W.Regroup(KindText(a.kind), ThreadText(a.thread), rest);
    AfterSemicolon(ActionText(a) + rest, KindText(a.kind) + tail, a.kind, tail);
  }

  lemma {:induction false} AfterSemicolon(s: seq<byte>, text: seq<byte>, kind: VCont, rest: seq<byte>)
    requires s == [SEMICOLON] + text
    requires ParseKind(text) == Got(kind, rest)
    ensures ParseAction(s) == ParseThread(kind, rest)
  {
    assert s[1..] == text;
  }

  lemma {:induction false} ParseThreadOf(a: Action, rest: seq<byte>)
    requires ActionInRange(a) && ListTail(rest)
    ensures ParseThread(a.kind, ThreadText(a.thread) + rest) == Got(ReadAction(a), rest)
  {
    var tail := ThreadText(a.thread) + rest;
    if a.thread.Some? {
      assert tail[1..] == ThreadIdText(a.thread.value) + rest;
      ThreadIdRoundTripIff(a.thread.value, rest);
    } else {
      assert tail == rest;
    }
  }

  lemma {:induction false} ParseActionsOf(actions: seq<Action>)
    requires AllInRange(actions)
    ensures ListTail(ActionsText(actions))
    ensures ParseActions(ActionsText(actions)) == Got(ReadActions(actions), [])
  {
    if actions != [] {
      ParseActionsOf(actions[1..]);
      ParseActionOf(actions[0], ActionsText(actions[1..]));
    }
  }

  lemma {:induction false} ReadActionsIff(actions: seq<Action>)
    ensures ReadActions(actions) == actions <==> forall i :: 0 <= i < |actions| ==> NoZeroId(actions[i])
  {
    if actions != [] {
      ReadActionsIff(actions[1..]);
      var read := ReadActions(actions);
      assert read[1..] == ReadActions(actions[1..]);
      assert read == actions <==> read[0] == actions[0] && read[1..] == actions[1..] by {
        assert read == [read[0]] + read[1..] && actions == [actions[0]] + actions[1..];
      }
      assert read[0] == actions[0] <==> NoZeroId(actions[0]);
      assert (forall i :: 0 <= i < |actions| ==> NoZeroId(actions[i]))
        <==> NoZeroId(actions[0]) && forall i :: 0 <= i < |actions[1..]| ==> NoZeroId(actions[1..][i]) by {
        assert forall i :: 1 <= i < |actions| ==> actions[i] == actions[1..][i - 1];
      }
    }
  }

  /**
    Every list of actions, the empty one included, is read back whole from its rendering; it comes
    back as itself exactly when no thread id in it holds the number zero.
  */
  lemma {:induction false} VContRoundTripIff(actions: seq<Action>)
    requires AllInRange(actions)
    ensures ParseVCommand(Ascii("vCont") + ActionsText(actions)) == Got(VContActions(ReadActions(actions)), [])
    ensures ParseVCommand(Ascii("vCont") + ActionsText(actions)) == Got(VContActions(actions), [])
       <==> forall i :: 0 <= i < |actions| ==> NoZeroId(actions[i])
  {
    var text := ActionsText(actions);
    ParseActionsOf(actions);
    ReadActionsIff(actions);
    ParseVContOf(text);
  }

  lemma {:induction false} ParseVContOf(text: seq<byte>)
    requires ListTail(text) && ParseActions(text).Got?
    ensures ParseVCommand(Ascii("vCont") + text) ==
            Got(VContActions(ParseActions(text).value), ParseActions(text).rest)
  {
    var s := Ascii("vCont") + text;
    assert s[2] == 0x6f;
    assert !StartsWith(s, "vCtrlC") by {
      assert Ascii("vCtrlC")[2] == 0x74;
    }
    assert s[5..] == text && !Leads(text, '?');
  }

  /** The commands without arguments; what begins otherwise is left to the other parsers. */
  lemma {:induction false} CommandsRead(s: seq<byte>, rest: seq<byte>)
    ensures ParseVCommand(Ascii("vCtrlC") + rest) == Got(CtrlC, rest)
    ensures ParseVCommand(Ascii("vCont?") + rest) == Got(VContSupported, rest)
    ensures ParseVCommand(s) == Got(OtherCommand, s) <==> !(Ascii("vCtrlC") <= s) && !(Ascii("vCont") <= s)
  {
    var (a, b) := (Ascii("vCtrlC") + rest, Ascii("vCont?") + rest);
    assert a[6..] == rest && b[6..] == rest;
    assert b[2] == 0x6f && Ascii("vCtrlC")[2] == 0x74;
    assert b[5..][0] == '?' as int;
    assert Ascii("vCont") <= b;
  }
}
