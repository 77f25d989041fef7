/**
  What the bodies of replies say: a decoder for each kind of reply, written from the GDB manual,
  appendix "GDB Remote Serial Protocol" (sections "Packets", "Stop Reply Packets", "General Query
  Packets" and "File-I/O Remote Protocol Extension").
*/
module GdbReplies {
  import opened Bytes
  import opened Options
  import opened GdbText
  import opened GdbWriter
  import opened GdbResponse
  import opened GdbGrammar

  // ---------------------------------------------------------------- pieces

  /** What follows `tag`. */
  function After(s: seq<byte>, tag: string): Option<seq<byte>>
    requires IsAscii(tag)
  {
    if Ascii(tag) <= s then Some(s[|tag|..]) else None
  }

  lemma {:induction false} AfterTag(tag: string, rest: seq<byte>)
    requires IsAscii(tag)
    ensures After(Ascii(tag) + rest, tag) == Some(rest)
  {
  }

  /** Pairs of hexadecimal digits. */
  function Pairs(s: seq<byte>): Option<seq<byte>> {
    if s == [] then Some([])
    else if |s| == 1 then None
    else
      var init, hi, lo := Pairs(s[..|s| - 2]), HexValue(s[|s| - 2]), HexValue(s[|s| - 1]);
      if init.None? || hi.None? || lo.None? then None else Some(init.value + [16 * hi.value + lo.value])
  }

  lemma {:induction false} PairsNext(s: seq<byte>, b: byte)
    requires Pairs(s).Some?
    ensures Pairs(s + Hex2(b)) == Some(Pairs(s).value + [b])
  {
    var t := s + Hex2(b);
    HexValueDigit(b / 16);
    HexValueDigit(b % 16);
    assert t[..|t| - 2] == s && t[|t| - 2] == HexDigit(b / 16) && t[|t| - 1] == HexDigit(b % 16);
  }

  lemma {:induction false} PairsOf(bs: seq<byte>)
    ensures Pairs(HexBytes(bs)) == Some(bs)
  {
    if bs != [] {
      var init, last := bs[..|bs| - 1], bs[|bs| - 1];
      PairsOf(init);
      PairsNext(HexBytes(init), last);
      assert bs == init + [last];
    }
  }

  datatype Taken<T> = Taken(value: T, rest: seq<byte>)

  /** A hexadecimal number and what follows it. */
  function TakeNumber(s: seq<byte>): Option<Taken<nat>> {
    var n := HexRun(s);
    if n == 0 then None else Some(Taken(HexNum(s[..n]), s[n..]))
  }

  lemma {:induction false} TakeNumberOf(n: nat, rest: seq<byte>)
    requires EndsNumber(rest)
    ensures TakeNumber(Hex(n) + rest) == Some(Taken(n, rest))
  {
    HexNumHex(n);
    HexRunIs(Hex(n), rest);
    assert (Hex(n) + rest)[..|Hex(n)|] == Hex(n) && (Hex(n) + rest)[|Hex(n)|..] == rest;
  }

  function WholeNumber(s: seq<byte>): Option<nat> {
    match TakeNumber(s)
    case Some(Taken(n, rest)) => if rest == [] then Some(n) else None
    case None => None
  }

  lemma {:induction false} WholeNumberOf(n: nat)
    ensures WholeNumber(Hex(n)) == Some(n)
  {
    TakeNumberOf(n, []);
    assert Hex(n) + [] == Hex(n);
  }

  function WholeByte(s: seq<byte>): Option<byte> {
    match ParseHexByte(s)
    case Got(b, rest) => if rest == [] then Some(b) else None
    case _ => None
  }

  lemma {:induction false} WholeByteOf(b: byte)
    ensures WholeByte(Hex2(b)) == Some(b)
  {
    ParseHexByteOf(b, []);
    assert Hex2(b) + [] == Hex2(b);
  }

  function WholeThread(s: seq<byte>): Option<ThreadId> {
    match ParseThreadId(s)
    case Got(t, rest) => if rest == [] then Some(t) else None
    case _ => None
  }

  predicate ThreadInRange(t: ThreadId) {
    IdInRange(t.pid) && IdInRange(t.tid)
  }

  lemma {:induction false} WholeThreadOf(t: ThreadId)
    requires ThreadInRange(t)
    ensures WholeThread(ThreadIdText(t)) == Some(ReadThread(t))
  {
    ThreadIdRoundTripIff(t, []);
    assert ThreadIdText(t) + [] == ThreadIdText(t);
  }

  // ---------------------------------------------------------------- decoders

  function DecodeError(s: seq<byte>): Option<byte> {
    match After(s, "E")
    case Some(rest) => WholeByte(rest)
    case None => None
  }

  function DecodeTagged(s: seq<byte>, tag: string): Option<seq<byte>>
    requires IsAscii(tag)
  {
    match After(s, tag)
    case Some(rest) => Pairs(rest)
    case None => None
  }

  datatype Chunk = More(data: seq<byte>) | LastOf(data: seq<byte>)

  /** `m` and data, or `l` and the last of them. */
  function DecodeChunk(s: seq<byte>): Option<Chunk> {
    if s == [] then None
    else
      match s[0] as char
      case 'm' => Some(More(Unescape(s[1..])))
      case 'l' => Some(LastOf(Unescape(s[1..])))
      case _ => None
  }

  function DecodeCurrentThread(s: seq<byte>): Option<Option<ThreadId>> {
    if s == Ascii("OK") then Some(None)
    else
      match After(s, "QC")
      case None => None
      case Some(rest) => match WholeThread(rest) { case None => None case Some(t) => Some(Some(t)) }
  }

  function DecodeAttached(s: seq<byte>): Option<bool> {
    if s == Ascii("1") then Some(true) else if s == Ascii("0") then Some(false) else None
  }

  function DecodeSearch(s: seq<byte>): Option<Option<nat>> {
    if s == Ascii("0") then Some(None)
    else
      match After(s, "1,")
      case None => None
      case Some(rest) => match WholeNumber(rest) { case None => None case Some(n) => Some(Some(n)) }
  }

  /** A number, `;process:` and a process id. */
  function TakeProcess(s: seq<byte>): Option<nat> {
    match After(s, ";process:")
    case Some(rest) => WholeNumber(rest)
    case None => None
  }

  function DecodeStop(s: seq<byte>): Option<StopReason> {
    if s == [] then None
    else
      match s[0] as char
      case 'S' => DecodeSignal(s[1..])
      case 'W' => DecodeExit(s[1..])
      case 'X' => DecodeKilled(s[1..])
      case 'w' => DecodeThreadExit(s[1..])
      case 'N' => if |s| == 1 then Some(NoMoreThreads) else None
      case _ => None
  }

  function DecodeSignal(s: seq<byte>): Option<StopReason> {
    match WholeByte(s)
    case Some(n) => Some(Signal(n))
    case None => None
  }

  function DecodeExit(s: seq<byte>): Option<StopReason> {
    match ParseHexByte(s)
    case Got(status, rest) =>
      (match TakeProcess(rest) case None => None case Some(pid) => Some(Exited(pid, status)))
    case _ => None
  }

  function DecodeKilled(s: seq<byte>): Option<StopReason> {
    match TakeNumber(s)
    case None => None
    case Some(Taken(status, rest)) =>
      match TakeProcess(rest)
      case None => None
      case Some(pid) => if status < 256 then Some(ExitedWithSignal(pid, status)) else None
  }

  function DecodeThreadExit(s: seq<byte>): Option<StopReason> {
    match TakeNumber(s)
    case None => None
    case Some(Taken(code, rest)) =>
      match After(rest, ";")
      case None => None
      case Some(id) => match WholeThread(id) { case None => None case Some(t) => Some(ThreadExited(t, code)) }
  }

  function FeatureOf(letter: byte): Option<VContFeature> {
    match letter as char
    case 'c' => Some(CanContinue)
    case 'C' => Some(CanContinueWithSignal)
    case 's' => Some(CanStep)
    case 'S' => Some(CanStepWithSignal)
    case 't' => Some(CanStop)
    case 'r' => Some(CanRangeStep)
    case _ => None
  }

  /** Letters, each behind a semicolon. */
  function Letters(s: seq<byte>): Option<seq<VContFeature>> {
    if s == [] then Some([])
    else if |s| == 1 || s[|s| - 2] != ';' as int then None
    else
      var init, last := Letters(s[..|s| - 2]), FeatureOf(s[|s| - 1]);
      if init.None? || last.None? then None else Some(init.value + [last.value])
  }

  function DecodeFeatures(s: seq<byte>): Option<seq<VContFeature>> {
    match After(s, "vCont")
    case Some(rest) => Letters(rest)
    case None => None
  }

  /** Thread ids with commas between them, at least one. */
  function ThreadSeq(s: seq<byte>): Option<seq<ThreadId>>
    decreases |s|
  {
    match ParseThreadId(s)
    case Got(t, rest) =>
      if rest == [] then Some([t])
      else if rest[0] != ',' as int then None
      else
        (match ThreadSeq(rest[1..]) case None => None case Some(more) => Some([t] + more))
    case _ => None
  }

  function DecodeThreads(s: seq<byte>): Option<seq<ThreadId>> {
    if s == Ascii("l") then Some([])
    else
      match After(s, "m")
      case Some(rest) => ThreadSeq(rest)
      case None => None
  }

  /** An error number, a result, or a result that is the length of the data behind it. */
  datatype FileReply = FileError(errno: nat) | FileResult(n: nat) | FileData(data: seq<byte>)

  function DecodeFile(s: seq<byte>): Option<FileReply> {
    match After(s, "F-1,")
    case Some(rest) => (match WholeNumber(rest) case None => None case Some(n) => Some(FileError(n)))
    case None =>
      match After(s, "F")
      case None => None
      case Some(rest) => DecodeFileResult(rest)
  }

  function DecodeFileResult(s: seq<byte>): Option<FileReply> {
    match TakeNumber(s)
    case None => None
    case Some(Taken(n, rest)) =>
      if rest == [] then Some(FileResult(n))
      else if rest[0] == ';' as int && |Unescape(rest[1..])| == n then Some(FileData(Unescape(rest[1..])))
      else None
  }

  // ---------------------------------------------------------------- what each body says

  predicate InRange(r: Response) {
    match r
    case CurrentThread(Some(t)) => ThreadInRange(t)
    case Stopped(ThreadExited(t, _)) => ThreadInRange(t)
    case ThreadList(threads) => AllThreadsInRange(threads)
    case _ => true
  }

  predicate AllThreadsInRange(threads: seq<ThreadId>) {
    forall i :: 0 <= i < |threads| ==> ThreadInRange(threads[i])
  }

  function ReadThreads(threads: seq<ThreadId>): (r: seq<ThreadId>)
    ensures |r| == |threads| && forall i :: 0 <= i < |r| ==> r[i] == ReadThread(threads[i])
  {
    seq(|threads|, i requires 0 <= i < |threads| => ReadThread(threads[i]))
  }

  function ReadStop(r: StopReason): StopReason {
    if r.ThreadExited? then ThreadExited(ReadThread(r.thread), r.code) else r
  }

  function FileReplyOf(r: HostIOResult): FileReply {
    match r
    case Done => FileResult(0)
    case Failed(errno) => FileError(errno)
    case Integer(n) => FileResult(n)
    case Content(data) => FileData(data)
    case Stat(data) => FileData(data)
  }

  /** `body` says what `r` means to whoever asked. Thread ids come back as `ReadThread` has them. */
  ghost predicate Says(r: Response, body: seq<byte>) {
    match r
    case Empty => body == []
    case Ok => body == ['O' as int, 'K' as int]
    case Error(val) => DecodeError(body) == Some(val)
    case Text(s) => body == s
    case Output(s) => DecodeTagged(body, "O") == Some(s)
    case Bytes(bytes) => Pairs(body) == Some(bytes)
    case BytesOrEof(bytes, eof) => DecodeChunk(body) == Some(if eof then LastOf(bytes) else More(bytes))
    case CurrentThread(t) => DecodeCurrentThread(body) == Some(if t.None? then None else Some(ReadThread(t.value)))
    case ProcessType(attached) => DecodeAttached(body) == Some(attached)
    case Stopped(reason) => DecodeStop(body) == Some(ReadStop(reason))
    case SearchResult(addr) => DecodeSearch(body) == Some(addr)
    case VContFeatures(features) => DecodeFeatures(body) == Some(features)
    case ThreadList(threads) => DecodeThreads(body) == Some(ReadThreads(threads))
    case HostIO(result) => DecodeFile(body) == Some(FileReplyOf(result))
    case SymbolName(name) => DecodeTagged(body, "qSymbol:") == Some(name)
  }

  /** Every body says what its response means. */
  lemma {:induction false} BodySays(r: Response)
    requires InRange(r)
    ensures Says(r, Body(r))
  {
    if OnePiece(r) {
      PieceSays(r);
    } else if Carries(r) {
      DataSays(r);
    } else {
      StructuredSays(r);
    }
  }

  lemma {:induction false} PieceSays(r: Response)
    requires OnePiece(r)
    ensures Says(r, Piece(r))
  {
    match r
    case Error(val) =>
      AfterTag("E", Hex2(val));
      WholeByteOf(val);
    case SearchResult(Some(addr)) =>
      AfterTag("1,", Hex(addr));
      WholeNumberOf(addr);
    case ProcessType(attached) => assert Ascii("0")[0] != Ascii("1")[0];
    case _ =>
  }

  lemma {:induction false} DataSays(r: Response)
    requires Carries(r)
    ensures Says(r, DataBody(r))
  {
    match r
    case Output(s) => TaggedSays("O", s);
    case Bytes(bytes) => PairsOf(bytes);
    case BytesOrEof(bytes, eof) => ChunkSays(bytes, eof);
    case SymbolName(name) => TaggedSays("qSymbol:", name);
  }

  lemma {:induction false} TaggedSays(tag: string, data: seq<byte>)
    requires IsAscii(tag)
    ensures DecodeTagged(Ascii(tag) + HexBytes(data), tag) == Some(data)
  {
    AfterTag(tag, HexBytes(data));
    PairsOf(data);
  }

  lemma {:induction false} ChunkSays(bytes: seq<byte>, eof: bool)
    ensures DecodeChunk((if eof then Ascii("l") else Ascii("m")) + Escape(bytes))
            == Some(if eof then LastOf(bytes) else More(bytes))
  {
    var s := (if eof then Ascii("l") else Ascii("m")) + Escape(bytes);
    UnescapeEscape(bytes);
    assert s[1..] == Escape(bytes);
  }

  lemma {:induction false} StructuredSays(r: Response)
    requires !OnePiece(r) && !Carries(r) && InRange(r)
    ensures Says(r, StructuredBody(r))
  {
    match r
    case CurrentThread(t) => CurrentThreadSays(t);
    case Stopped(reason) => StopSays(reason);
    case VContFeatures(features) => FeaturesSay(features);
    case ThreadList(threads) => ThreadsSay(threads);
    case HostIO(result) => FileSays(result);
  }

  lemma {:induction false} CurrentThreadSays(t: Option<ThreadId>)
    requires t.Some? ==> ThreadInRange(t.value)
    ensures DecodeCurrentThread(CurrentThreadBody(t)) == Some(if t.None? then None else Some(ReadThread(t.value)))
  {
    if t.Some? {
      assert CurrentThreadBody(t)[0] == 'Q' as int;
      AfterTag("QC", ThreadIdText(t.value));
      WholeThreadOf(t.value);
    }
  }

  lemma {:induction false} ProcessOf(pid: nat)
    ensures TakeProcess(Ascii(";process:") + Hex(pid)) == Some(pid)
  {
    AfterTag(";process:", Hex(pid));
    WholeNumberOf(pid);
  }

  lemma {:induction false} Rebracket(a: seq<byte>, b: seq<byte>, c: seq<byte>, d: seq<byte>)
    ensures a + b + c + d == a + (b + (c + d))
  {
  }

  lemma {:induction false} StopSays(r: StopReason)
    requires r.ThreadExited? ==> ThreadInRange(r.thread)
    ensures DecodeStop(StopBody(r)) == Some(ReadStop(r))
  {
    match r
    case Signal(signo) => SignalSays(signo);
    case Exited(pid, status) => ExitSays(pid, status);
    case ExitedWithSignal(pid, status) => KilledSays(pid, status);
    case ThreadExited(t, code) => ThreadExitSays(t, code);
    case NoMoreThreads =>
  }

  /** The letter in front decides the kind. */
  lemma {:induction false} StopLetter(s: seq<byte>, rest: seq<byte>)
    ensures s == ['X' as int] + rest ==> DecodeStop(s) == DecodeKilled(rest)
    ensures s == ['w' as int] + rest ==> DecodeStop(s) == DecodeThreadExit(rest)
  {
    if s == ['X' as int] + rest || s == ['w' as int] + rest {
      assert s[1..] == rest;
    }
  }

  lemma {:induction false} SignalSays(signo: byte)
    ensures DecodeStop(StopBody(Signal(signo))) == Some(Signal(signo))
  {
    var s := StopBody(Signal(signo));
    assert s[0] == 'S' as int && s[1..] == Hex2(signo);
    WholeByteOf(signo);
  }

  lemma {:induction false} ExitSays(pid: nat, status: byte)
    ensures DecodeStop(StopBody(Exited(pid, status))) == Some(Exited(pid, status))
  {
    var s, process := StopBody(Exited(pid, status)), Ascii(";process:") + Hex(pid);
    Rebracket(Ascii("W"), Hex2(status), Ascii(";process:"), Hex(pid));
    assert s[0] == 'W' as int && s[1..] == Hex2(status) + process;
    ParseHexByteOf(status, process);
    ProcessOf(pid);
  }

  lemma {:induction false} KilledSays(pid: nat, status: byte)
    ensures DecodeStop(StopBody(ExitedWithSignal(pid, status))) == Some(ExitedWithSignal(pid, status))
  {
    var s, process := StopBody(ExitedWithSignal(pid, status)), Ascii(";process:") + Hex(pid);
    Rebracket(Ascii("X"), Hex(status), Ascii(";process:"), Hex(pid));
    assert s == ['X' as int] + (Hex(status) + process);
    StopLetter(s, Hex(status) + process);
    DecodeKilledOf(pid, status);
  }

  lemma {:induction false} DecodeKilledOf(pid: nat, status: byte)
    ensures DecodeKilled(Hex(status) + (Ascii(";process:") + Hex(pid))) == Some(ExitedWithSignal(pid, status))
  {
    var process := Ascii(";process:") + Hex(pid);
    assert process[0] == ';' as int;
    TakeNumberOf(status, process);
    ProcessOf(pid);
  }

  lemma {:induction false} ThreadExitSays(t: ThreadId, code: nat)
    requires ThreadInRange(t)
    ensures DecodeStop(StopBody(ThreadExited(t, code))) == Some(ThreadExited(ReadThread(t), code))
  {
    var s, id := StopBody(ThreadExited(t, code)), Ascii(";") + ThreadIdText(t);
    Rebracket(Ascii("w"), Hex(code), Ascii(";"), ThreadIdText(t));
    assert s == ['w' as int] + (Hex(code) + id);
    StopLetter(s, Hex(code) + id);
    DecodeThreadExitOf(t, code);
  }

  lemma {:induction false} DecodeThreadExitOf(t: ThreadId, code: nat)
    requires ThreadInRange(t)
    ensures DecodeThreadExit(Hex(code) + (Ascii(";") + ThreadIdText(t))) == Some(ThreadExited(ReadThread(t), code))
  {
    var text := ThreadIdText(t);
    WholeThreadOf(t);
    DecodeThreadExitAt(text, code);
  }

  lemma {:induction false} DecodeThreadExitAt(text: seq<byte>, code: nat)
    requires WholeThread(text).Some?
    ensures DecodeThreadExit(Hex(code) + (Ascii(";") + text)) == Some(ThreadExited(WholeThread(text).value, code))
  {
    var id := Ascii(";") + text;
    assert id[0] == ';' as int;
    TakeNumberOf(code, id);
    AfterTag(";", text);
  }

  lemma {:induction false} LettersOf(features: seq<VContFeature>)
    ensures Letters(FeatureList(features)) == Some(features)
  {
    if features != [] {
      var init, last := features[..|features| - 1], features[|features| - 1];
      LettersOf(init);
      var s := FeatureList(features);
      assert s[..|s| - 2] == FeatureList(init) && s[|s| - 2] == ';' as int && s[|s| - 1] == last.Letter();
      assert FeatureOf(last.Letter()) == Some(last);
      assert features == init + [last];
    }
  }

  lemma {:induction false} FeaturesSay(features: seq<VContFeature>)
    ensures DecodeFeatures(FeaturesBody(features)) == Some(features)
  {
    AfterTag("vCont", FeatureList(features));
    LettersOf(features);
  }

  lemma {:induction false} ThreadIdsSnoc(init: seq<ThreadId>, last: ThreadId)
    requires init != []
    ensures ThreadIds(init + [last]) == ThreadIds(init) + (Ascii(",") + ThreadIdText(last))
  {
    var threads := init + [last];
    assert threads[..|threads| - 1] == init;
  }

  lemma {:induction false} ThreadIdsOne(t: ThreadId)
    ensures ThreadIds([t]) == ThreadIdText(t)
  {
    assert [t][..0] == [] && [] + ([] + ThreadIdText(t)) == ThreadIdText(t);
  }

  lemma {:induction false} Nest(a: seq<byte>, b: seq<byte>, c: seq<byte>, d: seq<byte>)
    ensures a + (b + c) + d == a + (b + (c + d))
  {
  }

  /** The list of thread ids, told from its front. */
  lemma {:induction false} ThreadIdsFront(first: ThreadId, rest: seq<ThreadId>)
    requires rest != []
    ensures ThreadIds([first] + rest) == ThreadIdText(first) + (Ascii(",") + ThreadIds(rest))
  {
    var init, last := rest[..|rest| - 1], rest[|rest| - 1];
    assert rest == init + [last];
    if init == [] {
      assert rest == [last];
      ThreadIdsOne(first);
      ThreadIdsOne(last);
      ThreadIdsSnoc([first], last);
    } else {
      ThreadIdsFront(first, init);
      ThreadIdsSnoc(init, last);
      ThreadIdsSnoc([first] + init, last);
      assert [first] + rest == ([first] + init) + [last];
      Nest(ThreadIdText(first), Ascii(","), ThreadIds(init), Ascii(",") + ThreadIdText(last));
    }
  }

  lemma {:induction false} ThreadSeqStep(t: ThreadId, text: seq<byte>)
    requires ThreadInRange(t) && ThreadSeq(text).Some?
    ensures ThreadSeq(ThreadIdText(t) + (Ascii(",") + text)) == Some([ReadThread(t)] + ThreadSeq(text).value)
  {
    var tail := Ascii(",") + text;
    assert tail[0] == ',' as int && tail[1..] == text;
    ThreadIdRoundTripIff(t, tail);
  }

  lemma {:induction false} ThreadSeqOf(threads: seq<ThreadId>)
    requires threads != [] && AllThreadsInRange(threads)
    ensures ThreadSeq(ThreadIds(threads)) == Some(ReadThreads(threads))
    decreases |threads|
  {
    var first, rest := threads[0], threads[1..];
    assert ThreadInRange(first) && threads == [first] + rest;
    if rest == [] {
      ThreadIdsOne(first);
      ThreadSeqLast(first);
      assert ReadThreads(threads) == [ReadThread(first)];
    } else {
      ThreadSeqOf(rest);
      ThreadSeqFront(first, rest);
    }
  }

  lemma {:induction false} ReadFront(first: ThreadId, rest: seq<ThreadId>)
    ensures ReadThreads([first] + rest) == [ReadThread(first)] + ReadThreads(rest)
  {
  }

  lemma {:induction false} ThreadSeqFront(first: ThreadId, rest: seq<ThreadId>)
    requires rest != [] && ThreadInRange(first)
    requires ThreadSeq(ThreadIds(rest)) == Some(ReadThreads(rest))
    ensures ThreadSeq(ThreadIds([first] + rest)) == Some(ReadThreads([first] + rest))
  {
    ThreadIdsFront(first, rest);
    ThreadSeqStep(first, ThreadIds(rest));
    ReadFront(first, rest);
  }

  lemma {:induction false} ThreadSeqLast(t: ThreadId)
    requires ThreadInRange(t)
    ensures ThreadSeq(ThreadIdText(t)) == Some([ReadThread(t)])
  {
    assert ThreadIdText(t) + [] == ThreadIdText(t);
    ThreadIdRoundTripIff(t, []);
  }

  lemma {:induction false} ThreadsSay(threads: seq<ThreadId>)
    requires AllThreadsInRange(threads)
    ensures DecodeThreads(ThreadListBody(threads)) == Some(ReadThreads(threads))
  {
    if threads != [] {
      AfterTag("m", ThreadIds(threads));
      assert ThreadListBody(threads)[0] == 'm' as int;
      ThreadSeqOf(threads);
    }
  }

  lemma {:induction false} FileSays(r: HostIOResult)
    ensures DecodeFile(HostIOBody(r)) == Some(FileReplyOf(r))
  {
    match r
    case Done =>
      assert Hex(0) == Ascii("0") && Ascii("F") + Ascii("0") == Ascii("F0");
      ResultSays(0);
    case Failed(errno) =>
      AfterTag("F-1,", Hex(errno));
      WholeNumberOf(errno);
    case Integer(n) => ResultSays(n);
    case Content(data) => FileDataSays(data);
    case Stat(data) => FileDataSays(data);
  }

  /** A number does not begin with a minus sign. */
  lemma {:induction false} NoMinus(n: nat, rest: seq<byte>)
    ensures After(Ascii("F") + (Hex(n) + rest), "F-1,") == None
    ensures After(Ascii("F") + (Hex(n) + rest), "F") == Some(Hex(n) + rest)
  {
    HexIsHex(n);
    AfterTag("F", Hex(n) + rest);
    var s := Ascii("F") + (Hex(n) + rest);
    assert s[1] == Hex(n)[0] && HexValue(s[1]).Some?;
    assert HexValue('-' as int).None? && Ascii("F-1,")[1] == '-' as int;
  }

  lemma {:induction false} ResultSays(n: nat)
    ensures DecodeFile(Ascii("F") + Hex(n)) == Some(FileResult(n))
  {
    assert Hex(n) + [] == Hex(n);
    NoMinus(n, []);
    TakeNumberOf(n, []);
  }

  lemma {:induction false} FileDataSays(data: seq<byte>)
    ensures DecodeFile(Ascii("F") + Hex(|data|) + Ascii(";") + Escape(data)) == Some(FileData(data))
  {
    var rest := Ascii(";") + Escape(data);
    Rebracket(Ascii("F"), Hex(|data|), Ascii(";"), Escape(data));
    NoMinus(|data|, rest);
    assert rest[0] == ';' as int && rest[1..] == Escape(data);
    TakeNumberOf(|data|, rest);
    UnescapeEscape(data);
  }
}
