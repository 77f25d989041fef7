/**
  One packet per response: `$`, the body, `#`, the checksum.
*/
module GdbResponse {
  import opened Bytes
  import opened Options
  import opened GdbText
  import opened GdbPackets
  import opened GdbWriter

  datatype Id = Id(num: nat) | All | Any

  datatype ThreadId = ThreadId(pid: Id, tid: Id)

  datatype StopReason =
    | Signal(signo: byte)
    | Exited(pid: nat, status: byte)
    | ExitedWithSignal(pid: nat, status: byte)
    | ThreadExited(thread: ThreadId, code: nat)
    | NoMoreThreads

  /** `Stat` carries the bytes that the stat structure is encoded in. */
  datatype HostIOResult = Done | Failed(errno: nat) | Integer(i: nat) | Content(data: seq<byte>) | Stat(data: seq<byte>)

  datatype VContFeature = CanContinue | CanContinueWithSignal | CanStep | CanStepWithSignal | CanStop | CanRangeStep {
    function Letter(): byte {
      match this
      case CanContinue => 0x63
      case CanContinueWithSignal => 0x43
      case CanStep => 0x73
      case CanStepWithSignal => 0x53
      case CanStop => 0x74
      case CanRangeStep => 0x72
    }
  }

  datatype Response =
    | Empty
    | Ok
    | Error(val: byte)
    | Text(s: seq<byte>)
    | Output(s: seq<byte>)
    | Bytes(bytes: seq<byte>)
    | BytesOrEof(bytes: seq<byte>, eof: bool)
    | CurrentThread(thread: Option<ThreadId>)
    | ProcessType(attached: bool)
    | Stopped(reason: StopReason)
    | SearchResult(addr: Option<nat>)
    | VContFeatures(features: seq<VContFeature>)
    | ThreadList(threads: seq<ThreadId>)
    | HostIO(result: HostIOResult)
    | SymbolName(name: seq<byte>)

  // ---------------------------------------------------------------- bodies

  function IdText(id: Id): seq<byte> {
    match id
    case All => Ascii("-1")
    case Any => Ascii("0")
    case Id(num) => Hex(num)
  }

  function ThreadIdText(t: ThreadId): seq<byte> {
    Ascii("p") + IdText(t.pid) + Ascii(".") + IdText(t.tid)
  }

  function FeatureList(features: seq<VContFeature>): seq<byte> {
    if features == [] then []
    else FeatureList(features[..|features| - 1]) + (Ascii(";") + [features[|features| - 1].Letter()])
  }

  function ThreadIds(threads: seq<ThreadId>): seq<byte> {
    if threads == [] then []
    else ThreadIds(threads[..|threads| - 1]) + Separated(threads[|threads| - 1], |threads| == 1)
  }

  function Separated(t: ThreadId, first: bool): seq<byte> {
    (if first then [] else Ascii(",")) + ThreadIdText(t)
  }

  function StopBody(r: StopReason): seq<byte> {
    match r
    case Signal(signo) => Ascii("S") + Hex2(signo)
    case Exited(pid, status) => Ascii("W") + Hex2(status) + Ascii(";process:") + Hex(pid)
    case ExitedWithSignal(pid, status) => Ascii("X") + Hex(status) + Ascii(";process:") + Hex(pid)
    case ThreadExited(thread, code) => Ascii("w") + Hex(code) + Ascii(";") + ThreadIdText(thread)
    case NoMoreThreads => Ascii("N")
  }

  function HostIOBody(r: HostIOResult): seq<byte> {
    match r
    case Done => Ascii("F0")
    case Failed(errno) => Ascii("F-1,") + Hex(errno)
    case Integer(i) => Ascii("F") + Hex(i)
    case Content(data) => Ascii("F") + Hex(|data|) + Ascii(";") + Escape(data)
    case Stat(data) => Ascii("F") + Hex(|data|) + Ascii(";") + Escape(data)
  }

  function CurrentThreadBody(thread: Option<ThreadId>): seq<byte> {
    if thread.None? then Ascii("OK") else Ascii("QC") + ThreadIdText(thread.value)
  }

  function ThreadListBody(threads: seq<ThreadId>): seq<byte> {
    if threads == [] then Ascii("l") else Ascii("m") + ThreadIds(threads)
  }

  /** Responses whose body is one piece of text. */
  predicate OnePiece(r: Response) {
    r.Empty? || r.Ok? || r.Error? || r.Text? || r.ProcessType? || r.SearchResult?
  }

  function Piece(r: Response): seq<byte>
    requires OnePiece(r)
  {
    match r
    case Empty => []
    case Ok => Ascii("OK")
    case Error(val) => Ascii("E") + Hex2(val)
    case Text(s) => s
    case ProcessType(attached) => if attached then Ascii("1") else Ascii("0")
    case SearchResult(addr) => if addr.None? then Ascii("0") else Ascii("1,") + Hex(addr.value)
  }

  /** Responses that carry hexadecimal or escaped data. */
  predicate Carries(r: Response) {
    r.Output? || r.Bytes? || r.BytesOrEof? || r.SymbolName?
  }

  function DataBody(r: Response): seq<byte>
    requires Carries(r)
  {
    match r
    case Output(s) => Ascii("O") + HexBytes(s)
    case Bytes(bytes) => HexBytes(bytes)
    case BytesOrEof(bytes, eof) => (if eof then Ascii("l") else Ascii("m")) + Escape(bytes)
    case SymbolName(name) => Ascii("qSymbol:") + HexBytes(name)
  }

  function FeaturesBody(features: seq<VContFeature>): seq<byte> {
    Ascii("vCont") + FeatureList(features)
  }

  /** All the others. */
  function StructuredBody(r: Response): seq<byte>
    requires !OnePiece(r) && !Carries(r)
  {
    match r
    case CurrentThread(thread) => CurrentThreadBody(thread)
    case Stopped(reason) => StopBody(reason)
    case VContFeatures(features) => FeaturesBody(features)
    case ThreadList(threads) => ThreadListBody(threads)
    case HostIO(result) => HostIOBody(result)
  }

  function Body(r: Response): seq<byte> {
    if OnePiece(r) then Piece(r) else if Carries(r) then DataBody(r) else StructuredBody(r)
  }

  function Framed(body: seq<byte>): seq<byte> {
    [DOLLAR] + body + [HASH] + Hex2(ChecksumOf(body))
  }

  // ---------------------------------------------------------------- writing a response

  method WriteThreadId(w: PacketWriter, t: ThreadId) returns (ok: bool)
    requires w.Valid()
    modifies w, w.writer
    ensures w.Valid() && Writes(old(w.Logged()), w.Logged(), ThreadIdText(t), ok)
  {
    ok := WritePair(w, Ascii("p"), IdText(t.pid), ThreadIdText(t));
    if !ok { return; }
    ghost var log, now := old(w.Logged()), w.Logged();
    ok := WritePair(w, Ascii("."), IdText(t.tid), Ascii(".") + IdText(t.tid));
    Regroup(Ascii("p") + IdText(t.pid), Ascii("."), IdText(t.tid));
    WritesNext(log, now, w.Logged(), Ascii("p") + IdText(t.pid), Ascii(".") + IdText(t.tid), ThreadIdText(t), ok);
  }

  /** Two writes that begin `goal`. */
  method WritePair(w: PacketWriter, a: seq<byte>, b: seq<byte>, ghost goal: seq<byte>) returns (ok: bool)
    requires w.Valid() && a <= a + b <= goal
    modifies w, w.writer
    ensures w.Valid() && Writes(old(w.Logged()), w.Logged(), if ok then a + b else goal, ok)
  {
    ghost var log := w.Logged();
    ok := w.WriteAll(a);
    WritesFirst(log, w.Logged(), a, goal, ok);
    if !ok { return; }
    ghost var now := w.Logged();
    ok := w.WriteAll(b);
    WritesNext(log, now, w.Logged(), a, b, goal, ok);
  }

  method WriteHexData(w: PacketWriter, data: seq<byte>) returns (ok: bool)
    requires w.Valid()
    modifies w, w.writer
    ensures w.Valid() && Writes(old(w.Logged()), w.Logged(), HexBytes(data), ok)
  {
    ghost var log := w.Logged();
    assert data[..0] == [] && log.taken + [] == log.taken;
    for i := 0 to |data|
      invariant w.Valid() && Writes(log, w.Logged(), HexBytes(data[..i]), true)
    {
      assert data[..i + 1][..i] == data[..i];
      HexBytesPrefix(data, i + 1);
      ghost var now := w.Logged();
      ok := w.WriteAll(Hex2(data[i]));
      WritesNext(log, now, w.Logged(), HexBytes(data[..i]), Hex2(data[i]), HexBytes(data), ok);
      if !ok { return; }
    }
    assert data[..|data|] == data;
    ok := true;
  }

  lemma {:induction false} HexBytesPrefix(data: seq<byte>, n: nat)
    requires n <= |data|
    ensures HexBytes(data[..n]) <= HexBytes(data)
  {
    if n < |data| {
      assert data[..|data| - 1][..n] == data[..n];
      HexBytesPrefix(data[..|data| - 1], n);
    } else {
      assert data[..n] == data;
    }
  }

  /** A tag and then hexadecimal data. */
  method WriteTagged(w: PacketWriter, tag: seq<byte>, data: seq<byte>) returns (ok: bool)
    requires w.Valid()
    modifies w, w.writer
    ensures w.Valid() && Writes(old(w.Logged()), w.Logged(), tag + HexBytes(data), ok)
  {
    ghost var log, goal := w.Logged(), tag + HexBytes(data);
    ok := w.WriteAll(tag);
    WritesFirst(log, w.Logged(), tag, goal, ok);
    if !ok { return; }
    ghost var now := w.Logged();
    ok := WriteHexData(w, data);
    WritesNext(log, now, w.Logged(), tag, HexBytes(data), goal, ok);
  }

  method WriteCurrentThread(w: PacketWriter, thread: Option<ThreadId>) returns (ok: bool)
    requires w.Valid()
    modifies w, w.writer
    ensures w.Valid() && Writes(old(w.Logged()), w.Logged(), CurrentThreadBody(thread), ok)
  {
    if thread.None? {
      ok := w.WriteAll(Ascii("OK"));
    } else {
      ok := WriteTagAndThread(w, Ascii("QC"), thread.value);
    }
  }

  /** A tag and then a thread id. */
  method WriteTagAndThread(w: PacketWriter, tag: seq<byte>, t: ThreadId) returns (ok: bool)
    requires w.Valid()
    modifies w, w.writer
    ensures w.Valid() && Writes(old(w.Logged()), w.Logged(), tag + ThreadIdText(t), ok)
  {
    ghost var log, goal := w.Logged(), tag + ThreadIdText(t);
    ok := w.WriteAll(tag);
    WritesFirst(log, w.Logged(), tag, goal, ok);
    if !ok { return; }
    ghost var now := w.Logged();
    ok := WriteThreadId(w, t);
    WritesNext(log, now, w.Logged(), tag, ThreadIdText(t), goal, ok);
  }

  method WriteFeatures(w: PacketWriter, features: seq<VContFeature>) returns (ok: bool)
    requires w.Valid()
    modifies w, w.writer
    ensures w.Valid() && Writes(old(w.Logged()), w.Logged(), FeaturesBody(features), ok)
  {
    ghost var log, goal := w.Logged(), Ascii("vCont") + FeatureList(features);
    ok := w.WriteAll(Ascii("vCont"));
    WritesFirst(log, w.Logged(), Ascii("vCont"), goal, ok);
    if !ok { return; }
    assert features[..0] == [] && Ascii("vCont") + [] == Ascii("vCont");
    for i := 0 to |features|
      invariant w.Valid() && Writes(log, w.Logged(), Ascii("vCont") + FeatureList(features[..i]), true)
    {
      ghost var now, done := w.Logged(), Ascii("vCont") + FeatureList(features[..i]);
      var feature := Ascii(";") + [features[i].Letter()];
      FeaturesNext(features, i);
      ok := w.WriteAll(feature);
      Regroup(Ascii("vCont"), FeatureList(features[..i]), feature);
      WritesNext(log, now, w.Logged(), done, feature, goal, ok);
      if !ok { return; }
    }
    assert features[..|features|] == features;
    ok := true;
  }

  lemma {:induction false} FeaturesNext(features: seq<VContFeature>, i: nat)
    requires i < |features|
    ensures FeatureList(features[..i + 1]) == FeatureList(features[..i]) + (Ascii(";") + [features[i].Letter()])
    ensures FeatureList(features[..i + 1]) <= FeatureList(features)
  {
    assert features[..i + 1][..i] == features[..i];
    FeaturesPrefix(features, i + 1);
  }

  lemma {:induction false} FeaturesPrefix(features: seq<VContFeature>, n: nat)
    requires n <= |features|
    ensures FeatureList(features[..n]) <= FeatureList(features)
  {
    if n < |features| {
      assert features[..|features| - 1][..n] == features[..n];
      FeaturesPrefix(features[..|features| - 1], n);
    } else {
      assert features[..n] == features;
    }
  }

  method WriteSeparated(w: PacketWriter, t: ThreadId, first: bool) returns (ok: bool)
    requires w.Valid()
    modifies w, w.writer
    ensures w.Valid() && Writes(old(w.Logged()), w.Logged(), Separated(t, first), ok)
  {
    if first {
      assert [] + ThreadIdText(t) == ThreadIdText(t);
      ok := WriteThreadId(w, t);
    } else {
      ok := WriteTagAndThread(w, Ascii(","), t);
    }
  }

  lemma {:induction false} ThreadIdsNext(threads: seq<ThreadId>, i: nat)
    requires i < |threads|
    ensures ThreadIds(threads[..i + 1]) == ThreadIds(threads[..i]) + Separated(threads[i], i == 0)
    ensures ThreadIds(threads[..i + 1]) <= ThreadIds(threads)
  {
    assert threads[..i + 1][..i] == threads[..i];
    ThreadIdsPrefix(threads, i + 1);
  }

  lemma {:induction false} ThreadIdsPrefix(threads: seq<ThreadId>, n: nat)
    requires n <= |threads|
    ensures ThreadIds(threads[..n]) <= ThreadIds(threads)
  {
    if n < |threads| {
      assert threads[..|threads| - 1][..n] == threads[..n];
      ThreadIdsPrefix(threads[..|threads| - 1], n);
    } else {
      assert threads[..n] == threads;
    }
  }

  method WriteThreadIds(w: PacketWriter, threads: seq<ThreadId>) returns (ok: bool)
    requires w.Valid()
    modifies w, w.writer
    ensures w.Valid() && Writes(old(w.Logged()), w.Logged(), ThreadIds(threads), ok)
  {
    ghost var log := w.Logged();
    assert threads[..0] == [] && log.taken + [] == log.taken;
    for i := 0 to |threads|
      invariant w.Valid() && Writes(log, w.Logged(), ThreadIds(threads[..i]), true)
    {
      ghost var now := w.Logged();
      ThreadIdsNext(threads, i);
      ok := WriteSeparated(w, threads[i], i == 0);
      WritesNext(log, now, w.Logged(), ThreadIds(threads[..i]), Separated(threads[i], i == 0), ThreadIds(threads), ok);
      if !ok { return; }
    }
    assert threads[..|threads|] == threads;
    ok := true;
  }

  method WriteThreadList(w: PacketWriter, threads: seq<ThreadId>) returns (ok: bool)
    requires w.Valid()
    modifies w, w.writer
    ensures w.Valid() && Writes(old(w.Logged()), w.Logged(), ThreadListBody(threads), ok)
  {
    if threads == [] {
      ok := w.WriteAll(Ascii("l"));
    } else {
      ghost var log, goal := w.Logged(), Ascii("m") + ThreadIds(threads);
      ok := w.WriteAll(Ascii("m"));
      WritesFirst(log, w.Logged(), Ascii("m"), goal, ok);
      if !ok { return; }
      ghost var now := w.Logged();
      ok := WriteThreadIds(w, threads);
      WritesNext(log, now, w.Logged(), Ascii("m"), ThreadIds(threads), goal, ok);
    }
  }

  /** A prefix and then escaped data. */
  method WritePrefixed(w: PacketWriter, prefix: seq<byte>, data: seq<byte>) returns (ok: bool)
    requires w.Valid()
    modifies w, w.writer
    ensures w.Valid() && Writes(old(w.Logged()), w.Logged(), prefix + Escape(data), ok)
  {
    ghost var log, goal := w.Logged(), prefix + Escape(data);
    ok := w.WriteAll(prefix);
    WritesFirst(log, w.Logged(), prefix, goal, ok);
    if !ok { return; }
    ghost var now := w.Logged();
    ok := WriteBinaryData(w, data);
    WritesNext(log, now, w.Logged(), prefix, Escape(data), goal, ok);
  }

  method WriteStop(w: PacketWriter, r: StopReason) returns (ok: bool)
    requires w.Valid()
    modifies w, w.writer
    ensures w.Valid() && Writes(old(w.Logged()), w.Logged(), StopBody(r), ok)
  {
    match r
    case Signal(signo) => ok := w.WriteAll(Ascii("S") + Hex2(signo));
    case Exited(pid, status) => ok := w.WriteAll(Ascii("W") + Hex2(status) + Ascii(";process:") + Hex(pid));
    case ExitedWithSignal(pid, status) => ok := w.WriteAll(Ascii("X") + Hex(status) + Ascii(";process:") + Hex(pid));
    case ThreadExited(thread, code) => ok := WriteTagAndThread(w, Ascii("w") + Hex(code) + Ascii(";"), thread);
    case NoMoreThreads => ok := w.WriteAll(Ascii("N"));
  }

  method WriteHostIO(w: PacketWriter, r: HostIOResult) returns (ok: bool)
    requires w.Valid()
    modifies w, w.writer
    ensures w.Valid() && Writes(old(w.Logged()), w.Logged(), HostIOBody(r), ok)
  {
    match r
    case Done => ok := w.WriteAll(Ascii("F0"));
    case Failed(errno) => ok := w.WriteAll(Ascii("F-1,") + Hex(errno));
    case Integer(i) => ok := w.WriteAll(Ascii("F") + Hex(i));
    case Content(data) => ok := WritePrefixed(w, Ascii("F") + Hex(|data|) + Ascii(";"), data);
    case Stat(data) => ok := WritePrefixed(w, Ascii("F") + Hex(|data|) + Ascii(";"), data);
  }

  method WritePiece(w: PacketWriter, r: Response) returns (ok: bool)
    requires w.Valid() && OnePiece(r)
    modifies w, w.writer
    ensures w.Valid() && Writes(old(w.Logged()), w.Logged(), Piece(r), ok)
  {
    if r.Empty? {
      WritesNothing(w.Logged());
      return true;
    }
    var text := Piece(r);
    ok := w.WriteAll(text);
  }

  lemma {:induction false} WritesNothing(log: Log)
    ensures Writes(log, log, [], true)
  {
    assert log.taken + [] == log.taken;
  }

  method WriteData(w: PacketWriter, r: Response) returns (ok: bool)
    requires w.Valid() && Carries(r)
    modifies w, w.writer
    ensures w.Valid() && Writes(old(w.Logged()), w.Logged(), DataBody(r), ok)
  {
    match r
    case Output(s) => ok := WriteTagged(w, Ascii("O"), s);
    case Bytes(bytes) => ok := WriteHexData(w, bytes);
    case BytesOrEof(bytes, eof) => ok := WritePrefixed(w, if eof then Ascii("l") else Ascii("m"), bytes);
    case SymbolName(name) => ok := WriteTagged(w, Ascii("qSymbol:"), name);
  }

  method WriteStructured(w: PacketWriter, r: Response) returns (ok: bool)
    requires w.Valid() && !OnePiece(r) && !Carries(r)
    modifies w, w.writer
    ensures w.Valid() && Writes(old(w.Logged()), w.Logged(), StructuredBody(r), ok)
  {
    match r
    case CurrentThread(thread) => ok := WriteCurrentThread(w, thread);
    case Stopped(reason) => ok := WriteStop(w, reason);
    case VContFeatures(features) => ok := WriteFeatures(w, features);
    case ThreadList(threads) => ok := WriteThreadList(w, threads);
    case HostIO(result) => ok := WriteHostIO(w, result);
  }

  method WriteBody(w: PacketWriter, r: Response) returns (ok: bool)
    requires w.Valid()
    modifies w, w.writer
    ensures w.Valid() && Writes(old(w.Logged()), w.Logged(), Body(r), ok)
  {
    if OnePiece(r) {
      ok := WritePiece(w, r);
    } else if Carries(r) {
      ok := WriteData(w, r);
    } else {
      ok := WriteStructured(w, r);
    }
  }

  lemma {:induction false} FrameParts(body: seq<byte>)
    ensures Framed(body) == [DOLLAR] + body + ([HASH] + Hex2(ChecksumOf(body)))
    ensures [DOLLAR] <= [DOLLAR] + body <= Framed(body)
  {
    Regroup([DOLLAR] + body, [HASH], Hex2(ChecksumOf(body)));
  }

  /** What a packet writer writes, its sink takes. */
  lemma {:induction false} InSink(start: seq<byte>, a: Log, b: Log, text: seq<byte>, ok: bool)
    requires Writes(a, b, text, ok)
    ensures Writes(Log(start + a.taken, a.refusals), Log(start + b.taken, b.refusals), text, ok)
  {
    Regroup(start, a.taken, text);
  }

  /**
    `write_response`: whatever part of each write the sink takes, one whole frame is sent and
    success reported; or a write or the flush at the end is refused, failure is reported, and what
    was sent is the beginning of the frame.
  */
  method WriteResponse(sink: Sink, r: Response) returns (ok: bool)
    modifies sink
    ensures Writes(old(sink.Logged()), sink.Logged(), Framed(Body(r)), ok)
    ensures ok <==> sink.refusals == old(sink.refusals)
  {
    ghost var log, body := sink.Logged(), Body(r);
    FrameParts(body);
    ok := sink.WriteAll([DOLLAR]);
    WritesFirst(log, sink.Logged(), [DOLLAR], Framed(body), ok);
    if !ok { return; }
    var w := new PacketWriter(sink);
    ghost var begun := w.Logged();
    ok := WriteBody(w, r);
    InSink(w.start, begun, w.Logged(), body, ok);
    assert w.start + begun.taken == log.taken + [DOLLAR];
    WritesNext(log, Log(w.start + begun.taken, begun.refusals), sink.Logged(), [DOLLAR], body, Framed(body), ok);
    if !ok { return; }
    assert begun.taken + body == body;
    ghost var now := sink.Logged();
    ok := w.Finish();
    WritesNext(log, now, sink.Logged(), [DOLLAR] + body, [HASH] + Hex2(ChecksumOf(body)), Framed(body), ok);
  }

  // ---------------------------------------------------------------- framing

  lemma {:induction false} ChecksumOfHex2(b: byte)
    ensures Checksum(Hex2(b)[0], Hex2(b)[1]) == Some(b)
  {
    HexValueDigit(b / 16);
    HexValueDigit(b % 16);
  }

  lemma {:induction false} IndexIs(s: seq<byte>, c: byte, i: nat, at: nat)
    requires i <= at < |s| && s[at] == c && forall k :: i <= k < at ==> s[k] != c
    ensures IndexOf(s, c, i) == at
    decreases at - i
  {
    if i < at {
      IndexIs(s, c, i + 1, at);
    }
  }

  lemma {:induction false} FramedAt(body: seq<byte>, rest: seq<byte>)
    ensures var s, n := Framed(body) + rest, |body|;
            && |s| >= n + 4 == |Framed(body)| && s[0] == DOLLAR && s[1..n + 1] == body && s[n + 1] == HASH
            && s[n + 2] == Hex2(ChecksumOf(body))[0] && s[n + 3] == Hex2(ChecksumOf(body))[1]
  {
    var s, n := Framed(body) + rest, |body|;
    var sum := Hex2(ChecksumOf(body));
    assert Framed(body) == [DOLLAR] + (body + ([HASH] + sum));
    assert s == [DOLLAR] + (body + ([HASH] + sum + rest));
    assert s[1..] == body + ([HASH] + sum + rest);
    assert s[1..][..n] == body && s[1..][n..] == [HASH] + sum + rest;
  }

  /** A frame is parsed as one packet with its body and the sum as checksum, exactly when the body has no `#`. */
  lemma {:induction false} FrameParsesIff(body: seq<byte>, rest: seq<byte>)
    ensures RunParser(Framed(body) + rest) == Some(Parsed(|Framed(body)|, Data(body, ChecksumOf(body)))) <==>
            HASH !in body
  {
    FramedAt(body, rest);
    ChecksumOfHex2(ChecksumOf(body));
    ParsesIff(Framed(body) + rest, body, ChecksumOf(body));
  }

  lemma {:induction false} ParsesIff(s: seq<byte>, body: seq<byte>, sum: byte)
    requires var n := |body|;
             && |s| >= n + 4 && s[0] == DOLLAR && s[1..n + 1] == body && s[n + 1] == HASH
             && Checksum(s[n + 2], s[n + 3]) == Some(sum)
    ensures RunParser(s) == Some(Parsed(|body| + 4, Data(body, sum))) <==> HASH !in body
  {
    var n := |body|;
    if HASH !in body {
      assert forall k :: 1 <= k < n + 1 ==> s[k] == body[k - 1];
      IndexIs(s, HASH, 1, n + 1);
    } else {
      var k :| 0 <= k < n && body[k] == HASH;
      assert s[1 + k] == HASH;
    }
  }

  predicate FreeOf(s: seq<byte>, c: byte) {
    forall i :: 0 <= i < |s| ==> s[i] != c
  }

  lemma {:induction false} FreeAppend(a: seq<byte>, b: seq<byte>)
    requires FreeOf(a, HASH) && FreeOf(b, HASH)
    ensures FreeOf(a + b, HASH)
  {
  }

  lemma {:induction false} FreeAppend4(a: seq<byte>, b: seq<byte>, c: seq<byte>, d: seq<byte>)
    requires FreeOf(a, HASH) && FreeOf(b, HASH) && FreeOf(c, HASH) && FreeOf(d, HASH)
    ensures FreeOf(a + b + c + d, HASH)
  {
    FreeAppend(a, b);
    FreeAppend(a + b, c);
    FreeAppend(a + b + c, d);
  }

  lemma {:induction false} AsciiFree(s: string)
    requires IsAscii(s) && '#' !in s
    ensures FreeOf(Ascii(s), HASH)
  {
  }

  lemma {:induction false} HexFree(n: nat)
    ensures FreeOf(Hex(n), HASH)
  {
    HexIsHex(n);
  }

  lemma {:induction false} HexBytesFree(bs: seq<byte>)
    ensures FreeOf(HexBytes(bs), HASH)
  {
    HexBytesIsHex(bs);
  }

  lemma {:induction false} Hex2Free(b: byte)
    ensures FreeOf(Hex2(b), HASH)
  {
    HexValueDigit(b / 16);
    HexValueDigit(b % 16);
  }

  lemma {:induction false} EscapeFree(data: seq<byte>)
    ensures FreeOf(Escape(data), HASH)
  {
    EscapeIsSafe(data);
  }

  lemma {:induction false} IdFree(id: Id)
    ensures FreeOf(IdText(id), HASH)
  {
    match id
    case All => AsciiFree("-1");
    case Any => AsciiFree("0");
    case Id(num) => HexFree(num);
  }

  lemma {:induction false} ThreadIdFree(t: ThreadId)
    ensures FreeOf(ThreadIdText(t), HASH)
  {
    AsciiFree("p");
    AsciiFree(".");
    IdFree(t.pid);
    IdFree(t.tid);
    FreeAppend4(Ascii("p"), IdText(t.pid), Ascii("."), IdText(t.tid));
  }

  lemma {:induction false} ThreadIdsFree(threads: seq<ThreadId>)
    ensures FreeOf(ThreadIds(threads), HASH)
  {
    if threads != [] {
      var last := threads[|threads| - 1];
      ThreadIdsFree(threads[..|threads| - 1]);
      ThreadIdFree(last);
      AsciiFree(",");
      FreeAppend(Ascii(","), ThreadIdText(last));
      FreeAppend([], ThreadIdText(last));
      FreeAppend(ThreadIds(threads[..|threads| - 1]), Separated(last, |threads| == 1));
    }
  }

  lemma {:induction false} FeatureListFree(features: seq<VContFeature>)
    ensures FreeOf(FeatureList(features), HASH)
  {
    if features != [] {
      FeatureListFree(features[..|features| - 1]);
    }
  }

  lemma {:induction false} ExitFree(letter: string, status: seq<byte>, pid: nat)
    requires IsAscii(letter) && '#' !in letter && FreeOf(status, HASH)
    ensures FreeOf(Ascii(letter) + status + Ascii(";process:") + Hex(pid), HASH)
  {
    AsciiFree(letter);
    AsciiFree(";process:");
    HexFree(pid);
    FreeAppend4(Ascii(letter), status, Ascii(";process:"), Hex(pid));
  }

  lemma {:induction false} StopFree(r: StopReason)
    ensures FreeOf(StopBody(r), HASH)
  {
    match r
    case Signal(signo) => Tagged("S", Hex2(signo)) by { Hex2Free(signo); }
    case Exited(pid, status) => ExitFree("W", Hex2(status), pid) by { Hex2Free(status); }
    case ExitedWithSignal(pid, status) => ExitFree("X", Hex(status), pid) by { HexFree(status); }
    case ThreadExited(thread, code) => ThreadExitFree(thread, code);
    case NoMoreThreads => AsciiFree("N");
  }

  lemma {:induction false} ThreadExitFree(thread: ThreadId, code: nat)
    ensures FreeOf(Ascii("w") + Hex(code) + Ascii(";") + ThreadIdText(thread), HASH)
  {
    AsciiFree("w");
    HexFree(code);
    AsciiFree(";");
    ThreadIdFree(thread);
    FreeAppend4(Ascii("w"), Hex(code), Ascii(";"), ThreadIdText(thread));
  }

  lemma {:induction false} Tagged(tag: string, body: seq<byte>)
    requires IsAscii(tag) && '#' !in tag && FreeOf(body, HASH)
    ensures FreeOf(Ascii(tag) + body, HASH)
  {
    AsciiFree(tag);
    FreeAppend(Ascii(tag), body);
  }

  lemma {:induction false} HostIOFree(r: HostIOResult)
    ensures FreeOf(HostIOBody(r), HASH)
  {
    match r
    case Done => AsciiFree("F0");
    case Failed(errno) => Tagged("F-1,", Hex(errno)) by { HexFree(errno); }
    case Integer(i) => Tagged("F", Hex(i)) by { HexFree(i); }
    case Content(data) => SizedFree(data);
    case Stat(data) => SizedFree(data);
  }

  lemma {:induction false} SizedFree(data: seq<byte>)
    ensures FreeOf(Ascii("F") + Hex(|data|) + Ascii(";") + Escape(data), HASH)
  {
    AsciiFree("F");
    HexFree(|data|);
    AsciiFree(";");
    EscapeFree(data);
    FreeAppend4(Ascii("F"), Hex(|data|), Ascii(";"), Escape(data));
  }

  /** Every response body but raw text is free of `#`. */
  lemma {:induction false} BodyFree(r: Response)
    requires !r.Text?
    ensures FreeOf(Body(r), HASH)
  {
    match r
    case Empty =>
    case Ok => AsciiFree("OK");
    case Error(val) => Tagged("E", Hex2(val)) by { Hex2Free(val); }
    case Output(s) => Tagged("O", HexBytes(s)) by { HexBytesFree(s); }
    case Bytes(bytes) => HexBytesFree(bytes);
    case BytesOrEof(bytes, eof) =>
      EscapeFree(bytes);
      Tagged(if eof then "l" else "m", Escape(bytes));
    case CurrentThread(thread) =>
      if thread.Some? {
        Tagged("QC", ThreadIdText(thread.value)) by { ThreadIdFree(thread.value); }
      } else {
        AsciiFree("OK");
      }
    case ProcessType(attached) => AsciiFree(if attached then "1" else "0");
    case Stopped(reason) => StopFree(reason);
    case SearchResult(addr) =>
      if addr.Some? {
        Tagged("1,", Hex(addr.value)) by { HexFree(addr.value); }
      } else {
        AsciiFree("0");
      }
    case VContFeatures(features) => Tagged("vCont", FeatureList(features)) by { FeatureListFree(features); }
    case ThreadList(threads) =>
      if threads == [] {
        AsciiFree("l");
      } else {
        Tagged("m", ThreadIds(threads)) by { ThreadIdsFree(threads); }
      }
    case HostIO(result) => HostIOFree(result);
    case SymbolName(name) => Tagged("qSymbol:", HexBytes(name)) by { HexBytesFree(name); }
  }

  /** A response is received as one packet with the same body exactly when it is not raw text with a `#`. */
  lemma {:induction false} ResponseRoundTripIff(r: Response, rest: seq<byte>)
    ensures RunParser(Framed(Body(r)) + rest) == Some(Parsed(|Framed(Body(r))|, Data(Body(r), ChecksumOf(Body(r)))))
            <==> !r.Text? || HASH !in r.s
  {
    if !r.Text? {
      BodyFree(r);
    }
    FrameParsesIff(Body(r), rest);
  }
}
