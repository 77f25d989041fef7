/**
  The receiving side of the GDB remote protocol: a packet parser over a byte buffer, and the
  loop that reads, parses and answers. (GDB manual, appendix "GDB Remote Serial Protocol",
  section "Overview".)
*/
module GdbPackets {
  import opened Bytes
  import opened Options
  import GdbText

  const MAX_PACKET_SIZE: nat := 65536

  const DOLLAR: byte := 0x24
  const HASH: byte := 0x23
  const PLUS: byte := 0x2b
  const MINUS: byte := 0x2d
  const CTRL_C: byte := 0x03

  datatype Packet = Ack | Nack | Interrupt | Data(body: seq<byte>, checksum: byte)

  /** A packet and the number of bytes it took. */
  datatype Parsed = Parsed(len: nat, packet: Packet)

  // ---------------------------------------------------------------- the parser

  /** Two hexadecimal digits as `u8::from_str_radix` reads them: a plus sign may stand for the first. */
  function Checksum(a: byte, b: byte): Option<byte> {
    if GdbText.HexValue(b).None? then None
    else if a == PLUS then Some(GdbText.HexValue(b).value)
    else if GdbText.HexValue(a).None? then None
    else Some(16 * GdbText.HexValue(a).value + GdbText.HexValue(b).value)
  }

  /** The first position of `c` in `s` from `i` on, or `|s|`. */
  function IndexOf(s: seq<byte>, c: byte, i: nat): (r: nat)
    requires i <= |s|
    ensures i <= r <= |s| && (r < |s| ==> s[r] == c) && forall k :: i <= k < r ==> s[k] != c
    decreases |s| - i
  {
    if i == |s| || s[i] == c then i else IndexOf(s, c, i + 1)
  }

  /** `$` body `#` and two checksum digits. `None` is incomplete or malformed alike. */
  function ParseData(s: seq<byte>): (r: Option<Parsed>)
    ensures r.Some? ==> 4 <= r.value.len <= |s|
  {
    if s == [] || s[0] != DOLLAR then None
    else
      var h := IndexOf(s, HASH, 1);
      if h + 3 > |s| then None
      else
        match Checksum(s[h + 1], s[h + 2])
        case None => None
        case Some(sum) => Some(Parsed(h + 3, Data(s[1..h], sum)))
  }

  function RunParser(s: seq<byte>): (r: Option<Parsed>)
    ensures r.Some? ==> 1 <= r.value.len <= |s|
  {
    if ParseData(s).Some? then ParseData(s)
    else if s == [] then None
    else if s[0] == PLUS then Some(Parsed(1, Ack))
    else if s[0] == MINUS then Some(Parsed(1, Nack))
    else if s[0] == CTRL_C then Some(Parsed(1, Interrupt))
    else None
  }

  /** Two checksum digits for `sum`, or a plus sign and one. */
  ghost predicate Digits(a: byte, b: byte, sum: byte) {
    TwoDigits(a, b, sum) || (a == '+' as int && GdbText.IsDigit(b, sum))
  }

  ghost predicate TwoDigits(a: byte, b: byte, sum: byte) {
    exists x: nat, y: nat :: GdbText.IsDigit(a, x) && GdbText.IsDigit(b, y) && sum == 16 * x + y
  }

  /** `s` begins with this packet, as the protocol writes it. */
  ghost predicate Begins(s: seq<byte>, p: Parsed) {
    match p.packet
    case Ack => p.len == 1 && s != [] && s[0] == '+' as int
    case Nack => p.len == 1 && s != [] && s[0] == '-' as int
    case Interrupt => p.len == 1 && s != [] && s[0] == 3
    case Data(body, sum) =>
      var n := |body|;
      && p.len == n + 4 <= |s|
      && s[0] == '$' as int && s[1..n + 1] == body && '#' as int !in body && s[n + 1] == '#' as int
      && Digits(s[n + 2], s[n + 3], sum)
  }

  lemma {:induction false} ChecksumIff(a: byte, b: byte, sum: byte)
    ensures Checksum(a, b) == Some(sum) <==> Digits(a, b, sum)
  {
    TwoDigitsIff(a, b, sum);
    PlusIsNoDigit();
    GdbText.HexValueIff(b, sum);
  }

  lemma {:induction false} PlusIsNoDigit()
    ensures PLUS == '+' as int && GdbText.HexValue(PLUS).None?
  {
  }

  lemma {:induction false} TwoDigitsIff(a: byte, b: byte, sum: byte)
    ensures TwoDigits(a, b, sum) <==>
            var (x, y) := (GdbText.HexValue(a), GdbText.HexValue(b));
            x.Some? && y.Some? && sum == 16 * x.value + y.value
  {
    var p, q := GdbText.HexValue(a), GdbText.HexValue(b);
    if p.Some? && q.Some? {
      GdbText.HexValueIff(a, p.value);
      GdbText.HexValueIff(b, q.value);
    }
    if TwoDigits(a, b, sum) {
      var x: nat, y: nat :| GdbText.IsDigit(a, x) && GdbText.IsDigit(b, y) && sum == 16 * x + y;
      GdbText.HexValueIff(a, x);
      GdbText.HexValueIff(b, y);
    }
  }

  lemma {:induction false} ParsedBegins(s: seq<byte>)
    requires ParseData(s).Some?
    ensures Begins(s, ParseData(s).value)
  {
    var h, sum := IndexOf(s, HASH, 1), ParseData(s).value.packet.checksum;
    assert ParseData(s).value == Parsed(h + 3, Data(s[1..h], sum)) && h + 3 <= |s| && s[0] == DOLLAR;
    assert Checksum(s[h + 1], s[h + 2]) == Some(sum);
    ChecksumIff(s[h + 1], s[h + 2], sum);
    BeginsAt(s, h, sum);
  }

  lemma {:induction false} BeginsAt(s: seq<byte>, h: nat, sum: byte)
    requires 1 <= h && h + 3 <= |s| && s[0] == DOLLAR && s[h] == HASH && HASH !in s[1..h]
    requires Digits(s[h + 1], s[h + 2], sum)
    ensures Begins(s, Parsed(h + 3, Data(s[1..h], sum)))
  {
  }

  lemma {:induction false} HashFound(s: seq<byte>, body: seq<byte>)
    requires |body| + 1 < |s| && s[1..|body| + 1] == body && HASH !in body && s[|body| + 1] == HASH
    ensures IndexOf(s, HASH, 1) == |body| + 1
  {
    assert forall k :: 1 <= k < |body| + 1 ==> s[k] == body[k - 1];
  }

  lemma {:induction false} ParseDataIff(s: seq<byte>, p: Parsed)
    requires p.packet.Data?
    ensures ParseData(s) == Some(p) <==> Begins(s, p)
  {
    var body, sum := p.packet.body, p.packet.checksum;
    if ParseData(s).Some? {
      ParsedBegins(s);
    }
    if Begins(s, p) {
      HashFound(s, body);
      ChecksumIff(s[|body| + 2], s[|body| + 3], sum);
    }
  }

  /** The parser takes exactly the packets of the protocol: frames, acknowledgements of either kind, and Ctrl-C. */
  lemma {:induction false} RunParserIff(s: seq<byte>, p: Parsed)
    ensures RunParser(s) == Some(p) <==> Begins(s, p)
  {
    if p.packet.Data? {
      ParseDataIff(s, p);
    }
    if ParseData(s).Some? {
      ParseDataIff(s, ParseData(s).value);
    }
  }

  /** More input does not change a packet that is already complete. */
  lemma {:induction false} PrefixStable(s: seq<byte>, more: seq<byte>)
    requires RunParser(s).Some?
    ensures RunParser(s + more) == RunParser(s)
  {
    var t := s + more;
    if ParseData(s).Some? {
      var h := IndexOf(s, HASH, 1);
      IndexStable(s, more, HASH, 1);
      assert t[1..h] == s[1..h];
    } else if s[0] == DOLLAR {
    }
  }

  lemma {:induction false} IndexStable(s: seq<byte>, more: seq<byte>, c: byte, i: nat)
    requires i <= |s| && IndexOf(s, c, i) < |s|
    ensures IndexOf(s + more, c, i) == IndexOf(s, c, i)
    decreases |s| - i
  {
    if s[i] != c {
      IndexStable(s, more, c, i + 1);
    }
  }

  // ---------------------------------------------------------------- the session

  /**
    The world outside the loop: handler and writer. `ack` tries to write a plus sign; `handle`
    answers one packet and says whether it switched acknowledgements off.
  */
  datatype Peer<!W> = Peer(ack: W -> (W, bool), handle: (W, seq<byte>) -> (W, bool))

  /** `stopped` once an acknowledgement could not be written. */
  datatype Session<W> = Session(world: W, ackMode: bool, stopped: bool)

  function OnPacket<W>(p: Peer<W>, s: Session<W>, packet: Packet): Session<W> {
    if !packet.Data? then s
    else
      var (world, acked) := if s.ackMode then p.ack(s.world) else (s.world, true);
      if !acked then Session(world, s.ackMode, true)
      else
        var (world', noAck) := p.handle(world, packet.body);
        Session(world', s.ackMode && !noAck, false)
  }

  /** Handle every complete packet at the front of `buf`; what is left could not be parsed. */
  function Drain<W>(p: Peer<W>, s: Session<W>, buf: seq<byte>): (r: (Session<W>, seq<byte>))
    ensures |r.1| <= |buf| && RunParser(r.1).None?
    ensures r.0.stopped ==> r.1 == []
    decreases |buf|
  {
    if s.stopped then (s, [])
    else if RunParser(buf).None? then (s, buf)
    else
      var parsed := RunParser(buf).value;
      Drain(p, OnPacket(p, s, parsed.packet), buf[parsed.len..])
  }

  ghost predicate DrainsTo<W(!new)>(p: Peer<W>, s: Session<W>, buf: seq<byte>, end: (Session<W>, seq<byte>)) {
    Drain(p, s, buf) == end
  }

  lemma {:induction false} DrainNext<W(!new)>(p: Peer<W>, s: Session<W>, buf: seq<byte>, end: (Session<W>, seq<byte>))
    requires DrainsTo(p, s, buf, end) && !s.stopped && RunParser(buf).Some?
    ensures var parsed := RunParser(buf).value;
            DrainsTo(p, OnPacket(p, s, parsed.packet), buf[parsed.len..], end)
  {
  }

  lemma {:induction false} DrainEnd<W(!new)>(p: Peer<W>, s: Session<W>, buf: seq<byte>, end: (Session<W>, seq<byte>))
    requires DrainsTo(p, s, buf, end)
    ensures s.stopped ==> end == (s, [])
    ensures !s.stopped && RunParser(buf).None? ==> end == (s, buf)
  {
  }

  /** Draining in two goes, with more input in between, is draining once. */
  lemma {:induction false} DrainTwice<W>(p: Peer<W>, s: Session<W>, buf: seq<byte>, more: seq<byte>)
    ensures var (s1, rest) := Drain(p, s, buf);
            Drain(p, s, buf + more) == Drain(p, s1, rest + more)
    decreases |buf|
  {
    if !s.stopped && RunParser(buf).Some? {
      var parsed := RunParser(buf).value;
      PrefixStable(buf, more);
      assert (buf + more)[parsed.len..] == buf[parsed.len..] + more;
      DrainTwice(p, OnPacket(p, s, parsed.packet), buf[parsed.len..], more);
    }
  }

  // ---------------------------------------------------------------- one byte at a time

  /** The loop's state between reads: the session and the unparsed bytes. */
  datatype State<W> = State(session: Session<W>, buf: seq<byte>) {
    /** The loop ends here: a failed acknowledgement, or a buffer with no room to read into. */
    predicate Over() { session.stopped || |buf| == MAX_PACKET_SIZE }
  }

  function Start<W>(w: W): State<W> { State(Session(w, true, false), []) }

  function Feed<W>(p: Peer<W>, st: State<W>, b: byte): State<W> {
    if st.Over() then st
    else
      var (s, rest) := Drain(p, st.session, st.buf + [b]);
      State(s, rest)
  }

  /** The reference: the stream arrives byte by byte. */
  function Serve<W>(p: Peer<W>, st: State<W>, stream: seq<byte>): State<W>
    decreases |stream|
  {
    if stream == [] then st else Serve(p, Feed(p, st, stream[0]), stream[1..])
  }

  lemma {:induction false} ServeOver<W>(p: Peer<W>, st: State<W>, stream: seq<byte>)
    requires st.Over()
    ensures Serve(p, st, stream) == st
    decreases |stream|
  {
    if stream != [] {
      ServeOver(p, st, stream[1..]);
    }
  }

  lemma {:induction false} ServeAppend<W>(p: Peer<W>, st: State<W>, a: seq<byte>, b: seq<byte>)
    ensures Serve(p, st, a + b) == Serve(p, Serve(p, st, a), b)
    decreases |a|
  {
    if a == [] {
      assert a + b == b;
    } else {
      assert (a + b)[1..] == a[1..] + b;
      ServeAppend(p, Feed(p, st, a[0]), a[1..], b);
    }
  }

  /** Reading a chunk that fits and draining once is feeding its bytes one by one. */
  lemma {:induction false} ChunkIsBytes<W>(p: Peer<W>, s: Session<W>, buf: seq<byte>, chunk: seq<byte>)
    requires !s.stopped && RunParser(buf).None? && |buf| + |chunk| <= MAX_PACKET_SIZE
    ensures var (s', rest) := Drain(p, s, buf + chunk);
            Serve(p, State(s, buf), chunk) == State(s', rest)
    decreases |chunk|
  {
    if chunk == [] {
      assert buf + chunk == buf;
    } else {
      var b, more := chunk[0], chunk[1..];
      var (s1, rest) := Drain(p, s, buf + [b]);
      assert buf + chunk == buf + [b] + more;
      DrainTwice(p, s, buf + [b], more);
      if s1.stopped {
        ServeOver(p, State(s1, rest), more);
      } else {
        ChunkIsBytes(p, s1, rest, more);
      }
    }
  }

  // ---------------------------------------------------------------- the loop

  /** Everything a reader delivers: its chunks up to the first empty one, which reads as end of file. */
  function Arrived(chunks: seq<seq<byte>>): seq<byte> {
    if chunks == [] || chunks[0] == [] then [] else chunks[0] + Arrived(chunks[1..])
  }

  /** A reader that has its input in chunks of any size. */
  class Reader {
    var chunks: seq<seq<byte>>

    function Rest(): seq<byte>
      reads this
    {
      Arrived(chunks)
    }

    constructor (chunks: seq<seq<byte>>)
      ensures this.chunks == chunks
    {
      this.chunks := chunks;
    }

    /** At most `space` bytes, and no more than the chunk at hand. Nothing means end of file. */
    method Read(space: nat) returns (data: seq<byte>)
      modifies this
      ensures |data| <= space && old(Rest()) == data + Rest()
      ensures data == [] <==> space == 0 || old(Rest()) == []
    {
      if chunks == [] || chunks[0] == [] || space == 0 {
        return [];
      }
      var chunk := chunks[0];
      if |chunk| <= space {
        data := chunk;
        chunks := chunks[1..];
      } else {
        data := chunk[..space];
        chunks := [chunk[space..]] + chunks[1..];
        assert chunks[1..] == old(chunks)[1..];
        assert chunk == chunk[..space] + chunk[space..];
      }
    }
  }

  ghost predicate ServesTo<W(!new)>(p: Peer<W>, st: State<W>, stream: seq<byte>, end: State<W>) {
    Serve(p, st, stream) == end
  }

  /** After one read and one drain, what is still to come leads to the same end. */
  lemma {:induction false} ServeRead<W(!new)>(p: Peer<W>, s: Session<W>, buf: seq<byte>, data: seq<byte>,
      rest: seq<byte>, end: State<W>)
    requires ServesTo(p, State(s, buf), data + rest, end)
    requires !s.stopped && RunParser(buf).None? && |buf| + |data| <= MAX_PACKET_SIZE
    ensures var (s', buf') := Drain(p, s, buf + data);
            ServesTo(p, State(s', buf'), rest, end) && (s'.stopped ==> end == State(s', buf'))
  {
    ServeAppend(p, State(s, buf), data, rest);
    ChunkIsBytes(p, s, buf, data);
    var (s', buf') := Drain(p, s, buf + data);
    if s'.stopped {
      ServeOver(p, State(s', buf'), rest);
    }
  }

  lemma {:induction false} ServeEnd<W(!new)>(p: Peer<W>, st: State<W>, stream: seq<byte>, end: State<W>)
    requires ServesTo(p, st, stream, end) && (st.Over() || stream == [])
    ensures end == st
  {
    if st.Over() {
      ServeOver(p, st, stream);
    }
  }

  /** `process_packets_from`, over any peer and however the stream is cut into reads. */
  method ProcessPacketsFrom<W(!new)>(reader: Reader, p: Peer<W>, w0: W) returns (w: W)
    modifies reader
    ensures w == Serve(p, Start(w0), old(reader.Rest())).session.world
  {
    var buf := new byte[MAX_PACKET_SIZE](_ => 0);
    var endbuf := 0;
    var session := Session(w0, true, false);
    ghost var end := Serve(p, Start(w0), reader.Rest());
    assert buf[..0] == [];
    while true
      invariant 0 <= endbuf <= buf.Length == MAX_PACKET_SIZE && fresh(buf)
      invariant !session.stopped && RunParser(buf[..endbuf]).None?
      invariant ServesTo(p, State(session, buf[..endbuf]), reader.Rest(), end)
      decreases |reader.Rest()|
    {
      ghost var unparsed := buf[..endbuf];
      ghost var before := reader.Rest();
      var data := reader.Read(buf.Length - endbuf);
      if data == [] {
        ServeEnd(p, State(session, unparsed), before, end);
        return session.world;
      }
      ServeRead(p, session, unparsed, data, reader.Rest(), end);
      session, endbuf := TakeIn(p, session, buf, endbuf, data);
      if session.stopped {
        return session.world;
      }
    }
  }

  /** What follows a read: the data enter the buffer, packets are handled, and the rest moves to the front. */
  method TakeIn<W(!new)>(p: Peer<W>, s: Session<W>, buf: array<byte>, endbuf: nat, data: seq<byte>)
      returns (session: Session<W>, endbuf': nat)
    requires endbuf + |data| <= buf.Length && !s.stopped
    modifies buf
    ensures endbuf' <= buf.Length
    ensures var (s', rest) := Drain(p, s, old(buf[..endbuf]) + data);
            session == s' && (!s'.stopped ==> buf[..endbuf'] == rest)
  {
    Fill(buf, endbuf, data);
    var end := endbuf + |data|;
    var parsed;
    session, parsed := HandlePackets(p, s, buf, end);
    endbuf' := end - parsed;
    if !session.stopped {
      CopyWithin(buf, parsed, end);
    }
  }

  /** What `read` does to the slice of the buffer that it is given. */
  method Fill(buf: array<byte>, at: nat, data: seq<byte>)
    requires at + |data| <= buf.Length
    modifies buf
    ensures buf[..at + |data|] == old(buf[..at]) + data
  {
    forall k | 0 <= k < |data| {
      buf[at + k] := data[k];
    }
  }

  /** The inner loop: parse and answer until nothing complete is left. */
  method HandlePackets<W(!new)>(p: Peer<W>, s: Session<W>, buf: array<byte>, endbuf: nat)
      returns (session: Session<W>, parsed: nat)
    requires endbuf <= buf.Length && !s.stopped
    ensures parsed <= endbuf && session == Drain(p, s, buf[..endbuf]).0
    ensures !session.stopped ==> buf[parsed..endbuf] == Drain(p, s, buf[..endbuf]).1
  {
    hide RunParser, OnPacket, Drain;
    session, parsed := s, 0;
    ghost var all := buf[..endbuf];
    ghost var end := Drain(p, s, all);
    assert all[0..] == all;
    while true
      invariant 0 <= parsed <= endbuf && !session.stopped
      invariant DrainsTo(p, session, all[parsed..], end)
      decreases endbuf - parsed
    {
      assert buf[parsed..endbuf] == all[parsed..];
      var r := RunParser(buf[parsed..endbuf]);
      if r.None? {
        DrainEnd(p, session, all[parsed..], end);
        return;
      }
      DrainNext(p, session, all[parsed..], end);
      assert all[parsed..][r.value.len..] == all[parsed + r.value.len..];
      session := OnPacket(p, session, r.value.packet);
      parsed := parsed + r.value.len;
      if session.stopped {
        DrainEnd(p, session, all[parsed..], end);
        return;
      }
    }
  }

  /** `buf.copy_within(from..to, 0)` */
  method CopyWithin(buf: array<byte>, lo: nat, hi: nat)
    requires lo <= hi <= buf.Length
    modifies buf
    ensures buf[..hi - lo] == old(buf[lo..hi])
  {
    forall k | 0 <= k < hi - lo {
      buf[k] := buf[lo + k];
    }
  }

  /** However a stream is cut into reads, the peer ends in the same state. */
  method ChunksDoNotMatter<W(!new)>(a: Reader, b: Reader, p: Peer<W>, w0: W) returns (wa: W, wb: W)
    requires a != b && a.Rest() == b.Rest()
    modifies a, b
    ensures wa == wb
  {
    wa := ProcessPacketsFrom(a, p, w0);
    wb := ProcessPacketsFrom(b, p, w0);
  }
}
