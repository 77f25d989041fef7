/**
  Both directions on the wire: what a session sends, read by the parser for what it receives, is
  the acknowledgements and the replies, in order.
*/
module GdbWire {
  import opened Bytes
  import opened Options
  import opened GdbPackets
  import GdbText
  import GdbWriter
  import opened GdbResponse
  import opened GdbSession

  // ---------------------------------------------------------------- a stream of packets

  /** What either side may send, in the protocol's own terms. */
  datatype Item = Accept | Reject | CtrlC | Frame(body: seq<byte>)

  function LowerDigit(d: nat): byte
    requires d < 16
  {
    "0123456789abcdef"[d] as int
  }

  /** The bytes of an item: a frame is a dollar sign, the body, a hash sign, and the sum of the body modulo 256. */
  function ItemBytes(t: Item): (r: seq<byte>)
    ensures r != []
  {
    match t
    case Accept => ['+' as int]
    case Reject => ['-' as int]
    case CtrlC => [3]
    case Frame(body) =>
      var sum := GdbWriter.Total(body) % 256;
      ['$' as int] + body + ['#' as int] + [LowerDigit(sum / 16), LowerDigit(sum % 16)]
  }

  function Stream(items: seq<Item>): seq<byte> {
    if items == [] then [] else ItemBytes(items[0]) + Stream(items[1..])
  }

  /** What an item should be read as. */
  function Heard(t: Item): Packet {
    match t
    case Accept => Ack
    case Reject => Nack
    case CtrlC => Interrupt
    case Frame(body) => Data(body, GdbWriter.Total(body) % 256)
  }

  function AllHeard(items: seq<Item>): (r: seq<Packet>)
    ensures |r| == |items|
  {
    if items == [] then [] else [Heard(items[0])] + AllHeard(items[1..])
  }

  function FrameBodies(items: seq<Item>): seq<seq<byte>> {
    if items == [] then []
    else (if items[0].Frame? then [items[0].body] else []) + FrameBodies(items[1..])
  }

  /** All packets that can be parsed from the front of `s`, one after the other. */
  function Packets(s: seq<byte>): seq<Packet>
    decreases |s|
  {
    if RunParser(s).None? then [] else [RunParser(s).value.packet] + Packets(s[RunParser(s).value.len..])
  }

  /** A body without a hash sign. */
  predicate Plain(t: Item) {
    t.Frame? ==> '#' as int !in t.body
  }

  predicate AllPlain(items: seq<Item>) {
    forall i :: 0 <= i < |items| ==> Plain(items[i])
  }

  /** The bytes are read as the items, and nothing is left over. */
  predicate ReadBack(s: seq<byte>, items: seq<Item>) {
    Packets(s) == AllHeard(items) && Unparsed(s) == []
  }

  lemma {:induction false} FrameIsFramed(body: seq<byte>)
    ensures ItemBytes(Frame(body)) == Framed(body)
  {
    var sum := GdbWriter.Total(body) % 256;
    GdbText.HexDigitIs(sum / 16);
    GdbText.HexDigitIs(sum % 16);
  }

  lemma {:induction false} ParsedBodyIsFree(s: seq<byte>)
    requires RunParser(s).Some? && RunParser(s).value.packet.Data?
    ensures HASH !in RunParser(s).value.packet.body
  {
  }

  /** An item at the front is read as itself, and leaves the rest, exactly when it is plain. */
  lemma {:induction false} ItemReadsIff(t: Item, rest: seq<byte>)
    ensures RunParser(ItemBytes(t) + rest) == Some(Parsed(|ItemBytes(t)|, Heard(t))) <==> Plain(t)
    ensures !Plain(t) ==>
              RunParser(ItemBytes(t) + rest).None? || RunParser(ItemBytes(t) + rest).value.packet != Heard(t)
  {
    var s := ItemBytes(t) + rest;
    match t
    case Frame(body) =>
      FrameIsFramed(body);
      FrameParsesIff(body, rest);
      if HASH in body && RunParser(s).Some? && RunParser(s).value.packet.Data? {
        ParsedBodyIsFree(s);
      }
    case _ =>
      assert s[0] == ItemBytes(t)[0];
      RunParserIff(s, Parsed(1, Heard(t)));
  }

  /**
    Any stream of frames, acknowledgements of either kind and Ctrl-Cs is read as just that, with
    nothing left over, exactly when no body has a hash sign in it.
  */
  lemma {:induction false} StreamReadsIff(items: seq<Item>)
    ensures ReadBack(Stream(items), items) <==> AllPlain(items)
  {
    if items != [] {
      var first, rest := items[0], items[1..];
      var s := ItemBytes(first) + Stream(rest);
      ItemReadsIff(first, Stream(rest));
      StreamReadsIff(rest);
      AllPlainTail(items);
      if Plain(first) {
        assert s[|ItemBytes(first)|..] == Stream(rest);
        assert Packets(s) == [Heard(first)] + Packets(Stream(rest));
        assert Packets(s)[1..] == Packets(Stream(rest)) && AllHeard(items)[1..] == AllHeard(rest);
      } else if Packets(s) != [] {
        assert Packets(s)[0] != AllHeard(items)[0];
      }
    }
  }

  lemma {:induction false} AllPlainTail(items: seq<Item>)
    requires items != []
    ensures AllPlain(items) <==> Plain(items[0]) && AllPlain(items[1..])
  {
    assert forall i :: 1 <= i < |items| ==> items[i] == items[1..][i - 1];
  }

  /** And a session answers just its frames, in order, whatever comes between them. */
  lemma {:induction false} BodiesOfStream(items: seq<Item>)
    requires AllPlain(items)
    ensures Bodies(Stream(items)) == FrameBodies(items) && Unparsed(Stream(items)) == []
  {
    if items != [] {
      var first, rest := items[0], items[1..];
      ItemReadsIff(first, Stream(rest));
      AllPlainTail(items);
      BodiesOfStream(rest);
      assert Stream(items)[|ItemBytes(first)|..] == Stream(rest);
    }
  }

  // ---------------------------------------------------------------- what a session says

  /** One thing that a session says. */
  datatype Turn = Acknowledges | Replies(response: Response)

  function TurnBytes(t: Turn): seq<byte> {
    match t
    case Acknowledges => [PLUS]
    case Replies(r) => Framed(Body(r))
  }

  function Wire(turns: seq<Turn>): seq<byte> {
    if turns == [] then [] else TurnBytes(turns[0]) + Wire(turns[1..])
  }

  /** The item that a turn should arrive as. */
  function ItemOf(t: Turn): Item {
    match t
    case Acknowledges => Accept
    case Replies(r) => Frame(Body(r))
  }

  function ItemsOf(turns: seq<Turn>): (r: seq<Item>)
    ensures |r| == |turns| && forall i :: 0 <= i < |r| ==> r[i] == ItemOf(turns[i])
  {
    if turns == [] then [] else [ItemOf(turns[0])] + ItemsOf(turns[1..])
  }

  /** Anything but raw text with a hash sign. */
  predicate NoRawHash(turns: seq<Turn>) {
    forall i :: 0 <= i < |turns| ==>
      (turns[i].Replies? && turns[i].response.Text? ==> '#' as int !in turns[i].response.s)
  }

  lemma {:induction false} WireIsStream(turns: seq<Turn>)
    ensures Wire(turns) == Stream(ItemsOf(turns))
  {
    if turns != [] {
      WireIsStream(turns[1..]);
      if turns[0].Replies? {
        FrameIsFramed(Body(turns[0].response));
      }
    }
  }

  lemma {:induction false} PlainIff(r: Response)
    ensures HASH !in Body(r) <==> !r.Text? || HASH !in r.s
  {
    ResponseRoundTripIff(r, []);
    FrameParsesIff(Body(r), []);
  }

  /** What a session says is read back, whole and in order, exactly when no reply is raw text with a hash sign. */
  lemma {:induction false} ReadBackIff(turns: seq<Turn>)
    ensures ReadBack(Wire(turns), ItemsOf(turns)) <==> NoRawHash(turns)
  {
    WireIsStream(turns);
    StreamReadsIff(ItemsOf(turns));
    forall i | 0 <= i < |turns|
      ensures Plain(ItemsOf(turns)[i]) <==>
              (turns[i].Replies? && turns[i].response.Text? ==> '#' as int !in turns[i].response.s)
    {
      if turns[i].Replies? {
        PlainIff(turns[i].response);
      }
    }
  }

  // ---------------------------------------------------------------- a whole session

  /** The turns of a log: a reply may depend on all requests so far. */
  function Turns(respond: seq<seq<byte>> -> Response, history: seq<seq<byte>>, log: seq<Sent>): seq<Turn>
    decreases |log|
  {
    if log == [] then []
    else
      match log[0]
      case Plus => [Acknowledges] + Turns(respond, history, log[1..])
      case Reply(b) => [Replies(respond(history + [b]))] + Turns(respond, history + [b], log[1..])
  }

  /** The conversation as it should be: each request answered in turn, the first `n` of them acknowledged. */
  function Conversation(respond: seq<seq<byte>> -> Response, history: seq<seq<byte>>, requests: seq<seq<byte>>,
      n: nat): seq<Turn>
    decreases |requests|
  {
    if requests == [] then []
    else
      var now := history + [requests[0]];
      (if n > 0 then [Acknowledges] else []) + [Replies(respond(now))]
      + Conversation(respond, now, requests[1..], if n > 0 then n - 1 else 0)
  }

  lemma {:induction false} TurnsOfAnswers(respond: seq<seq<byte>> -> Response, history: seq<seq<byte>>,
      requests: seq<seq<byte>>, n: nat)
    requires n <= |requests|
    ensures Turns(respond, history, Acked(requests[..n]) + Bare(requests[n..]))
            == Conversation(respond, history, requests, n)
    decreases |requests|
  {
    if requests != [] {
      var now, rest := history + [requests[0]], requests[1..];
      var log := Acked(requests[..n]) + Bare(requests[n..]);
      if n > 0 {
        TurnsOfAnswers(respond, now, rest, n - 1);
        assert requests[..n][1..] == rest[..n - 1] && requests[n..] == rest[n - 1..];
        var more := Acked(rest[..n - 1]) + Bare(rest[n - 1..]);
        assert log == [Plus, Reply(requests[0])] + more;
        assert log[1..] == [Reply(requests[0])] + more && log[1..][1..] == more;
      } else {
        TurnsOfAnswers(respond, now, rest, 0);
        assert requests[..0] == [] && rest[..0] == [] && rest[0..] == rest && requests[0..] == requests;
        assert log[1..] == Acked([]) + Bare(rest);
      }
    }
  }

  lemma {:induction false} SaysConversation(isNoAck: seq<byte> -> bool, respond: seq<seq<byte>> -> Response,
      requests: seq<seq<byte>>)
    ensures var end := Answer(Recorder(isNoAck), Session([], true, false), requests);
            && !end.stopped
            && Turns(respond, [], end.world) == Conversation(respond, [], requests, AckedCount(isNoAck, requests))
  {
    var n := AckedCount(isNoAck, requests);
    var none: seq<Sent> := [];
    AckDiscipline(isNoAck, none, requests);
    assert none + Acked(requests[..n]) + Bare(requests[n..]) == Acked(requests[..n]) + Bare(requests[n..]);
    TurnsOfAnswers(respond, [], requests, n);
  }

  /**
    A session over any bytes, with a writer that does not fail: the other side reads back what was
    said, an acknowledgement for each request up to the one that ends them and a reply to every
    request, exactly when no reply is raw text with a hash sign.
  */
  lemma {:induction false} SessionReadsBackIff(isNoAck: seq<byte> -> bool, respond: seq<seq<byte>> -> Response,
      stream: seq<byte>) returns (m: nat)
    ensures m <= |stream|
    ensures var end := Serve(Recorder(isNoAck), Start([]), stream);
            var requests := Bodies(stream[..m]);
            && Turns(respond, [], end.session.world)
               == Conversation(respond, [], requests, AckedCount(isNoAck, requests))
            && var turns := Turns(respond, [], end.session.world);
            && (ReadBack(Wire(turns), ItemsOf(turns)) <==> NoRawHash(turns))
            && (m == |stream| || |end.buf| == MAX_PACKET_SIZE)
  {
    m := SessionIsGreedyParse(Recorder(isNoAck), [], stream);
    SaysConversation(isNoAck, respond, Bodies(stream[..m]));
    ReadBackIff(Turns(respond, [], Serve(Recorder(isNoAck), Start([]), stream).session.world));
  }
}
