/**
  What a session does, told without buffers: take the data packets of the stream in order and
  answer each; acknowledge each up to and including the one that switches acknowledgements off.
*/
module GdbSession {
  import opened Bytes
  import opened GdbPackets

  /** The bodies of the data packets that can be parsed from the front of `s`, one after the other. */
  function Bodies(s: seq<byte>): seq<seq<byte>>
    decreases |s|
  {
    if RunParser(s).None? then []
    else
      var parsed := RunParser(s).value;
      (if parsed.packet.Data? then [parsed.packet.body] else []) + Bodies(s[parsed.len..])
  }

  /** What is left when no further packet can be parsed. */
  function Unparsed(s: seq<byte>): seq<byte>
    decreases |s|
  {
    if RunParser(s).None? then s else Unparsed(s[RunParser(s).value.len..])
  }

  function Answer<W>(p: Peer<W>, s: Session<W>, bodies: seq<seq<byte>>): Session<W>
    decreases |bodies|
  {
    if s.stopped || bodies == [] then s
    else Answer(p, OnPacket(p, s, Data(bodies[0], 0)), bodies[1..])
  }

  /** Parsing and answering in turn is parsing everything and then answering; checksums play no part. */
  lemma {:induction false} DrainIsAnswer<W>(p: Peer<W>, s: Session<W>, buf: seq<byte>)
    ensures var (s', rest) := Drain(p, s, buf);
            s' == Answer(p, s, Bodies(buf)) && (!s'.stopped ==> rest == Unparsed(buf))
    decreases |buf|
  {
    if !s.stopped && RunParser(buf).Some? {
      var parsed := RunParser(buf).value;
      var more := buf[parsed.len..];
      DrainIsAnswer(p, OnPacket(p, s, parsed.packet), more);
      if parsed.packet.Data? {
        assert Bodies(buf)[1..] == Bodies(more);
        assert OnPacket(p, s, parsed.packet) == OnPacket(p, s, Data(parsed.packet.body, 0));
      } else {
        assert Bodies(buf) == Bodies(more);
      }
    }
  }

  /** Serving the stream is draining its first `m` bytes; if that is not all of it, the loop is over. */
  ghost predicate TakesIn<W(!new)>(p: Peer<W>, s: Session<W>, buf: seq<byte>, stream: seq<byte>, m: nat,
      end: State<W>) {
    && m <= |stream|
    && ServesTo(p, State(s, buf), stream, end)
    && DrainsTo(p, s, buf + stream[..m], (end.session, end.buf))
    && (m == |stream| || end.Over())
  }

  lemma {:induction false} TakesInNothing<W(!new)>(p: Peer<W>, s: Session<W>, buf: seq<byte>, stream: seq<byte>)
    requires if s.stopped then buf == [] else RunParser(buf).None?
    requires State(s, buf).Over() || stream == []
    ensures TakesIn(p, s, buf, stream, 0, State(s, buf))
  {
    assert buf + stream[..0] == buf;
    ServeOverOrDone(p, State(s, buf), stream);
  }

  lemma {:induction false} ServesFirst<W(!new)>(p: Peer<W>, s: Session<W>, buf: seq<byte>, stream: seq<byte>,
      s1: Session<W>, rest: seq<byte>, end: State<W>)
    requires !State(s, buf).Over() && stream != [] && Drain(p, s, buf + [stream[0]]) == (s1, rest)
    requires ServesTo(p, State(s1, rest), stream[1..], end)
    ensures ServesTo(p, State(s, buf), stream, end)
  {
    assert Feed(p, State(s, buf), stream[0]) == State(s1, rest);
  }

  lemma {:induction false} DrainsFirst<W(!new)>(p: Peer<W>, s: Session<W>, buf: seq<byte>, more: seq<byte>,
      s1: Session<W>, rest: seq<byte>, end: (Session<W>, seq<byte>))
    requires Drain(p, s, buf) == (s1, rest) && DrainsTo(p, s1, rest + more, end)
    ensures DrainsTo(p, s, buf + more, end)
  {
    DrainTwice(p, s, buf, more);
  }

  lemma {:induction false} TakesInOneMore<W(!new)>(p: Peer<W>, s: Session<W>, buf: seq<byte>, stream: seq<byte>,
      s1: Session<W>, rest: seq<byte>, n: nat, end: State<W>)
    requires !State(s, buf).Over() && stream != [] && Drain(p, s, buf + [stream[0]]) == (s1, rest)
    requires TakesIn(p, s1, rest, stream[1..], n, end)
    ensures TakesIn(p, s, buf, stream, n + 1, end)
  {
    TakeOneMore(buf, stream, n);
    DrainsFirst(p, s, buf + [stream[0]], stream[1..][..n], s1, rest, (end.session, end.buf));
    ServesFirst(p, s, buf, stream, s1, rest, end);
  }

  lemma {:induction false} TakeOneMore(buf: seq<byte>, stream: seq<byte>, n: nat)
    requires stream != [] && n <= |stream[1..]|
    ensures buf + stream[..n + 1] == buf + [stream[0]] + stream[1..][..n]
  {
  }

  lemma {:induction false} ServeTakesIn<W(!new)>(p: Peer<W>, s: Session<W>, buf: seq<byte>, stream: seq<byte>)
      returns (m: nat, end: State<W>)
    requires !s.stopped && RunParser(buf).None? && |buf| <= MAX_PACKET_SIZE
    ensures TakesIn(p, s, buf, stream, m, end)
    decreases |stream|
  {
    if stream == [] || |buf| == MAX_PACKET_SIZE {
      m, end := 0, State(s, buf);
      TakesInNothing(p, s, buf, stream);
    } else {
      var (s1, rest) := Drain(p, s, buf + [stream[0]]);
      if s1.stopped {
        m, end := 0, State(s1, rest);
        TakesInNothing(p, s1, rest, stream[1..]);
      } else {
        m, end := ServeTakesIn(p, s1, rest, stream[1..]);
      }
      TakesInOneMore(p, s, buf, stream, s1, rest, m, end);
      m := m + 1;
    }
  }

  lemma {:induction false} ServeOverOrDone<W>(p: Peer<W>, st: State<W>, stream: seq<byte>)
    requires st.Over() || stream == []
    ensures Serve(p, st, stream) == st
  {
    if st.Over() {
      ServeOver(p, st, stream);
    }
  }

  /**
    A session is the greedy parse of the bytes it took in: all bytes of the stream, unless an
    acknowledgement failed or 64 KiB arrived that contain no packet.
  */
  lemma {:induction false} SessionIsGreedyParse<W(!new)>(p: Peer<W>, w: W, stream: seq<byte>) returns (m: nat)
    ensures m <= |stream|
    ensures var end := Serve(p, Start(w), stream);
            && end.session == Answer(p, Session(w, true, false), Bodies(stream[..m]))
            && (!end.session.stopped ==> end.buf == Unparsed(stream[..m]))
            && (m == |stream| || end.session.stopped || |end.buf| == 65536)
  {
    var end;
    m, end := ServeTakesIn(p, Session(w, true, false), [], stream);
    assert [] + stream[..m] == stream[..m];
    DrainIsAnswer(p, Session(w, true, false), stream[..m]);
  }

  // ---------------------------------------------------------------- acknowledgements

  lemma {:induction false} AnswerNext<W>(p: Peer<W>, s: Session<W>, bodies: seq<seq<byte>>, more: seq<seq<byte>>)
    ensures Answer(p, s, bodies + more) == Answer(p, Answer(p, s, bodies), more)
    decreases |bodies|
  {
    if bodies == [] {
      assert bodies + more == more;
    } else if !s.stopped {
      assert (bodies + more)[1..] == bodies[1..] + more;
      AnswerNext(p, OnPacket(p, s, Data(bodies[0], 0)), bodies[1..], more);
    }
  }

  /** The `k`th packet is reached, with acknowledgements still on, and its plus sign cannot be written. */
  predicate FailsAt<W>(p: Peer<W>, s: Session<W>, bodies: seq<seq<byte>>, k: nat) {
    && k < |bodies|
    && var before := Answer(p, s, bodies[..k]);
    && !before.stopped && before.ackMode && !p.ack(before.world).1
  }

  /** A session is stopped exactly by an acknowledgement that fails, and leaves things as that one left them. */
  lemma {:induction false} StoppedIff<W>(p: Peer<W>, s: Session<W>, bodies: seq<seq<byte>>)
    requires !s.stopped
    ensures Answer(p, s, bodies).stopped <==> exists k: nat :: FailsAt(p, s, bodies, k)
    ensures forall k: nat :: FailsAt(p, s, bodies, k) ==>
              Answer(p, s, bodies) == Session(p.ack(Answer(p, s, bodies[..k]).world).0, true, true)
    decreases |bodies|
  {
    if bodies != [] {
      var init, last := bodies[..|bodies| - 1], bodies[|bodies| - 1];
      assert bodies == init + [last];
      StoppedIff(p, s, init);
      AnswerNext(p, s, init, [last]);
      forall k: nat | k < |init|
        ensures FailsAt(p, s, bodies, k) <==> FailsAt(p, s, init, k)
        ensures bodies[..k] == init[..k]
      {
        assert bodies[..k] == init[..k];
      }
      var before := Answer(p, s, init);
      OneAnswer(p, before, last);
      assert bodies[..|init|] == init;
      assert FailsAt(p, s, bodies, |init|) <==> !before.stopped && before.ackMode && !p.ack(before.world).1;
      if before.stopped {
        var k: nat :| FailsAt(p, s, init, k);
        assert FailsAt(p, s, bodies, k);
      }
    }
  }

  lemma {:induction false} OneAnswer<W>(p: Peer<W>, s: Session<W>, body: seq<byte>)
    ensures Answer(p, s, [body]) ==
            if s.stopped then s
            else if s.ackMode && !p.ack(s.world).1 then Session(p.ack(s.world).0, true, true)
            else
              var (w, noAck) := p.handle(if s.ackMode then p.ack(s.world).0 else s.world, body);
              Session(w, s.ackMode && !noAck, false)
  {
    assert [body][1..] == [];
  }

  /** What the other side sees. */
  datatype Sent = Plus | Reply(body: seq<byte>)

  /** A peer whose writer never fails, keeping what was sent; `isNoAck` tells the StartNoAckMode packet. */
  function Recorder(isNoAck: seq<byte> -> bool): Peer<seq<Sent>> {
    Peer((log: seq<Sent>) => (log + [Plus], true),
         (log: seq<Sent>, body: seq<byte>) => (log + [Reply(body)], isNoAck(body)))
  }

  function Acked(bodies: seq<seq<byte>>): seq<Sent> {
    if bodies == [] then [] else [Plus, Reply(bodies[0])] + Acked(bodies[1..])
  }

  function Bare(bodies: seq<seq<byte>>): seq<Sent> {
    if bodies == [] then [] else [Reply(bodies[0])] + Bare(bodies[1..])
  }

  /** The number of packets up to and including the first that switches acknowledgements off. */
  function AckedCount(isNoAck: seq<byte> -> bool, bodies: seq<seq<byte>>): (r: nat)
    ensures r <= |bodies|
  {
    if bodies == [] then 0
    else if isNoAck(bodies[0]) then 1
    else 1 + AckedCount(isNoAck, bodies[1..])
  }

  lemma {:induction false} BareLog(isNoAck: seq<byte> -> bool, log: seq<Sent>, bodies: seq<seq<byte>>)
    ensures Answer(Recorder(isNoAck), Session(log, false, false), bodies)
            == Session(log + Bare(bodies), false, false)
    decreases |bodies|
  {
    if bodies == [] {
      assert log + Bare(bodies) == log;
    } else {
      BareLog(isNoAck, log + [Reply(bodies[0])], bodies[1..]);
      assert log + Bare(bodies) == log + [Reply(bodies[0])] + Bare(bodies[1..]);
    }
  }

  /** One plus sign before each reply up to the StartNoAckMode reply and that one, and none after. */
  lemma {:induction false} AckDiscipline(isNoAck: seq<byte> -> bool, log: seq<Sent>, bodies: seq<seq<byte>>)
    ensures var n := AckedCount(isNoAck, bodies);
            var s := Answer(Recorder(isNoAck), Session(log, true, false), bodies);
            !s.stopped && s.world == log + Acked(bodies[..n]) + Bare(bodies[n..])
    decreases |bodies|
  {
    if bodies != [] {
      var n := AckedCount(isNoAck, bodies);
      var rest := bodies[1..];
      var log1 := log + [Plus] + [Reply(bodies[0])];
      if isNoAck(bodies[0]) {
        BareLog(isNoAck, log1, rest);
        assert Acked(bodies[..1]) == [Plus, Reply(bodies[0])] + Acked([]);
      } else {
        AckDiscipline(isNoAck, log1, rest);
        assert bodies[..n][1..] == rest[..n - 1] && bodies[n..] == rest[n - 1..];
        assert Acked(bodies[..n]) == [Plus, Reply(bodies[0])] + Acked(rest[..n - 1]);
      }
    }
  }
}
