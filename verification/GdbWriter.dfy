/**
  The sending side: a writer that keeps a checksum while the sink takes as much as it likes
  of each write, the binary escaper, and one packet per response.
*/
module GdbWriter {
  import opened Bytes
  import opened Options
  import GdbText
  import opened GdbPackets

  const CURLY: byte := 0x7d
  const STAR: byte := 0x2a

  /** `u8::wrapping_add` */
  function WrappingAdd(a: byte, b: byte): byte {
    if a + b < 256 then a + b else a + b - 256
  }

  /** The sum of bytes, modulo 256. */
  function Sum(bs: seq<byte>): byte {
    if bs == [] then 0 else WrappingAdd(Sum(bs[..|bs| - 1]), bs[|bs| - 1])
  }

  /** The sum of bytes. */
  function Total(bs: seq<byte>): nat {
    if bs == [] then 0 else Total(bs[..|bs| - 1]) + bs[|bs| - 1]
  }

  /** The protocol's checksum: the eight low bits of the sum. */
  function ChecksumOf(bs: seq<byte>): byte {
    Total(bs) % 256
  }

  lemma {:induction false} SumIsTotal(bs: seq<byte>)
    ensures Sum(bs) == ChecksumOf(bs)
  {
    if bs != [] {
      SumIsTotal(bs[..|bs| - 1]);
    }
  }

  lemma {:induction false} SumAppend(a: seq<byte>, b: seq<byte>)
    ensures Sum(a + b) == WrappingAdd(Sum(a), Sum(b))
  {
    if b == [] {
      assert a + b == a;
    } else {
      assert (a + b)[..|a + b| - 1] == a + b[..|b| - 1];
      SumAppend(a, b[..|b| - 1]);
    }
  }

  // ---------------------------------------------------------------- what a write leaves behind

  /** What has been taken so far, and how often a write was refused. */
  datatype Log = Log(taken: seq<byte>, refusals: nat)

  /** A write that fails, or takes nothing of something, is refused. */
  predicate Refuses(count: Option<nat>, buf: seq<byte>) {
    count.None? || (count.value == 0 && buf != [])
  }

  /** `text` was written: all of it if nothing was refused, or else what came before the one refusal. */
  predicate Writes(before: Log, after: Log, text: seq<byte>, ok: bool) {
    if ok then after == Log(before.taken + text, before.refusals)
    else after.refusals == before.refusals + 1 && before.taken <= after.taken <= before.taken + text
  }

  /** The first part of `goal` is written. */
  lemma {:induction false} WritesFirst(a: Log, b: Log, text: seq<byte>, goal: seq<byte>, ok: bool)
    requires Writes(a, b, text, ok) && text <= goal
    ensures Writes(a, b, if ok then text else goal, ok)
  {
  }

  /** The next part is. */
  lemma {:induction false} WritesNext(a: Log, b: Log, c: Log, done: seq<byte>, text: seq<byte>, goal: seq<byte>,
      ok: bool)
    requires Writes(a, b, done, true) && Writes(b, c, text, ok) && done + text <= goal
    ensures Writes(a, c, if ok then done + text else goal, ok)
  {
    assert a.taken + done + text == a.taken + (done + text);
  }

  // ---------------------------------------------------------------- sinks and the packet writer

  /**
    A byte sink that may take any part of a write, or refuse it. Interrupted writes are tried again
    and do not count.
  */
  class Sink {
    var out: seq<byte>
    ghost var refusals: nat

    ghost function Logged(): Log
      reads this
    {
      Log(out, refusals)
    }

    constructor ()
      ensures out == [] && refusals == 0
    {
      out := [];
      refusals := 0;
    }

    method Write(buf: seq<byte>) returns (count: Option<nat>)
      modifies this
      ensures count.Some? ==> count.value <= |buf| && out == old(out) + buf[..count.value]
      ensures count.None? ==> out == old(out)
      ensures refusals == old(refusals) + if Refuses(count, buf) then 1 else 0
    {
      var fails: bool := *;
      if fails {
        refusals := refusals + 1;
        return None;
      }
      var n: nat :| n <= |buf|;
      out := out + buf[..n];
      if n == 0 && buf != [] {
        refusals := refusals + 1;
      }
      return Some(n);
    }

    /** `write_all`: a write that takes nothing is an error. */
    method WriteAll(buf: seq<byte>) returns (ok: bool)
      modifies this
      ensures Writes(old(Logged()), Logged(), buf, ok)
    {
      var done: nat := 0;
      while done < |buf|
        invariant done <= |buf| && out == old(out) + buf[..done] && refusals == old(refusals)
      {
        var count := Write(buf[done..]);
        if count.None? || count.value == 0 {
          return false;
        }
        assert buf[..done] + buf[done..][..count.value] == buf[..done + count.value];
        done := done + count.value;
      }
      assert buf[..done] == buf;
      return true;
    }

    method Flush() returns (ok: bool)
      modifies `refusals
      ensures Writes(old(Logged()), Logged(), [], ok)
    {
      ok := *;
      if !ok {
        refusals := refusals + 1;
      }
    }
  }

  class PacketWriter {
    const writer: Sink
    var checksum: byte
    ghost const start: seq<byte>
    ghost var body: seq<byte>

    /** What was written since the start is in the sink, and the checksum is its sum. */
    ghost predicate Valid()
      reads this, writer
    {
      writer.out == start + body && checksum == Sum(body)
    }

    ghost function Logged(): Log
      reads this, writer
    {
      Log(body, writer.refusals)
    }

    constructor (writer: Sink)
      ensures Valid() && this.writer == writer && start == writer.out && body == []
    {
      this.writer, this.checksum := writer, 0;
      this.start, this.body := writer.out, [];
    }

    /** Only what the sink took counts for the checksum. */
    method Write(buf: seq<byte>) returns (count: Option<nat>)
      requires Valid()
      modifies this, writer
      ensures Valid()
      ensures count.Some? ==> count.value <= |buf| && body == old(body) + buf[..count.value]
      ensures count.None? ==> body == old(body)
      ensures writer.refusals == old(writer.refusals) + if Refuses(count, buf) then 1 else 0
    {
      count := writer.Write(buf);
      if count.Some? {
        checksum := SumFrom(checksum, buf[..count.value]);
        SumAppend(body, buf[..count.value]);
        body := body + buf[..count.value];
      }
    }

    method WriteAll(buf: seq<byte>) returns (ok: bool)
      requires Valid()
      modifies this, writer
      ensures Valid() && Writes(old(Logged()), Logged(), buf, ok)
    {
      var done: nat := 0;
      while done < |buf|
        invariant done <= |buf| && Valid() && body == old(body) + buf[..done] && writer.refusals == old(writer.refusals)
      {
        var count := Write(buf[done..]);
        if count.None? || count.value == 0 {
          return false;
        }
        assert buf[..done] + buf[done..][..count.value] == buf[..done + count.value];
        done := done + count.value;
      }
      assert buf[..done] == buf;
      return true;
    }

    /** `#` and the checksum, straight to the sink, which is then flushed. */
    method Finish() returns (ok: bool)
      requires Valid()
      modifies this, writer
      ensures Writes(old(writer.Logged()), writer.Logged(), [HASH] + GdbText.Hex2(ChecksumOf(old(body))), ok)
      ensures ok ==> checksum == 0
    {
      ghost var log, goal := writer.Logged(), [HASH] + GdbText.Hex2(ChecksumOf(body));
      SumIsTotal(body);
      ok := writer.WriteAll([HASH]);
      WritesFirst(log, writer.Logged(), [HASH], goal, ok);
      if !ok { return; }
      ghost var marked := writer.Logged();
      ok := writer.WriteAll(GdbText.Hex2(checksum));
      WritesNext(log, marked, writer.Logged(), [HASH], GdbText.Hex2(checksum), goal, ok);
      if !ok { return; }
      ghost var summed := writer.Logged();
      ok := writer.Flush();
      assert goal + [] == goal;
      WritesNext(log, summed, writer.Logged(), goal, [], goal, ok);
      if !ok { return; }
      checksum := 0;
    }
  }

  /** `compute_checksum_incremental` */
  function SumFrom(init: byte, bs: seq<byte>): (r: byte)
    ensures r == WrappingAdd(init, Sum(bs))
  {
    if bs == [] then init
    else WrappingAdd(SumFrom(init, bs[..|bs| - 1]), bs[|bs| - 1])
  }

  // ---------------------------------------------------------------- binary data

  /** `b ^ 0x20` */
  function Flip(b: byte): byte {
    if b / 32 % 2 == 0 then b + 32 else b - 32
  }

  /** Bit 5 is turned over, the others stay. */
  lemma {:induction false} FlipIs(b: byte)
    ensures Flip(b) % 32 == b % 32 && Flip(b) / 64 == b / 64 && Flip(b) / 32 % 2 != b / 32 % 2
  {
  }

  predicate MustEscape(b: byte) {
    b == HASH || b == DOLLAR || b == CURLY || b == STAR
  }

  /** Byte by byte, as the protocol describes it. */
  function Escape(data: seq<byte>): seq<byte> {
    if data == [] then []
    else (if MustEscape(data[0]) then [CURLY, Flip(data[0])] else [data[0]]) + Escape(data[1..])
  }

  /** The four bytes that mean something else, and what is sent for them. */
  lemma {:induction false} EscapeOne(b: byte, rest: seq<byte>)
    ensures Escape([b] + rest) == (match b as char
                                   case '#' => ['}' as int, 0x03]
                                   case '$' => ['}' as int, 0x04]
                                   case '*' => ['}' as int, 0x0a]
                                   case '}' => ['}' as int, 0x5d]
                                   case _ => [b]) + Escape(rest)
  {
    assert ([b] + rest)[1..] == rest;
  }

  /** `memchr3`: the first of three bytes, or the length. */
  function IndexOf3(s: seq<byte>, a: byte, b: byte, c: byte): (r: nat)
    ensures r <= |s| && (r < |s| ==> s[r] == a || s[r] == b || s[r] == c)
    ensures forall k :: 0 <= k < r ==> s[k] != a && s[k] != b && s[k] != c
  {
    if s == [] || s[0] == a || s[0] == b || s[0] == c then 0 else 1 + IndexOf3(s[1..], a, b, c)
  }

  lemma {:induction false} EscapeRun(run: seq<byte>, rest: seq<byte>)
    requires forall k :: 0 <= k < |run| ==> !MustEscape(run[k])
    ensures Escape(run + rest) == run + Escape(rest)
  {
    if run == [] {
      assert run + rest == rest;
    } else {
      EscapeRun(run[1..], rest);
      assert (run + rest)[1..] == run[1..] + rest;
      assert run == [run[0]] + run[1..];
    }
  }

  /** A copy of `data` that has come as far as `remaining`. */
  ghost predicate Copied(log: Log, now: Log, data: seq<byte>, remaining: seq<byte>) {
    exists written :: IsCopied(log, now, data, remaining, written)
  }

  predicate IsCopied(log: Log, now: Log, data: seq<byte>, remaining: seq<byte>, written: seq<byte>) {
    written + Escape(remaining) == Escape(data) && Writes(log, now, written, true)
  }

  /** Copy runs of plain bytes at once and escape what ends them. */
  method WriteBinaryData(w: PacketWriter, data: seq<byte>) returns (ok: bool)
    requires w.Valid()
    modifies w, w.writer
    ensures w.Valid() && Writes(old(w.Logged()), w.Logged(), Escape(data), ok)
  {
    var remaining := data;
    ghost var log := w.Logged();
    CopyStarts(log, data);
    while true
      invariant w.Valid() && Copied(log, w.Logged(), data, remaining)
      decreases |remaining|
    {
      var x, y := IndexOf3(remaining, HASH, DOLLAR, CURLY), IndexOf(remaining, STAR, 0);
      var unescaped := if x < y then x else y;
      ghost var now := w.Logged();
      ok := w.WriteAll(remaining[..unescaped]);
      CopiesRun(log, now, w.Logged(), data, remaining, unescaped, ok);
      if !ok { return; }
      remaining := remaining[unescaped..];
      if remaining == [] {
        CopyEnds(log, w.Logged(), data);
        return;
      }
      now := w.Logged();
      ok := w.WriteAll([CURLY, Flip(remaining[0])]);
      CopiesEscaped(log, now, w.Logged(), data, remaining, ok);
      if !ok { return; }
      remaining := remaining[1..];
    }
  }

  lemma {:induction false} CopyStarts(log: Log, data: seq<byte>)
    ensures Copied(log, log, data, data)
  {
    assert IsCopied(log, log, data, data, []);
  }

  lemma {:induction false} CopyEnds(log: Log, now: Log, data: seq<byte>)
    requires Copied(log, now, data, [])
    ensures Writes(log, now, Escape(data), true)
  {
    var written :| IsCopied(log, now, data, [], written);
    assert written + [] == written;
  }

  lemma {:induction false} CopiesRun(log: Log, now: Log, next: Log, data: seq<byte>, remaining: seq<byte>, n: nat,
      ok: bool)
    requires Copied(log, now, data, remaining) && n <= |remaining| && Writes(now, next, remaining[..n], ok)
    requires forall k :: 0 <= k < n ==> !MustEscape(remaining[k])
    ensures if ok then Copied(log, next, data, remaining[n..]) else Writes(log, next, Escape(data), false)
  {
    var written :| IsCopied(log, now, data, remaining, written);
    EscapeSplit(written, remaining, n, Escape(data));
    WritesNext(log, now, next, written, remaining[..n], Escape(data), ok);
    assert ok ==> IsCopied(log, next, data, remaining[n..], written + remaining[..n]);
  }

  lemma {:induction false} CopiesEscaped(log: Log, now: Log, next: Log, data: seq<byte>, remaining: seq<byte>, ok: bool)
    requires Copied(log, now, data, remaining) && remaining != [] && MustEscape(remaining[0])
    requires Writes(now, next, [CURLY, Flip(remaining[0])], ok)
    ensures if ok then Copied(log, next, data, remaining[1..]) else Writes(log, next, Escape(data), false)
  {
    var written :| IsCopied(log, now, data, remaining, written);
    EscapeFirst(written, remaining, Escape(data));
    WritesNext(log, now, next, written, [CURLY, Flip(remaining[0])], Escape(data), ok);
    assert ok ==> IsCopied(log, next, data, remaining[1..], written + [CURLY, Flip(remaining[0])]);
  }

  lemma {:induction false} EscapeSplit(written: seq<byte>, remaining: seq<byte>, n: nat, goal: seq<byte>)
    requires n <= |remaining| && (forall k :: 0 <= k < n ==> !MustEscape(remaining[k]))
    requires written + Escape(remaining) == goal
    ensures written + remaining[..n] + Escape(remaining[n..]) == goal && written + remaining[..n] <= goal
  {
    var run, rest := remaining[..n], remaining[n..];
    assert remaining == run + rest;
    EscapeRun(run, rest);
    Regroup(written, run, Escape(rest));
  }

  lemma {:induction false} Regroup(a: seq<byte>, b: seq<byte>, c: seq<byte>)
    ensures a + (b + c) == a + b + c
  {
  }

  lemma {:induction false} EscapeFirst(written: seq<byte>, remaining: seq<byte>, goal: seq<byte>)
    requires remaining != [] && MustEscape(remaining[0]) && written + Escape(remaining) == goal
    ensures written + [CURLY, Flip(remaining[0])] + Escape(remaining[1..]) == goal
    ensures written + [CURLY, Flip(remaining[0])] <= goal
  {
    var pair, rest := [CURLY, Flip(remaining[0])], Escape(remaining[1..]);
    assert Escape(remaining) == pair + rest;
    Regroup(written, pair, rest);
  }

  /** `binary_byte`, repeated: a brace takes the next byte with it, unless it is the last byte. */
  function Unescape(s: seq<byte>): seq<byte> {
    if s == [] then []
    else if s[0] == CURLY && |s| >= 2 then [Flip(s[1])] + Unescape(s[2..])
    else [s[0]] + Unescape(s[1..])
  }

  /** `many1!(binary_byte)` needs at least one byte. */
  function BinaryByteSequence(s: seq<byte>): Option<seq<byte>> {
    if s == [] then None else Some(Unescape(s))
  }

  /** Escaped data has no framing byte and no run-length marker. */
  lemma {:induction false} EscapeIsSafe(data: seq<byte>)
    ensures HASH !in Escape(data) && DOLLAR !in Escape(data) && STAR !in Escape(data)
  {
    if data != [] {
      EscapeIsSafe(data[1..]);
    }
  }

  /** The parser undoes the escaper on all data but the empty one, which it does not accept. */
  lemma {:induction false} UnescapeEscape(data: seq<byte>)
    ensures Unescape(Escape(data)) == data
    ensures BinaryByteSequence(Escape(data)) == if data == [] then None else Some(data)
  {
    if data != [] {
      UnescapeEscape(data[1..]);
      var first := if MustEscape(data[0]) then [CURLY, Flip(data[0])] else [data[0]];
      assert Escape(data)[|first|..] == Escape(data[1..]);
      assert Flip(Flip(data[0])) == data[0];
      assert data == [data[0]] + data[1..];
    }
  }
}
