/** The encoder relay: the main thread polls the H.264 channel, receives a
    buffer, writes its payload to the FIFO sink, flushes on a complete write and
    hands the buffer back to the hardware layer. Both generations of
    `start_stream` run this loop; this module gives the reference trace the two
    loops are proved to produce and the ownership facts about it. */
module Relay {
  import opened CSemantics

  /** A `struct rts_av_buffer` as far as the relay cares: its identity and
      `bytesused`. */
  datatype AvBuffer = AvBuffer(id: nat, bytesused: nat)

  /** What the outside world does in one pass of the loop: whether
      `rts_av_poll` and `rts_av_recv` report failure, what `recv` stores in
      the buffer pointer when it succeeds, and how many bytes `fwrite` takes. */
  datatype Pass = Pass(pollFails: bool, recvFails: bool, received: Option<AvBuffer>, written: nat)

  /** What the relay does with a buffer. */
  datatype RelayEvent = Write(buf: AvBuffer, count: nat) | Flush | Release(buf: AvBuffer)

  /** The buffer a pass hands to the relay, if any. */
  function Handed(p: Pass): Option<AvBuffer>
  {
    if p.pollFails || p.recvFails then None else p.received
  }

  /** The events one pass produces. */
  function PassEvents(p: Pass): seq<RelayEvent>
  {
    match Handed(p)
    case None => []
    case Some(b) =>
      [Write(b, p.written)] + (if p.written == b.bytesused then [Flush] else []) + [Release(b)]
  }

  /** One pass: nothing when poll or recv fails or no buffer came back;
      otherwise a write of the buffer first, its release last, and a flush
      exactly when the write was complete. */
  lemma PassShape(p: Pass)
    ensures var e := PassEvents(p);
      && (e == [] <==> Handed(p).None?)
      && (p.pollFails || p.recvFails ==> e == [])
      && (Handed(p).Some? ==>
            && e[0] == Write(Handed(p).value, p.written)
            && e[|e| - 1] == Release(Handed(p).value)
            && (Flush in e <==> p.written == Handed(p).value.bytesused))
  {
  }

  /** The reference trace of a run of passes. */
  function RelayTrace(script: seq<Pass>): seq<RelayEvent>
  {
    if script == [] then []
    else RelayTrace(script[..|script| - 1]) + PassEvents(script[|script| - 1])
  }

  /** The buffers the encoder handed over during a run, in order. */
  function Received(script: seq<Pass>): seq<AvBuffer>
  {
    if script == [] then []
    else
      var p := script[|script| - 1];
      Received(script[..|script| - 1]) + (if Handed(p).Some? then [Handed(p).value] else [])
  }

  /** The buffers a trace releases, in order. */
  function Released(t: seq<RelayEvent>): seq<AvBuffer>
  {
    if t == [] then []
    else Released(t[..|t| - 1]) + (if t[|t| - 1].Release? then [t[|t| - 1].buf] else [])
  }

  /** The buffers a trace writes to the sink, in order. */
  function Written(t: seq<RelayEvent>): seq<AvBuffer>
  {
    if t == [] then []
    else Written(t[..|t| - 1]) + (if t[|t| - 1].Write? then [t[|t| - 1].buf] else [])
  }

  lemma {:induction false} ReleasedAppend(a: seq<RelayEvent>, b: seq<RelayEvent>)
    ensures Released(a + b) == Released(a) + Released(b)
    ensures Written(a + b) == Written(a) + Written(b)
    decreases |b|
  {
    if b == [] {
      assert a + b == a;
    } else {
      assert (a + b)[..|a + b| - 1] == a + b[..|b| - 1];
      ReleasedAppend(a, b[..|b| - 1]);
    }
  }

  /** Every buffer the encoder hands over is written once and released exactly
      once, in the order received, whatever `fwrite` returned; nothing else is
      released. */
  lemma {:induction false} ReleasedExactlyOnce(script: seq<Pass>)
    ensures Released(RelayTrace(script)) == Received(script)
    ensures Written(RelayTrace(script)) == Received(script)
  {
    if script != [] {
      var init, p := script[..|script| - 1], script[|script| - 1];
      ReleasedExactlyOnce(init);
      ReleasedAppend(RelayTrace(init), PassEvents(p));
      var e := PassEvents(p);
      if Handed(p).Some? {
        var b := Handed(p).value;
        if p.written == b.bytesused {
          assert e == [Write(b, p.written), Flush, Release(b)];
          assert e[..2] == [Write(b, p.written), Flush];
          assert e[..2][..1] == [Write(b, p.written)];
          assert Released(e[..2][..1]) == [] && Written(e[..2][..1]) == [b];
          assert Released(e[..2]) == [] && Written(e[..2]) == [b];
        } else {
          assert e == [Write(b, p.written), Release(b)];
          assert e[..1] == [Write(b, p.written)];
          assert Released(e[..1]) == [] && Written(e[..1]) == [b];
        }
      }
    }
  }

  /** A flush is always the event right after a write that took the whole
      payload. */
  ghost predicate FlushesFollowFullWrites(t: seq<RelayEvent>)
  {
    forall i :: 0 <= i < |t| && t[i].Flush? ==>
      0 < i && t[i - 1].Write? && t[i - 1].count == t[i - 1].buf.bytesused
  }

  /** The sink is flushed only after `fwrite` wrote exactly `bytesused` bytes. */
  lemma {:induction false} FlushOnlyAfterFullWrite(script: seq<Pass>)
    ensures FlushesFollowFullWrites(RelayTrace(script))
  {
    if script != [] {
      var init, p := script[..|script| - 1], script[|script| - 1];
      FlushOnlyAfterFullWrite(init);
      var a, e := RelayTrace(init), PassEvents(p);
      var t: seq<RelayEvent> := a + e;
      forall i | 0 <= i < |t| && t[i].Flush?
        ensures 0 < i && t[i - 1].Write? && t[i - 1].count == t[i - 1].buf.bytesused
      {
        if i < |a| {
          assert t[i] == a[i] && t[i - 1] == a[i - 1];
        } else {
          assert t[i] == e[i - |a|];
          assert i - |a| == 1 && t[i - 1] == e[0];
        }
      }
    }
  }
}
