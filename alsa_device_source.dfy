/** `AlsaDeviceSource`, the live555 source that carries captured PCM to the
    RTSP server: a bounded drop-oldest queue of owned frames filled by the
    capture callback and drained one frame per consumer request, plus the
    per-second frame counters it keeps. Each locked region is one atomic
    method here. */
module AlsaSource {
  import opened CSemantics
  import opened FrameQueue

  /** `struct timeval`. */
  datatype Timeval = Timeval(sec: int, usec: int)

  /** `struct Frame`: the bytes its buffer owns, their count and the capture
      timestamp. A frame is never changed after construction, so it is a
      value here; deleting it is recorded in the source's `freed` log. */
  datatype Frame = Frame(buffer: seq<bv8>, size: int, timestamp: Timeval)

  /** What the source tells the live555 scheduler. */
  datatype SourceEvent =
    | Trigger                        // triggerEvent(m_eventTriggerId, this)
    | AfterGetting(frameSize: nat)   // FramedSource::afterGetting(this)

  // ---------------------------------------------------------------------------
  // Stats
  // ---------------------------------------------------------------------------

  /** The three counters of a `Stats`. */
  datatype Counters = Counters(fps: int, fpsSec: int, size: int)

  /** The counters after a run of `notify(tv_sec, frame_sz)` calls on a new
      `Stats`. */
  function Replay(h: seq<(int, int)>): Counters
  {
    if h == [] then Counters(0, 0, 0)
    else
      var c, t, sz := Replay(h[..|h| - 1]), h[|h| - 1].0, h[|h| - 1].1;
      if t != c.fpsSec then Counters(0, t, 0) else Counters(c.fps + 1, c.fpsSec, c.size + sz)
  }

  /** The total of the frame sizes of some notifications. */
  function SizeSum(h: seq<(int, int)>): int
  {
    if h == [] then 0 else SizeSum(h[..|h| - 1]) + h[|h| - 1].1
  }

  /** The counters describe a window: `fpsSec` is the second of the latest
      notification; `fps` is the number of the latest notifications that
      fell in that second after the one that opened it, and `size` is the
      total of their frame sizes. The opener is the notification just before
      the window, which found a different second; when there is none, every
      notification fell in second 0, the initial `m_fps_sec`. */
  lemma {:induction false} ReplayWindow(h: seq<(int, int)>)
    ensures var c := Replay(h);
      && 0 <= c.fps <= |h|
      && (h != [] ==> c.fpsSec == h[|h| - 1].0)
      && (forall i :: |h| - c.fps <= i < |h| ==> h[i].0 == c.fpsSec)
      && c.size == SizeSum(h[|h| - c.fps..])
      && (c.fps < |h| ==>
            h[|h| - c.fps - 1].0 == c.fpsSec != Replay(h[..|h| - c.fps - 1]).fpsSec)
      && (c.fps == |h| ==> c.fpsSec == 0)
  {
    ReplayOpener(h);
    if h != [] {
      var init := h[..|h| - 1];
      ReplayWindow(init);
      var c0, c := Replay(init), Replay(h);
      if h[|h| - 1].0 != c0.fpsSec {
        assert h[|h|..] == [];
      } else {
        var w0 := init[|init| - c0.fps..];
        var w := h[|h| - c.fps..];
        assert w[..|w| - 1] == w0;
        assert w[|w| - 1] == h[|h| - 1];
        forall i | |h| - c.fps <= i < |h| ensures h[i].0 == c.fpsSec {
          if i < |h| - 1 {
            assert h[i] == init[i];
          }
        }
      }
    }
  }

  /** The notification that opened the current second, if any. */
  lemma {:induction false} ReplayOpener(h: seq<(int, int)>)
    ensures var c := Replay(h);
      && 0 <= c.fps <= |h|
      && (h != [] ==> c.fpsSec == h[|h| - 1].0)
      && (c.fps < |h| ==>
            h[|h| - c.fps - 1].0 == c.fpsSec != Replay(h[..|h| - c.fps - 1]).fpsSec)
      && (c.fps == |h| ==> c.fpsSec == 0)
  {
    if h != [] {
      var init := h[..|h| - 1];
      ReplayOpener(init);
      var c0, c := Replay(init), Replay(h);
      if h[|h| - 1].0 != c0.fpsSec {
        assert h[..|h| - c.fps - 1] == init;
      } else if c0.fps < |init| {
        var k := |init| - c0.fps - 1;
        assert h[k] == init[k];
        assert h[..k] == init[..k];
      }
    }
  }

  class Stats {
    var fps: int
    var fpsSec: int
    var size: int
    const msg: string
    /** Every notification so far, oldest first. */
    ghost var history: seq<(int, int)>

    ghost predicate Valid()
      reads this
    {
      Counters(fps, fpsSec, size) == Replay(history)
    }

    constructor (msg: string)
      ensures Valid() && history == []
      ensures fps == 0 && fpsSec == 0 && size == 0 && this.msg == msg
    {
      fps, fpsSec, size := 0, 0, 0;
      this.msg := msg;
      history := [];
    }

    /** `Stats::notify`: count the frame; on a new second, log and restart
        the counters. Returns the count after any restart. */
    method Notify(tvSec: int, frameSz: int) returns (r: int)
      requires Valid()
      modifies this
      ensures Valid() && history == old(history) + [(tvSec, frameSz)]
      ensures tvSec != old(fpsSec) ==> fps == 0 && size == 0 && fpsSec == tvSec
      ensures tvSec == old(fpsSec) ==> fps == old(fps) + 1 && size == old(size) + frameSz && fpsSec == old(fpsSec)
      ensures r == fps
    {
      fps := fps + 1;
      size := size + frameSz;
      if tvSec != fpsSec {
        fpsSec := tvSec;
        fps := 0;
        size := 0;
      }
      history := history + [(tvSec, frameSz)];
      assert history[..|history| - 1] == old(history);
      r := fps;
    }
  }

  // ---------------------------------------------------------------------------
  // Splitting and delivery arithmetic
  // ---------------------------------------------------------------------------

  /** `splitFrames`: a packet is one frame; a null packet is none. */
  function SplitFrames(frame: Option<seq<bv8>>, frameSize: nat): (pieces: seq<(seq<bv8>, nat)>)
    ensures |pieces| <= 1
    ensures pieces == [] <==> frame.None?
  {
    if frame.Some? then [(frame.value, frameSize)] else []
  }

  /** The bytes of some pieces, one after another. */
  function Joined(pieces: seq<(seq<bv8>, nat)>): seq<bv8>
  {
    if pieces == [] then [] else Joined(pieces[..|pieces| - 1]) + pieces[|pieces| - 1].0
  }

  /** The frames `processFrame` queues for some pieces. */
  function FramesOf(pieces: seq<(seq<bv8>, nat)>, ref: Timeval): (fs: seq<Frame>)
    ensures |fs| == |pieces|
  {
    seq(|pieces|, i requires 0 <= i < |pieces| => Frame(pieces[i].0, pieces[i].1, ref))
  }

  /** Splitting neither loses nor duplicates data: the pieces of a packet of
      `n` bytes are, joined, exactly that packet, and each piece's size is
      its length. */
  lemma SplitFramesCovers(frame: Option<seq<bv8>>, n: nat)
    requires frame.Some? ==> |frame.value| == n
    ensures var pieces := SplitFrames(frame, n);
      && Joined(pieces) == (if frame.Some? then frame.value else [])
      && forall i :: 0 <= i < |pieces| ==> |pieces[i].0| == pieces[i].1
  {
    if frame.Some? {
      var pieces := SplitFrames(frame, n);
      assert pieces[..0] == [];
    }
  }

  /** The events of `n` frames queued: one trigger each. */
  function Triggers(n: nat): (r: seq<SourceEvent>)
    ensures |r| == n
  {
    if n == 0 then [] else Triggers(n - 1) + [Trigger]
  }

  /** The bytes of each piece. */
  function Payloads(pieces: seq<(seq<bv8>, nat)>): seq<seq<bv8>>
  {
    if pieces == [] then [] else Payloads(pieces[..|pieces| - 1]) + [pieces[|pieces| - 1].0]
  }

  /** What one more piece adds to the frames queued, the queue, the data
      written out and the events. */
  lemma QueueStep(pieces: seq<(seq<bv8>, nat)>, i: nat, ref: Timeval, all: seq<Frame>, q0: seq<Frame>, depth: nat)
    requires i < |pieces| && |pieces[i].0| == pieces[i].1 && depth >= 1
    requires all == FramesOf(pieces, ref)
    ensures var f := Frame(pieces[i].0[..pieces[i].1], pieces[i].1, ref);
      && all[..i + 1] == all[..i] + [f]
      && AdmitAll(q0, all[..i + 1], depth) == Admit(AdmitAll(q0, all[..i], depth), f, depth)
    ensures Payloads(pieces[..i + 1]) == Payloads(pieces[..i]) + [pieces[i].0[..pieces[i].1]]
    ensures Triggers(i + 1) == Triggers(i) + [Trigger]
  {
    assert pieces[i].0[..pieces[i].1] == pieces[i].0;
    assert all[..i + 1][..i] == all[..i];
    assert pieces[..i + 1][..i] == pieces[..i];
  }

  /** The end of `queueFrame`: once the eviction loop has deleted the first
      `d` frames, appending the new frame gives the admitted queue, keeps
      every frame made either freed or queued, and keeps the bound and the
      frame sizes. */
  lemma AppendAfterEviction(q0: seq<Frame>, d: nat, f: Frame, depth: nat, f0: seq<Frame>, c0: seq<Frame>)
    requires 1 <= depth && d <= |q0| <= depth && |q0[d..]| < depth
    requires Evict(q0[d..], depth) == Evict(q0, depth)
    requires WellSized(q0) && |f.buffer| == f.size && c0 == f0 + q0
    ensures q0[d..] + [f] == Admit(q0, f, depth)
    ensures c0 + [f] == (f0 + q0[..d]) + (q0[d..] + [f])
    ensures |q0[d..] + [f]| <= depth && WellSized(q0[d..] + [f])
    ensures q0[..d] == q0[..|q0| + 1 - |q0[d..] + [f]|]
  {
    assert q0 == q0[..d] + q0[d..];
    WellSizedSuffix(q0, d);
    WellSizedSnoc(q0[d..], f);
  }

  /** Each frame's size is the length of the buffer it owns. */
  ghost predicate WellSized(q: seq<Frame>)
  {
    forall i :: 0 <= i < |q| ==> |q[i].buffer| == q[i].size
  }

  lemma WellSizedSuffix(q: seq<Frame>, d: nat)
    requires WellSized(q) && d <= |q|
    ensures WellSized(q[d..])
  {
    forall i | 0 <= i < |q| - d ensures |q[d..][i].buffer| == q[d..][i].size {
      assert q[d..][i] == q[d + i];
    }
  }

  lemma WellSizedSnoc(q: seq<Frame>, f: Frame)
    requires WellSized(q) && |f.buffer| == f.size
    ensures WellSized(q + [f])
  {
    forall i | 0 <= i < |q| + 1 ensures |(q + [f])[i].buffer| == (q + [f])[i].size {
      if i < |q| {
        assert (q + [f])[i] == q[i];
      }
    }
  }

  /** How `deliverFrame` cuts a frame of `size` bytes for a consumer buffer of
      `maxSize` bytes: the bytes delivered and the bytes cut off. */
  function Truncate(size: nat, maxSize: nat): (r: (nat, nat))
    ensures r.0 + r.1 == size
    ensures r.0 <= maxSize
    ensures r.1 > 0 <==> size > maxSize
    ensures size > maxSize ==> r.0 == maxSize
  {
    if size > maxSize then (maxSize, size - maxSize) else (size, 0)
  }

  // ---------------------------------------------------------------------------
  // The source
  // ---------------------------------------------------------------------------

  class AlsaDeviceSource {
    /** `m_captureQueue`, front first. */
    var captureQueue: seq<Frame>
    const inStats: Stats
    const outStats: Stats
    /** `m_out_file`: -1 when no copy of the audio is written out. */
    const outFile: int
    /** `m_queueSize`, fixed at construction. */
    const queueSize: nat

    // The FramedSource state shared with the consumer.
    var awaiting: bool
    var to: seq<bv8>
    var maxSize: nat
    var frameSize: nat
    var numTruncatedBytes: nat
    var durationInMicroseconds: nat
    var presentationTime: Timeval

    /** Scheduler calls, oldest first. */
    var events: seq<SourceEvent>
    /** Buffers written to `m_out_file`. */
    var outWrites: seq<seq<bv8>>
    /** Every frame ever constructed and every frame deleted, in order. */
    ghost var created: seq<Frame>
    ghost var freed: seq<Frame>

    /** Frames are freed in the order they were made, each exactly once, and
        exactly the frames still queued are not yet freed; the queue stays
        within its bound; the consumer buffer is `maxSize` bytes; each
        queued frame's size is its buffer's length. */
    ghost predicate Valid()
      reads this, inStats, outStats
    {
      && inStats != outStats && inStats.Valid() && outStats.Valid()
      && created == freed + captureQueue
      && |captureQueue| <= queueSize
      && |to| == maxSize
      && WellSized(captureQueue)
    }

    constructor (outputFd: int, queueSize: nat)
      ensures Valid()
      ensures captureQueue == [] && created == [] && freed == []
      ensures outFile == outputFd && this.queueSize == queueSize
      ensures !awaiting && events == [] && outWrites == []
      ensures fresh(inStats) && fresh(outStats)
    {
      captureQueue := [];
      inStats := new Stats("in");
      outStats := new Stats("out");
      outFile := outputFd;
      this.queueSize := queueSize;
      awaiting, to, maxSize := false, [], 0;
      frameSize, numTruncatedBytes, durationInMicroseconds := 0, 0, 0;
      presentationTime := Timeval(0, 0);
      events, outWrites := [], [];
      created, freed := [], [];
    }

    /** `queueFrame`: delete frames from the front while the queue is full,
        append a new frame owning `frame`, then trigger delivery once. A
        queue size of 0 would pop an empty list, so it is excluded. */
    method QueueFrame(frame: seq<bv8>, frameSize: int, tv: Timeval)
      requires Valid() && queueSize >= 1 && |frame| == frameSize
      modifies this`captureQueue, this`freed, this`created, this`events
      ensures Valid()
      ensures captureQueue == Admit(old(captureQueue), Frame(frame, frameSize, tv), queueSize)
      ensures created == old(created) + [Frame(frame, frameSize, tv)]
      ensures freed == old(freed) + old(captureQueue)[..|old(captureQueue)| + 1 - |captureQueue|]
      ensures events == old(events) + [Trigger]
    {
      ghost var q0, d := captureQueue, 0;
      assert q0[..0] == [] && q0[0..] == q0;
      while |captureQueue| >= queueSize
        invariant 0 <= d <= |q0| && captureQueue == q0[d..]
        invariant freed == old(freed) + q0[..d]
        invariant Evict(captureQueue, queueSize) == Evict(q0, queueSize)
        invariant created == old(created) && events == old(events)
        decreases |captureQueue|
      {
        d := EvictOldest(q0, old(freed), d);
      }
      var f := Frame(frame, frameSize, tv);
      AppendAfterEviction(q0, d, f, queueSize, old(freed), old(created));
      captureQueue := captureQueue + [f];
      created := created + [f];
      events := events + [Trigger];
    }

    /** One pass of the eviction loop of `queueFrame`: delete the oldest
        frame; the loop moves on to position `d'` of the original queue. */
    method EvictOldest(ghost q0: seq<Frame>, ghost f0: seq<Frame>, ghost d: nat) returns (ghost d': nat)
      requires queueSize >= 1 && d <= |q0| && captureQueue == q0[d..] && freed == f0 + q0[..d]
      requires |captureQueue| >= queueSize && Evict(captureQueue, queueSize) == Evict(q0, queueSize)
      modifies this`captureQueue, this`freed
      ensures d' == d + 1 <= |q0| && captureQueue == q0[d'..] && freed == f0 + q0[..d']
      ensures Evict(captureQueue, queueSize) == Evict(q0, queueSize)
    {
      freed := freed + [captureQueue[0]];
      captureQueue := captureQueue[1..];
      d' := d + 1;
      assert q0[..d'] == q0[..d] + [q0[d]];
      assert q0[d'..] == q0[d..][1..];
    }

    /** `deliverFrame`: when the consumer is waiting, hand it the front frame
        (cut to its buffer, recording the cut bytes), delete that frame and
        call `afterGetting`; with an empty queue it hands over nothing but
        still calls `afterGetting`. When the consumer is not waiting nothing
        happens. `now` is the clock reading. */
    method DeliverFrame(now: Timeval)
      requires Valid()
      modifies this`captureQueue, this`freed, this`frameSize, this`numTruncatedBytes,
        this`durationInMicroseconds, this`presentationTime, this`to, this`awaiting,
        this`events, outStats
      ensures Valid()
      ensures !old(awaiting) ==> unchanged(this) && unchanged(outStats)
      ensures old(awaiting) ==>
        && !awaiting && durationInMicroseconds == 0
        && events == old(events) + [AfterGetting(frameSize)]
      ensures old(awaiting) && old(captureQueue) == [] ==>
        && frameSize == 0 && captureQueue == [] && freed == old(freed)
        && to == old(to) && numTruncatedBytes == old(numTruncatedBytes)
        && presentationTime == old(presentationTime) && unchanged(outStats)
      ensures old(awaiting) && old(captureQueue) != [] ==>
        var f := old(captureQueue)[0];
        var cut := Truncate(f.size, maxSize);
        && captureQueue == old(captureQueue)[1..] && freed == old(freed) + [f]
        && frameSize == cut.0
        && numTruncatedBytes == (if cut.1 > 0 then cut.1 else old(numTruncatedBytes))
        && to[..frameSize] == f.buffer[..frameSize] && to[frameSize..] == old(to)[frameSize..]
        && presentationTime == now
        && outStats.history == old(outStats.history) + [(now.sec, f.size)]
    {
      if awaiting {
        durationInMicroseconds := 0;
        frameSize := 0;
        if captureQueue != [] {
          DeliverFront(now);
        }
        awaiting := false;
        events := events + [AfterGetting(frameSize)];
      }
    }

    /** The non-empty branch of `deliverFrame`: stamp the delivery, pop the
        front frame, hand it over and delete it. */
    method DeliverFront(now: Timeval)
      requires Valid() && captureQueue != []
      modifies this`captureQueue, this`freed, this`frameSize, this`numTruncatedBytes,
        this`presentationTime, this`to, outStats
      ensures Valid()
      ensures var f := old(captureQueue)[0];
        var cut := Truncate(f.size, maxSize);
        && captureQueue == old(captureQueue)[1..] && freed == old(freed) + [f]
        && frameSize == cut.0
        && numTruncatedBytes == (if cut.1 > 0 then cut.1 else old(numTruncatedBytes))
        && to[..frameSize] == f.buffer[..frameSize] && to[frameSize..] == old(to)[frameSize..]
        && presentationTime == now
        && outStats.history == old(outStats.history) + [(now.sec, f.size)]
    {
      presentationTime := now;
      var f := captureQueue[0];
      captureQueue := captureQueue[1..];
      Hand(f);
      freed := freed + [f];
      WellSizedSuffix(old(captureQueue), 1);
    }

    /** The part of `deliverFrame` that hands a popped frame to the consumer:
        count it, cut it to the consumer's buffer and copy what fits. */
    method Hand(f: Frame)
      requires outStats.Valid() && |to| == maxSize && |f.buffer| == f.size
      modifies this`frameSize, this`numTruncatedBytes, this`to, outStats
      ensures outStats.Valid() && |to| == maxSize
      ensures var cut := Truncate(f.size, maxSize);
        && frameSize == cut.0
        && numTruncatedBytes == (if cut.1 > 0 then cut.1 else old(numTruncatedBytes))
        && to[..frameSize] == f.buffer[..frameSize] && to[frameSize..] == old(to)[frameSize..]
      ensures outStats.history == old(outStats.history) + [(presentationTime.sec, f.size)]
    {
      var _ := outStats.Notify(presentationTime.sec, f.size);
      if f.size > maxSize {
        frameSize := maxSize;
        numTruncatedBytes := f.size - maxSize;
      } else {
        frameSize := f.size;
      }
      to := f.buffer[..frameSize] + to[frameSize..];
    }

    /** `doGetNextFrame`: deliver at once only when a frame is queued;
        otherwise the next `queueFrame` trigger delivers. */
    method DoGetNextFrame(now: Timeval)
      requires Valid()
      modifies this`captureQueue, this`freed, this`frameSize, this`numTruncatedBytes,
        this`durationInMicroseconds, this`presentationTime, this`to, this`awaiting,
        this`events, outStats
      ensures Valid()
      ensures old(captureQueue) == [] || !old(awaiting) ==> unchanged(this) && unchanged(outStats)
      ensures old(captureQueue) != [] && old(awaiting) ==>
        var f := old(captureQueue)[0];
        var cut := Truncate(f.size, maxSize);
        && !awaiting && durationInMicroseconds == 0
        && captureQueue == old(captureQueue)[1..] && freed == old(freed) + [f]
        && frameSize == cut.0
        && numTruncatedBytes == (if cut.1 > 0 then cut.1 else old(numTruncatedBytes))
        && to[..frameSize] == f.buffer[..frameSize] && to[frameSize..] == old(to)[frameSize..]
        && presentationTime == now
        && outStats.history == old(outStats.history) + [(now.sec, f.size)]
        && events == old(events) + [AfterGetting(frameSize)]
    {
      if captureQueue != [] {
        DeliverFrame(now);
      }
    }

    /** A consumer's request, as live555's `FramedSource::getNextFrame` makes
        it: record the consumer's buffer, clear the per-frame fields, mark the
        source as awaiting data and call `doGetNextFrame`. A request finds
        a frame at once when one is queued; otherwise it stays pending until
        the next `queueFrame` trigger runs `deliverFrame`. */
    method RequestFrame(buffer: seq<bv8>, now: Timeval)
      requires Valid() && !awaiting
      modifies this`captureQueue, this`freed, this`frameSize, this`numTruncatedBytes,
        this`durationInMicroseconds, this`presentationTime, this`to, this`awaiting,
        this`events, this`maxSize, outStats
      ensures Valid() && maxSize == |buffer| && durationInMicroseconds == 0
      ensures old(captureQueue) == [] ==>
        && awaiting && to == buffer && numTruncatedBytes == 0
        && captureQueue == [] && freed == old(freed) && events == old(events)
        && frameSize == old(frameSize) && presentationTime == old(presentationTime)
        && unchanged(outStats)
      ensures old(captureQueue) != [] ==>
        var f := old(captureQueue)[0];
        var cut := Truncate(f.size, |buffer|);
        && !awaiting && captureQueue == old(captureQueue)[1..] && freed == old(freed) + [f]
        && frameSize == cut.0 && numTruncatedBytes == cut.1
        && to[..frameSize] == f.buffer[..frameSize] && to[frameSize..] == buffer[frameSize..]
        && presentationTime == now
        && outStats.history == old(outStats.history) + [(now.sec, f.size)]
        && events == old(events) + [AfterGetting(frameSize)]
    {
      to, maxSize := buffer, |buffer|;
      numTruncatedBytes, durationInMicroseconds := 0, 0;
      awaiting := true;
      DoGetNextFrame(now);
    }

    /** `processFrame`: queue a copy of each piece of the packet, stamped
        with the reference time, writing each copy to `m_out_file` when one
        is set. */
    method ProcessFrame(frame: Option<seq<bv8>>, frameSz: nat, ref: Timeval)
      requires Valid() && queueSize >= 1 && (frame.Some? ==> |frame.value| == frameSz)
      modifies this`captureQueue, this`freed, this`created, this`events, this`outWrites
      ensures Valid()
      ensures var added := FramesOf(SplitFrames(frame, frameSz), ref);
        && captureQueue == AdmitAll(old(captureQueue), added, queueSize)
        && created == old(created) + added
        && events == old(events) + Triggers(|added|)
      ensures outWrites == old(outWrites) + (if outFile != -1 then Payloads(SplitFrames(frame, frameSz)) else [])
    {
      var pieces := SplitFrames(frame, frameSz);
      SplitFramesCovers(frame, frameSz);
      ghost var all := FramesOf(pieces, ref);
      ghost var q0, c0, e0 := captureQueue, created, events;
      assert all[..0] == [] && pieces[..0] == [];
      var i := 0;
      while i < |pieces|
        invariant 0 <= i <= |pieces| && Valid()
        invariant captureQueue == AdmitAll(q0, all[..i], queueSize)
        invariant created == c0 + all[..i]
        invariant events == e0 + Triggers(i)
        invariant outWrites == old(outWrites) + (if outFile != -1 then Payloads(pieces[..i]) else [])
      {
        i := QueuePiece(pieces, i, ref, all, q0, c0, e0, old(outWrites));
      }
      assert all[..i] == all && pieces[..i] == pieces;
    }

    /** One pass of the `processFrame` loop: queue a copy of piece `i` and
        write it out when a file is set; the loop moves on to piece `i'`. */
    method QueuePiece(pieces: seq<(seq<bv8>, nat)>, i: nat, ref: Timeval, ghost all: seq<Frame>,
                      ghost q0: seq<Frame>, ghost c0: seq<Frame>, ghost e0: seq<SourceEvent>,
                      ghost w0: seq<seq<bv8>>)
      returns (i': nat)
      requires Valid() && queueSize >= 1 && i < |pieces| && |pieces[i].0| == pieces[i].1
      requires all == FramesOf(pieces, ref)
      requires captureQueue == AdmitAll(q0, all[..i], queueSize)
      requires created == c0 + all[..i] && events == e0 + Triggers(i)
      requires outWrites == w0 + (if outFile != -1 then Payloads(pieces[..i]) else [])
      modifies this`captureQueue, this`freed, this`created, this`events, this`outWrites
      ensures i' == i + 1 && Valid()
      ensures captureQueue == AdmitAll(q0, all[..i'], queueSize)
      ensures created == c0 + all[..i'] && events == e0 + Triggers(i')
      ensures outWrites == w0 + (if outFile != -1 then Payloads(pieces[..i']) else [])
    {
      var size := pieces[i].1;
      var buf := pieces[i].0[..size];
      QueueStep(pieces, i, ref, all, q0, queueSize);
      QueueFrame(buf, size, ref);
      if outFile != -1 {
        outWrites := outWrites + [buf];
      }
      i' := i + 1;
    }

    /** `audio_cb`: ignore a null or empty buffer, otherwise process the
        `len` bytes it holds. */
    method AudioCb(tv: Timeval, data: Option<seq<bv8>>, len: nat)
      requires Valid() && queueSize >= 1 && (data.Some? ==> len <= |data.value|)
      modifies this`captureQueue, this`freed, this`created, this`events, this`outWrites
      ensures Valid()
      ensures data.None? || len == 0 ==> unchanged(this)
      ensures data.Some? && len > 0 ==>
        var f := Frame(data.value[..len], len, tv);
        && captureQueue == Admit(old(captureQueue), f, queueSize)
        && created == old(created) + [f] && events == old(events) + [Trigger]
        && outWrites == old(outWrites) + (if outFile != -1 then [f.buffer] else [])
    {
      if data.None? || len == 0 {
        return;
      }
      ProcessFrame(Some(data.value[..len]), len, tv);
      var pieces := SplitFrames(Some(data.value[..len]), len);
      assert FramesOf(pieces, tv) == [Frame(data.value[..len], len, tv)];
      assert pieces[..0] == [];
    }
  }
}
