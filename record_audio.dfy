/** The audio capture side (`record_audio.cpp`): the started / thread-enable
    flag machine behind `audio_start` and `audio_stop`, the idempotent
    `audio_close`, the PCM buffer set up by `audio_open`, and one cycle of the
    capture thread: fill the buffer from partial device reads, turning every
    little-endian 16-bit sample big-endian in place, then hand the whole
    buffer to the callback and to the RTSP audio source. */
module RecordAudio {
  import opened CSemantics
  import opened FrameQueue
  import opened AlsaSource

  /** Frames per ALSA period; one period of 16-bit mono samples fills the
      buffer. */
  const PERIOD_SIZE: int := 2048

  const EXIT_SUCCESS: int := 0
  const EPERM: int := 1
  const EAGAIN: int := 11
  const EACCES: int := 13
  const EPIPE: int := 32

  /** Calls into ALSA, libc and the audio callback that have an effect. */
  datatype AudioCall =
    | FreeBuf                   // free(codec_pcm_buf)
    | PcmClose(pcm: nat)        // snd_pcm_close
    | PcmPrepare                // snd_pcm_prepare after an overrun
    | Callback(data: seq<bv8>)  // (*audio->cb)(audio, &tv, codec_pcm_buf, codec_pcm_buf_len, nullptr)

  // ---------------------------------------------------------------------------
  // Start / stop
  // ---------------------------------------------------------------------------

  /** What `audio_start` and `audio_stop` look at and change: whether the PCM
      device is open, `audio->started` and the global `thread_enable`. */
  datatype Control = Control(pcmOpen: bool, started: int, enable: int)

  /** `audio_start` on a non-null `audio`: EPERM without a device, EACCES
      when already started, otherwise enable the capture thread. */
  function StartStep(c: Control): (r: (Control, int))
    ensures r.1 == EXIT_SUCCESS <==> c.pcmOpen && c.started == 0
    ensures r.1 == EPERM <==> !c.pcmOpen
    ensures r.1 == EACCES <==> c.pcmOpen && c.started != 0
    ensures r.1 != EXIT_SUCCESS ==> r.0 == c
    ensures r.1 == EXIT_SUCCESS ==> r.0 == Control(true, 1, 1)
  {
    if !c.pcmOpen then (c, EPERM)
    else if c.started != 0 then (c, EACCES)
    else (Control(true, 1, 1), EXIT_SUCCESS)
  }

  /** `audio_stop` on a non-null `audio`: EPERM without a device, EACCES
      when not started, otherwise disable the capture thread. */
  function StopStep(c: Control): (r: (Control, int))
    ensures r.1 == EXIT_SUCCESS <==> c.pcmOpen && c.started != 0
    ensures r.1 == EPERM <==> !c.pcmOpen
    ensures r.1 == EACCES <==> c.pcmOpen && c.started == 0
    ensures r.1 != EXIT_SUCCESS ==> r.0 == c
    ensures r.1 == EXIT_SUCCESS ==> r.0 == Control(true, 0, 0)
  {
    if !c.pcmOpen then (c, EPERM)
    else if c.started == 0 then (c, EACCES)
    else (Control(true, 0, 0), EXIT_SUCCESS)
  }

  /** A start or a stop request. */
  datatype Request = StartRequest | StopRequest

  /** The flags after a run of requests. */
  function RunRequests(c: Control, rs: seq<Request>): Control
  {
    if rs == [] then c
    else
      var c' := RunRequests(c, rs[..|rs| - 1]);
      if rs[|rs| - 1] == StartRequest then StartStep(c').0 else StopStep(c').0
  }

  /** The capture thread is enabled exactly when the stream is started. */
  ghost predicate FlagsAgree(c: Control)
  {
    (c.started == 0 && c.enable == 0) || (c.started == 1 && c.enable == 1)
  }

  /** Starting an open, stopped device and then stopping it succeeds twice
      and returns to the stopped state. */
  lemma StartThenStop(c: Control)
    requires c.pcmOpen && c.started == 0 && c.enable == 0
    ensures var s := StartStep(c); var t := StopStep(s.0);
      s.1 == EXIT_SUCCESS && t.1 == EXIT_SUCCESS && t.0 == c
  {
  }

  /** A second start (the caller is known to start twice) is refused with
      EACCES and changes nothing; likewise a second stop. */
  lemma RepeatedRequestRefused(c: Control)
    requires c.pcmOpen
    ensures var s := StartStep(c); StartStep(s.0) == (s.0, EACCES)
    ensures var t := StopStep(c); StopStep(t.0) == (t.0, EACCES)
  {
  }

  /** Whatever requests arrive, the thread-enable flag keeps agreeing with
      the started flag. */
  lemma {:induction false} RequestsKeepFlagsAgreeing(c: Control, rs: seq<Request>)
    requires FlagsAgree(c)
    ensures FlagsAgree(RunRequests(c, rs))
    ensures RunRequests(c, rs).pcmOpen == c.pcmOpen
  {
    if rs != [] {
      RequestsKeepFlagsAgreeing(c, rs[..|rs| - 1]);
    }
  }

  // ---------------------------------------------------------------------------
  // Byte swapping
  // ---------------------------------------------------------------------------

  /** `bswap_16`. */
  function Bswap16(x: bv16): bv16
  {
    (x << 8) | (x >> 8)
  }

  /** The 16-bit sample stored little-endian in two bytes. */
  function Le16(lo: bv8, hi: bv8): bv16
  {
    ((hi as bv16) << 8) | (lo as bv16)
  }

  /** Swapping a sample read little-endian stores its two bytes in the other
      order, and `bswap_16` undoes itself. */
  lemma Bswap16Facts(lo: bv8, hi: bv8, x: bv16)
    ensures Bswap16(Le16(lo, hi)) == Le16(hi, lo)
    ensures Bswap16(Bswap16(x)) == x
  {
  }

  /** A byte string with the two bytes of every 16-bit sample exchanged. */
  function Swapped(s: seq<bv8>): (r: seq<bv8>)
    ensures |r| == |s|
    decreases |s|
  {
    if |s| < 2 then s else [s[1], s[0]] + Swapped(s[2..])
  }

  lemma {:induction false} SwappedAppend(a: seq<bv8>, b: seq<bv8>)
    requires |a| % 2 == 0
    ensures Swapped(a + b) == Swapped(a) + Swapped(b)
    decreases |a|
  {
    if a == [] {
      assert a + b == b;
    } else {
      assert (a + b)[2..] == a[2..] + b;
      SwappedAppend(a[2..], b);
    }
  }

  /** Every sample is swapped exactly once: byte 2k of the result is byte
      2k + 1 of the input and the other way round. */
  lemma {:induction false} SwappedAt(s: seq<bv8>, k: nat)
    requires |s| % 2 == 0 && k < |s| / 2
    ensures Swapped(s)[2 * k] == s[2 * k + 1] && Swapped(s)[2 * k + 1] == s[2 * k]
  {
    if k > 0 {
      SwappedAt(s[2..], k - 1);
    }
  }

  /** Swapping twice restores the data. */
  lemma {:induction false} SwappedTwice(s: seq<bv8>)
    ensures Swapped(Swapped(s)) == s
    decreases |s|
  {
    if |s| >= 2 {
      SwappedTwice(s[2..]);
      var t := Swapped(s);
      assert t[2..] == Swapped(s[2..]);
    }
  }

  // ---------------------------------------------------------------------------
  // Filling the buffer
  // ---------------------------------------------------------------------------

  /** What the device does on one `snd_pcm_readi`: it offers some samples
      (little-endian byte pairs) or fails with an error code. */
  datatype ReadOutcome = Samples(data: seq<bv8>) | Errno(code: nat)

  /** The value `snd_pcm_readi(pcm, pdata, frameCnt)` returns: the number of
      samples stored (never more than asked for) or the negated error. */
  function ReadReturn(o: ReadOutcome, frameCnt: nat): (rc: int)
    ensures rc <= frameCnt
    ensures rc > 0 ==> o.Samples? && 2 * rc <= |o.data|
  {
    match o
    case Samples(d) => if |d| / 2 < frameCnt then |d| / 2 else frameCnt
    case Errno(code) => -(code as int)
  }

  /** The effect of a failed read: an overrun re-prepares the device; a busy
      device only waits and any other failure is only logged. */
  function Recovery(rc: int): seq<AudioCall>
  {
    if rc == -EPIPE then [PcmPrepare] else []
  }

  /** The raw bytes stored, the calls made and the frames still missing. */
  datatype FillResult = FillResult(raw: seq<bv8>, calls: seq<AudioCall>, left: nat)

  /** The inner read loop of `audio_thread` over a run of device reads, for a
      buffer still missing `frameCnt` samples. The result always stores
      exactly the samples it no longer misses. */
  function Fill(outcomes: seq<ReadOutcome>, frameCnt: nat): (r: FillResult)
    ensures r.left <= frameCnt && |r.raw| == 2 * (frameCnt - r.left)
    decreases |outcomes|
  {
    if outcomes == [] || frameCnt == 0 then FillResult([], [], frameCnt)
    else
      var rc := ReadReturn(outcomes[0], frameCnt);
      if rc <= 0 then
        var r := Fill(outcomes[1..], frameCnt);
        FillResult(r.raw, Recovery(rc) + r.calls, r.left)
      else
        var r := Fill(outcomes[1..], frameCnt - rc);
        FillResult(outcomes[0].data[..2 * rc] + r.raw, r.calls, r.left)
  }

  /** The loop makes progress: when each read delivers at least one sample,
      `frameCnt` outcomes fill the buffer. */
  lemma {:induction false} FillCompletes(outcomes: seq<ReadOutcome>, frameCnt: nat)
    requires |outcomes| >= frameCnt
    requires forall i :: 0 <= i < |outcomes| ==> outcomes[i].Samples? && |outcomes[i].data| >= 2
    ensures Fill(outcomes, frameCnt).left == 0
    decreases |outcomes|
  {
    if outcomes != [] && frameCnt != 0 {
      var rc := ReadReturn(outcomes[0], frameCnt);
      assert rc >= 1;
      FillCompletes(outcomes[1..], frameCnt - rc);
    }
  }

  /** The buffer `b` with `mid` written over it at `off`. */
  function Spliced(b: seq<bv8>, off: nat, mid: seq<bv8>): (r: seq<bv8>)
    requires off + |mid| <= |b|
    ensures |r| == |b|
  {
    b[..off] + mid + b[off + |mid|..]
  }

  /** The samples the device stores: `snd_pcm_readi` writing `bytes` at
      `off`. */
  method DeviceWrite(a: array<bv8>, off: nat, bytes: seq<bv8>)
    requires off + |bytes| <= a.Length
    modifies a
    ensures a[..] == Spliced(old(a[..]), off, bytes)
  {
    ghost var b := a[..];
    forall j | off <= j < off + |bytes| {
      a[j] := bytes[j - off];
    }
    assert a[..] == Spliced(b, off, bytes) by {
      assert a[..off] == b[..off];
      assert a[off..off + |bytes|] == bytes;
      assert a[off + |bytes|..] == b[off + |bytes|..];
      assert a[..] == a[..off] + a[off..off + |bytes|] + a[off + |bytes|..];
    }
  }

  /** The buffer once the first `k` of the samples at `off` are swapped. */
  function SwappedUpTo(orig: seq<bv8>, off: nat, k: nat): (r: seq<bv8>)
    requires off + 2 * k <= |orig|
    ensures |r| == |orig|
  {
    Spliced(orig, off, Swapped(orig[off..off + 2 * k]))
  }

  /** Exchanging the two bytes at `p` extends the swapped region by one
      sample. */
  lemma SwapPairStep(orig: seq<bv8>, cur: seq<bv8>, off: nat, i: nat)
    requires off + 2 * i + 2 <= |orig|
    requires cur == SwappedUpTo(orig, off, i)
    ensures var p := off + 2 * i;
      cur[p := cur[p + 1]][p + 1 := cur[p]] == SwappedUpTo(orig, off, i + 1)
  {
    var p := off + 2 * i;
    var done, pair, tail := orig[off..p], orig[p..p + 2], orig[p + 2..];
    assert orig[off..off + 2 * (i + 1)] == done + pair;
    assert orig[off + 2 * (i + 1)..] == tail;
    SwappedAppend(done, pair);
    assert Swapped(pair) == [orig[p + 1], orig[p]];
    var rest := orig[p..];
    assert rest[0] == orig[p] && rest[1] == orig[p + 1] && rest[2..] == tail;
    SwapAfter(orig[..off] + Swapped(done), rest);
    AppendAssoc(orig[..off], Swapped(done), Swapped(pair));
  }

  /** Exchanging the two elements that follow a prefix. */
  lemma SwapAfter<T>(front: seq<T>, rest: seq<T>)
    requires |rest| >= 2
    ensures var x, p := front + rest, |front|;
      x[p := x[p + 1]][p + 1 := x[p]] == front + [rest[1], rest[0]] + rest[2..]
  {
  }

  /** The `bswap_16` loop over the `n` samples just read at `off`. */
  method SwapSamples(a: array<bv8>, off: nat, n: nat)
    requires off + 2 * n <= a.Length
    modifies a
    ensures a[..] == SwappedUpTo(old(a[..]), off, n)
  {
    ghost var orig := a[..];
    SwappedNone(orig, off);
    var i := 0;
    while i < n
      invariant i <= n && a[..] == SwappedUpTo(orig, off, i)
    {
      ghost var cur := a[..];
      SwapPair(a, off + 2 * i);
      SwapPairStep(orig, cur, off, i);
      i := i + 1;
    }
  }

  lemma SwappedNone(orig: seq<bv8>, off: nat)
    requires off <= |orig|
    ensures SwappedUpTo(orig, off, 0) == orig
  {
    assert orig[off..off] == [];
    assert orig == orig[..off] + [] + orig[off..];
  }

  /** `bswap_16` on the sample at `p`. */
  method SwapPair(a: array<bv8>, p: nat)
    requires p + 2 <= a.Length
    modifies a
    ensures a[..] == old(a[..])[p := old(a[..])[p + 1]][p + 1 := old(a[..])[p]]
  {
    var lo := a[p];
    a[p] := a[p + 1];
    a[p + 1] := lo;
  }

  /** What one successful read leaves in the buffer: the samples it stored
      at `off`, byte-swapped. */
  method StoreSamples(a: array<bv8>, off: nat, chunk: seq<bv8>)
    requires off + |chunk| <= a.Length && |chunk| % 2 == 0
    modifies a
    ensures a[..] == Spliced(old(a[..]), off, Swapped(chunk))
  {
    ghost var before := a[..];
    DeviceWrite(a, off, chunk);
    ghost var mid := a[..];
    SwapSamples(a, off, |chunk| / 2);
    WriteThenSwap(before, off, chunk, mid);
  }

  /** Swapping, in place, the samples just written gives the buffer with the
      swapped samples written. */
  lemma WriteThenSwap(before: seq<bv8>, off: nat, chunk: seq<bv8>, mid: seq<bv8>)
    requires off + |chunk| <= |before| && |chunk| % 2 == 0
    requires mid == Spliced(before, off, chunk)
    ensures SwappedUpTo(mid, off, |chunk| / 2) == Spliced(before, off, Swapped(chunk))
  {
    assert mid[..off] == before[..off];
    assert mid[off..off + |chunk|] == chunk;
    assert mid[off + |chunk|..] == before[off + |chunk|..];
  }

  // ---------------------------------------------------------------------------
  // The audio object
  // ---------------------------------------------------------------------------

  /** The process-wide flags shared with the capture thread. */
  class ThreadFlags {
    var enable: int

    constructor ()
      ensures enable == 0
    {
      enable := 0;
    }
  }

  /** `struct audio`. */
  class Audio {
    /** The PCM device, None when closed. */
    var pcm: Option<nat>
    var codecPcmBuf: array?<bv8>
    var codecPcmBufLen: int
    var codecPcmDataLen: int
    var started: int
    /** Whether `cb` is set. */
    const hasCb: bool
    const devSrc: AlsaDeviceSource?
    var calls: seq<AudioCall>

    /** A freshly allocated (zeroed) `audio` whose device `snd_pcm_open` has
        opened as `pcm`. */
    constructor (pcm: Option<nat>, hasCb: bool, devSrc: AlsaDeviceSource?)
      ensures this.pcm == pcm && this.hasCb == hasCb && this.devSrc == devSrc
      ensures codecPcmBuf == null && codecPcmBufLen == 0 && codecPcmDataLen == 0
      ensures started == 0 && calls == []
    {
      this.pcm := pcm;
      codecPcmBuf := null;
      codecPcmBufLen, codecPcmDataLen, started := 0, 0, 0;
      this.hasCb := hasCb;
      this.devSrc := devSrc;
      calls := [];
    }

    /** The buffer set-up at the end of `audio_open`: one period of 16-bit
        samples, no data yet. */
    method OpenBuffers()
      modifies this`codecPcmBuf, this`codecPcmBufLen, this`codecPcmDataLen
      ensures codecPcmBufLen == PERIOD_SIZE * 2 == 4096
      ensures codecPcmBuf != null && fresh(codecPcmBuf) && codecPcmBuf.Length == codecPcmBufLen
      ensures codecPcmDataLen == 0
    {
      codecPcmBufLen := PERIOD_SIZE * 2;
      codecPcmBuf := new bv8[codecPcmBufLen];
      codecPcmDataLen := 0;
    }

    /** `audio_close`: free the buffer and close the device, each only if
        present, and forget both. A second call finds nothing and changes
        nothing. */
    method Close() returns (rc: int)
      modifies this`codecPcmBuf, this`pcm, this`calls
      ensures rc == EXIT_SUCCESS && codecPcmBuf == null && pcm.None?
      ensures calls == old(calls) + (if old(codecPcmBuf) != null then [FreeBuf] else [])
        + (if old(pcm).Some? then [PcmClose(old(pcm).value)] else [])
      ensures old(codecPcmBuf) == null && old(pcm).None? ==> unchanged(this)
    {
      if codecPcmBuf != null {
        calls := calls + [FreeBuf];
        codecPcmBuf := null;
      }
      if pcm.Some? {
        calls := calls + [PcmClose(pcm.value)];
        pcm := None;
      }
      rc := EXIT_SUCCESS;
    }

    /** `audio_start`. Without a device it also closes the audio object. */
    method Start(flags: ThreadFlags) returns (rc: int)
      modifies this`started, this`codecPcmBuf, this`pcm, this`calls, flags
      ensures (Control(pcm.Some?, started, flags.enable), rc)
        == StartStep(old(Control(pcm.Some?, started, flags.enable)))
      ensures old(pcm).None? ==> codecPcmBuf == null && calls == old(calls) + (if old(codecPcmBuf) != null then [FreeBuf] else [])
      ensures old(pcm).Some? ==> codecPcmBuf == old(codecPcmBuf) && pcm == old(pcm) && calls == old(calls)
    {
      if pcm.None? {
        var _ := Close();
        return EPERM;
      }
      if started != 0 {
        return EACCES;
      }
      flags.enable := 1;
      started := 1;
      rc := EXIT_SUCCESS;
    }

    /** `audio_stop`. Without a device it also closes the audio object. */
    method Stop(flags: ThreadFlags) returns (rc: int)
      modifies this`started, this`codecPcmBuf, this`pcm, this`calls, flags
      ensures (Control(pcm.Some?, started, flags.enable), rc)
        == StopStep(old(Control(pcm.Some?, started, flags.enable)))
      ensures old(pcm).None? ==> codecPcmBuf == null && calls == old(calls) + (if old(codecPcmBuf) != null then [FreeBuf] else [])
      ensures old(pcm).Some? ==> codecPcmBuf == old(codecPcmBuf) && pcm == old(pcm) && calls == old(calls)
    {
      if pcm.None? {
        var _ := Close();
        return EPERM;
      }
      if started == 0 {
        return EACCES;
      }
      flags.enable := 0;
      started := 0;
      rc := EXIT_SUCCESS;
    }

    /** The read loop of `audio_thread`: ask for the samples still missing,
        store and byte-swap what each read returns, re-prepare after an
        overrun, until the buffer is full. The outcomes on offer are finite
        here, so the loop also stops when they run out (`full` is false). */
    method FillBuffer(outcomes: seq<ReadOutcome>) returns (full: bool)
      requires codecPcmBuf != null && codecPcmBuf.Length == codecPcmBufLen
      modifies codecPcmBuf, this`calls
      ensures var r := Fill(outcomes, codecPcmBufLen / 2);
        && (full <==> r.left == 0)
        && codecPcmBuf[..] == Swapped(r.raw) + old(codecPcmBuf[..])[|r.raw|..]
        && calls == old(calls) + r.calls
    {
      var buf := codecPcmBuf;
      var want: nat := codecPcmBufLen / 2;
      var frameCnt: nat := want;
      var off: nat := 0;
      var i := 0;
      ghost var total := Fill(outcomes, want);
      ghost var orig := buf[..];
      ghost var raw: seq<bv8> := [];
      ghost var rec: seq<AudioCall> := [];
      FillStart(outcomes, codecPcmBufLen, total, orig);
      while frameCnt > 0 && i < |outcomes|
        invariant 0 <= i <= |outcomes| && off == |raw| && off % 2 == 0 && off + 2 * frameCnt == 2 * want
        invariant Pending(total, raw, rec, Fill(outcomes[i..], frameCnt))
        invariant Stored(buf[..], orig, raw)
        invariant calls == old(calls) + rec
        decreases |outcomes| - i
      {
        i, off, frameCnt, raw, rec := ReadInto(buf, outcomes, i, off, frameCnt, orig, total, raw, rec, old(calls));
      }
      FillDone(outcomes, i, frameCnt, total, raw, rec);
      full := frameCnt == 0;
    }

    /** One pass of the read loop, with the bookkeeping that proves it: the
        read at `i` adds the samples it returns to those stored (byte-swapped)
        so far, and its calls to those made so far; the loop moves on to the
        next read with `off` and `frameCnt` advanced by those samples. */
    method ReadInto(buf: array<bv8>, outcomes: seq<ReadOutcome>, i: nat, off: nat, frameCnt: nat,
                    ghost orig: seq<bv8>, ghost total: FillResult, ghost raw: seq<bv8>,
                    ghost rec: seq<AudioCall>, ghost calls0: seq<AudioCall>)
      returns (i': nat, off': nat, frameCnt': nat, ghost raw': seq<bv8>, ghost rec': seq<AudioCall>)
      requires i < |outcomes| && 0 < frameCnt && off == |raw| && off % 2 == 0
      requires off + 2 * frameCnt <= buf.Length == |orig|
      requires Pending(total, raw, rec, Fill(outcomes[i..], frameCnt))
      requires Stored(buf[..], orig, raw) && calls == calls0 + rec
      modifies buf, this`calls
      ensures i' == i + 1 && off' == |raw'| && off' % 2 == 0 && off' + 2 * frameCnt' == off + 2 * frameCnt
      ensures Pending(total, raw', rec', Fill(outcomes[i'..], frameCnt'))
      ensures Stored(buf[..], orig, raw') && calls == calls0 + rec'
    {
      ghost var before := buf[..];
      var rc := ReadStep(buf, outcomes[i], off, frameCnt);
      var n: nat := 0;
      if rc <= 0 {
        raw', rec' := raw, rec + Recovery(rc);
      } else {
        n, raw', rec' := rc, raw + outcomes[i].data[..2 * rc], rec;
      }
      i', off', frameCnt' := i + 1, off + 2 * n, frameCnt - n;
      ReadAdvance(outcomes, i, frameCnt, rc, i', frameCnt', total, raw, rec, raw', rec', orig, before, buf[..]);
    }

    /** One `snd_pcm_readi` and what the loop does with its result: on
        success the samples are stored and byte-swapped at `off`; an overrun
        re-prepares the device; other failures change nothing. */
    method ReadStep(buf: array<bv8>, o: ReadOutcome, off: nat, frameCnt: nat) returns (rc: int)
      requires off + 2 * frameCnt <= buf.Length
      modifies buf, this`calls
      ensures rc == ReadReturn(o, frameCnt)
      ensures rc <= 0 ==> buf[..] == old(buf[..]) && calls == old(calls) + Recovery(rc)
      ensures rc > 0 ==>
        && buf[..] == Spliced(old(buf[..]), off, Swapped(o.data[..2 * rc]))
        && calls == old(calls)
    {
      rc := ReadReturn(o, frameCnt);
      if rc <= 0 {
        if rc == -EPIPE {
          calls := calls + [PcmPrepare];
        }
      } else {
        StoreSamples(buf, off, o.data[..2 * rc]);
      }
    }

    /** The end of a cycle with a full buffer: pass the buffer's bytes to
        the callback and, as one frame, to the audio source, each when set. */
    method HandOver(data: seq<bv8>, tv: Timeval)
      requires |data| == codecPcmBufLen
      requires devSrc != null ==> devSrc.Valid() && devSrc.queueSize >= 1
      modifies this`calls
      modifies SourceSet()`captureQueue, SourceSet()`freed, SourceSet()`created, SourceSet()`events, SourceSet()`outWrites
      ensures devSrc != null ==> devSrc.Valid()
      ensures calls == old(calls) + (if hasCb then [Callback(data)] else [])
      ensures devSrc != null && codecPcmBufLen > 0 ==>
        var f := Frame(data, codecPcmBufLen, tv);
        && devSrc.captureQueue == Admit(old(devSrc.captureQueue), f, devSrc.queueSize)
        && devSrc.created == old(devSrc.created) + [f]
        && devSrc.events == old(devSrc.events) + [Trigger]
        && devSrc.outWrites == old(devSrc.outWrites) + (if devSrc.outFile != -1 then [f.buffer] else [])
      ensures devSrc != null && codecPcmBufLen == 0 ==> unchanged(devSrc)
    {
      if hasCb {
        calls := calls + [Callback(data)];
      }
      if devSrc != null {
        assert data[..codecPcmBufLen] == data;
        devSrc.AudioCb(tv, Some(data), codecPcmBufLen);
      }
    }

    /** The audio source, when one is set. */
    function SourceSet(): set<AlsaDeviceSource>
    {
      if devSrc != null then {devSrc} else {}
    }

    /** One pass of `audio_thread` once enabled: take the time, fill the
        buffer, then pass the whole buffer to the callback and to the audio
        source, each when set. A failed clock read (`now` is None) skips the
        pass. */
    method CaptureCycle(now: Option<Timeval>, outcomes: seq<ReadOutcome>)
      requires codecPcmBuf != null && codecPcmBuf.Length == codecPcmBufLen
      requires devSrc != null ==> devSrc.Valid() && devSrc.queueSize >= 1
      modifies codecPcmBuf, this`calls
      modifies SourceSet()`captureQueue, SourceSet()`freed, SourceSet()`created, SourceSet()`events, SourceSet()`outWrites
      ensures devSrc != null ==> devSrc.Valid()
      ensures now.None? ==> unchanged(this) && unchanged(codecPcmBuf) && (devSrc != null ==> unchanged(devSrc))
      ensures now.Some? ==>
        var r := Fill(outcomes, codecPcmBufLen / 2);
        var full := r.left == 0;
        var f := Frame(codecPcmBuf[..], codecPcmBufLen, now.value);
        && codecPcmBuf[..] == Swapped(r.raw) + old(codecPcmBuf[..])[|r.raw|..]
        && calls == old(calls) + r.calls + (if full && hasCb then [Callback(codecPcmBuf[..])] else [])
        && (devSrc != null && full && codecPcmBufLen > 0 ==>
              && devSrc.captureQueue == Admit(old(devSrc.captureQueue), f, devSrc.queueSize)
              && devSrc.created == old(devSrc.created) + [f]
              && devSrc.events == old(devSrc.events) + [Trigger]
              && devSrc.outWrites == old(devSrc.outWrites) + (if devSrc.outFile != -1 then [f.buffer] else []))
        && (devSrc != null && (!full || codecPcmBufLen == 0) ==> unchanged(devSrc))
    {
      if now.None? {
        return;
      }
      var full := FillBuffer(outcomes);
      if !full {
        return;
      }
      var data := codecPcmBuf[..];
      HandOver(data, now.value);
    }
  }

  /** The fill loop's bookkeeping: the bytes stored and calls made so far,
      followed by what the remaining reads will store and call, make up the
      whole fill, and the remaining reads leave the same frames missing. */
  ghost predicate Pending(total: FillResult, raw: seq<bv8>, rec: seq<AudioCall>, rest: FillResult)
  {
    raw + rest.raw == total.raw && rec + rest.calls == total.calls && rest.left == total.left
  }

  /** Before the first read: nothing done, the whole fill pending, and a
      buffer of `len` bytes has room for the `len / 2` samples asked for. */
  lemma FillStart(outcomes: seq<ReadOutcome>, len: nat, total: FillResult, orig: seq<bv8>)
    requires total == Fill(outcomes, len / 2) && |orig| == len
    ensures 2 * (len / 2) <= |orig|
    ensures Pending(total, [], [], Fill(outcomes[0..], len / 2))
    ensures Stored(orig, orig, [])
  {
    assert outcomes[0..] == outcomes;
    assert Swapped([]) + orig[0..] == orig;
  }

  /** When the reads run out or nothing is missing any more, what was done
      is the whole fill. */
  lemma FillDone(outcomes: seq<ReadOutcome>, i: nat, cnt: nat, total: FillResult, raw: seq<bv8>, rec: seq<AudioCall>)
    requires i <= |outcomes| && Pending(total, raw, rec, Fill(outcomes[i..], cnt))
    requires cnt == 0 || i == |outcomes|
    ensures raw == total.raw && rec == total.calls && cnt == total.left
  {
    assert Fill(outcomes[i..], cnt) == FillResult([], [], cnt);
    assert raw + [] == raw && rec + [] == rec;
  }

  /** A failed read moves from the remaining reads into the part done: it
      stores nothing and adds its recovery calls. */
  lemma FillSkip(outcomes: seq<ReadOutcome>, i: nat, next: nat, cnt: nat, rc: int,
                 raw: seq<bv8>, rec: seq<AudioCall>, total: FillResult)
    requires i < |outcomes| && next == i + 1 && cnt > 0 && Pending(total, raw, rec, Fill(outcomes[i..], cnt))
    requires rc == ReadReturn(outcomes[i], cnt) && rc <= 0
    ensures Pending(total, raw, rec + Recovery(rc), Fill(outcomes[next..], cnt))
  {
    var rest := outcomes[i..];
    assert rest[0] == outcomes[i] && rest[1..] == outcomes[next..];
    AppendAssoc(rec, Recovery(rc), Fill(rest[1..], cnt).calls);
  }

  /** A successful read moves from the remaining reads into the part done:
      it stores its `rc` samples and leaves `rc` fewer missing. */
  lemma FillTake(outcomes: seq<ReadOutcome>, i: nat, next: nat, cnt: nat, cnt': nat, rc: int,
                 raw: seq<bv8>, rec: seq<AudioCall>, total: FillResult)
    requires i < |outcomes| && next == i + 1 && cnt > 0 && Pending(total, raw, rec, Fill(outcomes[i..], cnt))
    requires rc == ReadReturn(outcomes[i], cnt) && rc > 0 && cnt' == cnt - rc
    ensures Pending(total, raw + outcomes[i].data[..2 * rc], rec, Fill(outcomes[next..], cnt'))
  {
    var rest := outcomes[i..];
    assert rest[0] == outcomes[i] && rest[1..] == outcomes[next..];
    var chunk := rest[0].data[..2 * rc];
    AppendAssoc(raw, chunk, Fill(rest[1..], cnt - rc).raw);
  }

  /** The buffer holds the bytes stored so far, byte-swapped, in front of
      its original contents. */
  ghost predicate Stored(b: seq<bv8>, orig: seq<bv8>, raw: seq<bv8>)
  {
    |raw| <= |orig| && b == Swapped(raw) + orig[|raw|..]
  }

  /** One store in the fill loop keeps the swapped prefix and the untouched
      tail: the buffer `after` is `before` with `chunk` swapped in at `off`. */
  lemma StoreStep(before: seq<bv8>, after: seq<bv8>, raw: seq<bv8>, chunk: seq<bv8>, off: nat, orig: seq<bv8>)
    requires |chunk| % 2 == 0 && |raw| == off && off % 2 == 0
    requires off + |chunk| <= |before| == |orig|
    requires before == Swapped(raw) + orig[off..]
    requires after == Spliced(before, off, Swapped(chunk))
    ensures after == Swapped(raw + chunk) + orig[off + |chunk|..]
  {
    SwappedAppend(raw, chunk);
    assert before[..off] == Swapped(raw);
    assert before[off + |chunk|..] == orig[off + |chunk|..];
  }
  /** One pass of the read loop in the bookkeeping: the read at `i`, which
      returned `rc` and left the buffer `after`, advances both the fill
      still pending (now from read `next` with `cnt'` samples missing) and
      the byte-swapped prefix stored. */
  lemma ReadAdvance(outcomes: seq<ReadOutcome>, i: nat, cnt: nat, rc: int, next: nat, cnt': nat,
                    total: FillResult, raw: seq<bv8>, rec: seq<AudioCall>,
                    raw': seq<bv8>, rec': seq<AudioCall>,
                    orig: seq<bv8>, before: seq<bv8>, after: seq<bv8>)
    requires i < |outcomes| && next == i + 1 && 0 < cnt && |raw| % 2 == 0 && |raw| + 2 * cnt <= |orig|
    requires Pending(total, raw, rec, Fill(outcomes[i..], cnt)) && Stored(before, orig, raw)
    requires rc == ReadReturn(outcomes[i], cnt)
    requires rc <= 0 ==> after == before && cnt' == cnt && raw' == raw && rec' == rec + Recovery(rc)
    requires rc > 0 ==>
      && after == Spliced(before, |raw|, Swapped(outcomes[i].data[..2 * rc]))
      && cnt' == cnt - rc && raw' == raw + outcomes[i].data[..2 * rc] && rec' == rec
    ensures Pending(total, raw', rec', Fill(outcomes[next..], cnt'))
    ensures Stored(after, orig, raw')
  {
    if rc <= 0 {
      FillSkip(outcomes, i, next, cnt, rc, raw, rec, total);
    } else {
      FillTake(outcomes, i, next, cnt, cnt', rc, raw, rec, total);
      StoreStep(before, after, raw, outcomes[i].data[..2 * rc], |raw|, orig);
    }
  }
}
