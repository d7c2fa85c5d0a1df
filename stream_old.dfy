/** The earlier streamer (imager_streamer/src/stream.c): the clamp-and-align
    ISP value mapping, the single-channel day/night controller debounced by
    `night`, the relay loop with its frame counter and the returning
    `kill_stream`. */
module StreamOld {
  import opened CSemantics
  import opened Hardware
  import Relay
  import StreamNew

  /** Samples in one day/night evaluation (the literal 15 of the loop). */
  const SAMPLES: nat := 15

  /** The initial value of `night`: neither day (0) nor night (1). */
  const NIGHT_INITIAL: int := 3

  // ---------------------------------------------------------------------------
  // ISP value mapping
  // ---------------------------------------------------------------------------

  /** get_valid_value: clamp to [minimum, maximum], then, if the REQUESTED
      value is not a whole number of steps above the minimum, replace the
      result by the requested value moved toward the minimum by the C
      remainder. The `%` is always evaluated, so the step must not be 0.
      With a positive step: an in-range request maps to the largest aligned
      value not above it (itself iff aligned); an aligned request outside the
      range is clamped; but because the alignment test looks at the request
      and overrides the clamp, a misaligned request a step or more above the
      maximum maps ABOVE the maximum, and one a step or more below the
      minimum stays below it. */
  function GetValidValue(value: int, ctrl: ControlValue): (r: int)
    requires ctrl.step != 0
    ensures ctrl.step > 0 && ctrl.minimum <= value <= ctrl.maximum ==>
      && ctrl.minimum <= r <= value
      && r == ctrl.minimum + ctrl.step * ((value - ctrl.minimum) / ctrl.step)
      && value - r < ctrl.step
      && ((value - ctrl.minimum) % ctrl.step == 0 <==> r == value)
    ensures ctrl.step > 0 && ctrl.minimum <= ctrl.maximum && (value - ctrl.minimum) % ctrl.step == 0 ==>
      && (value > ctrl.maximum ==> r == ctrl.maximum)
      && (value < ctrl.minimum ==> r == ctrl.minimum)
    ensures ctrl.step > 0 && value >= ctrl.minimum && (value - ctrl.minimum) % ctrl.step != 0 ==>
      r == ctrl.minimum + ctrl.step * ((value - ctrl.minimum) / ctrl.step)
    ensures ctrl.step > 0 && value < ctrl.minimum && (value - ctrl.minimum) % ctrl.step != 0 ==>
      r == ctrl.minimum - ctrl.step * ((ctrl.minimum - value) / ctrl.step)
    ensures ctrl.step > 0 && value < ctrl.minimum ==> r <= ctrl.minimum
    ensures ctrl.step > 0 && value <= ctrl.minimum - ctrl.step && (value - ctrl.minimum) % ctrl.step != 0 ==>
      value < r < ctrl.minimum
    ensures ctrl.step > 0 && ctrl.minimum <= ctrl.maximum && value >= ctrl.maximum + ctrl.step
            && (value - ctrl.minimum) % ctrl.step != 0 ==>
      ctrl.maximum < r < value
  {
    var clamped :=
      if value > ctrl.maximum then ctrl.maximum
      else if value < ctrl.minimum then ctrl.minimum
      else value;
    RemainderFacts(value - ctrl.minimum, ctrl.step);
    if CRem(value - ctrl.minimum, ctrl.step) != 0 then value - CRem(value - ctrl.minimum, ctrl.step)
    else clamped
  }

  /** The C remainder by a positive step: for a non-negative distance it is
      the Euclidean one and removing it leaves a non-negative multiple of the
      step; for a negative distance it lies in (-step, 0] and its magnitude
      is at most the distance; in both cases it is zero exactly when the step
      divides the distance. */
  lemma RemainderFacts(d: int, st: int)
    requires st != 0
    ensures st > 0 && d >= 0 ==> CRem(d, st) == d % st && 0 <= st * (d / st) == d - d % st
    ensures st > 0 && d < 0 ==> -st < CRem(d, st) <= 0 && -CRem(d, st) <= -d
    ensures st > 0 ==> (CRem(d, st) == 0 <==> d % st == 0)
  {
    if st > 0 && d >= 0 {
      var q := d / st;
      assert q >= 0;
      MulNonNegative(st, q);
    } else if st > 0 {
      NegativeRemainder(d, st);
    }
  }

  /** Below zero the C remainder is minus the remainder of the magnitude,
      which is zero exactly when the Euclidean remainder is. */
  lemma NegativeRemainder(d: int, st: int)
    requires st > 0 && d < 0
    ensures -st < CRem(d, st) <= 0 && -CRem(d, st) <= -d
    ensures CRem(d, st) == 0 <==> d % st == 0
  {
    var q, m := (-d) / st, (-d) % st;
    assert CRem(d, st) == -m;
    MulNonNegative(st, q);
    if m == 0 {
      UniqueDivision(d, st, -q, 0, d / st, d % st);
    }
    if d % st == 0 {
      UniqueDivision(-d, st, -(d / st), 0, q, m);
    }
  }

  /** Quotient and remainder by a positive divisor are unique. */
  lemma UniqueDivision(x: int, st: int, a: int, r1: int, b: int, r2: int)
    requires st > 0 && x == st * a + r1 == st * b + r2 && 0 <= r1 < st && 0 <= r2 < st
    ensures a == b && r1 == r2
  {
    if a > b {
      assert st * (a - b) == r2 - r1;
      MulAtLeast(st, a - b);
    } else if a < b {
      assert st * (b - a) == r1 - r2;
      MulAtLeast(st, b - a);
    }
  }

  lemma MulAtLeast(st: int, k: int)
    requires st > 0 && k >= 1
    ensures st * k >= st
  {
    MulNonNegative(st, k - 1);
    assert st * k == st * (k - 1) + st;
  }

  lemma MulNonNegative(a: int, b: int)
    requires a >= 0 && b >= 0
    ensures a * b >= 0
  {
  }

  /** Concrete requests just above the range, all with minimum 0 and maximum
      10: with step 3, 14 maps to 12, outside the range, and 11 maps to 9;
      with step 4, 13 maps to 12, outside the range. */
  lemma GetValidValueExample()
    ensures GetValidValue(14, ControlValue(0, 10, 3, 5, 5)) == 12
    ensures GetValidValue(11, ControlValue(0, 10, 3, 5, 5)) == 9
    ensures GetValidValue(13, ControlValue(0, 10, 4, 5, 5)) == 12
  {
    assert CRem(14, 3) == 2;
    assert CRem(11, 3) == 2;
    assert CRem(13, 4) == 1;
  }

  /** change_isp_setting: read the control; if its current value already
      equals the MAPPED value do nothing and return 0; otherwise write the RAW
      requested value (the mapped one is only compared) and return 1 iff the
      write succeeds. A failed read returns 0 with no write. */
  method ChangeIspSetting(dev: Device, id: ControlId, value: int) returns (changed: int)
    requires id in dev.controls ==> dev.controls[id].step != 0
    modifies dev
    ensures id !in old(dev.controls) ==> changed == 0 && unchanged(dev)
    ensures id in old(dev.controls) ==>
      var c := old(dev.controls[id]);
      if c.currentValue == GetValidValue(value, c) then
        changed == 0 && unchanged(dev)
      else
        && dev.trace == old(dev.trace) + [SetIspCtrl(id, value)]
        && (changed == 1 <==> id !in dev.rejecting)
        && (changed == 0 || changed == 1)
        && dev.controls == (if changed == 1 then old(dev.controls)[id := c.(currentValue := value)]
                            else old(dev.controls))
    ensures dev.rejecting == old(dev.rejecting)
  {
    var got := dev.GetIspCtrl(id);
    if got.None? {
      return 0;
    }
    var ctrl := got.value;
    var mapValue := GetValidValue(value, ctrl);
    if ctrl.currentValue == mapValue {
      return 0;
    }
    ctrl := ctrl.(currentValue := value);
    var ret := dev.SetIspCtrl(id, ctrl);
    if ret != 0 {
      return 0;
    }
    return 1;
  }

  // ---------------------------------------------------------------------------
  // Day/night controller
  // ---------------------------------------------------------------------------

  /** The sum of the first readings. */
  function SampleSum(samples: seq<int>): int
  {
    if samples == [] then 0 else SampleSum(samples[..|samples| - 1]) + samples[|samples| - 1]
  }

  /** The reading `check_ir_mode` decides on: the C-truncated mean of fifteen
      reads of ADC channel 0. */
  function Luminance(samples: seq<int>): int
    requires |samples| == SAMPLES
  {
    CDiv(SampleSum(samples), SAMPLES)
  }

  lemma {:induction false} SampleSumWithin(samples: seq<int>, lo: int, hi: int)
    requires forall i :: 0 <= i < |samples| ==> lo <= samples[i] <= hi
    ensures |samples| * lo <= SampleSum(samples) <= |samples| * hi
  {
    if samples != [] {
      var init := samples[..|samples| - 1];
      assert forall i :: 0 <= i < |init| ==> init[i] == samples[i];
      SampleSumWithin(init, lo, hi);
      assert |samples| * lo == |init| * lo + lo;
      assert |samples| * hi == |init| * hi + hi;
    }
  }

  /** The luminance is an average: when every read lies in [lo, hi] (lo >= 0),
      so does the luminance. */
  lemma LuminanceWithinReadings(samples: seq<int>, lo: int, hi: int)
    requires |samples| == SAMPLES && 0 <= lo
    requires forall i :: 0 <= i < |samples| ==> lo <= samples[i] <= hi
    ensures lo <= Luminance(samples) <= hi
  {
    SampleSumWithin(samples, lo, hi);
    CDivWithin(SampleSum(samples), SAMPLES, lo, hi);
  }

  /** The sampling loop of `check_ir_mode`. */
  method SampleLuminance(samples: seq<int>) returns (adcValue: int)
    requires |samples| == SAMPLES
    ensures adcValue == Luminance(samples)
  {
    adcValue := 0;
    var i := 0;
    while i < SAMPLES
      invariant 0 <= i <= SAMPLES
      invariant adcValue == SampleSum(samples[..i])
    {
      assert samples[..i + 1][..i] == samples[..i];
      adcValue := adcValue + samples[i];
      i := i + 1;
    }
    assert samples[..i] == samples;
    adcValue := CDiv(adcValue, SAMPLES);
  }

  /** The day test: all three operands are `int`, so the comparison is
      signed. It is the same predicate as the current streamer's on the
      non-negative 32-bit range. */
  function DecideDay(adcValue: int, cutoffInverted: int, cutoff: int, invert: bool): (day: bool)
    ensures day <==> (invert && adcValue > cutoffInverted) || adcValue < cutoff
    ensures 0 <= adcValue < UINT32_MODULUS && 0 <= cutoffInverted < UINT32_MODULUS
            && 0 <= cutoff < UINT32_MODULUS ==>
      (day <==> StreamNew.DecideDay(adcValue, cutoffInverted, cutoff, invert))
  {
    (invert && adcValue > cutoffInverted) || adcValue < cutoff
  }

  /** What an actuation requests: night sets gray mode 1, IR mode 2 and the
      IR-cut relay 1; day sets 0, 0 and 0. */
  function Actuation(day: bool): seq<IrCommand>
  {
    if day then [IspRequest(GrayMode, 0), IspRequest(IrMode, 0), IrCutRequest(0)]
    else [IspRequest(GrayMode, 1), IspRequest(IrMode, 2), IrCutRequest(1)]
  }

  /** The calls one request makes on a register file: an ISP request writes
      the RAW requested value only when the control exists and its current
      value differs from the mapped one; an IR-cut request is one ioctl. */
  function Carry(controls: map<ControlId, ControlValue>, c: IrCommand): seq<Call>
    requires c.IspRequest? ==> Mappable(controls, c.id)
  {
    match c
    case IspRequest(id, v) =>
      if id in controls && controls[id].currentValue != GetValidValue(v, controls[id])
      then [SetIspCtrl(id, v)] else []
    case IrCutRequest(a) => [IrCutIoctl(IrCutNr(a))]
  }

  /** The calls an actuation for `day` makes, its three requests in order. */
  function ActuationCalls(controls: map<ControlId, ControlValue>, day: bool): seq<Call>
    requires Mappable(controls, GrayMode) && Mappable(controls, IrMode)
  {
    var a := Actuation(day);
    Carry(controls, a[0]) + Carry(controls, a[1]) + Carry(controls, a[2])
  }

  /** An actuation writes gray mode, then IR mode, each with the raw
      requested value and only when the control exists and does not already
      hold the mapped value, and always ends with the IR-cut ioctl. */
  lemma ActuationCallsShape(controls: map<ControlId, ControlValue>, day: bool)
    requires Mappable(controls, GrayMode) && Mappable(controls, IrMode)
    ensures var g, i, cut := if day then 0 else 1, if day then 0 else 2, if day then 0 else 1;
      var writeG := GrayMode in controls && controls[GrayMode].currentValue != GetValidValue(g, controls[GrayMode]);
      var writeI := IrMode in controls && controls[IrMode].currentValue != GetValidValue(i, controls[IrMode]);
      var e := ActuationCalls(controls, day);
      && |e| == 1 + (if writeG then 1 else 0) + (if writeI then 1 else 0)
      && e[|e| - 1] == IrCutIoctl(IrCutNr(cut))
      && (forall k :: 0 <= k < |e| - 1 ==> e[k].SetIspCtrl?)
      && (writeG ==> e[0] == SetIspCtrl(GrayMode, g))
      && (writeI ==> e[|e| - 2] == SetIspCtrl(IrMode, i))
  {
    assert Actuation(day) == [IspRequest(GrayMode, if day then 0 else 1), IspRequest(IrMode, if day then 0 else 2),
                              IrCutRequest(if day then 0 else 1)];
  }

  /** The debounce of `check_ir_mode` on `night`: the new value of `night`
      and the requests made. */
  function NightStep(night: int, day: bool): (r: (int, seq<IrCommand>))
    ensures r.0 == if day then 0 else 1
    ensures r.1 != [] <==> night != r.0
    ensures r.1 != [] ==> r.1 == Actuation(day)
  {
    if night != 1 && !day then (1, Actuation(false))
    else if night != 0 && day then (0, Actuation(true))
    else (night, [])
  }

  /** A run of evaluations: the final `night` and every request. */
  function Run(night: int, days: seq<bool>): (int, seq<IrCommand>)
  {
    if days == [] then (night, [])
    else
      var p := Run(night, days[..|days| - 1]);
      var s := NightStep(p.0, days[|days| - 1]);
      (s.0, p.1 + s.1)
  }

  /** How many times the decision differs from the previous one (the first
      decision always counts). */
  function DecisionChanges(days: seq<bool>): nat
  {
    if days == [] then 0
    else if |days| == 1 || days[|days| - 1] != days[|days| - 2] then DecisionChanges(days[..|days| - 1]) + 1
    else DecisionChanges(days[..|days| - 1])
  }

  /** From `night = 3` the first evaluation always actuates, and afterwards
      the controller actuates (three requests) exactly when the decision
      changes. */
  lemma {:induction false} ActuationsFollowDecisionChanges(days: seq<bool>)
    ensures Run(NIGHT_INITIAL, days).0 == if days == [] then NIGHT_INITIAL
                                          else if days[|days| - 1] then 0 else 1
    ensures |Run(NIGHT_INITIAL, days).1| == 3 * DecisionChanges(days)
  {
    if days != [] {
      var init := days[..|days| - 1];
      ActuationsFollowDecisionChanges(init);
      if |days| > 1 {
        assert init[|init| - 1] == days[|days| - 2];
      }
    }
  }

  /** A control whose mapping the controller may compute. */
  predicate Mappable(controls: map<ControlId, ControlValue>, id: ControlId)
  {
    id in controls ==> controls[id].step != 0
  }

  /** The old streamer's global state: `isp`, `night` and `g_exit`. */
  class Streamer {
    var isp: int
    var night: int
    var exitRequested: bool

    constructor ()
      ensures isp == -1 && night == NIGHT_INITIAL && !exitRequested
    {
      isp := -1;
      night := NIGHT_INITIAL;
      exitRequested := false;
    }

    /** check_ir_mode: sample, decide, and actuate only when the decision
        differs from `night`. The calls an actuation makes depend on the
        register file as it was before it. */
    method CheckIrMode(dev: Device, samples: seq<int>, cutoffInverted: int, cutoff: int, invert: bool)
      requires |samples| == SAMPLES
      requires Mappable(dev.controls, GrayMode) && Mappable(dev.controls, IrMode)
      modifies this`night, dev
      ensures var day := DecideDay(Luminance(samples), cutoffInverted, cutoff, invert);
              var step := NightStep(old(night), day);
              && night == step.0
              && (step.1 == [] ==> unchanged(dev))
              && (step.1 != [] ==> dev.trace == old(dev.trace) + ActuationCalls(old(dev.controls), day))
      ensures dev.rejecting == old(dev.rejecting)
    {
      var adcValue := SampleLuminance(samples);
      var day := DecideDay(adcValue, cutoffInverted, cutoff, invert);
      if night != 1 && !day {
        Actuate(dev, false);
        night := 1;
      } else if night != 0 && day {
        Actuate(dev, true);
        night := 0;
      }
    }

    /** kill_stream(isp, h264, tpool, fd): its arguments are copies, so the
        -1 it assigns never reaches the global `isp` or the caller's `h264`,
        and it returns, so the caller carries on after a "fatal" failure. */
    method KillStream(dev: Device, ispHandle: int, h264: int, pool: Option<nat>, file: Option<nat>)
      modifies dev`trace
      ensures dev.trace == old(dev.trace) + Teardown(ispHandle, h264, pool, file)
      ensures isp == old(isp) && exitRequested == old(exitRequested)
    {
      ghost var t0 := dev.trace;
      if pool.Some? {
        dev.Invoke(PoolDestroy(pool));
      }
      ghost var t1 := dev.trace;
      var chn := ispHandle;
      if chn >= 0 {
        dev.Invoke(DestroyChn(chn));
        chn := -1;
      }
      assert dev.trace == t1 + DestroyIfLive(ispHandle);
      var enc := h264;
      if enc >= 0 {
        dev.Invoke(DestroyChn(enc));
        enc := -1;
      }
      assert dev.trace == t1 + DestroyIfLive(ispHandle) + DestroyIfLive(h264);
      AppendAssoc(t1, DestroyIfLive(ispHandle), DestroyIfLive(h264));
      dev.Invoke(FClose(file));
      AppendAssoc(t0, PoolRelease(pool), DestroyIfLive(ispHandle) + DestroyIfLive(h264));
      AppendAssoc(t0, PoolRelease(pool) + (DestroyIfLive(ispHandle) + DestroyIfLive(h264)), [FClose(file)]);
    }
  }

  /** One actuation branch of `check_ir_mode`: gray mode, IR mode, then the
      IR-cut filter, all set for the decision. */
  method Actuate(dev: Device, day: bool)
    requires Mappable(dev.controls, GrayMode) && Mappable(dev.controls, IrMode)
    modifies dev
    ensures dev.trace == old(dev.trace) + ActuationCalls(old(dev.controls), day)
    ensures dev.rejecting == old(dev.rejecting)
  {
    var g, i, cut := if day then 0 else 1, if day then 0 else 2, if day then 0 else 1;
    ghost var c0, t0 := dev.controls, dev.trace;
    ghost var a := Actuation(day);
    assert a == [IspRequest(GrayMode, g), IspRequest(IrMode, i), IrCutRequest(cut)];
    var _ := ChangeIspSetting(dev, GrayMode, g);
    ghost var t1 := dev.trace;
    assert t1 == t0 + Carry(c0, a[0]);
    assert (IrMode in dev.controls) == (IrMode in c0);
    assert IrMode in c0 ==> dev.controls[IrMode] == c0[IrMode];
    var _ := ChangeIspSetting(dev, IrMode, i);
    ghost var t2 := dev.trace;
    assert t2 == t1 + Carry(c0, a[1]);
    ChangeIrCut(dev, cut);
    assert dev.trace == t2 + Carry(c0, a[2]);
  }

  /** `RTS_SAFE_RELEASE(tpool, rts_pthreadpool_destroy)`: destroy a pool that exists. */
  function PoolRelease(pool: Option<nat>): seq<Call>
  {
    if pool.Some? then [PoolDestroy(pool)] else []
  }

  function DestroyIfLive(chn: int): seq<Call>
  {
    if chn >= 0 then [DestroyChn(chn)] else []
  }

  /** The call sequence of the old `kill_stream`. */
  function Teardown(isp: int, h264: int, pool: Option<nat>, file: Option<nat>): seq<Call>
  {
    PoolRelease(pool) + (DestroyIfLive(isp) + DestroyIfLive(h264)) + [FClose(file)]
  }

  lemma DestroyIfLiveFacts(chn: int)
    ensures var s := DestroyIfLive(chn);
      && Destroyed(s) == Live([chn]) && Disabled(s) == [] && Stopped(s) == [] && Unbound(s) == []
      && WellOrdered(s)
  {
    LiveSingle(chn);
    if chn >= 0 {
      ProjectionsSingle(DestroyChn(chn));
    }
  }

  lemma PoolReleaseFacts(pool: Option<nat>)
    ensures var s := PoolRelease(pool);
      && Destroyed(s) == [] && Disabled(s) == [] && Stopped(s) == [] && Unbound(s) == []
      && WellOrdered(s)
  {
    if pool.Some? {
      ProjectionsSingle(PoolDestroy(pool));
    }
  }

  /** The channel part of the old teardown. */
  lemma DestroyBothFacts(isp: int, h264: int)
    ensures var s := DestroyIfLive(isp) + DestroyIfLive(h264);
      && Destroyed(s) == Live([isp, h264])
      && Disabled(s) == [] && Stopped(s) == [] && Unbound(s) == []
      && WellOrdered(s)
  {
    DestroyIfLiveFacts(isp);
    DestroyIfLiveFacts(h264);
    LiveCons(isp, [h264]);
    assert [isp, h264] == [isp] + [h264];
    Combine(DestroyIfLive(isp), DestroyIfLive(h264));
  }

  /** What the old teardown guarantees: it destroys exactly the created
      channels, never disables, stops or unbinds anything, names no channel
      that was not created, destroys the pool first and only when there is
      one, and always ends by closing the given file, even a NULL one. */
  lemma {:induction false} TeardownCorrect(isp: int, h264: int, pool: Option<nat>, file: Option<nat>)
    ensures var s := Teardown(isp, h264, pool, file);
      && Destroyed(s) == Live([isp, h264])
      && Disabled(s) == [] && Stopped(s) == [] && Unbound(s) == []
      && WellOrdered(s)
      && s[|s| - 1] == FClose(file)
      && (s[0] == PoolDestroy(pool) <==> pool.Some?)
  {
    var p, m, f := PoolRelease(pool), DestroyIfLive(isp) + DestroyIfLive(h264), [FClose(file)];
    PoolReleaseFacts(pool);
    DestroyBothFacts(isp, h264);
    ProjectionsSingle(FClose(file));
    Combine(p, m);
    Combine(p + m, f);
  }

  // ---------------------------------------------------------------------------
  // Encoder relay
  // ---------------------------------------------------------------------------

  /** The relay loop of the old `start_stream`, for the passes before `g_exit`
      is seen: `buffer` is declared NULL inside each pass, and the
      `uint32_t number` counts the buffers handled. Both the events and the
      count agree with the reference relay: every received buffer is written
      and released once and counted once (modulo 2^32). */
  method RelayLoop(script: seq<Relay.Pass>) returns (events: seq<Relay.RelayEvent>, number: nat)
    ensures events == Relay.RelayTrace(script)
    ensures Relay.Released(events) == Relay.Received(script)
    ensures number == U32(|Relay.Received(script)|)
  {
    events := [];
    number := 0;
    var i := 0;
    while i < |script|
      invariant 0 <= i <= |script|
      invariant events == Relay.RelayTrace(script[..i])
      invariant number == U32(|Relay.Received(script[..i])|)
    {
      assert script[..i + 1][..i] == script[..i];
      var pass := script[i];
      ghost var before := |Relay.Received(script[..i])|;
      i := i + 1;
      var buffer: Option<Relay.AvBuffer> := None;
      if pass.pollFails {
        continue;
      }
      if pass.recvFails {
        continue;
      }
      buffer := pass.received;
      if buffer.Some? {
        var b := buffer.value;
        events := events + [Relay.Write(b, pass.written)];
        if pass.written == b.bytesused {
          events := events + [Relay.Flush];
        }
        assert |Relay.Received(script[..i])| == before + 1;
        U32Succ(before);
        number := U32(number + 1);
        events := events + [Relay.Release(b)];
        buffer := None;
      } else {
        assert |Relay.Received(script[..i])| == before;
      }
    }
    assert script[..i] == script;
    Relay.ReleasedExactlyOnce(script);
  }

  /** Incrementing a `uint32_t` counter keeps it equal to the true count
      modulo 2^32. */
  lemma U32Succ(k: int)
    ensures U32(U32(k) + 1) == U32(k + 1)
  {
    var m := UINT32_MODULUS;
    assert k == m * (k / m) + k % m;
    assert k + 1 == m * (k / m) + (k % m + 1);
    if k % m + 1 == m {
      assert k + 1 == m * (k / m + 1);
    }
  }

  /** The tail of the old `start_stream`: the relay loop, then `kill_stream`
      with the NULL `pfile` (the FIFO opened as `fd` is never the one passed),
      after which the function returns. */
  method RelayThenTeardown(st: Streamer, dev: Device, h264: int, pool: Option<nat>, script: seq<Relay.Pass>)
    returns (events: seq<Relay.RelayEvent>, number: nat)
    modifies dev`trace
    ensures events == Relay.RelayTrace(script)
    ensures number == U32(|Relay.Received(script)|)
    ensures dev.trace == old(dev.trace) + Teardown(st.isp, h264, pool, None)
    ensures st.isp == old(st.isp)
  {
    events, number := RelayLoop(script);
    st.KillStream(dev, st.isp, h264, pool, None);
  }
}
