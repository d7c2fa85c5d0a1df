/** The current streamer (src/stream.c): ISP control validation with
    snap-to-default, the four-channel day/night controller debounced by
    `g_ir_cut_mode`, the encoder relay loop and the `kill_stream` teardown. */
module StreamNew {
  import opened CSemantics
  import opened Hardware
  import Relay

  /** Samples per channel in one day/night evaluation (ADC_ITERATIONS). */
  const ADC_ITERATIONS: nat := 15

  /** Values of `g_ir_cut_mode`: not yet decided, day, night. */
  const MODE_UNKNOWN: int := -1
  const MODE_DAY: int := 0
  const MODE_NIGHT: int := 1

  // ---------------------------------------------------------------------------
  // ISP control validation
  // ---------------------------------------------------------------------------

  /** The `%` in `is_valid_value` is evaluated only for an in-range value; there
      a zero step would be a division by zero. */
  predicate StepDefinedFor(value: int, ctrl: ControlValue)
  {
    ctrl.minimum <= value <= ctrl.maximum ==> ctrl.step != 0
  }

  /** is_valid_value: in range and a whole number of steps above the minimum. */
  function IsValidValue(value: int, ctrl: ControlValue): (valid: bool)
    requires StepDefinedFor(value, ctrl)
    ensures valid <==>
      ctrl.minimum <= value <= ctrl.maximum && (value - ctrl.minimum) % Abs(ctrl.step) == 0
  {
    value >= ctrl.minimum && value <= ctrl.maximum && CRem(value - ctrl.minimum, ctrl.step) == 0
  }

  /** The value `change_isp_setting` writes for a request: the request itself
      when it is valid, otherwise the control's default. */
  function Sanitize(value: int, ctrl: ControlValue): (w: int)
    requires StepDefinedFor(value, ctrl)
    ensures IsValidValue(value, ctrl) ==> w == value
    ensures !IsValidValue(value, ctrl) ==> w == ctrl.defaultValue
    ensures StepDefinedFor(ctrl.defaultValue, ctrl) && IsValidValue(ctrl.defaultValue, ctrl) ==>
      StepDefinedFor(w, ctrl) && IsValidValue(w, ctrl)
  {
    if IsValidValue(value, ctrl) then value else ctrl.defaultValue
  }

  /** A request for `id` is well defined on this register file. */
  predicate CanRequest(controls: map<ControlId, ControlValue>, id: ControlId, value: int)
  {
    id in controls ==> StepDefinedFor(value, controls[id])
  }

  /** change_isp_setting: read the control, snap an invalid request to the
      default, write it. Returns false only when the read or the write fails;
      a corrected value is a success. */
  method ChangeIspSetting(dev: Device, id: ControlId, value: int) returns (ok: bool)
    requires CanRequest(dev.controls, id, value)
    modifies dev
    ensures id !in old(dev.controls) ==> !ok && unchanged(dev)
    ensures id in old(dev.controls) ==>
      var c := old(dev.controls[id]);
      var w := Sanitize(value, c);
      && dev.trace == old(dev.trace) + [SetIspCtrl(id, w)]
      && (ok <==> id !in dev.rejecting)
      && dev.controls == (if ok then old(dev.controls)[id := c.(currentValue := w)] else old(dev.controls))
    ensures dev.rejecting == old(dev.rejecting)
  {
    var got := dev.GetIspCtrl(id);
    if got.None? {
      return false;
    }
    var ctrl := got.value;
    var v := value;
    if !IsValidValue(v, ctrl) {
      v := ctrl.defaultValue;
    }
    ctrl := ctrl.(currentValue := v);
    var ret := dev.SetIspCtrl(id, ctrl);
    if ret != 0 {
      return false;
    }
    return true;
  }

  // ---------------------------------------------------------------------------
  // Day/night controller
  // ---------------------------------------------------------------------------

  /** One pass of the sampling loop: a reading of ADC channels 0..3. */
  datatype AdcRound = AdcRound(ch0: int, ch1: int, ch2: int, ch3: int)

  function Reading(r: AdcRound, k: nat): int
    requires k < 4
  {
    if k == 0 then r.ch0 else if k == 1 then r.ch1 else if k == 2 then r.ch2 else r.ch3
  }

  /** The sum of channel `k` over the rounds. */
  function ChannelSum(rounds: seq<AdcRound>, k: nat): int
    requires k < 4
  {
    if rounds == [] then 0
    else ChannelSum(rounds[..|rounds| - 1], k) + Reading(rounds[|rounds| - 1], k)
  }

  /** The luminance `check_ir_mode` decides on: each channel's sum divided by
      ADC_ITERATIONS, the four averages summed and divided by 4 (all C
      truncating division), stored in a `uint32_t`. */
  function Luminance(rounds: seq<AdcRound>): nat
    requires |rounds| == ADC_ITERATIONS
  {
    var a0 := CDiv(ChannelSum(rounds, 0), ADC_ITERATIONS);
    var a1 := CDiv(ChannelSum(rounds, 1), ADC_ITERATIONS);
    var a2 := CDiv(ChannelSum(rounds, 2), ADC_ITERATIONS);
    var a3 := CDiv(ChannelSum(rounds, 3), ADC_ITERATIONS);
    U32(CDiv(a0 + a1 + a2 + a3, 4))
  }

  /** Every reading lies in [lo, hi]. */
  ghost predicate ReadingsWithin(rounds: seq<AdcRound>, lo: int, hi: int)
  {
    forall i, k :: 0 <= i < |rounds| && 0 <= k < 4 ==> lo <= Reading(rounds[i], k) <= hi
  }

  lemma {:induction false} ChannelSumWithin(rounds: seq<AdcRound>, k: nat, lo: int, hi: int)
    requires k < 4 && ReadingsWithin(rounds, lo, hi)
    ensures |rounds| * lo <= ChannelSum(rounds, k) <= |rounds| * hi
  {
    if rounds != [] {
      var init := rounds[..|rounds| - 1];
      assert ReadingsWithin(init, lo, hi) by {
        forall i, j | 0 <= i < |init| && 0 <= j < 4 ensures lo <= Reading(init[i], j) <= hi {
          assert init[i] == rounds[i];
        }
      }
      ChannelSumWithin(init, k, lo, hi);
      assert lo <= Reading(rounds[|rounds| - 1], k) <= hi;
      assert |rounds| * lo == |init| * lo + lo;
      assert |rounds| * hi == |init| * hi + hi;
    }
  }

  /** The luminance is an average: when every reading lies in [lo, hi] (and
      lo >= 0), so does the luminance. */
  lemma LuminanceWithinReadings(rounds: seq<AdcRound>, lo: int, hi: int)
    requires |rounds| == ADC_ITERATIONS && ReadingsWithin(rounds, lo, hi)
    requires 0 <= lo <= hi < UINT32_MODULUS
    ensures lo <= Luminance(rounds) <= hi
  {
    ChannelSumWithin(rounds, 0, lo, hi);
    ChannelSumWithin(rounds, 1, lo, hi);
    ChannelSumWithin(rounds, 2, lo, hi);
    ChannelSumWithin(rounds, 3, lo, hi);
    var a0 := CDiv(ChannelSum(rounds, 0), ADC_ITERATIONS);
    var a1 := CDiv(ChannelSum(rounds, 1), ADC_ITERATIONS);
    var a2 := CDiv(ChannelSum(rounds, 2), ADC_ITERATIONS);
    var a3 := CDiv(ChannelSum(rounds, 3), ADC_ITERATIONS);
    CDivWithin(ChannelSum(rounds, 0), ADC_ITERATIONS, lo, hi);
    CDivWithin(ChannelSum(rounds, 1), ADC_ITERATIONS, lo, hi);
    CDivWithin(ChannelSum(rounds, 2), ADC_ITERATIONS, lo, hi);
    CDivWithin(ChannelSum(rounds, 3), ADC_ITERATIONS, lo, hi);
    CDivWithin(a0 + a1 + a2 + a3, 4, lo, hi);
  }

  /** The sampling loop of `check_ir_mode`: fifteen rounds of the four
      channels accumulated, then averaged. */
  method SampleLuminance(rounds: seq<AdcRound>) returns (adcValue: nat)
    requires |rounds| == ADC_ITERATIONS
    ensures adcValue == Luminance(rounds)
  {
    var s0, s1, s2, s3 := 0, 0, 0, 0;
    var i := 0;
    while i < ADC_ITERATIONS
      invariant 0 <= i <= ADC_ITERATIONS
      invariant s0 == ChannelSum(rounds[..i], 0) && s1 == ChannelSum(rounds[..i], 1)
      invariant s2 == ChannelSum(rounds[..i], 2) && s3 == ChannelSum(rounds[..i], 3)
    {
      assert rounds[..i + 1][..i] == rounds[..i];
      s0 := s0 + rounds[i].ch0;
      s1 := s1 + rounds[i].ch1;
      s2 := s2 + rounds[i].ch2;
      s3 := s3 + rounds[i].ch3;
      i := i + 1;
    }
    assert rounds[..i] == rounds;
    s0 := CDiv(s0, ADC_ITERATIONS);
    s1 := CDiv(s1, ADC_ITERATIONS);
    s2 := CDiv(s2, ADC_ITERATIONS);
    s3 := CDiv(s3, ADC_ITERATIONS);
    adcValue := U32(CDiv(s0 + s1 + s2 + s3, 4));
  }

  /** The day test of `check_ir_mode`. `adc_value` is a `uint32_t` and the
      cutoffs are `int32_t`, so C compares them as unsigned numbers. */
  function DecideDay(adcValue: nat, cutoffInverted: int, cutoff: int, invert: bool): bool
  {
    (invert && adcValue > U32(cutoffInverted)) || adcValue < U32(cutoff)
  }

  /** For the values the sensor and a sane configuration produce (all
      non-negative 32-bit), the unsigned test is the plain one: day iff
      (invert and L > cutoff_inverted) or L < cutoff. In particular a reading
      below `cutoff` is day whether or not `invert` is set. */
  lemma DecideDayPlain(adcValue: nat, cutoffInverted: int, cutoff: int, invert: bool)
    requires adcValue < UINT32_MODULUS
    requires 0 <= cutoffInverted < UINT32_MODULUS && 0 <= cutoff < UINT32_MODULUS
    ensures DecideDay(adcValue, cutoffInverted, cutoff, invert) <==>
      (invert && adcValue > cutoffInverted) || adcValue < cutoff
    ensures adcValue < cutoff ==> DecideDay(adcValue, cutoffInverted, cutoff, invert)
  {
  }

  /** The sensor reads high in the dark (about 3297 in total darkness) and
      low in light. With the configured cutoffs in the non-negative 32-bit
      range: if every reading is below `cutoff` the decision is day (whatever
      `invert` says); if every reading is at least `cutoff` and `invert` is
      off, the decision is night; with `invert` on, readings all above
      `cutoff_inverted` decide day. */
  lemma ReadingsDecideMode(rounds: seq<AdcRound>, cutoffInverted: int, cutoff: int, invert: bool)
    requires |rounds| == ADC_ITERATIONS
    requires 0 <= cutoffInverted < 0x8000_0000 && 0 < cutoff < 0x8000_0000
    ensures ReadingsWithin(rounds, 0, cutoff - 1) ==>
      DecideDay(Luminance(rounds), cutoffInverted, cutoff, invert)
    ensures ReadingsWithin(rounds, cutoff, 0x7FFF_FFFF) && !invert ==>
      !DecideDay(Luminance(rounds), cutoffInverted, cutoff, invert)
    ensures ReadingsWithin(rounds, cutoffInverted + 1, 0x7FFF_FFFF) && invert ==>
      DecideDay(Luminance(rounds), cutoffInverted, cutoff, invert)
  {
    if ReadingsWithin(rounds, 0, cutoff - 1) {
      LuminanceWithinReadings(rounds, 0, cutoff - 1);
    }
    if ReadingsWithin(rounds, cutoff, 0x7FFF_FFFF) {
      LuminanceWithinReadings(rounds, cutoff, 0x7FFF_FFFF);
    }
    if ReadingsWithin(rounds, cutoffInverted + 1, 0x7FFF_FFFF) {
      LuminanceWithinReadings(rounds, cutoffInverted + 1, 0x7FFF_FFFF);
    }
  }

  /** What an actuation requests: gray mode, IR mode and the IR-cut relay all
      0 for day, all 1 for night. */
  function Actuation(mode: int): seq<IrCommand>
  {
    var v := if mode == MODE_DAY then 0 else 1;
    [IspRequest(GrayMode, v), IspRequest(IrMode, v), IrCutRequest(v)]
  }

  /** The ISP controls an actuation writes can take either request value. */
  predicate Actuatable(controls: map<ControlId, ControlValue>)
  {
    && CanRequest(controls, GrayMode, 0) && CanRequest(controls, GrayMode, 1)
    && CanRequest(controls, IrMode, 0) && CanRequest(controls, IrMode, 1)
  }

  /** The calls one request makes on a register file: an ISP request writes
      the sanitized value when the control exists and nothing otherwise (the
      read fails); an IR-cut request is one ioctl. */
  function Carry(controls: map<ControlId, ControlValue>, c: IrCommand): seq<Call>
    requires c.IspRequest? ==> CanRequest(controls, c.id, c.value)
  {
    match c
    case IspRequest(id, v) => if id in controls then [SetIspCtrl(id, Sanitize(v, controls[id]))] else []
    case IrCutRequest(a) => [IrCutIoctl(IrCutNr(a))]
  }

  /** The calls an actuation to `mode` makes, its three requests in order. */
  function ActuationCalls(controls: map<ControlId, ControlValue>, mode: int): seq<Call>
    requires Actuatable(controls)
  {
    var a := Actuation(mode);
    Carry(controls, a[0]) + Carry(controls, a[1]) + Carry(controls, a[2])
  }

  /** An actuation writes gray mode, then IR mode, each only when the control
      exists and with the requested value snapped to the default when
      invalid, and always ends with the IR-cut ioctl for the mode. */
  lemma ActuationCallsShape(controls: map<ControlId, ControlValue>, mode: int)
    requires Actuatable(controls)
    ensures var v := if mode == MODE_DAY then 0 else 1;
      var e := ActuationCalls(controls, mode);
      && |e| == 1 + (if GrayMode in controls then 1 else 0) + (if IrMode in controls then 1 else 0)
      && e[|e| - 1] == IrCutIoctl(IrCutNr(v))
      && (forall i :: 0 <= i < |e| - 1 ==> e[i].SetIspCtrl?)
      && (GrayMode in controls ==> e[0] == SetIspCtrl(GrayMode, Sanitize(v, controls[GrayMode])))
      && (IrMode in controls ==> e[|e| - 2] == SetIspCtrl(IrMode, Sanitize(v, controls[IrMode])))
  {
    var v := if mode == MODE_DAY then 0 else 1;
    assert Actuation(mode) == [IspRequest(GrayMode, v), IspRequest(IrMode, v), IrCutRequest(v)];
  }

  /** The debounce of `check_ir_mode`: given the mode held in `g_ir_cut_mode`
      and the decision, the new mode and the requests made. */
  function DayNightStep(mode: int, day: bool): (r: (int, seq<IrCommand>))
    ensures r.0 == if day then MODE_DAY else MODE_NIGHT
    ensures r.1 != [] <==> mode != r.0
    ensures r.1 != [] ==> r.1 == Actuation(r.0)
  {
    if day then
      if mode != MODE_DAY then (MODE_DAY, Actuation(MODE_DAY)) else (mode, [])
    else
      if mode != MODE_NIGHT then (MODE_NIGHT, Actuation(MODE_NIGHT)) else (mode, [])
  }

  /** A run of evaluations from a given mode: the final mode and every request. */
  function Run(mode: int, days: seq<bool>): (int, seq<IrCommand>)
  {
    if days == [] then (mode, [])
    else
      var p := Run(mode, days[..|days| - 1]);
      var s := DayNightStep(p.0, days[|days| - 1]);
      (s.0, p.1 + s.1)
  }

  /** How many times the decision differs from the previous one (the first
      decision always counts, since the mode starts undecided). */
  function DecisionChanges(days: seq<bool>): nat
  {
    if days == [] then 0
    else if |days| == 1 || days[|days| - 1] != days[|days| - 2] then DecisionChanges(days[..|days| - 1]) + 1
    else DecisionChanges(days[..|days| - 1])
  }

  /** From the initial `g_ir_cut_mode = -1`, the controller actuates (three
      requests each time) exactly once per change of decision: the first
      evaluation always actuates and a repeated decision never does. */
  lemma {:induction false} ActuationsFollowDecisionChanges(days: seq<bool>)
    ensures Run(MODE_UNKNOWN, days).0 == if days == [] then MODE_UNKNOWN
                                         else if days[|days| - 1] then MODE_DAY else MODE_NIGHT
    ensures |Run(MODE_UNKNOWN, days).1| == 3 * DecisionChanges(days)
  {
    if days != [] {
      var init := days[..|days| - 1];
      ActuationsFollowDecisionChanges(init);
      if |days| > 1 {
        assert init[|init| - 1] == days[|days| - 2];
      }
    }
  }

  /** The controller's global state: `g_exit` and `g_ir_cut_mode`. */
  class Streamer {
    var exitRequested: bool
    var irCutMode: int

    constructor ()
      ensures !exitRequested && irCutMode == MODE_UNKNOWN
    {
      exitRequested := false;
      irCutMode := MODE_UNKNOWN;
    }

    /** check_ir_mode: sample, decide, and actuate only when the decision
        differs from `g_ir_cut_mode`. The calls an actuation makes depend on
        the register file as it was before it. */
    method CheckIrMode(dev: Device, rounds: seq<AdcRound>, cutoffInverted: int, cutoff: int, invert: bool)
      requires |rounds| == ADC_ITERATIONS && Actuatable(dev.controls)
      modifies this`irCutMode, dev
      ensures var day := DecideDay(Luminance(rounds), cutoffInverted, cutoff, invert);
              var step := DayNightStep(old(irCutMode), day);
              && irCutMode == step.0
              && (step.1 == [] ==> unchanged(dev))
              && (step.1 != [] ==> dev.trace == old(dev.trace) + ActuationCalls(old(dev.controls), step.0))
      ensures dev.rejecting == old(dev.rejecting)
    {
      var adcValue := SampleLuminance(rounds);
      if DecideDay(adcValue, cutoffInverted, cutoff, invert) {
        if irCutMode != MODE_DAY {
          Actuate(dev, MODE_DAY);
          irCutMode := MODE_DAY;
        }
      } else {
        if irCutMode != MODE_NIGHT {
          Actuate(dev, MODE_NIGHT);
          irCutMode := MODE_NIGHT;
        }
      }
    }

    /** kill_stream: raise `g_exit`, make the teardown calls of `Teardown`
        and `_exit(1)`; the returned status is the process exit code. What
        the teardown guarantees is proved of `Teardown` in `TeardownCorrect`. */
    method KillStream(dev: Device, h: Handlers) returns (status: int)
      modifies this`exitRequested, dev`trace
      ensures exitRequested && status == 1
      ensures dev.trace == old(dev.trace) + Teardown(h)
    {
      exitRequested := true;
      ghost var t0 := dev.trace;
      dev.Invoke(PoolDestroy(h.pool));
      ghost var t1 := dev.trace;
      ghost var p1, p2 := PathTeardown(h.isp, h.h264Enc), PathTeardown(h.audioChn, h.audioEnc);
      ghost var u1, u2 := PairUnbind(h.isp, h.h264Enc), PairUnbind(h.audioChn, h.audioEnc);
      TearDownChannel(dev, h.isp, false);
      TearDownChannel(dev, h.h264Enc, true);
      AppendAssoc(t1, ChannelTeardown(h.isp, false), ChannelTeardown(h.h264Enc, true));
      TearDownChannel(dev, h.audioChn, false);
      TearDownChannel(dev, h.audioEnc, true);
      AppendAssoc(t1 + p1, ChannelTeardown(h.audioChn, false), ChannelTeardown(h.audioEnc, true));
      AppendAssoc(t1, p1, p2);
      UnbindPair(dev, h.isp, h.h264Enc);
      AppendAssoc(t1, p1 + p2, u1);
      UnbindPair(dev, h.audioChn, h.audioEnc);
      AppendAssoc(t1, p1 + p2 + u1, u2);
      assert dev.trace == t1 + TeardownBody(h);
      dev.Invoke(AvRelease);
      AppendAssoc(t0, [PoolDestroy(h.pool)], TeardownBody(h));
      AppendAssoc(t0, [PoolDestroy(h.pool)] + TeardownBody(h), [AvRelease]);
      status := 1;
    }
  }

  /** One `if (h->x >= 0)` block of `kill_stream`: an encoder channel stops
      reception first, then the channel is disabled and destroyed. */
  method TearDownChannel(dev: Device, chn: int, encoder: bool)
    modifies dev`trace
    ensures dev.trace == old(dev.trace) + ChannelTeardown(chn, encoder)
  {
    if chn >= 0 {
      if encoder {
        dev.Invoke(StopRecv(chn));
      }
      dev.Invoke(DisableChn(chn));
      dev.Invoke(DestroyChn(chn));
    }
  }

  /** One unbind block of `kill_stream`: only when both ends were created. */
  method UnbindPair(dev: Device, src: int, dst: int)
    modifies dev`trace
    ensures dev.trace == old(dev.trace) + PairUnbind(src, dst)
  {
    if src >= 0 && dst >= 0 {
      dev.Invoke(Unbind(src, dst));
    }
  }

  /** One actuation branch of `check_ir_mode`: gray mode, IR mode, then the
      IR-cut filter, all set for `mode`. */
  method Actuate(dev: Device, mode: int)
    requires Actuatable(dev.controls)
    modifies dev
    ensures dev.trace == old(dev.trace) + ActuationCalls(old(dev.controls), mode)
    ensures dev.rejecting == old(dev.rejecting)
  {
    var v := if mode == MODE_DAY then 0 else 1;
    ghost var c0, t0 := dev.controls, dev.trace;
    ghost var a := Actuation(mode);
    assert a == [IspRequest(GrayMode, v), IspRequest(IrMode, v), IrCutRequest(v)];
    var _ := ChangeIspSetting(dev, GrayMode, v);
    ghost var t1 := dev.trace;
    assert t1 == t0 + Carry(c0, a[0]);
    assert (IrMode in dev.controls) == (IrMode in c0);
    assert IrMode in c0 ==> dev.controls[IrMode] == c0[IrMode];
    var _ := ChangeIspSetting(dev, IrMode, v);
    ghost var t2 := dev.trace;
    assert t2 == t1 + Carry(c0, a[1]);
    ChangeIrCut(dev, v);
    assert dev.trace == t2 + Carry(c0, a[2]);
  }

  /** The handles `start_stream` owns (`handlers`); -1 marks one not created. */
  datatype Handlers = Handlers(pool: Option<nat>, isp: int, h264Enc: int, audioChn: int, audioEnc: int)

  /** Tearing down one channel, if it exists: an encoder channel first stops
      reception, then every channel is disabled and destroyed. */
  function ChannelTeardown(chn: int, encoder: bool): seq<Call>
  {
    if chn < 0 then []
    else (if encoder then [StopRecv(chn)] else []) + [DisableChn(chn), DestroyChn(chn)]
  }

  /** Tearing down a source channel and the encoder fed by it (the ISP and
      H.264 pair, or the audio capture and audio encoder pair). */
  function PathTeardown(src: int, enc: int): seq<Call>
  {
    ChannelTeardown(src, false) + ChannelTeardown(enc, true)
  }

  /** Unbinding a pair, if both ends exist. */
  function PairUnbind(src: int, dst: int): seq<Call>
  {
    if src >= 0 && dst >= 0 then [Unbind(src, dst)] else []
  }

  /** The calls `kill_stream` makes between destroying the thread pool and
      releasing the AV layer. */
  function TeardownBody(h: Handlers): seq<Call>
  {
    PathTeardown(h.isp, h.h264Enc) + PathTeardown(h.audioChn, h.audioEnc)
    + PairUnbind(h.isp, h.h264Enc) + PairUnbind(h.audioChn, h.audioEnc)
  }

  /** The whole call sequence of `kill_stream`. */
  function Teardown(h: Handlers): seq<Call>
  {
    [PoolDestroy(h.pool)] + TeardownBody(h) + [AvRelease]
  }

  lemma LiveSplit(a: int, b: int, c: int, d: int)
    ensures Live([a, b]) == Live([a]) + Live([b])
    ensures Live([a, b, c, d]) == Live([a, b]) + Live([c, d])
  {
    LiveCons(a, [b]);
    assert [a, b] == [a] + [b];
    LiveCons(a, [b, c, d]);
    assert [a, b, c, d] == [a] + [b, c, d];
    LiveCons(b, [c, d]);
    assert [b, c, d] == [b] + [c, d];
  }

  /** Disabling and destroying a created channel. */
  lemma DisableDestroyFacts(chn: int)
    requires chn >= 0
    ensures var s := [DisableChn(chn), DestroyChn(chn)];
      && Destroyed(s) == [chn] && Disabled(s) == [chn]
      && Stopped(s) == [] && Unbound(s) == []
      && WellOrdered(s)
  {
    ProjectionsSingle(DisableChn(chn));
    ProjectionsSingle(DestroyChn(chn));
    Combine([DisableChn(chn)], [DestroyChn(chn)]);
    assert [DisableChn(chn), DestroyChn(chn)] == [DisableChn(chn)] + [DestroyChn(chn)];
  }

  /** Stopping, disabling and destroying a created encoder channel. */
  lemma EncoderTeardownFacts(chn: int)
    requires chn >= 0
    ensures var s := [StopRecv(chn), DisableChn(chn), DestroyChn(chn)];
      && Destroyed(s) == [chn] && Disabled(s) == [chn]
      && Stopped(s) == [chn] && Unbound(s) == []
      && WellOrdered(s)
  {
    var stop, rest := [StopRecv(chn)], [DisableChn(chn), DestroyChn(chn)];
    DisableDestroyFacts(chn);
    ProjectionsSingle(StopRecv(chn));
    ProjectionsAppend(stop, rest);
    NamesOnlyLiveAppend(stop, rest);
    assert [StopRecv(chn), DisableChn(chn), DestroyChn(chn)] == stop + rest;
  }

  /** One channel's teardown. */
  lemma ChannelTeardownFacts(chn: int, encoder: bool)
    ensures var s := ChannelTeardown(chn, encoder);
      && Destroyed(s) == Live([chn]) && Disabled(s) == Live([chn])
      && Stopped(s) == (if encoder then Live([chn]) else []) && Unbound(s) == []
      && WellOrdered(s)
  {
    LiveSingle(chn);
    if chn >= 0 {
      if encoder {
        EncoderTeardownFacts(chn);
        assert ChannelTeardown(chn, encoder) == [StopRecv(chn), DisableChn(chn), DestroyChn(chn)];
      } else {
        DisableDestroyFacts(chn);
        assert ChannelTeardown(chn, encoder) == [DisableChn(chn), DestroyChn(chn)];
      }
    }
  }

  /** A source-and-encoder pair's teardown. */
  lemma PathTeardownFacts(src: int, enc: int)
    ensures var s := PathTeardown(src, enc);
      && Destroyed(s) == Live([src, enc]) && Disabled(s) == Live([src, enc])
      && Stopped(s) == Live([enc]) && Unbound(s) == []
      && WellOrdered(s)
  {
    ChannelTeardownFacts(src, false);
    ChannelTeardownFacts(enc, true);
    Combine(ChannelTeardown(src, false), ChannelTeardown(enc, true));
    LiveSplit(src, enc, 0, 0);
  }

  lemma PairUnbindFacts(src: int, dst: int)
    ensures var s := PairUnbind(src, dst);
      && Destroyed(s) == [] && Disabled(s) == [] && Stopped(s) == []
      && Unbound(s) == PairUnbound(src, dst)
      && WellOrdered(s)
  {
    if src >= 0 && dst >= 0 {
      ProjectionsSingle(Unbind(src, dst));
    }
  }

  /** What the teardown of `kill_stream` guarantees: it starts by destroying
      the thread pool and ends by releasing the AV layer; it disables and
      destroys exactly the created channels, once each, in handler order; it
      stops reception on exactly the created encoders, each immediately before
      disabling it; it never names a channel that was not created; and it
      unbinds a pair exactly when both ends were created. */
  lemma {:induction false} TeardownCorrect(h: Handlers)
    ensures var s := Teardown(h);
      && s[0] == PoolDestroy(h.pool) && s[|s| - 1] == AvRelease
      && Destroyed(s) == Live([h.isp, h.h264Enc, h.audioChn, h.audioEnc])
      && Disabled(s) == Live([h.isp, h.h264Enc, h.audioChn, h.audioEnc])
      && Stopped(s) == Live([h.h264Enc, h.audioEnc])
      && Unbound(s) == PairUnbound(h.isp, h.h264Enc) + PairUnbound(h.audioChn, h.audioEnc)
      && WellOrdered(s)
  {
    var head, body, tail := [PoolDestroy(h.pool)], TeardownBody(h), [AvRelease];
    BookendFacts(PoolDestroy(h.pool));
    BookendFacts(AvRelease);
    TeardownBodyFacts(h);
    Combine(head, body);
    Combine(head + body, tail);
    assert Teardown(h) == head + body + tail;
  }

  /** The pool destruction and the AV release name no channel. */
  lemma BookendFacts(c: Call)
    requires c.PoolDestroy? || c.AvRelease?
    ensures Destroyed([c]) == [] && Disabled([c]) == [] && Stopped([c]) == [] && Unbound([c]) == []
    ensures WellOrdered([c])
  {
    ProjectionsSingle(c);
  }

  /** Both source-and-encoder pairs torn down, video first. */
  lemma PathsFacts(h: Handlers)
    ensures var s := PathTeardown(h.isp, h.h264Enc) + PathTeardown(h.audioChn, h.audioEnc);
      && Destroyed(s) == Live([h.isp, h.h264Enc, h.audioChn, h.audioEnc])
      && Disabled(s) == Live([h.isp, h.h264Enc, h.audioChn, h.audioEnc])
      && Stopped(s) == Live([h.h264Enc, h.audioEnc])
      && Unbound(s) == [] && WellOrdered(s)
  {
    PathTeardownFacts(h.isp, h.h264Enc);
    PathTeardownFacts(h.audioChn, h.audioEnc);
    LiveSplit(h.isp, h.h264Enc, h.audioChn, h.audioEnc);
    LiveSplit(h.h264Enc, h.audioEnc, 0, 0);
    Combine(PathTeardown(h.isp, h.h264Enc), PathTeardown(h.audioChn, h.audioEnc));
  }

  lemma TeardownBodyFacts(h: Handlers)
    ensures var s := TeardownBody(h);
      && Destroyed(s) == Live([h.isp, h.h264Enc, h.audioChn, h.audioEnc])
      && Disabled(s) == Live([h.isp, h.h264Enc, h.audioChn, h.audioEnc])
      && Stopped(s) == Live([h.h264Enc, h.audioEnc])
      && Unbound(s) == PairUnbound(h.isp, h.h264Enc) + PairUnbound(h.audioChn, h.audioEnc)
      && WellOrdered(s)
  {
    var p := PathTeardown(h.isp, h.h264Enc) + PathTeardown(h.audioChn, h.audioEnc);
    var u1, u2 := PairUnbind(h.isp, h.h264Enc), PairUnbind(h.audioChn, h.audioEnc);
    PathsFacts(h);
    PairUnbindFacts(h.isp, h.h264Enc);
    PairUnbindFacts(h.audioChn, h.audioEnc);
    Combine(p, u1);
    Combine(p + u1, u2);
  }

  /** The pair `kill_stream` unbinds for two handles, if any. */
  function PairUnbound(src: int, dst: int): seq<(int, int)>
  {
    if src >= 0 && dst >= 0 then [(src, dst)] else []
  }

  // ---------------------------------------------------------------------------
  // Encoder relay
  // ---------------------------------------------------------------------------

  /** The relay loop of `start_stream`, run for the passes before `g_exit` is
      seen. `vid_buffer` lives across passes and is reset to NULL after each
      release, so a failed `recv` never exposes a buffer already released.
      Returns the write/flush/release events, which are the reference trace;
      by Relay.ReleasedExactlyOnce every received buffer is released once. */
  method RelayLoop(script: seq<Relay.Pass>) returns (events: seq<Relay.RelayEvent>)
    ensures events == Relay.RelayTrace(script)
    ensures Relay.Released(events) == Relay.Received(script)
  {
    var vidBuffer: Option<Relay.AvBuffer> := None;
    events := [];
    var i := 0;
    while i < |script|
      invariant 0 <= i <= |script|
      invariant events == Relay.RelayTrace(script[..i])
      invariant vidBuffer == None
    {
      assert script[..i + 1][..i] == script[..i];
      var pass := script[i];
      i := i + 1;
      if pass.pollFails {
        continue;
      }
      if pass.recvFails {
        continue;
      }
      vidBuffer := pass.received;
      if vidBuffer.Some? {
        var b := vidBuffer.value;
        events := events + [Relay.Write(b, pass.written)];
        if pass.written == b.bytesused {
          events := events + [Relay.Flush];
        }
        events := events + [Relay.Release(b)];
        vidBuffer := None;
      }
    }
    assert script[..i] == script;
    Relay.ReleasedExactlyOnce(script);
  }

  /** The tail of `start_stream`: the relay loop, then `kill_stream`, whose
      `_exit(1)` makes the process status 1 even after a normal stop. */
  method RelayThenTeardown(st: Streamer, dev: Device, h: Handlers, script: seq<Relay.Pass>)
    returns (events: seq<Relay.RelayEvent>, status: int)
    modifies st`exitRequested, dev`trace
    ensures events == Relay.RelayTrace(script)
    ensures st.exitRequested && status == 1
  {
    events := RelayLoop(script);
    status := st.KillStream(dev, h);
  }
}
