/** The vendor libraries (rtsisp / rtsavapi) and the IR-cut driver, seen from the
    streamer: an ISP register file that can be read and written, and a log of
    every call the streamer makes into them, in order. */
module Hardware {
  import opened CSemantics

  /** The ISP controls (`enum enum_rts_video_ctrl_id`) the streamer touches. */
  datatype ControlId =
    | NoiseReduction | Ldc | DetailEnhancement | ThreeDnr | Mirror | Flip
    | InOutDoorMode | Dehaze | GrayMode | IrMode

  /** `struct rts_video_control`: the fields the streamer reads and writes. */
  datatype ControlValue = ControlValue(
    minimum: int, maximum: int, step: int, defaultValue: int, currentValue: int)

  /** One call into the vendor libraries, libc or the IR-cut driver. */
  datatype Call =
    | SetIspCtrl(id: ControlId, value: int)   // rts_av_set_isp_ctrl with current_value = value
    | IrCutIoctl(nr: int)                     // ioctl(_IOC(_IOC_NONE, 0x70, nr, 0)) on /dev/cpld_periph
    | PoolDestroy(pool: Option<nat>)          // rts_pthreadpool_destroy(tpool)
    | StopRecv(chn: int)                      // rts_av_stop_recv
    | DisableChn(chn: int)                    // rts_av_disable_chn
    | DestroyChn(chn: int)                    // rts_av_destroy_chn
    | Unbind(src: int, dst: int)              // rts_av_unbind
    | AvRelease                               // rts_av_release
    | FClose(file: Option<nat>)               // fclose(fd)

  /** A request the day/night controller makes: `change_isp_setting(id, value)`
      or `change_ir_cut(action)`. */
  datatype IrCommand = IspRequest(id: ControlId, value: int) | IrCutRequest(action: int)

  /** The ioctl number `change_ir_cut` uses: 0x15 opens the filter for day,
      0x16 closes it for night. */
  function IrCutNr(action: int): (nr: int)
    ensures nr == 0x15 <==> action == 0
    ensures nr == 0x15 || nr == 0x16
  {
    if action == 0 then 0x15 else 0x16
  }

  /** The channel numbers among `handles` that name a live channel (>= 0),
      in the order given. */
  function Live(handles: seq<int>): seq<int>
  {
    if handles == [] then []
    else (if handles[0] >= 0 then [handles[0]] else []) + Live(handles[1..])
  }

  /** `Live` keeps exactly the created handles. */
  lemma {:induction false} LiveSelects(handles: seq<int>)
    ensures forall x :: x in Live(handles) <==> x in handles && x >= 0
    ensures |Live(handles)| <= |handles|
  {
    if handles != [] {
      LiveSelects(handles[1..]);
      assert handles == [handles[0]] + handles[1..];
    }
  }

  /** The channels a call sequence destroys, disables, stops, in order. */
  function Destroyed(calls: seq<Call>): seq<int>
  {
    if calls == [] then []
    else (if calls[0].DestroyChn? then [calls[0].chn] else []) + Destroyed(calls[1..])
  }

  function Disabled(calls: seq<Call>): seq<int>
  {
    if calls == [] then []
    else (if calls[0].DisableChn? then [calls[0].chn] else []) + Disabled(calls[1..])
  }

  function Stopped(calls: seq<Call>): seq<int>
  {
    if calls == [] then []
    else (if calls[0].StopRecv? then [calls[0].chn] else []) + Stopped(calls[1..])
  }

  /** The pairs a call sequence unbinds, in order. */
  function Unbound(calls: seq<Call>): seq<(int, int)>
  {
    if calls == [] then []
    else (if calls[0].Unbind? then [(calls[0].src, calls[0].dst)] else []) + Unbound(calls[1..])
  }

  lemma {:induction false} DestroyedAppend(a: seq<Call>, b: seq<Call>)
    ensures Destroyed(a + b) == Destroyed(a) + Destroyed(b)
  {
    if a == [] {
      assert a + b == b;
    } else {
      assert (a + b)[0] == a[0] && (a + b)[1..] == a[1..] + b;
      DestroyedAppend(a[1..], b);
      var head := if a[0].DestroyChn? then [a[0].chn] else [];
      AppendAssoc(head, Destroyed(a[1..]), Destroyed(b));
    }
  }

  lemma {:induction false} DisabledAppend(a: seq<Call>, b: seq<Call>)
    ensures Disabled(a + b) == Disabled(a) + Disabled(b)
  {
    if a == [] {
      assert a + b == b;
    } else {
      assert (a + b)[0] == a[0] && (a + b)[1..] == a[1..] + b;
      DisabledAppend(a[1..], b);
      var head := if a[0].DisableChn? then [a[0].chn] else [];
      AppendAssoc(head, Disabled(a[1..]), Disabled(b));
    }
  }

  lemma {:induction false} StoppedAppend(a: seq<Call>, b: seq<Call>)
    ensures Stopped(a + b) == Stopped(a) + Stopped(b)
  {
    if a == [] {
      assert a + b == b;
    } else {
      assert (a + b)[0] == a[0] && (a + b)[1..] == a[1..] + b;
      StoppedAppend(a[1..], b);
      var head := if a[0].StopRecv? then [a[0].chn] else [];
      AppendAssoc(head, Stopped(a[1..]), Stopped(b));
    }
  }

  lemma {:induction false} UnboundAppend(a: seq<Call>, b: seq<Call>)
    ensures Unbound(a + b) == Unbound(a) + Unbound(b)
  {
    if a == [] {
      assert a + b == b;
    } else {
      assert (a + b)[0] == a[0] && (a + b)[1..] == a[1..] + b;
      UnboundAppend(a[1..], b);
      var head := if a[0].Unbind? then [(a[0].src, a[0].dst)] else [];
      AppendAssoc(head, Unbound(a[1..]), Unbound(b));
    }
  }

  /** The projections distribute over concatenation. */
  lemma ProjectionsAppend(a: seq<Call>, b: seq<Call>)
    ensures Destroyed(a + b) == Destroyed(a) + Destroyed(b)
    ensures Disabled(a + b) == Disabled(a) + Disabled(b)
    ensures Stopped(a + b) == Stopped(a) + Stopped(b)
    ensures Unbound(a + b) == Unbound(a) + Unbound(b)
  {
    DestroyedAppend(a, b);
    DisabledAppend(a, b);
    StoppedAppend(a, b);
    UnboundAppend(a, b);
  }

  /** Every `rts_av_stop_recv` is immediately followed by disabling the same
      channel. */
  ghost predicate StopThenDisable(calls: seq<Call>)
  {
    forall i :: 0 <= i < |calls| && calls[i].StopRecv? ==>
      i + 1 < |calls| && calls[i + 1] == DisableChn(calls[i].chn)
  }

  lemma StopThenDisableAppend(a: seq<Call>, b: seq<Call>)
    requires StopThenDisable(a) && StopThenDisable(b)
    ensures StopThenDisable(a + b)
  {
    var t := a + b;
    forall i | 0 <= i < |t| && t[i].StopRecv?
      ensures i + 1 < |t| && t[i + 1] == DisableChn(t[i].chn)
    {
      if i < |a| {
        assert t[i] == a[i] && t[i + 1] == a[i + 1];
      } else {
        assert t[i] == b[i - |a|] && t[i + 1] == b[i + 1 - |a|];
      }
    }
  }

  /** The channel numbers a call names. */
  function ChannelsOf(c: Call): set<int>
  {
    match c
    case StopRecv(x) => {x}
    case DisableChn(x) => {x}
    case DestroyChn(x) => {x}
    case Unbind(x, y) => {x, y}
    case _ => {}
  }

  /** Every channel number the calls name is a created channel (>= 0). */
  ghost predicate NamesOnlyLive(calls: seq<Call>)
  {
    forall i, x :: 0 <= i < |calls| && x in ChannelsOf(calls[i]) ==> x >= 0
  }

  lemma NamesOnlyLiveAppend(a: seq<Call>, b: seq<Call>)
    requires NamesOnlyLive(a) && NamesOnlyLive(b)
    ensures NamesOnlyLive(a + b)
  {
    var t := a + b;
    forall i, x | 0 <= i < |t| && x in ChannelsOf(t[i]) ensures x >= 0 {
      if i < |a| {
        assert t[i] == a[i];
      } else {
        assert t[i] == b[i - |a|];
      }
    }
  }

  /** The projections and shape of a single call. */
  lemma ProjectionsSingle(c: Call)
    ensures Destroyed([c]) == if c.DestroyChn? then [c.chn] else []
    ensures Disabled([c]) == if c.DisableChn? then [c.chn] else []
    ensures Stopped([c]) == if c.StopRecv? then [c.chn] else []
    ensures Unbound([c]) == if c.Unbind? then [(c.src, c.dst)] else []
    ensures StopThenDisable([c]) <==> !c.StopRecv?
    ensures NamesOnlyLive([c]) <==> forall x :: x in ChannelsOf(c) ==> x >= 0
  {
    assert [c][1..] == [];
  }

  lemma LiveSingle(x: int)
    ensures Live([x]) == if x >= 0 then [x] else []
  {
    assert [x][1..] == [];
  }

  lemma LiveCons(x: int, rest: seq<int>)
    ensures Live([x] + rest) == Live([x]) + Live(rest)
  {
    assert ([x] + rest)[1..] == rest;
    LiveSingle(x);
  }

  /** The shape every teardown keeps. */
  ghost predicate WellOrdered(calls: seq<Call>)
  {
    StopThenDisable(calls) && NamesOnlyLive(calls)
  }

  /** Joining two call sequences: the projections concatenate and the shape is kept. */
  lemma Combine(a: seq<Call>, b: seq<Call>)
    requires WellOrdered(a) && WellOrdered(b)
    ensures WellOrdered(a + b)
    ensures Destroyed(a + b) == Destroyed(a) + Destroyed(b)
    ensures Disabled(a + b) == Disabled(a) + Disabled(b)
    ensures Stopped(a + b) == Stopped(a) + Stopped(b)
    ensures Unbound(a + b) == Unbound(a) + Unbound(b)
  {
    ProjectionsAppend(a, b);
    StopThenDisableAppend(a, b);
    NamesOnlyLiveAppend(a, b);
  }

  class Device {
    /** The ISP register file: a control absent from the map cannot be read. */
    var controls: map<ControlId, ControlValue>
    /** Controls whose writes the driver refuses. */
    var rejecting: set<ControlId>
    /** Every call the streamer has made, oldest first. */
    var trace: seq<Call>

    constructor (controls: map<ControlId, ControlValue>, rejecting: set<ControlId>)
      ensures this.controls == controls && this.rejecting == rejecting && trace == []
    {
      this.controls := controls;
      this.rejecting := rejecting;
      trace := [];
    }

    /** rts_av_get_isp_ctrl: fails (None) for a control the ISP does not have. */
    method GetIspCtrl(id: ControlId) returns (ctrl: Option<ControlValue>)
      ensures id in controls <==> ctrl.Some?
      ensures id in controls ==> ctrl.value == controls[id]
    {
      if id in controls {
        ctrl := Some(controls[id]);
      } else {
        ctrl := None;
      }
    }

    /** rts_av_set_isp_ctrl: returns 0 and stores `ctrl` when the driver accepts it. */
    method SetIspCtrl(id: ControlId, ctrl: ControlValue) returns (ret: int)
      modifies this
      ensures trace == old(trace) + [Call.SetIspCtrl(id, ctrl.currentValue)]
      ensures ret == 0 <==> id in old(controls) && id !in rejecting
      ensures controls == if ret == 0 then old(controls)[id := ctrl] else old(controls)
      ensures rejecting == old(rejecting)
    {
      trace := trace + [Call.SetIspCtrl(id, ctrl.currentValue)];
      if id in controls && id !in rejecting {
        controls := controls[id := ctrl];
        ret := 0;
      } else {
        ret := -1;
      }
    }

    /** Any other call: observable only through the trace. */
    method Invoke(c: Call)
      requires !c.SetIspCtrl?
      modifies this`trace
      ensures trace == old(trace) + [c]
    {
      trace := trace + [c];
    }
  }

  /** change_ir_cut: one ioctl on the IR-cut driver (the open/close around it
      carry no logic). */
  method ChangeIrCut(dev: Device, action: int)
    modifies dev`trace
    ensures dev.trace == old(dev.trace) + [IrCutIoctl(IrCutNr(action))]
  {
    if action == 0 {
      dev.Invoke(IrCutIoctl(0x15));
    } else {
      dev.Invoke(IrCutIoctl(0x16));
    }
  }
}
