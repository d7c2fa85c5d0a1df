# Camera streamer core, modelled in Dafny

This project models the sequential logic inside the RTS3903N camera streamer
(two generations of the streamer, `src/stream.c` and
`imager_streamer/src/stream.c`, and the audio path of the RTSP server,
`record_audio.cpp` and `AlsaDeviceSource`), and proves what that logic
promises. Nothing is executed; the vendor libraries are seen only through
what the streamer hands them.

- `c_semantics.dfy` (`CSemantics`): C's truncating `/` and `%`, the
  `uint32_t` conversion, and `Option` for nullable pointers.
- `hardware.dfy` (`Hardware`): the ISP register file and the call log of the
  vendor libraries (`rts_av_*`, the IR-cut ioctl), as a `Device` class. A read
  fails for a control the register file lacks, and a write fails for a control
  the driver rejects. Projections of a call log (channels destroyed,
  disabled, stopped, pairs unbound) state what a teardown did.
- `stream_new.dfy` (`StreamNew`): `is_valid_value` and the snap-to-default
  `change_isp_setting`. The four-channel `check_ir_mode` is split into
  sampling, the unsigned day test and the debounce on `g_ir_cut_mode`. Then
  come the relay loop of `start_stream` and `kill_stream`, whose teardown is
  proved to destroy exactly the created channels.
- `stream_old.dfy` (`StreamOld`): the clamp-and-align `get_valid_value` with
  its sharp edges exhibited, the `change_isp_setting` that writes the raw
  request, the one-channel `check_ir_mode` debounced on `night`, the relay loop
  with its `uint32_t` frame counter, and the `kill_stream` that returns.
- `relay.dfy` (`Relay`): the reference trace of the poll / recv / write /
  flush / release loop shared by both generations. Every received buffer is
  released exactly once, and a flush only follows a complete write.
- `frame_queue.dfy` (`FrameQueue`): the drop-oldest policy of `queueFrame` on
  values. What survives is always the newest frames, in order.
- `alsa_device_source.dfy` (`AlsaSource`): `AlsaDeviceSource` as a class whose
  capture queue is a `seq<Frame>` field. It also logs the frames created and
  freed, so each frame is freed once, in order. `Stats` is a class, and the
  consumer-facing `fFrameSize` / `fNumTruncatedBytes` / `fTo` are fields.
- `record_audio.dfy` (`RecordAudio`): the `audio_start` / `audio_stop` flag
  machine and the idempotent `audio_close`. The `audio_thread` read loop fills
  the PCM buffer (an `array<bv8>`) from scripted partial reads and byte-swaps
  each sample in place. One capture cycle hands the buffer to the callback and
  to the audio source.

Oracles are inputs. These are scripted:

- ADC readings;
- `snd_pcm_readi` outcomes;
- `rts_av_poll` / `rts_av_recv` / `fwrite` results;
- the clock.

Behaviour of the code that a reader may not expect, modelled as written:

- With `invert` set, a luminance below `cutoff` still decides day
  (`src/stream.c:191`, `imager_streamer/src/stream.c:144`). It is not
  `L > cutoff_inverted` alone.
- The new `kill_stream` always ends in `_exit(1)` (`src/stream.c:277`), so the
  process status is 1 even after a normal stop.
- Channels are torn down in handler order (ISP, H.264, audio channel, audio
  encoder), and unbinding comes after destruction (`src/stream.c:250-273`).
  This is not reverse bind order.
- `queueFrame` triggers the consumer once per queued frame, not once per
  batch (`src/rtsp_server/src/AlsaDeviceSource.cpp:213`).
- The old `change_isp_setting` writes the raw requested value; the mapped
  value is only compared with the current one
  (`imager_streamer/src/stream.c:107-112`). The old `kill_stream` closes the
  file it is given (`imager_streamer/src/stream.c:186`), which at the end of
  `start_stream` is the NULL `pfile`.
- `deliverFrame` leaves `fNumTruncatedBytes` as it was when a frame fits
  (`src/rtsp_server/src/AlsaDeviceSource.cpp:122-127`).
- `start_stream` switches the IR-cut to its night position
  (`change_ir_cut(1)`, `src/stream.c:420`) although the comment says day time.
  This is outside the modelled loop.

## Model

| member | source | states |
|---|---|---|
| CSemantics.CDiv | src/stream.c:184-189 | C `/` truncates toward zero, for either sign of dividend and divisor: the Euclidean quotient of the magnitudes, negated when the signs differ |
| CSemantics.CRem | imager_streamer/src/stream.c:93-94 | C `%` takes the dividend's sign: `a mod abs(b)` for `a >= 0`, `-((-a) mod abs(b))` for `a < 0` |
| CSemantics.CRemBounds | imager_streamer/src/stream.c:93 | the C remainder lies strictly between `-abs(b)` and `abs(b)` and is zero exactly when `abs(b)` divides `abs(a)` |
| CSemantics.CDivWithin | src/stream.c:184-189 | the truncated average of `n` readings in `[lo, hi]` (lo >= 0) is again in `[lo, hi]` |
| CSemantics.U32 | src/stream.c:189-191 | conversion to `uint32_t`: below 2^32, the identity on `[0, 2^32)`, plus 2^32 for negatives down to -2^32 |
| Hardware.IrCutNr | src/stream.c:157-165 | the ioctl number is 0x15 exactly when the action is 0, and 0x16 otherwise |
| Hardware.ChangeIrCut | src/stream.c:157-165 | `change_ir_cut` makes exactly one IR-cut ioctl, with the number `IrCutNr(action)` |
| Hardware.LiveSelects | src/stream.c:250-273 | the live handles are exactly the given handles that are >= 0, and there are never more of them |
| Hardware.Device.GetIspCtrl | src/stream.c:123-127 | `rts_av_get_isp_ctrl` succeeds exactly for a control the ISP has, and returns its current description |
| Hardware.Device.SetIspCtrl | src/stream.c:133-134 | every write is logged; it returns 0 exactly when the control exists and the driver accepts it, and only then is the stored control replaced |
| Hardware.Device.Invoke | src/stream.c:249-275 | any other vendor call is appended to the call log and changes nothing else |
| StreamNew.IsValidValue | src/stream.c:116-118 | valid iff `minimum <= v <= maximum` and the step divides `v - minimum`, in both directions; the `%` is needed (step non-zero) only for an in-range value |
| StreamNew.Sanitize | src/stream.c:128-133 | a valid request is written unchanged, an invalid one becomes `default_value`; the written value is valid whenever the default is |
| StreamNew.ChangeIspSetting | src/stream.c:120-141 | a failed get returns false with no write; otherwise it writes `Sanitize(value)` and returns true exactly when the write is accepted (a corrected value is still success), and the register file changes only on success |
| StreamNew.ChannelSumWithin | src/stream.c:176-183 | the sum of `n` readings in `[lo, hi]` lies in `[n*lo, n*hi]` |
| StreamNew.LuminanceWithinReadings | src/stream.c:184-189 | the four-channel luminance is an average: if every reading is in `[lo, hi]` so is the luminance |
| StreamNew.ChannelSum | src/stream.c:176-183 | the per-channel sum of the sampling loop; bounded by `ChannelSumWithin` |
| StreamNew.Luminance | src/stream.c:184-189 | per-channel truncated means, their truncated mean, as `uint32_t`; an average by `LuminanceWithinReadings`, computed by `SampleLuminance` |
| StreamNew.SampleLuminance | src/stream.c:170-189 | the accumulation loop over 15 rounds of four channels yields `Luminance`: per-channel truncated means, their truncated mean, as `uint32_t` |
| StreamNew.DecideDay | src/stream.c:191 | the unsigned day test; equal to the plain test on 32-bit values by `DecideDayPlain`, and decided by the readings as `ReadingsDecideMode` states |
| StreamNew.DecideDayPlain | src/stream.c:191 | on non-negative 32-bit values the unsigned comparison is the plain test (`invert` and `L > cutoff_inverted`) or `L < cutoff`; a reading below `cutoff` is day whatever `invert` says |
| StreamNew.ReadingsDecideMode | src/stream.c:170-191 | readings all below `cutoff` decide day; all at or above `cutoff` with `invert` off decide night; with `invert` on, all above `cutoff_inverted` decide day |
| StreamNew.Actuation | src/stream.c:195-206 | the three requests of an actuation; `DayNightStep` states they are all 0 for day or all 1 for night |
| StreamNew.Carry | src/stream.c:120-141 | the calls one request makes; `ActuationCallsShape` states them for an actuation |
| StreamNew.ActuationCalls | src/stream.c:195-206 | the calls of an actuation, the three requests in order; `ActuationCallsShape` states their shape |
| StreamNew.ActuationCallsShape | src/stream.c:195-206 | an actuation writes gray mode then IR mode, each only when the control exists and with the request snapped to the default when invalid, and always ends with the IR-cut ioctl for the mode; nothing else |
| StreamNew.Actuate | src/stream.c:192-207 | one actuation branch extends the call log by exactly `ActuationCalls(register file before, mode)` |
| StreamNew.DayNightStep | src/stream.c:191-208 | the new mode is 0 for day and 1 for night; requests are made exactly when the mode changes, and they are gray mode, IR mode and relay, all 0 for day or all 1 for night |
| StreamNew.ActuationsFollowDecisionChanges | src/stream.c:191-208 | from `g_ir_cut_mode = -1` the final mode is the last decision and exactly three requests are made per change of decision (the first evaluation always actuates, a repeated decision never does) |
| StreamNew.Streamer.constructor | src/stream.c:38-40 | `g_exit` starts false and `g_ir_cut_mode` starts at -1 |
| StreamNew.Streamer.CheckIrMode | src/stream.c:167-209 | the mode becomes `DayNightStep(old mode, decision on Luminance(samples))`; with no actuation the device is untouched; with one, the call log grows by exactly `ActuationCalls` of the register file before it: the two sanitized ISP writes for the controls that exist, then the IR-cut ioctl |
| StreamNew.Streamer.KillStream | src/stream.c:246-278 | raises `g_exit`, extends the call log by exactly `Teardown(h)` and yields exit status 1 |
| StreamNew.TearDownChannel | src/stream.c:250-267 | one guarded block: nothing for a handle < 0; otherwise stop (encoders only), disable, destroy |
| StreamNew.UnbindPair | src/stream.c:268-273 | unbinds the pair exactly when both handles are >= 0 |
| StreamNew.DisableDestroyFacts | src/stream.c:250-253 | a non-encoder block disables and destroys that channel once and names no other |
| StreamNew.EncoderTeardownFacts | src/stream.c:254-258 | an encoder block stops, disables and destroys that channel once, stop immediately before disable |
| StreamNew.ChannelTeardownFacts | src/stream.c:250-267 | one block disables and destroys exactly the live handle among `[chn]`, stops it only for an encoder, unbinds nothing, and is well ordered |
| StreamNew.PathTeardownFacts | src/stream.c:250-258 | a source-and-encoder pair destroys and disables exactly its live handles in order, and stops only the live encoder |
| StreamNew.PairUnbindFacts | src/stream.c:268-273 | an unbind block unbinds `PairUnbound(src, dst)` and touches no channel otherwise |
| StreamNew.PathsFacts | src/stream.c:250-267 | the four channel blocks destroy and disable exactly the live handles in handler order, and stop exactly the live encoders |
| StreamNew.TeardownBodyFacts | src/stream.c:250-273 | the channel and unbind blocks together add the pairs unbound to the above |
| StreamNew.TeardownBody | src/stream.c:250-273 | the channel and unbind blocks of `kill_stream`; their effect is stated by `TeardownBodyFacts` |
| StreamNew.Teardown | src/stream.c:246-278 | the whole call sequence of `kill_stream`; what it guarantees is `TeardownCorrect` |
| StreamNew.TeardownCorrect | src/stream.c:246-278 | `kill_stream` starts with the pool and ends with `rts_av_release`; it disables and destroys exactly the created channels, once each, in handler order; it stops exactly the created encoders, each right before disabling it; it names no channel that was not created; it unbinds a pair iff both ends exist |
| StreamNew.RelayLoop | src/stream.c:422-445 | the loop produces the reference trace `RelayTrace(script)`, so the buffers it releases are exactly those received, in order |
| StreamNew.RelayThenTeardown | src/stream.c:424-465 | after the loop, `kill_stream` leaves `g_exit` set and the status 1, whatever the loop did |
| Relay.PassEvents | src/stream.c:426-445 | the events of one pass; their shape is `PassShape` |
| Relay.RelayTrace | src/stream.c:422-445 | the reference trace of a run of passes; `ReleasedExactlyOnce` and `FlushOnlyAfterFullWrite` state what it guarantees, and both relay loops are proved to produce it |
| Relay.PassShape | src/stream.c:426-445 | a failed poll or recv, or no buffer, does nothing; otherwise the write comes first, the release last, and a flush occurs iff `fwrite` wrote `bytesused` bytes |
| Relay.ReleasedExactlyOnce | src/stream.c:436-445 | the buffers released, and those written, are exactly the buffers received, each once and in order, whatever `fwrite` returned |
| Relay.FlushOnlyAfterFullWrite | src/stream.c:437-441 | every flush comes immediately after a write that took the whole payload |
| StreamOld.GetValidValue | imager_streamer/src/stream.c:86-97 | with a positive step: a misaligned request at or above the minimum maps to `minimum + step * ((value - minimum) / step)` and one below it to `minimum - step * ((minimum - value) / step)`, in range or not; an in-range request maps to the largest aligned value not above it, in range, less than a step below it, and equal to it iff it is aligned; an aligned request outside the range is clamped; so a misaligned request a step or more above the maximum maps above the maximum (below the request), and one a step or more below the minimum stays below the minimum (above the request) |
| StreamOld.RemainderFacts | imager_streamer/src/stream.c:93-94 | the C remainder by a positive step equals the Euclidean one for a non-negative distance; for a negative one it lies in `(-step, 0]` with magnitude at most the distance; it is zero exactly when the step divides the distance |
| StreamOld.GetValidValueExample | imager_streamer/src/stream.c:89-94 | with range `[0, 10]`: step 3 maps 14 to 12 (outside the range) and 11 to 9; step 4 maps 13 to 12 (outside the range) |
| StreamOld.ChangeIspSetting | imager_streamer/src/stream.c:99-118 | a failed get returns 0 with no write; if the current value equals the mapped value, it returns 0 with no write; otherwise it writes the raw request and returns 1 exactly when the write is accepted |
| StreamOld.SampleSumWithin | imager_streamer/src/stream.c:136-140 | the sum of `n` reads in `[lo, hi]` lies in `[n*lo, n*hi]` |
| StreamOld.LuminanceWithinReadings | imager_streamer/src/stream.c:136-141 | the 15-read average stays within the reads' bounds |
| StreamOld.Luminance | imager_streamer/src/stream.c:136-141 | the truncated mean of 15 reads of channel 0; an average by `LuminanceWithinReadings`, computed by `SampleLuminance` |
| StreamOld.SampleLuminance | imager_streamer/src/stream.c:136-141 | the accumulation loop yields the truncated mean of the 15 reads of channel 0 |
| StreamOld.DecideDay | imager_streamer/src/stream.c:143-146 | day iff (`invert` and `L > cutoff_inverted`) or `L < cutoff` (signed); on non-negative 32-bit values it agrees with the current streamer's unsigned test `StreamNew.DecideDay` |
| StreamOld.Actuation | imager_streamer/src/stream.c:149-158 | the three requests of an actuation; `NightStep` states their values |
| StreamOld.Carry | imager_streamer/src/stream.c:99-118 | the calls one request makes; `ActuationCallsShape` states them for an actuation |
| StreamOld.ActuationCalls | imager_streamer/src/stream.c:149-158 | the calls of an actuation, the three requests in order; `ActuationCallsShape` states their shape |
| StreamOld.ActuationCallsShape | imager_streamer/src/stream.c:149-158 | an actuation writes gray mode then IR mode, each with the raw requested value and only when the control exists and does not already hold the mapped value, and always ends with the IR-cut ioctl; nothing else |
| StreamOld.Actuate | imager_streamer/src/stream.c:149-158 | one actuation branch extends the call log by exactly `ActuationCalls(register file before, decision)` |
| StreamOld.NightStep | imager_streamer/src/stream.c:149-159 | `night` becomes 0 for day and 1 for night; requests are made exactly when it changes: gray 1, IR mode 2, relay 1 for night; 0, 0, 0 for day |
| StreamOld.ActuationsFollowDecisionChanges | imager_streamer/src/stream.c:149-159 | from `night = 3` the final value is the last decision and three requests are made per change of decision, the first evaluation included |
| StreamOld.Streamer.constructor | imager_streamer/src/stream.c:36-38 | `isp` starts at -1, `night` at 3, `g_exit` false |
| StreamOld.Streamer.CheckIrMode | imager_streamer/src/stream.c:131-160 | `night` becomes `NightStep(old night, decision)`; with no actuation the device is untouched; with one, the call log grows by exactly `ActuationCalls` of the register file before it: the raw ISP writes for controls that exist and differ from the mapped value, then the IR-cut ioctl |
| StreamOld.Streamer.KillStream | imager_streamer/src/stream.c:176-187 | the call log grows by exactly `Teardown(isp, h264, pool, file)`; the global `isp` and `g_exit` are unchanged, because the -1 assignments reach only copies |
| StreamOld.PoolRelease | imager_streamer/src/stream.c:177 | the pool release; `PoolReleaseFacts` states it names no channel |
| StreamOld.DestroyIfLive | imager_streamer/src/stream.c:178-185 | one guarded destroy; stated by `DestroyIfLiveFacts` |
| StreamOld.Teardown | imager_streamer/src/stream.c:176-187 | the call sequence of the old `kill_stream`; what it guarantees is `TeardownCorrect` |
| StreamOld.DestroyIfLiveFacts | imager_streamer/src/stream.c:178-185 | one guarded destroy destroys exactly the live handle and nothing else |
| StreamOld.PoolReleaseFacts | imager_streamer/src/stream.c:177 | releasing the pool names no channel |
| StreamOld.DestroyBothFacts | imager_streamer/src/stream.c:178-185 | the two guarded destroys destroy exactly the live handles among ISP and H.264, in that order |
| StreamOld.TeardownCorrect | imager_streamer/src/stream.c:176-187 | the old teardown destroys exactly the created channels, never disables, stops or unbinds, names no missing channel, starts with the pool iff there is one, and always ends with `fclose` of the file given |
| StreamOld.RelayLoop | imager_streamer/src/stream.c:281-306 | the loop produces the reference trace (every received buffer written and released once) and `number` is the count of buffers handled, modulo 2^32 |
| StreamOld.U32Succ | imager_streamer/src/stream.c:302 | incrementing a `uint32_t` keeps it congruent to the true count |
| StreamOld.RelayThenTeardown | imager_streamer/src/stream.c:281-308 | after the loop, `kill_stream` with the NULL `pfile` extends the log by the old teardown, and the function goes on with `isp` unchanged |
| FrameQueue.Evict | src/rtsp_server/src/AlsaDeviceSource.cpp:206-209 | the eviction loop on values; what it keeps is `EvictKeepsNewest` |
| FrameQueue.Admit | src/rtsp_server/src/AlsaDeviceSource.cpp:206-210 | evict, then append; stated by `AdmitDropsOldest` |
| FrameQueue.AdmitAll | src/rtsp_server/src/AlsaDeviceSource.cpp:182-193 | a run of `queueFrame` calls; stated by `AdmitAllKeepsWindow` |
| FrameQueue.EvictKeepsNewest | src/rtsp_server/src/AlsaDeviceSource.cpp:206-209 | the eviction loop keeps exactly the newest `depth - 1` frames, in their order |
| FrameQueue.AdmitDropsOldest | src/rtsp_server/src/AlsaDeviceSource.cpp:206-210 | after `queueFrame` the queue holds between 1 and `depth` frames, ends with the new one, and keeps the newest of the old ones in front; a queue with room loses nothing |
| FrameQueue.WindowSlides | src/rtsp_server/src/AlsaDeviceSource.cpp:206-210 | one more frame on a full window slides it by one |
| FrameQueue.AdmitAllKeepsWindow | src/rtsp_server/src/AlsaDeviceSource.cpp:204-214 | any run of `queueFrame` calls leaves the newest `depth` frames of everything queued, in order |
| FrameQueue.FifteenIntoDepthTen | src/rtsp_server/src/rtsp_server.cpp:153 | with the server's depth of 10, fifteen frames into an empty queue leave the last ten |
| AlsaSource.Replay | src/rtsp_server/src/AlsaDeviceSource.cpp:10-20 | the counters after a run of `notify` calls; what they mean is `ReplayWindow`, and `Stats.Notify` keeps them equal to it |
| AlsaSource.ReplayWindow | src/rtsp_server/src/AlsaDeviceSource.cpp:10-20 | after any notifications, `m_fps_sec` is the second of the latest one; `m_fps` counts the latest ones in that second after the one that opened it, and `m_size` is the total of their sizes; the opener found a different second; with no opener every notification fell in second 0, the initial value |
| AlsaSource.ReplayOpener | src/rtsp_server/src/AlsaDeviceSource.cpp:13-18 | `m_fps_sec` is the second of the latest notification; the one just before the counted window found a different second, and without one every notification fell in second 0 |
| AlsaSource.Stats.constructor | src/rtsp_server/include/AlsaDeviceSource.h:27 | a new `Stats` has all three counters 0 |
| AlsaSource.Stats.Notify | src/rtsp_server/src/AlsaDeviceSource.cpp:10-20 | in the same second, counts the frame and adds its size; on a new second, restarts both at 0 and records the second; returns the post-reset count (0 on a boundary) and keeps the counters equal to `Replay(history)` |
| AlsaSource.SplitFrames | src/rtsp_server/src/AlsaDeviceSource.cpp:223-229 | at most one piece, and none exactly for a null packet |
| AlsaSource.SplitFramesCovers | src/rtsp_server/src/AlsaDeviceSource.cpp:223-229 | the pieces joined are exactly the packet, and each piece's size is its length |
| AlsaSource.Truncate | src/rtsp_server/src/AlsaDeviceSource.cpp:122-127 | the bytes delivered and cut add up to the frame size, at most `fMaxSize` are delivered, exactly `fMaxSize` when the frame is larger, and bytes are cut iff the frame is larger than `fMaxSize` |
| AlsaSource.AlsaDeviceSource.constructor | src/rtsp_server/src/AlsaDeviceSource.cpp:45-54 | an empty queue, fresh `in` / `out` counters, the given output fd and a queue size fixed at construction |
| AlsaSource.AlsaDeviceSource.QueueFrame | src/rtsp_server/src/AlsaDeviceSource.cpp:204-214 | the queue becomes `Admit(old queue, new frame, m_queueSize)`; the evicted frames are exactly the oldest ones, freed in order; one trigger per call; the invariant (bound, each frame created once and freed at most once, in order) is kept |
| AlsaSource.AlsaDeviceSource.EvictOldest | src/rtsp_server/src/AlsaDeviceSource.cpp:206-209 | one pass of the eviction loop deletes the front frame and moves the freed boundary on by one |
| AlsaSource.AlsaDeviceSource.DeliverFrame | src/rtsp_server/src/AlsaDeviceSource.cpp:101-139 | not awaiting: nothing changes. Awaiting with an empty queue: frame size 0, and `afterGetting` is still called. Otherwise: exactly the front frame is removed and freed, `fFrameSize = min(size, fMaxSize)`, and `fNumTruncatedBytes` is set only when cutting; those bytes are copied into `fTo` and the rest of `fTo` is kept |
| AlsaSource.AlsaDeviceSource.DeliverFront | src/rtsp_server/src/AlsaDeviceSource.cpp:111-134 | the non-empty branch: pops and frees the front, stamps the time, counts it in `m_out`, hands it over cut to `fMaxSize` |
| AlsaSource.AlsaDeviceSource.Hand | src/rtsp_server/src/AlsaDeviceSource.cpp:121-131 | notifies `m_out` with the frame size, sets `fFrameSize` / `fNumTruncatedBytes` as `Truncate` says and copies `fFrameSize` bytes |
| AlsaSource.AlsaDeviceSource.DoGetNextFrame | src/rtsp_server/src/AlsaDeviceSource.cpp:78-87 | with an empty queue, or when the consumer is not waiting, nothing changes; otherwise the front frame is removed and freed, `min(size, fMaxSize)` of its bytes are copied into `fTo` with the rest of `fTo` kept, `fNumTruncatedBytes` is set only when cutting, the presentation time is the clock reading, `m_out` counts it and `afterGetting` is called |
| AlsaSource.AlsaDeviceSource.RequestFrame | src/rtsp_server/src/AlsaDeviceSource.cpp:78-87 | a consumer request with an empty queue stays pending: the buffer is recorded, `fNumTruncatedBytes` and the duration are 0, and nothing else changes; otherwise it takes the front frame at once: `min(size, buffer length)` bytes copied into the buffer with the rest kept, `fNumTruncatedBytes` the bytes cut, the presentation time the clock reading, `m_out` notified and `afterGetting` called |
| AlsaSource.AlsaDeviceSource.ProcessFrame | src/rtsp_server/src/AlsaDeviceSource.cpp:175-194 | each piece becomes a fresh frame stamped with the reference time, queued in order (`AdmitAll`), one trigger each, and is written to `m_out_file` when it is set |
| AlsaSource.AlsaDeviceSource.QueuePiece | src/rtsp_server/src/AlsaDeviceSource.cpp:182-193 | one pass of the `processFrame` loop extends the queue, the frames created, the triggers and the output by that piece |
| AlsaSource.AlsaDeviceSource.AudioCb | src/rtsp_server/src/AlsaDeviceSource.cpp:159-165 | a null or empty buffer changes nothing; otherwise one frame of `len` bytes is admitted to the queue, created, triggered and written out when a file is set |
| RecordAudio.StartStep | src/rtsp_server/src/record_audio.cpp:105-124 | EPERM iff there is no device; EACCES iff already started; success iff open and stopped, and only success changes the flags (both to 1) |
| RecordAudio.StopStep | src/rtsp_server/src/record_audio.cpp:134-150 | EPERM iff there is no device; EACCES iff not started; success iff open and started, and only success changes the flags (both to 0) |
| RecordAudio.StartThenStop | src/rtsp_server/src/record_audio.cpp:98-151 | start then stop on an open, stopped device both succeed and restore the state |
| RecordAudio.RepeatedRequestRefused | src/rtsp_server/src/record_audio.cpp:111-115 | a second start (or stop) is refused with EACCES and changes nothing |
| RecordAudio.RequestsKeepFlagsAgreeing | src/rtsp_server/src/record_audio.cpp:98-151 | under any sequence of starts and stops, `thread_enable` agrees with `started` and the device stays as it was |
| RecordAudio.Bswap16Facts | src/rtsp_server/src/record_audio.cpp:225-228 | swapping a little-endian sample exchanges its bytes, and `bswap_16` applied twice is the identity |
| RecordAudio.SwappedAt | src/rtsp_server/src/record_audio.cpp:226-228 | every sample is swapped exactly once: byte 2k of the result is byte 2k+1 of the input and vice versa |
| RecordAudio.SwappedTwice | src/rtsp_server/src/record_audio.cpp:226-228 | swapping a buffer twice restores it |
| RecordAudio.Swapped | src/rtsp_server/src/record_audio.cpp:225-228 | the byte string with every sample's two bytes exchanged, of the same length; `SwappedAt` and `SwappedTwice` state the rest |
| RecordAudio.ReadReturn | src/rtsp_server/src/record_audio.cpp:213 | `snd_pcm_readi` never returns more than `frame_cnt`, and a positive return has that many samples on offer |
| RecordAudio.Recovery | src/rtsp_server/src/record_audio.cpp:214-222 | a failed read re-prepares the device only on -EPIPE; `ReadStep` states it of the loop |
| RecordAudio.Fill | src/rtsp_server/src/record_audio.cpp:209-232 | the read loop never misses more than it started with, and stores exactly two bytes per sample it no longer misses |
| RecordAudio.FillCompletes | src/rtsp_server/src/record_audio.cpp:212-232 | when every read delivers a sample, `frame_cnt` reads fill the buffer |
| RecordAudio.DeviceWrite | src/rtsp_server/src/record_audio.cpp:213 | the device stores its bytes at `pdata` and leaves the rest of the buffer alone |
| RecordAudio.SwapSamples | src/rtsp_server/src/record_audio.cpp:225-228 | the `bswap_16` loop swaps exactly the `n` samples at `pdata` and nothing else |
| RecordAudio.SwapPair | src/rtsp_server/src/record_audio.cpp:227 | one `bswap_16` exchanges the two bytes of one sample |
| RecordAudio.StoreSamples | src/rtsp_server/src/record_audio.cpp:223-230 | a successful read leaves its samples, byte-swapped, at `pdata` and the rest of the buffer as it was |
| RecordAudio.WriteThenSwap | src/rtsp_server/src/record_audio.cpp:223-228 | writing then swapping in place equals writing the swapped samples |
| RecordAudio.Audio.OpenBuffers | src/rtsp_server/src/record_audio.cpp:74-82 | `codec_pcm_buf_len = PERIOD_SIZE * 2 = 4096`, a fresh buffer of that length, `codec_pcm_data_len = 0` |
| RecordAudio.Audio.Close | src/rtsp_server/src/record_audio.cpp:86-96 | frees the buffer and closes the device, each only if present, and nulls both; on a closed object it changes nothing, so a second call is a no-op |
| RecordAudio.Audio.Start | src/rtsp_server/src/record_audio.cpp:98-125 | the flags and the return code follow `StartStep`; without a device it also closes the object |
| RecordAudio.Audio.Stop | src/rtsp_server/src/record_audio.cpp:127-151 | the flags and the return code follow `StopStep`; without a device it also closes the object |
| RecordAudio.Audio.FillBuffer | src/rtsp_server/src/record_audio.cpp:208-232 | the read loop leaves in the buffer exactly `Swapped` of the bytes `Fill` reads, followed by the untouched rest; it makes `Fill`'s calls (a prepare per overrun) and reports full iff no frame is missing |
| RecordAudio.Audio.ReadInto | src/rtsp_server/src/record_audio.cpp:213-231 | one pass: the stored prefix grows by the read's swapped samples, and `pdata` / `frame_cnt` advance by them |
| RecordAudio.Audio.ReadStep | src/rtsp_server/src/record_audio.cpp:213-231 | a failed read changes the buffer not at all and re-prepares only on -EPIPE; a successful one stores its samples swapped at `pdata` |
| RecordAudio.Audio.HandOver | src/rtsp_server/src/record_audio.cpp:233-237 | the filled buffer is passed whole to `cb` when set and, as one frame of `codec_pcm_buf_len` bytes stamped with the cycle's time, to the audio source when set: admitted to its queue, created, one trigger, written to `m_out_file` when that is set |
| RecordAudio.Audio.CaptureCycle | src/rtsp_server/src/record_audio.cpp:202-237 | a failed clock read skips the cycle; otherwise the buffer holds `Swapped` of the bytes `Fill` reads followed by the untouched rest; a full buffer goes whole to `cb` when set and, as one frame of `codec_pcm_buf_len` bytes, to the audio source when set (admitted to its queue, created, one trigger, written to `m_out_file` when that is set), and no other field of the source changes; a buffer not filled goes nowhere |

## Left out

- Threads, mutexes and condition variables are left out: each locked region is one atomic method. Also left out are the `ir_ctrl_thread` loop, the thread pool, `audio_thread`'s outer enable/wait loop (`record_audio.cpp:185-200`) and `audio_create_thread` / `audio_destroy_thread`.
- Timing is left out: `sleep` / `usleep` cadences, the `gettimeofday` / `timersub` differences and the presentation-time arithmetic. The clock is an input.
- Logging (`zlog`) is left out.
- OS and device I/O carries no logic and is left out: the open/close around the IR-cut ioctl, V4L2, mkfifo/fopen of the sink, `fflush` itself (only whether it happens), ALSA hw-params negotiation in `audio_open`, `snd_validate_cmd` and `snd_pcm_drop`.
- Configuration parsing (`parse_ini`), `main`, the channel set-up in `start_stream` and the live555 wiring in `rtsp_server.cpp` are left out, except the queue depth of 10.
- `RecordAudio.Audio.OpenBuffers`: a failed `memalign` exits the process and is not modelled, and neither is `snd_pcm_open` failing.
- `RecordAudio.Audio.Start`, `RecordAudio.Audio.Stop`: the object must be non-null. The null path would call `audio_close(nullptr)`, which dereferences it, before returning EINVAL.
- `RecordAudio.Audio.FillBuffer`: the device reads are a finite script, so the loop also stops when they run out, reporting the buffer not full. The real loop only ever ends full.
- `StreamNew.Streamer.CheckIrMode`, `StreamOld.Streamer.CheckIrMode`: the register file after an actuation is not stated, only the calls made; each write's effect on it is stated by `ChangeIspSetting`.
- `StreamNew.IsValidValue`: a zero step for an in-range value is excluded (`StepDefinedFor`), because C would divide by zero there. `StreamOld.GetValidValue` excludes a zero step entirely, because its `%` is always evaluated.
- `AlsaSource.AlsaDeviceSource.QueueFrame`: a queue size of 0 is excluded. The eviction loop would pop an empty list, which is undefined behaviour.
- Integer widths: the `Stats` counters, `Frame::m_size`, the `size_t` to `int` casts and the signed ADC sums are unbounded integers. Overflow is not modelled, except the `uint32_t` luminance, the `uint32_t` frame counter and the unsigned cutoff comparison.
- `AlsaDeviceSource::getNextFrame` (returns 0), `thread()` (returns NULL), `createNew`, `doStopGettingFrames` and the destructor are left out. They carry no logic of this source; `RequestFrame` models the live555 request that reaches `doGetNextFrame`.
- The `Frame` copy constructor and assignment are declared but never defined.
- `new[]` versus `delete` is modelled only as each frame freed once.
- `m_in` is never notified by the source, so the model keeps it only as a counter that stays valid.
- The `RTS_SAFE_RELEASE` macro's definition is not part of this model. It is read as "release when non-NULL".
- The `pfile` release after the old `kill_stream` is not modelled.
- Commented-out audio channel code in `src/stream.c` is left out.
