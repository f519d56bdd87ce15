# Motion-triggered Raspberry Pi camera recorders, modelled in Dafny

The repository contains five small camera scripts. Each one polls the
camera about every 0.1 s, compares the frame with the previous one, and
starts or stops a video recording. Two of them also switch an infrared LED
on a fixed evening-to-morning schedule. This project models the decision
logic of each script and proves its properties:

- the motion detectors;
- the recording state machines;
- the LED schedule.

Layout:

- `common.dfy` (`Common`): the shared values.
  - `uint8` pixels and RGB frames.
  - Python's `None`-able globals, as `Option`.
  - The log of effects a tick has: `StartRec`, `StopRec`, `SetLed(level)`
    and `Transcode(h264, mp4)`.
  - The predicate `Alternating`: the encoder calls of a log are start,
    stop, start, … and the last one is a start exactly while recording.
- `detectors.dfy` (`Detectors`): the three frame-difference detectors.
  - mwc-capturer's binary-threshold count.
  - The mean-absolute-difference detector used by new-serv, gpt-fix and
    capturer.
  - ds-fix's detector on `uint8` gray, with 8-bit wrap-around.
- `schedule.dfy` (`Schedule`): the IR LED level for an hour.
- `mwc_capturer.dfy`, `new_serv.dfy`, `gpt_fix.dfy`, `capturer.dfy`,
  `ds_fix.dfy`: one module per script. Each has:
  - a value `State` holding the script's globals;
  - a pure `Step` for one pass of the main loop, which serves as the
    specification;
  - lemmas about `Step`;
  - a `class Controller` with the globals as fields. Its methods update
    the fields in place and append to a ghost action log. Each method's
    postcondition ties the new fields and log to the pure function it
    implements, applied to the old state:
    - `Tick` to `Step`, and it also keeps the class invariant `Valid()`.
      That is `Inv` and `Alternating`, or `Alternating` alone for ds-fix,
      which has no `Inv`;
    - `StartRecording` and `StopRecording` to `AfterStart` and `AfterStop`
      (gpt-fix, capturer);
    - `RelayOnTimeBetween` to `Schedule.LedLevel`;
    - the ds-fix `DetectMotion` to `Detect`;
    - `Shutdown` to the script's `finally` block (new-serv has none).
      - In gpt-fix, capturer and ds-fix the log is closed afterwards:
        every start has its stop. The ds-fix `Shutdown` leaves the
        `recording` flag as it was, as the script does, so the class
        invariant is not re-established there.
      - The mwc-capturer `Shutdown` only resets the flags and issues no
        stop, so a recording in progress leaves its start unmatched in
        the log.

Frames and clocks are integers:

- Timestamps are whole seconds.
- A channel-mean gray level is kept as the channel sum, which is three
  times the float mean.
- Every test `mean > threshold` is multiplied through by the pixel count,
  and by 3 where gray is a channel mean. So `>` and `>=` are kept exactly
  as written.
- An empty frame makes numpy compute `0/0`, which is nan, and nan compares
  false. The integer test gives `0 > 0`, which is also false.

## Model

| member | source | states |
|---|---|---|
| Detectors.BinaryThreshold | mwc-capturer.py:31 | `cv2.threshold(diff, 25, 255, THRESH_BINARY)`: an entry strictly above the threshold becomes 255, any other entry 0. The image has the same size as the difference; its sum is given by `BinaryThresholdSum`. |
| Detectors.MwcDetect | mwc-capturer.py:28-35 | `detect_motion` on 8-bit gray frames: the thresholded absolute difference sums to more than `motion_threshold` (1) times the pixel count. `MwcDetectByCount` gives the equivalent count form. |
| Detectors.MeanAbsDiffExceeds | new-serv.py:26-29 | `detect_motion` of new-serv, gpt-fix (gpt-fix.py:20-23) and capturer (capturer.py:18-21): on channel-mean gray frames, the sum of absolute differences exceeds the threshold times the pixel count. Gray is kept as the channel sum, so both sides carry a factor 3. `MeanAbsDiffUniformShift` shows it compares the mean change with the threshold. |
| Detectors.Gray8 | ds-fix.py:19 | `np.mean(frame, axis=2).astype(np.uint8)`: per pixel, the channel mean with the fraction dropped. The frame size is kept; `Gray8IsFloorOfMean` states the floor. |
| Detectors.WrapDiff | ds-fix.py:26 | `np.abs(gray - prev)` on `uint8` arrays: per pixel, the difference modulo 256. The frame size is kept; `WrapDiffAt` states both cases. |
| Detectors.WrapMeanExceeds | ds-fix.py:30 | `np.mean(frame_diff) > 20`, multiplied through by the pixel count: the wrapped differences sum to more than the threshold times the size. |
| Detectors.BinaryThresholdSum | mwc-capturer.py:31-32 | The thresholded difference image sums to 255 times the number of pixels whose difference is strictly above 25. |
| Detectors.MwcDetectByCount | mwc-capturer.py:28-35 | Motion is reported iff 255 times the number of pixels that changed by more than 25 exceeds `motion_threshold` (1) times the pixel count. |
| Detectors.MwcSmallChangesAreStill | mwc-capturer.py:30-33 | A change of 25 or less contributes nothing: frames whose every pixel changed by at most 25 never report motion. |
| Detectors.MwcIdenticalFramesAreStill | mwc-capturer.py:30-33 | Identical frames never report motion. |
| Detectors.MwcSymmetric | mwc-capturer.py:30 | `absdiff` is symmetric, so swapping the frames gives the same decision. |
| Detectors.MeanAbsDiffUniformShift | new-serv.py:26-29 | If every pixel's mean gray level moves by the same k, motion is reported iff abs(k) exceeds the threshold: the mean absolute difference is compared strictly with the threshold. |
| Detectors.MeanAbsDiffIdenticalFramesAreStill | gpt-fix.py:20-23 | With a non-negative threshold, identical frames never report motion. |
| Detectors.MeanAbsDiffSymmetric | capturer.py:18-21 | Swapping the two frames does not change the decision. |
| Detectors.Gray8IsFloorOfMean | ds-fix.py:19 | Each gray pixel is the floor of its channel mean. |
| Detectors.WrapDiffAt | ds-fix.py:26 | The `uint8` difference is the true difference when the pixel did not get darker, and 256 minus the change when it did. |
| Detectors.WrapDarkeningByOneIsMotion | ds-fix.py:26-30 | A whole frame getting one level darker counts as motion, because each pixel contributes 255. |
| Detectors.WrapBrighteningByOneIsStill | ds-fix.py:26-30 | A whole frame getting one level brighter is not motion. |
| Detectors.WrapIdenticalFramesAreStill | ds-fix.py:26-30 | An unchanged gray frame never reports motion. |
| Schedule.LedLevel | mwc-capturer.py:64-68 | The level `relay_on_time_between` writes (also new-serv.py:55) is always 0 (LED on) or 1 (off). `LedFollowsClockWindow` states which hours give which level. |
| Schedule.LedFollowsClockWindow | mwc-capturer.py:59-69 | For each hour 0..23, the level written is 0 (LED on) iff the hour lies in the wrapping clock window 17..5, and 1 iff it does not. |
| Schedule.BoundaryHours | new-serv.py:49-55 | Hours 5, 17, 18 and 0 are on; hours 6, 16 and 10 are off. |
| MwcCapturer.Step | mwc-capturer.py:73-106 | One capture preserves the invariant: recording implies a last motion time, and holding no reference implies neither. The frame keeps the camera's resolution. |
| MwcCapturer.ScheduleWrittenFirst | mwc-capturer.py:84-90 | Every capture writes the scheduled LED level before anything else. |
| MwcCapturer.MotionFrame | mwc-capturer.py:92-95 | A motion frame leaves the script recording with last motion time = now. It issues a start iff nothing was being recorded, and never a stop. |
| MwcCapturer.StopOnlyAfterStrictTimeout | mwc-capturer.py:96-98 | A stop is issued iff a compared frame shows no motion while recording with a truthy last motion time more than 5 s old. |
| MwcCapturer.StartOnlyOnMotion | mwc-capturer.py:92-95 | A start is issued iff the frame is compared, shows motion, and nothing is being recorded. |
| MwcCapturer.StillFrameKeepsState | mwc-capturer.py:96-100 | A compared frame that shows no motion and does not time out changes only the reference: `recording` and `last_motion_time` stay as they were, and the encoder is not called. |
| MwcCapturer.PassReplacesReference | mwc-capturer.py:96-100 | A capture becomes the reference for the next one iff it does not stop the recording. |
| MwcCapturer.FiveSecondsIsNotATimeout | mwc-capturer.py:97 | Exactly 5 s after the last motion the recording continues. |
| MwcCapturer.StopResets | mwc-capturer.py:98-105 | After a stop, recording is false and the last motion time is None. The next capture becomes the new reference, with no comparison and no encoder call. |
| MwcCapturer.StepAlternates | mwc-capturer.py:92-98 | Starts and stops alternate, beginning with a start, and the log ends in a start iff recording. |
| MwcCapturer.Controller.constructor | mwc-capturer.py:14-15 | The globals start out not recording, with no last motion time and no reference. |
| MwcCapturer.Controller.RelayOnTimeBetween | mwc-capturer.py:59-69 | Writes exactly the scheduled LED level for the hour. |
| MwcCapturer.Controller.StartRecording | mwc-capturer.py:38-44 | Issues one start and sets recording. |
| MwcCapturer.Controller.StopRecording | mwc-capturer.py:46-51 | Issues one stop, clears recording and clears the last motion time. |
| MwcCapturer.Controller.Tick | mwc-capturer.py:74-101 | The in-place loop body, including the break and the outer loop's reference capture, produces exactly the state and log of `Step` and keeps the invariant and alternation. |
| MwcCapturer.Controller.Shutdown | mwc-capturer.py:111-117 | The `finally` block resets both flags and issues no encoder call. |
| NewServ.Initial | new-serv.py:60-62 | Before the loop the script is not recording, has no last motion time, and holds the first capture as the reference. |
| NewServ.Step | new-serv.py:64-82 | A tick keeps the invariant (recording implies a last motion time), and the current frame becomes the reference. |
| NewServ.MotionTick | new-serv.py:70-74 | A motion tick leaves the script recording with last motion time = now, and issues exactly one start iff nothing was being recorded. |
| NewServ.StillTick | new-serv.py:75-78 | A tick without motion stops iff recording and more than 5 s have passed since the last motion. The stop clears recording and keeps the last motion time. |
| NewServ.ScheduleWrittenLast | new-serv.py:80 | The LED level is the last effect of every tick, after the recording decision. |
| NewServ.NoRecordingOutlivesTimeout | new-serv.py:69-78 | A recording still open after any tick saw motion at most 5 s before that tick. |
| NewServ.StepAlternates | new-serv.py:70-78 | Starts and stops alternate over one tick, as defined by `Alternating`. |
| NewServ.Run | new-serv.py:63-82 | A sequence of ticks keeps the invariant and the frame size. |
| NewServ.RunSnoc | new-serv.py:64-82 | Running one more tick is one more `Step` applied to the run so far. |
| NewServ.RunAlternates | new-serv.py:64-82 | Starts and stops alternate over a whole run of ticks. |
| NewServ.PixelMotion | new-serv.py:26-29 | On one-pixel gray frames, motion means the level changed by more than 8. |
| NewServ.ExampleRun | new-serv.py:64-82 | With new-serv's threshold of 8 and timeout of 5 s, for ticks 1 s apart with mean differences 2, 15, 15, 3, 3, 3, 3, 3, 3: recording starts at tick 2, is still open at tick 8 with last motion 3, and stops at tick 9. The run's encoder calls are exactly one start and one stop. |
| NewServ.Controller.constructor | new-serv.py:60-62 | The globals start from `Initial` of the first capture. |
| NewServ.Controller.RelayOnTimeBetween | new-serv.py:49-55 | Writes exactly the scheduled LED level for the hour. |
| NewServ.Controller.Tick | new-serv.py:66-81 | The in-place loop body produces exactly the state and log of `Step` and keeps the invariant and alternation. |
| GptFix.Initial | gpt-fix.py:51-52 | Before the loop the script is not recording, has no start time and no file name, and holds the first capture as the reference. |
| GptFix.H264Name | gpt-fix.py:30 | The recording's file name `motion_<stamp>.h264`. |
| GptFix.Replace | gpt-fix.py:44 | Python's `str.replace`: every non-overlapping occurrence of the pattern, scanning from the left, is replaced. `ReplaceOnlySuffix` states its effect on a recording's file name. |
| GptFix.Mp4Name | gpt-fix.py:44 | `video_filename.replace(".h264", ".mp4")`. `ConvertedName` states the result for a recording's file name. |
| GptFix.ReplaceOnlySuffix | gpt-fix.py:44 | `str.replace(".h264", ".mp4")` on a dot-free name followed by `.h264` changes just that suffix. |
| GptFix.ConvertedName | gpt-fix.py:30-44 | For a `YYYYmmdd_HHMMSS` stamp, the converted name of `motion_<stamp>.h264` is `motion_<stamp>.mp4`. |
| GptFix.AfterStart | gpt-fix.py:25-30 | `start_recording` sets recording, start time = now and file name `motion_<stamp>.h264`, and issues one start. |
| GptFix.AfterStop | gpt-fix.py:35-49 | `stop_recording` does nothing when not recording. Otherwise it clears recording and issues a stop, then a transcode of the file to its `.mp4` name. The start time, the file name and the reference are never changed. |
| GptFix.Step | gpt-fix.py:56-65 | A tick keeps the invariant (recording implies start time and file name), and the current frame becomes the reference. |
| GptFix.MotionWhileRecording | gpt-fix.py:59-61 | A motion tick while recording changes nothing but the reference: no start, and the start time is unchanged. |
| GptFix.StopOnlyOnStillTicks | gpt-fix.py:59-63 | A stop happens iff the tick shows no motion, the script is recording, and at least 180 s (non-strict) have passed since the start. A start happens iff there is motion while idle. |
| GptFix.QuietTickKeepsSession | gpt-fix.py:58-64 | A tick with no start and no stop changes only the reference: `recording`, `recording_start_time` and `video_filename` stay as they were. |
| GptFix.StopIdempotent | gpt-fix.py:38 | A second `stop_recording` does nothing, and a single call issues at most one stop. |
| GptFix.StepAlternates | gpt-fix.py:59-63 | Starts and stops alternate over one tick. |
| GptFix.ShutdownClosesSession | gpt-fix.py:71-72 | After the unconditional `finally` stop, nothing is recording and every start has its stop. |
| GptFix.Run | gpt-fix.py:55-66 | A sequence of ticks keeps the invariant and the frame size, and afterwards the reference is the last frame captured. |
| GptFix.ContinuousMotionNeverStops | gpt-fix.py:59-63 | With motion on every tick, a recording never stops, however long past 180 s it goes. The start time stays the same and no encoder call is made. |
| GptFix.Controller.constructor | gpt-fix.py:51-52 | The globals start from `Initial` of the first capture. |
| GptFix.Controller.StartRecording | gpt-fix.py:25-33 | In place: exactly the state and log of `AfterStart`. |
| GptFix.Controller.StopRecording | gpt-fix.py:35-49 | In place: exactly the state and log of `AfterStop`. |
| GptFix.Controller.Tick | gpt-fix.py:57-65 | The in-place loop body produces exactly the state and log of `Step` and keeps the invariant and alternation. |
| GptFix.Controller.Shutdown | gpt-fix.py:71-72 | The `finally` stop leaves nothing recording and the log alternating and closed. |
| Capturer.Initial | capturer.py:40-43 | Before the loop the script is not recording, has no start time, and holds the first capture as the reference. |
| Capturer.AfterStart | capturer.py:23-30 | `start_recording` sets recording and start time = now, and issues one start. |
| Capturer.AfterStop | capturer.py:32-38 | `stop_recording` issues a stop iff recording, and leaves recording false. |
| Capturer.Step | capturer.py:47-58 | A tick keeps the invariant (recording implies a start time), and the current frame becomes the reference. |
| Capturer.MotionWhileRecording | capturer.py:52-54 | A motion tick while recording causes no start and leaves the start time unchanged. |
| Capturer.StartStopConditions | capturer.py:52-56 | A start happens iff there is motion while idle. A stop happens iff there is no motion while recording and at least 180 s have passed since the start. Recording afterwards iff it was recording or saw motion, and did not stop. |
| Capturer.QuietTickKeepsSession | capturer.py:52-58 | A tick with no start and no stop changes only the reference: `recording` and `recording_start_time` stay as they were. |
| Capturer.StopAtExactlyDuration | capturer.py:55 | A still tick exactly 180 s after the start stops the recording; one at 179 s does not. |
| Capturer.StopIdempotent | capturer.py:35 | A second `stop_recording` does nothing. |
| Capturer.StepAlternates | capturer.py:52-56 | Starts and stops alternate over one tick. |
| Capturer.ShutdownClosesSession | capturer.py:64-65 | After the `finally` stop, every start has its stop and nothing is recording. |
| Capturer.Controller.constructor | capturer.py:40-43 | The globals start from `Initial` of the first capture. |
| Capturer.Controller.StartRecording | capturer.py:23-30 | In place: exactly the state and log of `AfterStart`. |
| Capturer.Controller.StopRecording | capturer.py:32-38 | In place: exactly the state and log of `AfterStop`. |
| Capturer.Controller.Tick | capturer.py:47-58 | The in-place loop body produces exactly the state and log of `Step` and keeps the invariant and alternation. |
| Capturer.Controller.Shutdown | capturer.py:64-65 | The `finally` stop leaves nothing recording and the log alternating and closed. |
| DsFix.Initial | ds-fix.py:33-35 | At start-up the last motion time is the program's start time, nothing is recording, and the detector holds no frame. |
| DsFix.Detect | ds-fix.py:17-31 | The first call stores the gray frame and reports no motion. Every later call reports the wrap-around mean test against the stored frame. Every call then stores the current gray frame. |
| DsFix.Step | ds-fix.py:41-57 | After a tick the detector holds the current gray frame. |
| DsFix.FirstTickSeeds | ds-fix.py:22-24 | The first tick only stores the reference: no motion, no encoder call, and the last motion time is still the start time. |
| DsFix.MotionTick | ds-fix.py:46-51 | A motion tick sets the last motion time to now and leaves the script recording. It issues a start iff it was idle, and never a stop. |
| DsFix.StopCondition | ds-fix.py:46-57 | The stop check runs on every tick: a stop happens iff there is no motion, the script is recording, and the last motion is more than 30 s old (strict). The last motion time moves to now iff there is motion. |
| DsFix.StartCondition | ds-fix.py:46-57 | A start happens iff there is motion while idle. The script records after the tick iff it was recording or saw motion, and did not stop. |
| DsFix.NoRecordingOutlivesTimeout | ds-fix.py:46-57 | A recording still open after any tick saw motion at most 30 s before. |
| DsFix.StepAlternates | ds-fix.py:46-57 | Starts and stops alternate over one tick. |
| DsFix.ShutdownActions | ds-fix.py:65-67 | The `finally` block issues a stop iff recording, and nothing otherwise. |
| DsFix.ShutdownClosesSession | ds-fix.py:65-67 | After the `finally` block, every start has its stop. |
| DsFix.Controller.constructor | ds-fix.py:33-35 | The globals start from `Initial` of the start time. |
| DsFix.Controller.DetectMotion | ds-fix.py:17-31 | In place on the detector's stored frame: exactly the decision and stored frame of `Detect`. |
| DsFix.Controller.Tick | ds-fix.py:41-57 | The in-place loop body produces exactly the state and log of `Step` and keeps alternation. |
| DsFix.Controller.Shutdown | ds-fix.py:65-67 | Appends exactly `ShutdownActions` to the log, leaving it closed. |

## Left out

- Camera handling is hardware I/O. This covers construction, configuration, preview, start, stop, close and capture. Frames and capture times arrive as `Tick` inputs.
- The H.264 encoder, the ffmpeg output and the picamera `start_recording`/`stop_recording` calls are modelled only as `StartRec`/`StopRec` log entries. So is the choice of output file. mwc-capturer and new-serv name a new `motion_<stamp>.mp4` in the output folder for each recording (mwc-capturer.py:40, new-serv.py:33). capturer names a new `motion_<stamp>.h264` (capturer.py:28). ds-fix records every session into the one `output.mp4` (ds-fix.py:14).
- The ffmpeg call of gpt-fix is one `Transcode(h264, mp4)` log entry. The `rm` of the `.h264` file and the creation of the output folder are filesystem I/O and are not modelled.
- GptFix: both `subprocess.run` calls pass `check=True` (gpt-fix.py:45, 49). A failing ffmpeg or `rm` raises, and the program ends through its `finally` block. The model treats both calls as always succeeding and keeps ticking.
- gpiod chip and line acquisition and release are left out. LED writes are logged levels.
- Timestamp formatting is left out. `datetime.now().strftime(...)` is a string parameter of the gpt-fix tick. The file-name lemma assumes the `YYYYmmdd_HHMMSS` shape.
- `cv2.cvtColor` and `cv2.GaussianBlur` are left out. The mwc-capturer detector takes the already reduced 8-bit gray frame; RGB-to-gray weighting and convolution are floating-point image processing.
- All other floating-point arithmetic is replaced by integers, as described above. Sub-second timestamps are therefore not modelled.
- Within one tick every reading of `time.time()` is the same `now`. The scripts read the clock several times per tick, microseconds apart. For example, ds-fix reads the clock for the motion time (ds-fix.py:47) and again for the stop check (ds-fix.py:54).
- `time.sleep`, `print` and `KeyboardInterrupt` handling are timing and console I/O. Only the state effect of each `finally` block is kept.
- dimmer.py is a fixed blink test with no decision logic. It only confirms the active-low convention used by `Schedule`: level 0 lights the LED.
- new-serv's `finally` block only releases hardware, so `NewServ` has no shutdown member.
- mwc-capturer's `finally` resets the flags without calling `stop_recording`, so a recording in progress gets no stop. `MwcCapturer.Controller.Shutdown` models exactly that, and the alternation invariant is not claimed to be closed there.
- NewServ: new-serv.py:62 reads the name `frame` before it is defined, so the script as written fails before its loop. The model seeds the reference from the capture on line 61.
- Some behaviour a reader might not expect. The model follows the code:
  - The stop check of mwc-capturer and new-serv runs only on ticks without motion, not on every tick.
  - new-serv writes the LED after the recording decision, not before it.
  - No camera script forces the LED off or handles encoder failures on shutdown.
  - Thresholds, timeouts and the 17–5 schedule are fixed constants, not configuration.
- Frames are RGB with exactly three channels. The factor 3 in `Detectors.MeanAbsDiffExceeds` and `Detectors.Gray8` depends on that. gpt-fix (gpt-fix.py:16) and capturer (capturer.py:42) ask for a three-channel format. new-serv (new-serv.py:18-19) and ds-fix (ds-fix.py:9) set no pixel format, so the model assumes their frames have three channels too.
- Encoder start or stop failures are left out. None of the scripts handles an exception there; one would end the program through the `finally` block.
