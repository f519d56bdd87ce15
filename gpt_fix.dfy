/** gpt-fix.py: a fixed-duration recorder. Motion starts a recording named
    after the wall-clock time; a stop is considered only on ticks without
    motion (the check sits under an `elif`) and fires once 180 s have passed
    since the start. Stopping converts the `.h264` file to `.mp4`; the
    `finally` block stops unconditionally, which is harmless because
    `stop_recording` does nothing when nothing is being recorded. */
module GptFix {
  import opened Common
  import Detectors

  /** `motion_threshold = 10`. */
  const MotionThreshold := 10
  /** `recording_duration = 180`. */
  const RecordingDuration := 180

  datatype State = State(
    recording: bool,
    recordingStartTime: Option<int>,
    videoFilename: Option<string>,
    prevFrame: seq<Rgb>)

  /** One tick: the captured RGB frame, `time.time()` and the
      `%Y%m%d_%H%M%S` rendering of `datetime.now()`. */
  datatype Input = Input(frame: seq<Rgb>, now: int, stamp: string)

  /** The globals when the loop is entered, with the first capture as the
      reference. */
  function Initial(first: seq<Rgb>): (s: State)
    ensures !s.recording && s.recordingStartTime.None? && s.videoFilename.None?
    ensures s.prevFrame == first
  {
    State(false, None, None, first)
  }

  /** While recording, the start time and the file name are set. */
  predicate Inv(s: State)
  {
    s.recording ==> s.recordingStartTime.Some? && s.videoFilename.Some?
  }

  // ---------------------------------------------------------------------
  // File names

  /** `motion_<stamp>.h264`. */
  function H264Name(stamp: string): (name: string)
  {
    "motion_" + stamp + ".h264"
  }

  /** Python's `s.replace(pat, rep)`: every non-overlapping occurrence of
      `pat`, scanning from the left, is replaced. */
  function Replace(s: string, pat: string, rep: string): (t: string)
    requires |pat| > 0
    decreases |s|
  {
    if |s| < |pat| then s
    else if s[..|pat|] == pat then rep + Replace(s[|pat|..], pat, rep)
    else [s[0]] + Replace(s[1..], pat, rep)
  }

  /** `video_filename.replace(".h264", ".mp4")`. */
  function Mp4Name(h264: string): (mp4: string)
  {
    Replace(h264, ".h264", ".mp4")
  }

  predicate IsDigit(c: char)
  {
    '0' <= c <= '9'
  }

  /** The shape `YYYYmmdd_HHMMSS` that `strftime('%Y%m%d_%H%M%S')` gives
      for a four-digit year. */
  predicate IsTimestamp(stamp: string)
  {
    |stamp| == 15 && stamp[8] == '_'
    && forall k :: 0 <= k < 15 && k != 8 ==> IsDigit(stamp[k])
  }

  /** A prefix without a dot is left alone, and the `.h264` after it
      becomes `.mp4`. */
  lemma {:induction false} ReplaceOnlySuffix(p: string)
    requires '.' !in p
    ensures Replace(p + ".h264", ".h264", ".mp4") == p + ".mp4"
    decreases |p|
  {
    var s := p + ".h264";
    if p == [] {
      assert s[..5] == ".h264" && s[5..] == [];
    } else {
      assert s[0] == p[0] && p[0] != '.';
      assert s[..5] != ".h264";
      assert s[1..] == p[1..] + ".h264";
      ReplaceOnlySuffix(p[1..]);
    }
  }

  /** The converted name is the recorded name with `.h264` exchanged for
      `.mp4`, and nothing else changed. */
  lemma ConvertedName(stamp: string)
    requires IsTimestamp(stamp)
    ensures Mp4Name(H264Name(stamp)) == "motion_" + stamp + ".mp4"
  {
    var p := "motion_" + stamp;
    forall k | 0 <= k < |p|
      ensures p[k] != '.'
    {
      if k >= 7 {
        assert p[k] == stamp[k - 7];
      }
    }
    assert H264Name(stamp) == p + ".h264";
    ReplaceOnlySuffix(p);
  }

  // ---------------------------------------------------------------------
  // Recording lifecycle

  /** `start_recording()`. */
  function AfterStart(s: State, now: int, stamp: string): (r: Outcome<State>)
    ensures Inv(r.state) && r.state.recording && r.actions == [StartRec]
    ensures r.state.recordingStartTime == Some(now)
    ensures r.state.videoFilename == Some(H264Name(stamp))
    ensures r.state.prevFrame == s.prevFrame
  {
    Outcome(s.(recording := true, recordingStartTime := Some(now), videoFilename := Some(H264Name(stamp))), [StartRec])
  }

  /** `stop_recording()`: when recording, stop the encoder and transcode the
      file; otherwise nothing at all. */
  function AfterStop(s: State): (r: Outcome<State>)
    requires Inv(s)
    ensures Inv(r.state) && !r.state.recording
    ensures r.state.recordingStartTime == s.recordingStartTime && r.state.prevFrame == s.prevFrame
    ensures r.state.videoFilename == s.videoFilename
    ensures !s.recording ==> r == Outcome(s, [])
    ensures s.recording ==> r.actions == [StopRec, Transcode(s.videoFilename.value, Mp4Name(s.videoFilename.value))]
  {
    if s.recording then
      var f := s.videoFilename.value;
      Outcome(s.(recording := false), [StopRec, Transcode(f, Mp4Name(f))])
    else
      Outcome(s, [])
  }

  predicate Motion(s: State, frame: seq<Rgb>)
    requires |frame| == |s.prevFrame|
  {
    Detectors.MeanAbsDiffExceeds(s.prevFrame, frame, MotionThreshold)
  }

  /** One pass of the main loop. */
  function Step(s: State, i: Input): (r: Outcome<State>)
    requires Inv(s) && |i.frame| == |s.prevFrame|
    ensures Inv(r.state) && r.state.prevFrame == i.frame
  {
    var o :=
      if Motion(s, i.frame) then
        (if !s.recording then AfterStart(s, i.now, i.stamp) else Outcome(s, []))
      else if s.recording && i.now - s.recordingStartTime.value >= RecordingDuration then
        AfterStop(s)
      else
        Outcome(s, []);
    Outcome(o.state.(prevFrame := i.frame), o.actions)
  }

  /** A motion tick while recording changes nothing but the reference. */
  lemma MotionWhileRecording(s: State, i: Input)
    requires Inv(s) && |i.frame| == |s.prevFrame| && s.recording && Motion(s, i.frame)
    ensures Step(s, i) == Outcome(s.(prevFrame := i.frame), [])
  {
  }

  /** A stop happens exactly on a tick without motion while recording, once
      at least 180 s have passed since the start (non-strict: exactly 180 s
      stops). */
  lemma StopOnlyOnStillTicks(s: State, i: Input)
    requires Inv(s) && |i.frame| == |s.prevFrame|
    ensures StopRec in Step(s, i).actions
        <==> !Motion(s, i.frame) && s.recording && i.now - s.recordingStartTime.value >= RecordingDuration
    ensures StartRec in Step(s, i).actions <==> Motion(s, i.frame) && !s.recording
  {
  }

  /** A tick that neither starts nor stops changes nothing but the
      reference: recording flag, start time and file name stay as they
      were. */
  lemma QuietTickKeepsSession(s: State, i: Input)
    requires Inv(s) && |i.frame| == |s.prevFrame| && Step(s, i).actions == []
    ensures Step(s, i).state == s.(prevFrame := i.frame)
  {
  }

  /** `stop_recording` is idempotent: a second call does nothing, and a call
      issues at most one stop. */
  lemma StopIdempotent(s: State)
    requires Inv(s)
    ensures AfterStop(AfterStop(s).state) == Outcome(AfterStop(s).state, [])
    ensures |RecordingActions(AfterStop(s).actions)| <= 1
  {
    var a := AfterStop(s).actions;
    if s.recording {
      assert a == [StopRec] + [a[1]];
      RecordingActionsAppend([StopRec], [a[1]]);
    }
  }

  lemma StepAlternates(s: State, i: Input, log: seq<Action>)
    requires Inv(s) && |i.frame| == |s.prevFrame| && Alternating(log, s.recording)
    ensures Alternating(log + Step(s, i).actions, Step(s, i).state.recording)
  {
    var r := Step(s, i);
    if r.actions != [] && r.actions != [StartRec] {
      assert r.actions == [StopRec] + [r.actions[1]];
      RecordingActionsAppend([StopRec], [r.actions[1]]);
    }
    AlternatingExtend(log, s.recording, r.actions, r.state.recording);
  }

  /** The `finally` block calls `stop_recording()` unconditionally; after it
      every started recording has been stopped. */
  lemma ShutdownClosesSession(s: State, log: seq<Action>)
    requires Inv(s) && Alternating(log, s.recording)
    ensures Alternating(log + AfterStop(s).actions, false)
  {
    var a := AfterStop(s).actions;
    if s.recording {
      assert a == [StopRec] + [a[1]];
      RecordingActionsAppend([StopRec], [a[1]]);
    }
    AlternatingExtend(log, s.recording, a, false);
  }

  /** Every frame of a run has the resolution `n`. */
  predicate FramesOfSize(inputs: seq<Input>, n: nat)
  {
    forall k :: 0 <= k < |inputs| ==> |inputs[k].frame| == n
  }

  /** A sequence of ticks. The reference held afterwards is the last frame
      captured. */
  function Run(s: State, inputs: seq<Input>): (r: Outcome<State>)
    requires Inv(s) && FramesOfSize(inputs, |s.prevFrame|)
    ensures Inv(r.state) && |r.state.prevFrame| == |s.prevFrame|
    ensures inputs != [] ==> r.state.prevFrame == inputs[|inputs| - 1].frame
    decreases |inputs|
  {
    if inputs == [] then Outcome(s, [])
    else
      var o := Step(s, inputs[0]);
      var rest := Run(o.state, inputs[1..]);
      Outcome(rest.state, o.actions + rest.actions)
  }

  /** Every frame of the run shows motion against the one before it. */
  predicate MotionThroughout(prev: seq<Rgb>, inputs: seq<Input>)
    requires FramesOfSize(inputs, |prev|)
    decreases |inputs|
  {
    inputs == []
    || (Detectors.MeanAbsDiffExceeds(prev, inputs[0].frame, MotionThreshold)
        && MotionThroughout(inputs[0].frame, inputs[1..]))
  }

  /** With motion on every tick a recording is never stopped, however long
      it runs past 180 s, and its start time stays the same. */
  lemma {:induction false} ContinuousMotionNeverStops(s: State, inputs: seq<Input>)
    requires Inv(s) && FramesOfSize(inputs, |s.prevFrame|) && s.recording
    requires MotionThroughout(s.prevFrame, inputs)
    ensures Run(s, inputs).state.recording
    ensures Run(s, inputs).state.recordingStartTime == s.recordingStartTime
    ensures Run(s, inputs).actions == []
    decreases |inputs|
  {
    if inputs != [] {
      var o := Step(s, inputs[0]);
      assert o == Outcome(s.(prevFrame := inputs[0].frame), []);
      ContinuousMotionNeverStops(o.state, inputs[1..]);
    }
  }

  /** The script's globals, with the encoder calls kept in a log. */
  class Controller {
    var recording: bool
    var recordingStartTime: Option<int>
    var videoFilename: Option<string>
    var prevFrame: seq<Rgb>
    ghost var log: seq<Action>

    ghost function Snapshot(): (s: State)
      reads this
    {
      State(recording, recordingStartTime, videoFilename, prevFrame)
    }

    ghost predicate Valid()
      reads this
    {
      Inv(Snapshot()) && Alternating(log, recording)
    }

    /** Set-up before the loop: the first capture becomes the reference. */
    constructor (first: seq<Rgb>)
      ensures Valid() && Snapshot() == Initial(first) && log == []
    {
      recording := false;
      recordingStartTime := None;
      videoFilename := None;
      prevFrame := first;
      log := [];
    }

    /** `start_recording()`. */
    method StartRecording(now: int, stamp: string)
      modifies this`recording, this`recordingStartTime, this`videoFilename, this`log
      ensures Snapshot() == AfterStart(old(Snapshot()), now, stamp).state
      ensures log == old(log) + AfterStart(old(Snapshot()), now, stamp).actions
    {
      recording := true;
      recordingStartTime := Some(now);
      videoFilename := Some("motion_" + stamp + ".h264");
      log := log + [StartRec];
    }

    /** `stop_recording()`. */
    method StopRecording()
      requires Inv(Snapshot())
      modifies this`recording, this`log
      ensures Snapshot() == AfterStop(old(Snapshot())).state
      ensures log == old(log) + AfterStop(old(Snapshot())).actions
    {
      if recording {
        log := log + [StopRec];
        recording := false;
        var mp4Filename := Replace(videoFilename.value, ".h264", ".mp4");
        log := log + [Transcode(videoFilename.value, mp4Filename)];
      }
    }

    /** One pass of the main loop. */
    method Tick(frame: seq<Rgb>, now: int, stamp: string)
      requires Valid() && |frame| == |prevFrame|
      modifies this
      ensures Valid()
      ensures Snapshot() == Step(old(Snapshot()), Input(frame, now, stamp)).state
      ensures log == old(log) + Step(old(Snapshot()), Input(frame, now, stamp)).actions
    {
      ghost var s, log0 := Snapshot(), log;
      if Detectors.MeanAbsDiffExceeds(prevFrame, frame, MotionThreshold) {
        if !recording {
          StartRecording(now, stamp);
        }
      } else if recording && now - recordingStartTime.value >= RecordingDuration {
        StopRecording();
      }
      prevFrame := frame;
      ghost var r := Step(s, Input(frame, now, stamp));
      assert Snapshot() == r.state && log == log0 + r.actions;
      StepAlternates(s, Input(frame, now, stamp), log0);
    }

    /** The `finally` block. */
    method Shutdown()
      requires Valid()
      modifies this`recording, this`log
      ensures !recording && Alternating(log, false)
      ensures Snapshot() == AfterStop(old(Snapshot())).state
      ensures log == old(log) + AfterStop(old(Snapshot())).actions
    {
      ghost var s, log0 := Snapshot(), log;
      StopRecording();
      ShutdownClosesSession(s, log0);
    }
  }
}
