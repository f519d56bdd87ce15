/** capturer.py: the fixed-duration recorder on the legacy `picamera`
    interface. Motion starts a recording; a tick without motion stops it
    once at least 180 s have passed since the start; the `finally` block
    calls the idempotent `stop_recording()`. */
module Capturer {
  import opened Common
  import Detectors

  /** `motion_threshold = 10`. */
  const MotionThreshold := 10
  /** `recording_duration = 180`. */
  const RecordingDuration := 180

  datatype State = State(recording: bool, recordingStartTime: Option<int>, prevFrame: seq<Rgb>)

  /** One tick: the captured RGB frame and `time.time()`. */
  datatype Input = Input(frame: seq<Rgb>, now: int)

  /** The globals when the loop is entered; the capture before the loop is
      the first reference. */
  function Initial(first: seq<Rgb>): (s: State)
    ensures !s.recording && s.recordingStartTime.None? && s.prevFrame == first
  {
    State(false, None, first)
  }

  /** A recording always has a start time. */
  predicate Inv(s: State)
  {
    s.recording ==> s.recordingStartTime.Some?
  }

  /** `detect_motion(prev_frame, curr_frame)`. */
  predicate Motion(s: State, frame: seq<Rgb>)
    requires |frame| == |s.prevFrame|
  {
    Detectors.MeanAbsDiffExceeds(s.prevFrame, frame, MotionThreshold)
  }

  /** `start_recording()`. */
  function AfterStart(s: State, now: int): (r: Outcome<State>)
    ensures Inv(r.state) && r.state.recording && r.state.recordingStartTime == Some(now)
    ensures r.state.prevFrame == s.prevFrame && r.actions == [StartRec]
  {
    Outcome(s.(recording := true, recordingStartTime := Some(now)), [StartRec])
  }

  /** `stop_recording()`: a stop when recording, nothing otherwise. */
  function AfterStop(s: State): (r: Outcome<State>)
    ensures !r.state.recording
    ensures r.state.recordingStartTime == s.recordingStartTime && r.state.prevFrame == s.prevFrame
    ensures r.actions == (if s.recording then [StopRec] else [])
  {
    Outcome(s.(recording := false), if s.recording then [StopRec] else [])
  }

  /** One pass of the main loop: start on motion when idle; on a tick
      without motion, stop once the recording is 180 s old; the frame then
      becomes the reference. */
  function Step(s: State, i: Input): (r: Outcome<State>)
    requires Inv(s) && |i.frame| == |s.prevFrame|
    ensures Inv(r.state) && r.state.prevFrame == i.frame
  {
    var o :=
      if Motion(s, i.frame) then
        (if !s.recording then AfterStart(s, i.now) else Outcome(s, []))
      else if s.recording && i.now - s.recordingStartTime.value >= RecordingDuration then
        AfterStop(s)
      else
        Outcome(s, []);
    Outcome(o.state.(prevFrame := i.frame), o.actions)
  }

  /** A motion tick while recording issues nothing and keeps the start time. */
  lemma MotionWhileRecording(s: State, i: Input)
    requires Inv(s) && |i.frame| == |s.prevFrame| && s.recording && Motion(s, i.frame)
    ensures Step(s, i).actions == []
    ensures Step(s, i).state == s.(prevFrame := i.frame)
  {
  }

  /** Starts happen exactly on motion while idle; stops exactly on ticks
      without motion while recording, 180 s or more after the start. */
  lemma StartStopConditions(s: State, i: Input)
    requires Inv(s) && |i.frame| == |s.prevFrame|
    ensures StartRec in Step(s, i).actions <==> Motion(s, i.frame) && !s.recording
    ensures StopRec in Step(s, i).actions
        <==> !Motion(s, i.frame) && s.recording && i.now - s.recordingStartTime.value >= RecordingDuration
    ensures Step(s, i).state.recording
        <==> (s.recording || Motion(s, i.frame)) && !(StopRec in Step(s, i).actions)
  {
  }

  /** A tick that neither starts nor stops changes nothing but the
      reference: the recording flag and the start time stay as they were. */
  lemma QuietTickKeepsSession(s: State, i: Input)
    requires Inv(s) && |i.frame| == |s.prevFrame| && Step(s, i).actions == []
    ensures Step(s, i).state == s.(prevFrame := i.frame)
  {
  }

  /** Exactly 180 s after the start a still tick stops the recording, and a
      still tick one second earlier does not. */
  lemma StopAtExactlyDuration(s: State, i: Input)
    requires Inv(s) && |i.frame| == |s.prevFrame| && s.recording && !Motion(s, i.frame)
    ensures i.now == s.recordingStartTime.value + RecordingDuration ==> !Step(s, i).state.recording
    ensures i.now == s.recordingStartTime.value + RecordingDuration - 1 ==> Step(s, i).state.recording
  {
  }

  /** A second `stop_recording()` does nothing. */
  lemma StopIdempotent(s: State)
    ensures AfterStop(AfterStop(s).state) == Outcome(AfterStop(s).state, [])
  {
  }

  lemma StepAlternates(s: State, i: Input, log: seq<Action>)
    requires Inv(s) && |i.frame| == |s.prevFrame| && Alternating(log, s.recording)
    ensures Alternating(log + Step(s, i).actions, Step(s, i).state.recording)
  {
    var r := Step(s, i);
    AlternatingExtend(log, s.recording, r.actions, r.state.recording);
  }

  /** The `finally` stop leaves nothing recording, issuing a stop exactly
      when a recording was in progress. */
  lemma ShutdownClosesSession(s: State, log: seq<Action>)
    requires Alternating(log, s.recording)
    ensures Alternating(log + AfterStop(s).actions, false)
  {
    AlternatingExtend(log, s.recording, AfterStop(s).actions, false);
  }

  /** The script's globals, with the encoder calls kept in a log. */
  class Controller {
    var recording: bool
    var recordingStartTime: Option<int>
    var prevFrame: seq<Rgb>
    ghost var log: seq<Action>

    ghost function Snapshot(): (s: State)
      reads this
    {
      State(recording, recordingStartTime, prevFrame)
    }

    ghost predicate Valid()
      reads this
    {
      Inv(Snapshot()) && Alternating(log, recording)
    }

    constructor (first: seq<Rgb>)
      ensures Valid() && Snapshot() == Initial(first) && log == []
    {
      recording := false;
      recordingStartTime := None;
      prevFrame := first;
      log := [];
    }

    /** `start_recording()`. */
    method StartRecording(now: int)
      modifies this`recording, this`recordingStartTime, this`log
      ensures Snapshot() == AfterStart(old(Snapshot()), now).state
      ensures log == old(log) + AfterStart(old(Snapshot()), now).actions
    {
      recording := true;
      recordingStartTime := Some(now);
      log := log + [StartRec];
    }

    /** `stop_recording()`. */
    method StopRecording()
      modifies this`recording, this`log
      ensures Snapshot() == AfterStop(old(Snapshot())).state
      ensures log == old(log) + AfterStop(old(Snapshot())).actions
    {
      if recording {
        log := log + [StopRec];
        recording := false;
      }
    }

    /** One pass of the main loop. */
    method Tick(frame: seq<Rgb>, now: int)
      requires Valid() && |frame| == |prevFrame|
      modifies this
      ensures Valid()
      ensures Snapshot() == Step(old(Snapshot()), Input(frame, now)).state
      ensures log == old(log) + Step(old(Snapshot()), Input(frame, now)).actions
    {
      ghost var s, log0 := Snapshot(), log;
      if Detectors.MeanAbsDiffExceeds(prevFrame, frame, MotionThreshold) {
        if !recording {
          StartRecording(now);
        }
      } else if recording && now - recordingStartTime.value >= RecordingDuration {
        StopRecording();
      }
      prevFrame := frame;
      ghost var r := Step(s, Input(frame, now));
      assert Snapshot() == r.state && log == log0 + r.actions;
      StepAlternates(s, Input(frame, now), log0);
    }

    /** The `finally` block. */
    method Shutdown()
      requires Valid()
      modifies this`recording, this`log
      ensures !recording && Alternating(log, false)
      ensures Snapshot() == AfterStop(old(Snapshot())).state
      ensures log == old(log) + AfterStop(old(Snapshot())).actions
    {
      ghost var s, log0 := Snapshot(), log;
      StopRecording();
      ShutdownClosesSession(s, log0);
    }
  }
}
