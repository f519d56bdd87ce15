/** ds-fix.py: a motion-timeout recorder on `picamera2`. The detector keeps
    its reference frame as an attribute of the function itself: the first
    call only stores it, every later call compares against it and replaces
    it. In the loop the stop check runs on every tick, after the motion
    branch, and fires once more than 30 s have passed since the last motion;
    the `finally` block stops a recording still in progress. */
module DsFix {
  import opened Common
  import Detectors

  /** The literal in `np.mean(frame_diff) > 20`. */
  const MotionThreshold := 20
  /** The literal in `time.time() - last_motion_time > 30`. */
  const MotionTimeout := 30

  /** The globals and `detect_motion.prev_frame`, which is `None` until the
      attribute exists. */
  datatype State = State(recording: bool, lastMotionTime: int, reference: Option<seq<uint8>>)

  /** One tick: the captured RGB frame and `time.time()`. */
  datatype Input = Input(frame: seq<Rgb>, now: int)

  /** The globals at start-up: `last_motion_time` is the program's start
      time, not the time of any motion. */
  function Initial(startTime: int): (s: State)
    ensures !s.recording && s.lastMotionTime == startTime && s.reference.None?
  {
    State(false, startTime, None)
  }

  /** The camera resolution is fixed. */
  predicate Fits(reference: Option<seq<uint8>>, frame: seq<Rgb>)
  {
    reference.Some? ==> |reference.value| == |frame|
  }

  /** `detect_motion(frame)`: the decision and the new value of the
      function's stored reference. */
  function Detect(reference: Option<seq<uint8>>, frame: seq<Rgb>): (r: (bool, Option<seq<uint8>>))
    requires Fits(reference, frame)
    ensures r.1 == Some(Detectors.Gray8(frame))
    ensures reference.None? ==> !r.0
    ensures reference.Some? ==> (r.0 <==> Detectors.WrapMeanExceeds(reference.value, Detectors.Gray8(frame), MotionThreshold))
  {
    var gray := Detectors.Gray8(frame);
    if reference.None? then (false, Some(gray))
    else (Detectors.WrapMeanExceeds(reference.value, gray, MotionThreshold), Some(gray))
  }

  /** One pass of the main loop: on motion, note the time and start when
      idle; then, on every tick, stop when recording and the last motion is
      more than 30 s old. */
  function Step(s: State, i: Input): (r: Outcome<State>)
    requires Fits(s.reference, i.frame)
    ensures Fits(r.state.reference, i.frame)
    ensures r.state.reference == Some(Detectors.Gray8(i.frame))
  {
    var (m, ref) := Detect(s.reference, i.frame);
    var last := if m then i.now else s.lastMotionTime;
    var start := if m && !s.recording then [StartRec] else [];
    var rec := s.recording || m;
    if rec && i.now - last > MotionTimeout then
      Outcome(State(false, last, ref), start + [StopRec])
    else
      Outcome(State(rec, last, ref), start)
  }

  /** The first tick only stores the reference; it never reports motion,
      whatever the frame. */
  lemma FirstTickSeeds(startTime: int, i: Input)
    ensures Step(Initial(startTime), i) == Outcome(State(false, startTime, Some(Detectors.Gray8(i.frame))), [])
  {
  }

  /** A motion tick records the time, starts exactly when idle, and never
      stops in the same tick. */
  lemma MotionTick(s: State, i: Input)
    requires Fits(s.reference, i.frame) && Detect(s.reference, i.frame).0
    ensures Step(s, i).state.recording && Step(s, i).state.lastMotionTime == i.now
    ensures Step(s, i).actions == (if s.recording then [] else [StartRec])
  {
  }

  /** A stop is issued exactly on a tick without motion while recording
      with the last motion more than 30 s old (strict: exactly 30 s goes
      on recording). */
  lemma StopCondition(s: State, i: Input)
    requires Fits(s.reference, i.frame)
    ensures StopRec in Step(s, i).actions
        <==> !Detect(s.reference, i.frame).0 && s.recording && i.now - s.lastMotionTime > MotionTimeout
    ensures Step(s, i).state.lastMotionTime == (if Detect(s.reference, i.frame).0 then i.now else s.lastMotionTime)
  {
  }

  /** A start is issued exactly on a motion tick while idle, and the script
      records after the tick exactly when it recorded before or saw motion,
      and did not stop. */
  lemma StartCondition(s: State, i: Input)
    requires Fits(s.reference, i.frame)
    ensures StartRec in Step(s, i).actions <==> Detect(s.reference, i.frame).0 && !s.recording
    ensures Step(s, i).state.recording
        <==> (s.recording || Detect(s.reference, i.frame).0) && StopRec !in Step(s, i).actions
  {
  }

  /** A recording that survives a tick has seen motion within the last 30 s. */
  lemma NoRecordingOutlivesTimeout(s: State, i: Input)
    requires Fits(s.reference, i.frame)
    ensures Step(s, i).state.recording ==> i.now - Step(s, i).state.lastMotionTime <= MotionTimeout
  {
  }

  lemma StepAlternates(s: State, i: Input, log: seq<Action>)
    requires Fits(s.reference, i.frame) && Alternating(log, s.recording)
    ensures Alternating(log + Step(s, i).actions, Step(s, i).state.recording)
  {
    var r := Step(s, i);
    if r.actions == [StartRec, StopRec] {
      // a start and a stop in one tick cannot happen: the start sets the
      // last motion time to now
      assert false;
    }
    AlternatingExtend(log, s.recording, r.actions, r.state.recording);
  }

  /** The `finally` block: stop if recording. The flag itself is not reset;
      the script ends here. */
  function ShutdownActions(s: State): (acts: seq<Action>)
    ensures acts == [StopRec] <==> s.recording
    ensures acts == [] <==> !s.recording
  {
    if s.recording then [StopRec] else []
  }

  /** After the `finally` block every started recording has been stopped. */
  lemma ShutdownClosesSession(s: State, log: seq<Action>)
    requires Alternating(log, s.recording)
    ensures Alternating(log + ShutdownActions(s), false)
  {
    AlternatingExtend(log, s.recording, ShutdownActions(s), false);
  }

  /** The script's globals and the detector's stored frame, with the encoder
      calls kept in a log. */
  class Controller {
    var recording: bool
    var lastMotionTime: int
    var prevFrame: Option<seq<uint8>>
    ghost var log: seq<Action>

    ghost function Snapshot(): (s: State)
      reads this
    {
      State(recording, lastMotionTime, prevFrame)
    }

    ghost predicate Valid()
      reads this
    {
      Alternating(log, recording)
    }

    /** Start-up at `startTime`, before the first capture. */
    constructor (startTime: int)
      ensures Valid() && Snapshot() == Initial(startTime) && log == []
    {
      recording := false;
      lastMotionTime := startTime;
      prevFrame := None;
      log := [];
    }

    /** `detect_motion(frame)`, updating the stored reference. */
    method DetectMotion(frame: seq<Rgb>) returns (motion: bool)
      requires Fits(prevFrame, frame)
      modifies this`prevFrame
      ensures (motion, prevFrame) == Detect(old(prevFrame), frame)
    {
      var gray := Detectors.Gray8(frame);
      if prevFrame.None? {
        prevFrame := Some(gray);
        return false;
      }
      var frameDiff := Detectors.WrapDiff(gray, prevFrame.value);
      prevFrame := Some(gray);
      motion := Sum(frameDiff) > MotionThreshold * |frameDiff|;
    }

    /** One pass of the main loop. */
    method Tick(frame: seq<Rgb>, now: int)
      requires Valid() && Fits(prevFrame, frame)
      modifies this
      ensures Valid()
      ensures Snapshot() == Step(old(Snapshot()), Input(frame, now)).state
      ensures log == old(log) + Step(old(Snapshot()), Input(frame, now)).actions
    {
      ghost var s, log0 := Snapshot(), log;
      var motion := DetectMotion(frame);
      if motion {
        lastMotionTime := now;
        if !recording {
          log := log + [StartRec];
          recording := true;
        }
      }
      if recording && now - lastMotionTime > MotionTimeout {
        log := log + [StopRec];
        recording := false;
      }
      ghost var r := Step(s, Input(frame, now));
      assert Snapshot() == r.state && log == log0 + r.actions;
      StepAlternates(s, Input(frame, now), log0);
    }

    /** The `finally` block. */
    method Shutdown()
      requires Valid()
      modifies this`log
      ensures Alternating(log, false)
      ensures log == old(log) + ShutdownActions(old(Snapshot()))
    {
      ghost var s := Snapshot();
      if recording {
        log := log + [StopRec];
      }
      ShutdownClosesSession(s, old(log));
    }
  }
}
