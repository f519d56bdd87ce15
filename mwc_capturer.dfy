/** mwc-capturer.py: a motion-timeout recorder with a binary-threshold
    detector. The outer loop captures a reference frame; the inner loop
    writes the LED schedule, compares each new frame with the reference,
    starts a recording on motion and, on a frame without motion, stops it
    once more than 5 s have passed since the last motion. A stop breaks out
    to the outer loop, which resets the flags and captures a fresh
    reference. */
module MwcCapturer {
  import opened Common
  import Detectors
  import Schedule

  /** `motion_timeout = 5`. */
  const MotionTimeout := 5

  /** The script's globals. `reference` is `prev_frame`; it is `None`
      whenever the next capture is the outer loop's reference capture (at
      start-up and right after a stop). */
  datatype State = State(recording: bool, lastMotionTime: Option<int>, reference: Option<seq<uint8>>)

  /** One capture: the blurred gray frame, `time.time()` and the hour. */
  datatype Input = Input(frame: seq<uint8>, now: int, hour: int)

  /** The globals before the loop starts. */
  const Initial := State(false, None, None)

  /** What every reachable state satisfies: a recording has a last motion
      time, and while no reference is held nothing is being recorded. */
  predicate Inv(s: State)
  {
    (s.recording ==> s.lastMotionTime.Some?)
    && (s.reference.None? ==> !s.recording && s.lastMotionTime.None?)
  }

  /** The camera resolution is fixed: a new frame has the reference's size. */
  predicate Fits(s: State, frame: seq<uint8>)
  {
    s.reference.Some? ==> |s.reference.value| == |frame|
  }

  /** Python truthiness of `last_motion_time`: `None` and `0.0` are false. */
  predicate Truthy(t: Option<int>)
  {
    t.Some? && t.value != 0
  }

  /** Whether the detector fires on this capture. */
  predicate Motion(s: State, frame: seq<uint8>)
    requires Fits(s, frame)
  {
    s.reference.Some? && Detectors.MwcDetect(s.reference.value, frame)
  }

  /** The stop guard `recording and last_motion_time and
      time.time() - last_motion_time > motion_timeout`. */
  predicate TimedOut(s: State, now: int)
  {
    s.recording && Truthy(s.lastMotionTime) && now - s.lastMotionTime.value > MotionTimeout
  }

  /** One capture of the script. Without a reference it is the outer loop's
      head: write the LED level and keep the frame as the reference.
      Otherwise it is one pass of the inner loop: write the LED level, then
      start on motion, or stop on a timed-out frame without motion (the
      reference is dropped, so the next capture is a new reference). */
  function Step(s: State, i: Input): (r: Outcome<State>)
    requires Fits(s, i.frame)
    ensures Inv(s) ==> Inv(r.state)
    ensures Fits(r.state, i.frame)
  {
    var led := [SetLed(Schedule.LedLevel(i.hour))];
    if s.reference.None? then
      Outcome(s.(reference := Some(i.frame)), led)
    else if Detectors.MwcDetect(s.reference.value, i.frame) then
      Outcome(State(true, Some(i.now), Some(i.frame)), led + (if s.recording then [] else [StartRec]))
    else if TimedOut(s, i.now) then
      Outcome(State(false, None, None), led + [StopRec])
    else
      Outcome(s.(reference := Some(i.frame)), led)
  }

  /** Every capture first writes the LED schedule, before the frame is
      compared. */
  lemma ScheduleWrittenFirst(s: State, i: Input)
    requires Fits(s, i.frame)
    ensures |Step(s, i).actions| >= 1
    ensures Step(s, i).actions[0] == SetLed(Schedule.LedLevel(i.hour))
  {
  }

  /** A motion frame sets the last motion time to now and keeps recording;
      it issues a start exactly when nothing was being recorded, so repeated
      motion frames issue no further starts and never a stop. */
  lemma MotionFrame(s: State, i: Input)
    requires Fits(s, i.frame) && Motion(s, i.frame)
    ensures Step(s, i).state.recording
    ensures Step(s, i).state.lastMotionTime == Some(i.now)
    ensures StartRec in Step(s, i).actions <==> !s.recording
    ensures StopRec !in Step(s, i).actions
  {
  }

  /** A stop is issued exactly on a compared frame without motion while
      recording with a (truthy) last motion time more than 5 s old. */
  lemma StopOnlyAfterStrictTimeout(s: State, i: Input)
    requires Fits(s, i.frame)
    ensures StopRec in Step(s, i).actions
        <==> s.reference.Some? && !Motion(s, i.frame) && TimedOut(s, i.now)
  {
  }

  /** A start is issued exactly on a motion frame while nothing is being
      recorded. */
  lemma StartOnlyOnMotion(s: State, i: Input)
    requires Fits(s, i.frame)
    ensures StartRec in Step(s, i).actions <==> Motion(s, i.frame) && !s.recording
  {
  }

  /** A compared frame without motion that does not time out changes
      nothing but the reference: the recording flag and the last motion
      time stay as they were, and the encoder is not called. */
  lemma StillFrameKeepsState(s: State, i: Input)
    requires Fits(s, i.frame) && s.reference.Some? && !Motion(s, i.frame) && !TimedOut(s, i.now)
    ensures Step(s, i).state == s.(reference := Some(i.frame))
    ensures RecordingActions(Step(s, i).actions) == []
  {
  }

  /** Every capture that does not stop becomes the reference for the next
      one; only a stop drops it. */
  lemma PassReplacesReference(s: State, i: Input)
    requires Fits(s, i.frame)
    ensures StopRec !in Step(s, i).actions <==> Step(s, i).state.reference == Some(i.frame)
  {
  }

  /** Exactly 5 s after the last motion the recording goes on. */
  lemma FiveSecondsIsNotATimeout(s: State, i: Input)
    requires Fits(s, i.frame) && Inv(s)
    requires s.recording && i.now == s.lastMotionTime.value + MotionTimeout
    ensures Step(s, i).state.recording
    ensures StopRec !in Step(s, i).actions
  {
  }

  /** After a stop nothing is recorded, the last motion time is cleared,
      and the next capture is a fresh reference with no comparison. */
  lemma StopResets(s: State, i: Input, j: Input)
    requires Fits(s, i.frame) && StopRec in Step(s, i).actions
    ensures Step(s, i).state == State(false, None, None)
    ensures Step(Step(s, i).state, j).state.reference == Some(j.frame)
    ensures RecordingActions(Step(Step(s, i).state, j).actions) == []
  {
    var a := Step(Step(s, i).state, j).actions;
    assert a == [SetLed(Schedule.LedLevel(j.hour))];
  }

  /** The encoder calls of one capture match the change of the recording
      flag, so starts and stops alternate, beginning with a start. */
  lemma StepAlternates(s: State, i: Input, log: seq<Action>)
    requires Fits(s, i.frame) && Inv(s) && Alternating(log, s.recording)
    ensures Alternating(log + Step(s, i).actions, Step(s, i).state.recording)
  {
    var r := Step(s, i);
    var led := [SetLed(Schedule.LedLevel(i.hour))];
    assert RecordingActions(led) == [];
    if r.actions != led {
      var e := r.actions[1..];
      assert r.actions == led + e;
      RecordingActionsAppend(led, e);
      assert e == [StartRec] || e == [StopRec];
    }
    AlternatingExtend(log, s.recording, r.actions, r.state.recording);
  }

  /** The script's globals, with the encoder and LED calls kept in a log. */
  class Controller {
    var recording: bool
    var lastMotionTime: Option<int>
    var prevFrame: Option<seq<uint8>>
    ghost var log: seq<Action>

    ghost function Snapshot(): (s: State)
      reads this
    {
      State(recording, lastMotionTime, prevFrame)
    }

    ghost predicate Valid()
      reads this
    {
      Inv(Snapshot()) && Alternating(log, recording)
    }

    constructor ()
      ensures Valid() && Snapshot() == Initial && log == []
    {
      recording := false;
      lastMotionTime := None;
      prevFrame := None;
      log := [];
    }

    /** `relay_on_time_between()`. */
    method RelayOnTimeBetween(hour: int)
      modifies this`log
      ensures log == old(log) + [SetLed(Schedule.LedLevel(hour))]
    {
      if hour >= Schedule.StartHour || hour <= Schedule.EndHour {
        log := log + [SetLed(0)];
      } else {
        log := log + [SetLed(1)];
      }
    }

    /** `start_recording()`. */
    method StartRecording()
      modifies this`recording, this`log
      ensures recording && log == old(log) + [StartRec]
    {
      log := log + [StartRec];
      recording := true;
    }

    /** `stop_recording()`: also clears the last motion time. */
    method StopRecording()
      modifies this`recording, this`lastMotionTime, this`log
      ensures !recording && lastMotionTime == None && log == old(log) + [StopRec]
    {
      log := log + [StopRec];
      recording := false;
      lastMotionTime := None;
    }

    /** One capture: the outer loop's reference capture when no reference is
        held, one pass of the inner loop otherwise. */
    method Tick(frame: seq<uint8>, now: int, hour: int)
      requires Valid() && Fits(Snapshot(), frame)
      modifies this
      ensures Valid()
      ensures Snapshot() == Step(old(Snapshot()), Input(frame, now, hour)).state
      ensures log == old(log) + Step(old(Snapshot()), Input(frame, now, hour)).actions
    {
      ghost var s, log0 := Snapshot(), log;
      RelayOnTimeBetween(hour);
      if prevFrame.None? {
        prevFrame := Some(frame);
      } else {
        var isDetect := Detectors.MwcDetect(prevFrame.value, frame);
        if isDetect {
          if !recording {
            StartRecording();
          }
          lastMotionTime := Some(now);
          prevFrame := Some(frame);
        } else if recording && lastMotionTime.Some? && lastMotionTime.value != 0
                  && now - lastMotionTime.value > MotionTimeout {
          StopRecording();
          // break; the code after the inner loop resets both flags, and the
          // outer loop captures a new reference
          recording := false;
          lastMotionTime := None;
          prevFrame := None;
        } else {
          prevFrame := Some(frame);
        }
      }
      ghost var r := Step(s, Input(frame, now, hour));
      assert Snapshot() == r.state && log == log0 + r.actions;
      StepAlternates(s, Input(frame, now, hour), log0);
    }

    /** The `finally` block: both flags are reset but `stop_recording` is
        not called, so a recording in progress gets no stop. */
    method Shutdown()
      modifies this`recording, this`lastMotionTime
      ensures !recording && lastMotionTime == None
      ensures prevFrame == old(prevFrame) && log == old(log)
    {
      recording := false;
      lastMotionTime := None;
    }
  }
}
