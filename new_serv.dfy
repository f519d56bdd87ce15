/** new-serv.py: a motion-timeout recorder with the mean-difference
    detector. Each tick compares the new channel-mean gray frame with the
    previous one, starts on motion, stops on a frame without motion once
    more than 5 s have passed since the last motion, then writes the LED
    schedule and keeps the frame as the next reference.

    The script as written seeds `prev_frame` from the undefined name
    `frame` (new-serv.py:62), which fails before the loop is reached; the
    model seeds it from the capture of the line before, which is evidently
    what was meant. */
module NewServ {
  import opened Common
  import Detectors
  import Schedule

  /** `motion_threshold = 8`. */
  const MotionThreshold := 8
  /** `motion_timeout = 5`. */
  const MotionTimeout := 5

  datatype State = State(recording: bool, lastMotionTime: Option<int>, prevFrame: seq<Rgb>)

  /** One tick: the captured RGB frame, `time.time()` and the hour. */
  datatype Input = Input(frame: seq<Rgb>, now: int, hour: int)

  /** The globals when the loop is entered, with the first capture as the
      reference. */
  function Initial(first: seq<Rgb>): (s: State)
    ensures !s.recording && s.lastMotionTime.None? && s.prevFrame == first
  {
    State(false, None, first)
  }

  /** A recording always has a last motion time (the stop guard reads it). */
  predicate Inv(s: State)
  {
    s.recording ==> s.lastMotionTime.Some?
  }

  predicate Motion(s: State, frame: seq<Rgb>)
    requires |frame| == |s.prevFrame|
  {
    Detectors.MeanAbsDiffExceeds(s.prevFrame, frame, MotionThreshold)
  }

  /** One pass of the main loop. */
  function Step(s: State, i: Input): (r: Outcome<State>)
    requires Inv(s) && |i.frame| == |s.prevFrame|
    ensures Inv(r.state)
    ensures r.state.prevFrame == i.frame
  {
    var led := [SetLed(Schedule.LedLevel(i.hour))];
    if Motion(s, i.frame) then
      Outcome(State(true, Some(i.now), i.frame), (if s.recording then [] else [StartRec]) + led)
    else if s.recording && i.now - s.lastMotionTime.value > MotionTimeout then
      Outcome(State(false, s.lastMotionTime, i.frame), [StopRec] + led)
    else
      Outcome(s.(prevFrame := i.frame), led)
  }

  /** A motion tick records from then on with now as the last motion time,
      and issues a start exactly when nothing was being recorded. */
  lemma MotionTick(s: State, i: Input)
    requires Inv(s) && |i.frame| == |s.prevFrame| && Motion(s, i.frame)
    ensures Step(s, i).state.recording && Step(s, i).state.lastMotionTime == Some(i.now)
    ensures RecordingActions(Step(s, i).actions) == if s.recording then [] else [StartRec]
  {
    var led := [SetLed(Schedule.LedLevel(i.hour))];
    RecordingActionsAppend(if s.recording then [] else [StartRec], led);
  }

  /** A tick without motion stops exactly when recording and the last motion
      is more than 5 s old; the stop leaves the last motion time as it was. */
  lemma StillTick(s: State, i: Input)
    requires Inv(s) && |i.frame| == |s.prevFrame| && !Motion(s, i.frame)
    ensures var stop := s.recording && i.now - s.lastMotionTime.value > MotionTimeout;
      && (StopRec in Step(s, i).actions <==> stop)
      && Step(s, i).state.recording == (s.recording && !stop)
      && Step(s, i).state.lastMotionTime == s.lastMotionTime
  {
  }

  /** The LED is written last in every tick, after the recording decision. */
  lemma ScheduleWrittenLast(s: State, i: Input)
    requires Inv(s) && |i.frame| == |s.prevFrame|
    ensures |Step(s, i).actions| >= 1
    ensures Step(s, i).actions[|Step(s, i).actions| - 1] == SetLed(Schedule.LedLevel(i.hour))
  {
  }

  /** Whatever the tick, a recording still open after it has seen motion at
      most 5 s before. */
  lemma NoRecordingOutlivesTimeout(s: State, i: Input)
    requires Inv(s) && |i.frame| == |s.prevFrame|
    ensures Step(s, i).state.recording ==>
      i.now - Step(s, i).state.lastMotionTime.value <= MotionTimeout
  {
  }

  lemma StepAlternates(s: State, i: Input, log: seq<Action>)
    requires Inv(s) && |i.frame| == |s.prevFrame| && Alternating(log, s.recording)
    ensures Alternating(log + Step(s, i).actions, Step(s, i).state.recording)
  {
    var r := Step(s, i);
    var led := [SetLed(Schedule.LedLevel(i.hour))];
    assert RecordingActions(led) == [];
    var e := r.actions[..|r.actions| - 1];
    assert r.actions == e + led;
    RecordingActionsAppend(e, led);
    assert e == [] || e == [StartRec] || e == [StopRec];
    AlternatingExtend(log, s.recording, r.actions, r.state.recording);
  }

  /** Every frame of a run has the resolution `n`. */
  predicate FramesOfSize(inputs: seq<Input>, n: nat)
  {
    forall k :: 0 <= k < |inputs| ==> |inputs[k].frame| == n
  }

  /** A sequence of ticks. */
  function Run(s: State, inputs: seq<Input>): (r: Outcome<State>)
    requires Inv(s) && FramesOfSize(inputs, |s.prevFrame|)
    ensures Inv(r.state) && |r.state.prevFrame| == |s.prevFrame|
    decreases |inputs|
  {
    if inputs == [] then Outcome(s, [])
    else
      var o := Step(s, inputs[0]);
      var rest := Run(o.state, inputs[1..]);
      Outcome(rest.state, o.actions + rest.actions)
  }

  /** Appending one tick to a run applies one more step. */
  lemma {:induction false} RunSnoc(s: State, inputs: seq<Input>, x: Input)
    requires Inv(s) && FramesOfSize(inputs + [x], |s.prevFrame|)
    ensures FramesOfSize(inputs, |s.prevFrame|)
    ensures |x.frame| == |Run(s, inputs).state.prevFrame|
    ensures Run(s, inputs + [x])
         == Outcome(Step(Run(s, inputs).state, x).state,
                    Run(s, inputs).actions + Step(Run(s, inputs).state, x).actions)
    decreases |inputs|
  {
    var all := inputs + [x];
    assert forall k | 0 <= k < |inputs| :: all[k] == inputs[k];
    assert all[|inputs|] == x;
    if inputs == [] {
      assert all == [x] && all[1..] == [];
    } else {
      var o := Step(s, inputs[0]);
      assert all[0] == inputs[0];
      assert all[1..] == inputs[1..] + [x];
      assert FramesOfSize(inputs[1..] + [x], |o.state.prevFrame|);
      RunSnoc(o.state, inputs[1..], x);
      var mid := Run(o.state, inputs[1..]);
      var last := Step(mid.state, x);
      assert Run(s, all) == Outcome(last.state, o.actions + (mid.actions + last.actions));
      assert Run(s, inputs) == Outcome(mid.state, o.actions + mid.actions);
      assert o.actions + (mid.actions + last.actions) == (o.actions + mid.actions) + last.actions;
    }
  }

  /** Starts and stops alternate over a whole run. */
  lemma {:induction false} RunAlternates(s: State, inputs: seq<Input>, log: seq<Action>)
    requires Inv(s) && FramesOfSize(inputs, |s.prevFrame|) && Alternating(log, s.recording)
    ensures Alternating(log + Run(s, inputs).actions, Run(s, inputs).state.recording)
    decreases |inputs|
  {
    if inputs == [] {
      assert log + [] == log;
    } else {
      var o := Step(s, inputs[0]);
      StepAlternates(s, inputs[0], log);
      RunAlternates(o.state, inputs[1..], log + o.actions);
      assert log + o.actions + Run(o.state, inputs[1..]).actions == log + Run(s, inputs).actions;
    }
  }

  /** A one-pixel frame whose three channels are all `v`. */
  function Pixel(v: uint8): (f: seq<Rgb>)
  {
    [Rgb(v, v, v)]
  }

  /** On one-pixel gray frames the detector compares the change of level
      with the threshold. */
  lemma PixelMotion(a: uint8, b: uint8)
    ensures Detectors.MeanAbsDiffExceeds(Pixel(a), Pixel(b), MotionThreshold)
        <==> Abs(b as int - a as int) > MotionThreshold
  {
    Detectors.MeanAbsDiffUniformShift(Pixel(a), Pixel(b), b as int - a as int, MotionThreshold);
  }

  /** Nine ticks one second apart at noon whose mean differences are
      2, 15, 15, 3, 3, 3, 3, 3, 3. */
  const ExampleInputs := [
    Input(Pixel(2), 1, 12), Input(Pixel(17), 2, 12), Input(Pixel(2), 3, 12),
    Input(Pixel(5), 4, 12), Input(Pixel(2), 5, 12), Input(Pixel(5), 6, 12),
    Input(Pixel(2), 7, 12), Input(Pixel(5), 8, 12), Input(Pixel(2), 9, 12)]

  /** The state of the worked run after its first `k` ticks. */
  function ExampleState(k: nat): (s: State)
  {
    if k == 0 then Initial(Pixel(0))
    else if k == 1 then State(false, None, Pixel(2))
    else if k == 2 then State(true, Some(2), Pixel(17))
    else if k == 9 then State(false, Some(3), Pixel(2))
    else State(true, Some(3), Pixel(if k % 2 == 0 then 5 else 2))
  }

  /** The effects of tick `j + 1` of the worked run: a start at the second
      tick, a stop at the ninth, and the LED (off at noon) every time. */
  function ExampleIssued(j: nat): (issued: seq<Action>)
  {
    (if j == 1 then [StartRec] else if j == 8 then [StopRec] else []) + [SetLed(Schedule.LedOff)]
  }

  /** The encoder calls of the worked run after its first `k` ticks. */
  function ExampleCalls(k: nat): (calls: seq<Action>)
  {
    if k < 2 then [] else if k < 9 then [StartRec] else [StartRec, StopRec]
  }

  /** Tick `j + 1` of the worked run, from the state after `j` ticks. */
  lemma ExampleStepAt(j: nat)
    requires j < |ExampleInputs|
    ensures Inv(ExampleState(j)) && |ExampleState(j).prevFrame| == 1
    ensures Step(ExampleState(j), ExampleInputs[j]) == Outcome(ExampleState(j + 1), ExampleIssued(j))
    ensures ExampleCalls(j) + RecordingActions(ExampleIssued(j)) == ExampleCalls(j + 1)
  {
    assert Schedule.LedLevel(12) == Schedule.LedOff;
    var x := ExampleInputs[j];
    var prev := ExampleState(j).prevFrame[0].r;
    PixelMotion(prev, x.frame[0].r);
    assert x.frame == Pixel(x.frame[0].r);
    if j == 1 || j == 8 {
      RecordingActionsAppend(ExampleIssued(j)[..1], [SetLed(Schedule.LedOff)]);
      assert ExampleIssued(j) == ExampleIssued(j)[..1] + [SetLed(Schedule.LedOff)];
    }
  }

  /** The worked run after its first `k` ticks, one tick at a time. */
  lemma {:induction false} ExampleAfter(k: nat)
    requires k <= |ExampleInputs|
    ensures FramesOfSize(ExampleInputs[..k], 1)
    ensures Run(Initial(Pixel(0)), ExampleInputs[..k]).state == ExampleState(k)
    ensures RecordingActions(Run(Initial(Pixel(0)), ExampleInputs[..k]).actions) == ExampleCalls(k)
  {
    var s0 := Initial(Pixel(0));
    if k == 0 {
      assert ExampleInputs[..0] == [];
    } else {
      var j := k - 1;
      ExampleAfter(j);
      ExampleStepAt(j);
      assert ExampleInputs[..k] == ExampleInputs[..j] + [ExampleInputs[j]];
      RunSnoc(s0, ExampleInputs[..j], ExampleInputs[j]);
      RecordingActionsAppend(Run(s0, ExampleInputs[..j]).actions, ExampleIssued(j));
    }
  }

  /** The recording starts at the second tick, motion is last seen at the
      third, and the stop comes at the ninth, the first tick more than 5 s
      after that motion. */
  lemma ExampleRun()
    ensures FramesOfSize(ExampleInputs, 1)
    ensures var s0 := Initial(Pixel(0));
      && !Run(s0, ExampleInputs[..1]).state.recording
      && Run(s0, ExampleInputs[..2]).state.recording
      && Run(s0, ExampleInputs[..8]).state.recording
      && Run(s0, ExampleInputs[..8]).state.lastMotionTime == Some(3)
      && !Run(s0, ExampleInputs).state.recording
      && RecordingActions(Run(s0, ExampleInputs).actions) == [StartRec, StopRec]
  {
    ExampleAfter(1);
    ExampleAfter(2);
    ExampleAfter(8);
    ExampleAfter(9);
    assert ExampleInputs[..9] == ExampleInputs;
  }

  /** The script's globals, with the encoder and LED calls kept in a log. */
  class Controller {
    var recording: bool
    var lastMotionTime: Option<int>
    var prevFrame: seq<Rgb>
    ghost var log: seq<Action>

    ghost function Snapshot(): (s: State)
      reads this
    {
      State(recording, lastMotionTime, prevFrame)
    }

    ghost predicate Valid()
      reads this
    {
      Inv(Snapshot()) && Alternating(log, recording)
    }

    /** Set-up before the loop: the first capture becomes the reference. */
    constructor (first: seq<Rgb>)
      ensures Valid() && Snapshot() == Initial(first) && log == []
    {
      recording := false;
      lastMotionTime := None;
      prevFrame := first;
      log := [];
    }

    /** `relay_on_time_between()`. */
    method RelayOnTimeBetween(hour: int)
      modifies this`log
      ensures log == old(log) + [SetLed(Schedule.LedLevel(hour))]
    {
      log := log + [SetLed(if hour >= Schedule.StartHour || hour <= Schedule.EndHour then 0 else 1)];
    }

    /** One pass of the main loop. */
    method Tick(frame: seq<Rgb>, now: int, hour: int)
      requires Valid() && |frame| == |prevFrame|
      modifies this
      ensures Valid()
      ensures Snapshot() == Step(old(Snapshot()), Input(frame, now, hour)).state
      ensures log == old(log) + Step(old(Snapshot()), Input(frame, now, hour)).actions
    {
      ghost var s, log0 := Snapshot(), log;
      var isDetect := Detectors.MeanAbsDiffExceeds(prevFrame, frame, MotionThreshold);
      if isDetect {
        if !recording {
          log := log + [StartRec];
          recording := true;
        }
        lastMotionTime := Some(now);
      } else if recording && now - lastMotionTime.value > MotionTimeout {
        log := log + [StopRec];
        recording := false;
      }
      RelayOnTimeBetween(hour);
      prevFrame := frame;
      ghost var r := Step(s, Input(frame, now, hour));
      assert Snapshot() == r.state && log == log0 + r.actions;
      StepAlternates(s, Input(frame, now, hour), log0);
    }
  }
}
