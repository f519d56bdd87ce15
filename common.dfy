/** Values shared by the five capture scripts: pixel types, the optional
    values Python keeps in its globals, the log of effects a loop tick has on
    the camera encoder and the IR LED line, and the integer sums the
    detectors are built from. */
module Common {

  /** numpy's `uint8`, the element type of every camera frame. */
  newtype uint8 = x: int | 0 <= x < 256

  /** One RGB pixel of a captured frame (an H x W x 3 `uint8` array). */
  datatype Rgb = Rgb(r: uint8, g: uint8, b: uint8)

  /** A Python global that starts out as `None`. */
  datatype Option<T> = None | Some(value: T)

  /** The externally visible effects of one loop tick, in the order issued:
      the encoder is started or stopped, the IR LED line is written (0 lights
      the LED, 1 turns it off), or a finished `.h264` file is transcoded. */
  datatype Action =
    | StartRec
    | StopRec
    | SetLed(level: int)
    | Transcode(source: string, target: string)

  /** The outcome of a tick: the new state and the effects issued. */
  datatype Outcome<S> = Outcome(state: S, actions: seq<Action>)

  function Abs(x: int): (r: int)
    ensures r >= 0 && (r == x || r == -x)
  {
    if x < 0 then -x else x
  }

  /** `np.sum` over a flattened integer array. */
  function Sum(s: seq<int>): (total: int)
  {
    if s == [] then 0 else s[0] + Sum(s[1..])
  }

  /** Element-wise absolute difference of two equally shaped arrays. */
  function AbsDiff(a: seq<int>, b: seq<int>): (d: seq<int>)
    requires |a| == |b|
    ensures |d| == |a|
  {
    seq(|a|, i requires 0 <= i < |a| => Abs(a[i] - b[i]))
  }

  /** A `uint8` array read as integers. */
  function Widen(f: seq<uint8>): (w: seq<int>)
    ensures |w| == |f|
  {
    seq(|f|, i requires 0 <= i < |f| => f[i] as int)
  }

  /** The three channels of a pixel added up: three times the float mean that
      `np.mean(frame, axis=2)` computes for it. */
  function ChannelSum(p: Rgb): (s: int)
    ensures 0 <= s <= 765
  {
    p.r as int + p.g as int + p.b as int
  }

  /** Per-pixel channel sums of an RGB frame. */
  function ChannelSums(f: seq<Rgb>): (g: seq<int>)
    ensures |g| == |f|
  {
    seq(|f|, i requires 0 <= i < |f| => ChannelSum(f[i]))
  }

  /** A sum of constant terms is the constant times the length. */
  lemma {:induction false} SumConstant(s: seq<int>, c: int)
    requires forall i :: 0 <= i < |s| ==> s[i] == c
    ensures Sum(s) == c * |s|
  {
    if s != [] {
      SumConstant(s[1..], c);
    }
  }

  // ---------------------------------------------------------------------
  // The encoder start/stop calls of a run

  /** The encoder calls of a log, in order, with every LED write and
      transcode dropped. */
  function RecordingActions(log: seq<Action>): (r: seq<Action>)
    ensures |r| <= |log|
    ensures forall i :: 0 <= i < |r| ==> r[i] == StartRec || r[i] == StopRec
  {
    if log == [] then []
    else if log[0] == StartRec || log[0] == StopRec then [log[0]] + RecordingActions(log[1..])
    else RecordingActions(log[1..])
  }

  lemma {:induction false} RecordingActionsAppend(a: seq<Action>, b: seq<Action>)
    ensures RecordingActions(a + b) == RecordingActions(a) + RecordingActions(b)
  {
    if a == [] {
      assert a + b == b;
    } else {
      var ab := a + b;
      assert ab != [] && ab[0] == a[0];
      assert ab[1..] == a[1..] + b;
      RecordingActionsAppend(a[1..], b);
      if a[0] == StartRec || a[0] == StopRec {
        calc {
          RecordingActions(ab);
          [a[0]] + RecordingActions(a[1..] + b);
          [a[0]] + (RecordingActions(a[1..]) + RecordingActions(b));
          ([a[0]] + RecordingActions(a[1..])) + RecordingActions(b);
        }
      } else {
        calc {
          RecordingActions(ab);
          RecordingActions(a[1..] + b);
          RecordingActions(a[1..]) + RecordingActions(b);
        }
      }
    }
  }

  /** The encoder calls of `log` are start, stop, start, stop, ... and the
      last one is a start exactly when a recording is in progress. */
  predicate Alternating(log: seq<Action>, recording: bool)
  {
    var r := RecordingActions(log);
    (forall i :: 0 <= i < |r| ==> r[i] == if i % 2 == 0 then StartRec else StopRec)
    && (recording <==> |r| % 2 == 1)
  }

  /** The encoder calls a tick may issue to move the recording flag from
      `before` to `after`: a start when it turns on, a stop when it turns
      off, nothing when it keeps its value. */
  function Transition(before: bool, after: bool): (t: seq<Action>)
    ensures |t| <= 1
  {
    if !before && after then [StartRec]
    else if before && !after then [StopRec]
    else []
  }

  /** Extending a log by a tick whose encoder calls match the change of the
      recording flag keeps starts and stops alternating. */
  lemma {:induction false} AlternatingExtend(log: seq<Action>, before: bool, ext: seq<Action>, after: bool)
    requires Alternating(log, before)
    requires RecordingActions(ext) == Transition(before, after)
    ensures Alternating(log + ext, after)
  {
    RecordingActionsAppend(log, ext);
    var r := RecordingActions(log);
    var r' := RecordingActions(log + ext);
    assert r' == r + Transition(before, after);
    forall i | 0 <= i < |r'|
      ensures r'[i] == if i % 2 == 0 then StartRec else StopRec
    {
      if i < |r| {
        assert r'[i] == r[i];
      }
    }
  }
}
