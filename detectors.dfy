/** The three frame-difference motion detectors found across the scripts.
    Every float comparison `mean > threshold` is multiplied through by the
    pixel count (and by 3 where gray is a channel mean), so each detector is
    an exact integer test. An empty frame makes numpy divide 0 by 0, and the
    resulting nan compares false; the integer tests give `0 > 0`, also false. */
module Detectors {
  import opened Common

  // ---------------------------------------------------------------------
  // mwc-capturer.py: count of pixels that changed by more than 25

  /** The `thresh` argument of `cv2.threshold`. */
  const PixelThreshold := 25
  /** The `maxval` argument of `cv2.threshold`. */
  const MaxValue := 255
  /** `motion_threshold = 1.0`. */
  const MwcMotionThreshold := 1

  /** `cv2.threshold(d, thresh, maxval, THRESH_BINARY)`: strictly above the
      threshold becomes `maxval`, everything else 0. */
  function BinaryThreshold(d: seq<int>, thresh: int, maxval: int): (t: seq<int>)
    ensures |t| == |d|
  {
    seq(|d|, i requires 0 <= i < |d| => if d[i] > thresh then maxval else 0)
  }

  /** How many entries of `d` are strictly above `t`. */
  function CountAbove(d: seq<int>, t: int): (n: nat)
    ensures n <= |d|
  {
    if d == [] then 0 else (if d[0] > t then 1 else 0) + CountAbove(d[1..], t)
  }

  /** `detect_motion(prev_frame, curr_frame)` on 8-bit gray frames:
      `np.sum(thresh) / thresh.size > motion_threshold`. `cv2.absdiff` of
      two `uint8` images saturates, so it is the exact absolute difference. */
  predicate MwcDetect(prev: seq<uint8>, curr: seq<uint8>)
    requires |prev| == |curr|
  {
    var thresh := BinaryThreshold(AbsDiff(Widen(prev), Widen(curr)), PixelThreshold, MaxValue);
    Sum(thresh) > MwcMotionThreshold * |thresh|
  }

  /** The thresholded image sums to `maxval` times the number of pixels
      above the threshold. */
  lemma {:induction false} BinaryThresholdSum(d: seq<int>, thresh: int, maxval: int)
    ensures Sum(BinaryThreshold(d, thresh, maxval)) == maxval * CountAbove(d, thresh)
  {
    if d != [] {
      assert BinaryThreshold(d, thresh, maxval)[1..] == BinaryThreshold(d[1..], thresh, maxval);
      BinaryThresholdSum(d[1..], thresh, maxval);
    }
  }

  lemma {:induction false} CountAboveNone(d: seq<int>, t: int)
    requires forall i :: 0 <= i < |d| ==> d[i] <= t
    ensures CountAbove(d, t) == 0
  {
    if d != [] {
      CountAboveNone(d[1..], t);
    }
  }

  /** Motion is reported exactly when 255 times the number of pixels whose
      gray level moved by more than 25 exceeds the pixel count. */
  lemma MwcDetectByCount(prev: seq<uint8>, curr: seq<uint8>)
    requires |prev| == |curr|
    ensures MwcDetect(prev, curr)
        <==> MaxValue * CountAbove(AbsDiff(Widen(prev), Widen(curr)), PixelThreshold) > |prev|
  {
    BinaryThresholdSum(AbsDiff(Widen(prev), Widen(curr)), PixelThreshold, MaxValue);
  }

  /** A pixel that moved by 25 or less contributes nothing: frames whose
      every pixel moved by at most 25 never report motion. */
  lemma MwcSmallChangesAreStill(prev: seq<uint8>, curr: seq<uint8>)
    requires |prev| == |curr|
    requires forall i :: 0 <= i < |prev| ==> Abs(prev[i] as int - curr[i] as int) <= PixelThreshold
    ensures !MwcDetect(prev, curr)
  {
    var d := AbsDiff(Widen(prev), Widen(curr));
    CountAboveNone(d, PixelThreshold);
    MwcDetectByCount(prev, curr);
  }

  /** Identical frames never report motion. */
  lemma MwcIdenticalFramesAreStill(f: seq<uint8>)
    ensures !MwcDetect(f, f)
  {
    var w := Widen(f);
    var d := AbsDiff(w, w);
    forall i | 0 <= i < |d|
      ensures d[i] <= PixelThreshold
    {
      assert d[i] == Abs(w[i] - w[i]);
    }
    CountAboveNone(d, PixelThreshold);
    MwcDetectByCount(f, f);
  }

  /** `cv2.absdiff` is symmetric, so the decision does not depend on which
      frame is the reference. */
  lemma MwcSymmetric(a: seq<uint8>, b: seq<uint8>)
    requires |a| == |b|
    ensures MwcDetect(a, b) == MwcDetect(b, a)
  {
    assert AbsDiff(Widen(a), Widen(b)) == AbsDiff(Widen(b), Widen(a));
  }

  // ---------------------------------------------------------------------
  // new-serv.py, gpt-fix.py, capturer.py: mean absolute difference of
  // channel-mean gray frames

  /** `np.sum(np.abs(curr - prev)) / size > threshold` where both frames
      are `np.mean(frame, axis=2)`. Gray is kept as the channel sum, three
      times the float mean, so the test becomes
      `sum |channel sum difference| > 3 * threshold * size`. */
  predicate MeanAbsDiffExceeds(prev: seq<Rgb>, curr: seq<Rgb>, threshold: int)
    requires |prev| == |curr|
  {
    Sum(AbsDiff(ChannelSums(curr), ChannelSums(prev))) > 3 * threshold * |prev|
  }

  /** If every pixel's mean gray level moves by the same `k`, motion is
      reported exactly when `|k|` exceeds the threshold. */
  lemma MeanAbsDiffUniformShift(prev: seq<Rgb>, curr: seq<Rgb>, k: int, threshold: int)
    requires |prev| == |curr| && |prev| > 0
    requires forall i :: 0 <= i < |prev| ==> ChannelSum(curr[i]) == ChannelSum(prev[i]) + 3 * k
    ensures MeanAbsDiffExceeds(prev, curr, threshold) <==> Abs(k) > threshold
  {
    var gc, gp := ChannelSums(curr), ChannelSums(prev);
    var d := AbsDiff(gc, gp);
    var a := Abs(k);
    forall i | 0 <= i < |d|
      ensures d[i] == 3 * a
    {
      assert gc[i] - gp[i] == 3 * k;
    }
    SumConstant(d, 3 * a);
    var n := |prev|;
    assert Sum(d) == (3 * a) * n;
    ScaledComparison(3 * a, 3 * threshold, n);
  }

  /** Multiplying both sides by a positive number keeps a strict comparison. */
  lemma ScaledComparison(x: int, y: int, n: int)
    requires n > 0
    ensures x * n > y * n <==> x > y
  {
    if x > y {
      assert x * n - y * n == (x - y) * n;
    } else {
      assert y * n - x * n == (y - x) * n;
    }
  }

  /** Identical frames never report motion for a non-negative threshold. */
  lemma MeanAbsDiffIdenticalFramesAreStill(f: seq<Rgb>, threshold: int)
    requires threshold >= 0
    ensures !MeanAbsDiffExceeds(f, f, threshold)
  {
    var g := ChannelSums(f);
    var d := AbsDiff(g, g);
    forall i | 0 <= i < |d|
      ensures d[i] == 0
    {
      assert d[i] == Abs(g[i] - g[i]);
    }
    SumConstant(d, 0);
  }

  /** Swapping the frames does not change the decision. */
  lemma MeanAbsDiffSymmetric(a: seq<Rgb>, b: seq<Rgb>, threshold: int)
    requires |a| == |b|
    ensures MeanAbsDiffExceeds(a, b, threshold) == MeanAbsDiffExceeds(b, a, threshold)
  {
    assert AbsDiff(ChannelSums(b), ChannelSums(a)) == AbsDiff(ChannelSums(a), ChannelSums(b));
  }

  // ---------------------------------------------------------------------
  // ds-fix.py: gray truncated to uint8, difference with 8-bit wraparound

  /** `np.mean(frame, axis=2).astype(np.uint8)`: the channel mean, whose
      fraction `astype` drops. */
  function Gray8(f: seq<Rgb>): (g: seq<uint8>)
    ensures |g| == |f|
  {
    seq(|f|, i requires 0 <= i < |f| => (ChannelSum(f[i]) / 3) as uint8)
  }

  /** `np.abs(gray - prev)` on `uint8` arrays: the subtraction wraps modulo
      256 and `abs` of an unsigned value changes nothing. */
  function WrapDiff(gray: seq<uint8>, prev: seq<uint8>): (d: seq<int>)
    requires |gray| == |prev|
    ensures |d| == |gray|
  {
    seq(|gray|, i requires 0 <= i < |gray| => (gray[i] as int - prev[i] as int) % 256)
  }

  /** `np.mean(frame_diff) > threshold`, multiplied through by the size. */
  predicate WrapMeanExceeds(prev: seq<uint8>, gray: seq<uint8>, threshold: int)
    requires |prev| == |gray|
  {
    Sum(WrapDiff(gray, prev)) > threshold * |gray|
  }

  /** Each gray pixel is the floor of its channel mean. */
  lemma Gray8IsFloorOfMean(f: seq<Rgb>, i: int)
    requires 0 <= i < |f|
    ensures 3 * (Gray8(f)[i] as int) <= ChannelSum(f[i]) < 3 * (Gray8(f)[i] as int + 1)
  {
  }

  /** The wrapped difference equals the true absolute difference only when
      the pixel did not get darker; a darker pixel gives 256 minus the
      change. */
  lemma WrapDiffAt(gray: seq<uint8>, prev: seq<uint8>, i: int)
    requires |gray| == |prev| && 0 <= i < |gray|
    ensures gray[i] >= prev[i] ==> WrapDiff(gray, prev)[i] == gray[i] as int - prev[i] as int
    ensures gray[i] < prev[i] ==> WrapDiff(gray, prev)[i] == 256 - (prev[i] as int - gray[i] as int)
  {
  }

  /** Because of the wraparound, a whole frame getting one gray level darker
      counts as motion (every pixel contributes 255)... */
  lemma WrapDarkeningByOneIsMotion(prev: seq<uint8>, gray: seq<uint8>)
    requires |prev| == |gray| && |gray| > 0
    requires forall i :: 0 <= i < |gray| ==> gray[i] as int == prev[i] as int - 1
    ensures WrapMeanExceeds(prev, gray, 20)
  {
    var d := WrapDiff(gray, prev);
    assert forall i :: 0 <= i < |d| ==> d[i] == 255;
    SumConstant(d, 255);
  }

  /** ...while the same frame getting one level brighter does not. */
  lemma WrapBrighteningByOneIsStill(prev: seq<uint8>, gray: seq<uint8>)
    requires |prev| == |gray|
    requires forall i :: 0 <= i < |gray| ==> gray[i] as int == prev[i] as int + 1
    ensures !WrapMeanExceeds(prev, gray, 20)
  {
    var d := WrapDiff(gray, prev);
    assert forall i :: 0 <= i < |d| ==> d[i] == 1;
    SumConstant(d, 1);
  }

  /** An unchanged gray frame never reports motion. */
  lemma WrapIdenticalFramesAreStill(g: seq<uint8>, threshold: int)
    requires threshold >= 0
    ensures !WrapMeanExceeds(g, g, threshold)
  {
    var d := WrapDiff(g, g);
    assert forall i :: 0 <= i < |d| ==> d[i] == 0;
    SumConstant(d, 0);
  }
}
