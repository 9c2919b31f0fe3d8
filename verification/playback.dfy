/** The playback half of `main` and the stacked-bar complement of
    `bar_plotter`: the value buffer is filled one position per frame, and each
    frame is what the plotting function is handed. */
module Playback {
  import opened Clock
  import opened Results
  import opened TimeAxis
  import opened DataFeed

  /** The buffer after the playback step for position i: positions up to i
      hold the kept samples, later positions still hold the initial buffer. */
  predicate IsFrame(frame: seq<int>, i: int, kept: seq<int>, initial: seq<int>) {
    && |frame| == |initial|
    && forall j :: 0 <= j < |frame| ==>
         && (j <= i ==> j < |kept| && frame[j] == kept[j])
         && (j > i ==> frame[j] == initial[j])
  }

  /** Lines 142-145 of `main`: for each kept sample, stop once past the last
      label, else write it into the buffer and hand the buffer to the
      plotter. Returns the buffer as each plotter call saw it, and the buffer
      at the end. */
  method Play(xVec: seq<string>, yVec: seq<int>, kept: seq<int>) returns (frames: seq<seq<int>>, y: seq<int>)
    requires |yVec| == |xVec|
    ensures |frames| == if |kept| < |xVec| then |kept| else |xVec|
    ensures forall i :: 0 <= i < |frames| ==> IsFrame(frames[i], i, kept, yVec)
    ensures IsFrame(y, |frames| - 1, kept, yVec)
  {
    y := yVec;
    frames := [];
    var i := 0;
    while i < |kept|
      invariant 0 <= i <= |kept| && i <= |xVec|
      invariant |frames| == i
      invariant IsFrame(y, i - 1, kept, yVec)
      invariant forall f :: 0 <= f < i ==> IsFrame(frames[f], f, kept, yVec)
    {
      if i >= |xVec| {
        break;
      }
      y := y[i := kept[i]];
      frames := frames + [y];
      i := i + 1;
    }
  }

  /** Each playback step changes the buffer at its own position only. */
  lemma FrameStep(previous: seq<int>, next: seq<int>, i: nat, kept: seq<int>, initial: seq<int>)
    requires i < |initial| && i < |kept|
    requires IsFrame(previous, i - 1, kept, initial) && IsFrame(next, i, kept, initial)
    ensures next == previous[i := kept[i]]
  {
  }

  /** `main` without the drawing: build the axis, load nothing (the samples
      are given), downsample, and play back. The result is the sequence of
      buffers handed to the plotter, or the division by zero that ends the
      run first. */
  method Run(start: string, end: string, interval: int, samples: seq<int>) returns (r: Result<seq<seq<int>>, Failure>)
    requires WellFormed(start) && WellFormed(end) && ValidInterval(interval)
    ensures var axis := AxisOf(start, end, interval);
      && (r == Err(EmptyAxis) <==> |axis| == 0)
      && (r == Err(TooFewSamples) <==> 0 < |samples| < |axis|)
    ensures r.Ok? ==> |r.value| == if |samples| == 0 then 0 else |AxisOf(start, end, interval)|
    ensures r.Ok? && |samples| > 0 ==>
      var axis := AxisOf(start, end, interval);
      var step := |samples| / |axis|;
      && step >= 1
      && forall i :: 0 <= i < |r.value| ==>
           IsFrame(r.value[i], i, KeepMultiples(samples, step), seq(|axis|, _ => 0))
  {
    var xVec, yVec := GetXyVec(start, end, interval);
    var kept := Downsample(samples, |xVec|);
    if kept.Err? {
      return Err(kept.error);
    }
    assert yVec == seq(|xVec|, _ => 0);
    var frames, _ := Play(xVec, yVec, kept.value);
    r := Ok(frames);
  }

  /** `y2_data = [N - data if data else 0 for data in y_data]`: on top of
      every non-zero bar the second bar fills up to the ceiling n; a zero bar
      gets no second bar. */
  function StackedComplement(n: int, y: seq<int>): (y2: seq<int>)
    ensures |y2| == |y|
    ensures forall k :: 0 <= k < |y| ==>
      && (y[k] != 0 ==> y[k] + y2[k] == n)
      && (y[k] == 0 ==> y2[k] == 0)
  {
    seq(|y|, k requires 0 <= k < |y| => if y[k] != 0 then n - y[k] else 0)
  }

  /** Taking the complement twice gives the bars back, as long as no bar is
      already at the ceiling (whose complement would be the empty bar 0). */
  lemma StackedComplementTwice(n: int, y: seq<int>)
    requires forall k :: 0 <= k < |y| ==> y[k] != n
    ensures StackedComplement(n, StackedComplement(n, y)) == y
  {
    var y2 := StackedComplement(n, y);
    var y3 := StackedComplement(n, y2);
    forall k | 0 <= k < |y|
      ensures y3[k] == y[k]
    {
      if y[k] != 0 {
        assert y2[k] == n - y[k] != 0;
      }
    }
  }
}
