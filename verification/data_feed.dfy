/** The downsampling step of `main`: keep every `step`-th sample, where
    `step = len(samples) // len(x_vec)`. */
module DataFeed {
  import opened Arith
  import opened Results

  /** The ways the downsampling step raises instead of returning. */
  datatype Failure =
    | EmptyAxis      // `len(x_vec)` is 0, so `//` divides by zero
    | TooFewSamples  // fewer samples than labels makes `step` 0, so `i % step` divides by zero

  /** `[data for i, data in enumerate(samples) if i % step == 0]`, built one
      sample at a time from the front, as the comprehension runs. */
  function KeepMultiples(samples: seq<int>, step: nat): (kept: seq<int>)
    requires step > 0
    ensures |samples| > 0 ==> |kept| > 0 && kept[0] == samples[0]
    ensures |kept| == (|samples| + step - 1) / step
    ensures forall j :: 0 <= j < |kept| ==> j * step < |samples| && kept[j] == samples[j * step]
  {
    if |samples| == 0 then []
    else
      var last := |samples| - 1;
      var front := KeepMultiples(samples[..last], step);
      assert |front| == (last + step - 1) / step;
      KeptCountStep(last, step);
      if last % step == 0 then front + [samples[last]] else front
  }

  /** Sample `last` is kept exactly when it is a multiple of the step, and
      then it lands right after the samples kept before it. */
  lemma KeptCountStep(last: nat, step: nat)
    requires step > 0
    ensures (last + 1 + step - 1) / step == (last + step - 1) / step + (if last % step == 0 then 1 else 0)
    ensures last % step == 0 ==> (last + step - 1) / step * step == last
  {
    CeilStep(last, step);
    if last % step == 0 {
      var q := last / step;
      assert last == q * step;
      CeilOfMultiple(q, step);
    }
  }

  /** Conversely every sample at a multiple of the step is kept, at position
      index / step: the kept samples are exactly those. */
  lemma KeepMultiplesComplete(samples: seq<int>, step: nat)
    requires step > 0
    ensures forall i :: 0 <= i < |samples| && i % step == 0 ==>
      i / step < |KeepMultiples(samples, step)| && KeepMultiples(samples, step)[i / step] == samples[i]
  {
    var kept := KeepMultiples(samples, step);
    forall i | 0 <= i < |samples| && i % step == 0
      ensures i / step < |kept| && kept[i / step] == samples[i]
    {
      var q := i / step;
      DivModUnique(i, step, q, 0);
      QuotientAtLeast(|samples| + step - 1, step, q + 1);
    }
  }

  /** Lines 134-135 of `main`: the step and the kept samples, or the
      division by zero the source runs into. With no samples at all the
      comprehension never evaluates `i % step`, so nothing fails. */
  function Downsample(samples: seq<int>, axisLen: nat): (r: Result<seq<int>, Failure>)
    ensures r == Err(EmptyAxis) <==> axisLen == 0
    ensures r == Err(TooFewSamples) <==> 0 < |samples| < axisLen
    ensures r.Ok? && |samples| == 0 ==> r.value == []
    ensures r.Ok? && |samples| > 0 ==>
      var step := |samples| / axisLen;
      && step >= 1
      && |r.value| == (|samples| + step - 1) / step
      && |r.value| >= axisLen
      && forall j :: 0 <= j < |r.value| ==> j * step < |samples| && r.value[j] == samples[j * step]
  {
    if axisLen == 0 then Err(EmptyAxis)
    else
      var step := |samples| / axisLen;
      if step == 0 then
        if |samples| == 0 then Ok([]) else Err(TooFewSamples)
      else
        KeptCoversAxis(|samples|, axisLen);
        Ok(KeepMultiples(samples, step))
  }

  /** With step = n / m, at least m samples are kept. */
  lemma KeptCoversAxis(n: nat, m: nat)
    requires m > 0 && n / m > 0
    ensures n >= m
    ensures (n + n / m - 1) / (n / m) >= m
  {
    var step := n / m;
    if n < m {
      DivModUnique(n, m, 0, n);
    }
    assert step * m <= n by {
      assert n == step * m + n % m;
    }
    QuotientAtLeast(n + step - 1, step, m);
  }

  /** 90 samples on a 9-label axis: step 10, samples 0, 10, ..., 80. */
  lemma NinetySamplesNineLabels(samples: seq<int>)
    requires |samples| == 90
    ensures Downsample(samples, 9) == Ok(seq(9, j requires 0 <= j < 9 => samples[10 * j]))
  {
    var r := Downsample(samples, 9);
    var expected := seq(9, j requires 0 <= j < 9 => samples[10 * j]);
    assert |r.value| == 9;
    assert forall j :: 0 <= j < 9 ==> r.value[j] == expected[j];
    assert r.value == expected;
  }
}
