/** The microphone adapter: interleaved samples are mixed to mono, resampled by
    linear interpolation and cut into session frames. Rates are exact: the phase
    is an integer count of 1/outRate steps, and samples are real numbers. */
module Capture {
  import opened Prelude

  // --------------------------------------------------------- closed-form reference

  function Sum(xs: seq<real>): real {
    if xs == [] then 0.0 else Sum(xs[..|xs| - 1]) + xs[|xs| - 1]
  }

  /** The mono mix of each complete group of `channels` samples. */
  function Mono(samples: seq<real>, channels: nat): seq<real>
    requires channels >= 1
    decreases |samples|
  {
    if |samples| < channels then []
    else [Sum(samples[..channels]) / (channels as real)] + Mono(samples[channels..], channels)
  }

  /** The samples of the group still in progress. */
  function Unfinished(samples: seq<real>, channels: nat): (rest: seq<real>)
    requires channels >= 1
    ensures |rest| < channels
    decreases |samples|
  {
    if |samples| < channels then samples else Unfinished(samples[channels..], channels)
  }

  datatype Rates = Rates(input: nat, output: nat)

  /** How many samples `n` groups produce: ceil(n * output / input). */
  function Count(rates: Rates, n: nat): nat
    requires rates.input >= 1
  {
    (n * rates.output + rates.input - 1) / rates.input
  }

  /** The input group that output sample `k` falls in. */
  function GroupOf(rates: Rates, k: nat): nat
    requires rates.output >= 1
  {
    k * rates.input / rates.output
  }

  /** The point `phase / steps` of the way from `previous` to `next`. */
  function Lerp(previous: real, next: real, phase: nat, steps: nat): real
    requires steps >= 1
  {
    (next - previous) * (phase as real / (steps as real)) + previous
  }

  /** Output sample `k`: the input read at position k * input / output, joining
      consecutive groups by straight lines from a silent start. At equal rates
      the groups pass through. */
  function SampleAt(rates: Rates, groups: seq<real>, k: nat): real
    requires rates.output >= 1 && GroupOf(rates, k) < |groups|
  {
    var n := GroupOf(rates, k);
    if rates.input == rates.output then groups[n]
    else
      var previous := if n == 0 then 0.0 else groups[n - 1];
      Lerp(previous, groups[n], k * rates.input % rates.output, rates.output)
  }

  /** `as i16` after clamping: truncation toward zero. */
  function Quantize(v: real): (s: int)
    ensures -32767 <= s <= 32767
  {
    var clamped := if v > 1.0 then 1.0 else if v < -1.0 then -1.0 else v;
    var scaled := clamped * 32767.0;
    if scaled >= 0.0 then scaled.Floor else -((-scaled).Floor)
  }

  /** Interpolation starts at the previous group, would end at the next, and never
      overshoots either. */
  lemma LerpBetween(previous: real, next: real, phase: nat, steps: nat)
    requires steps >= 1 && phase <= steps
    ensures phase == 0 ==> Lerp(previous, next, phase, steps) == previous
    ensures phase == steps ==> Lerp(previous, next, phase, steps) == next
    ensures previous <= next ==> previous <= Lerp(previous, next, phase, steps) <= next
    ensures next <= previous ==> next <= Lerp(previous, next, phase, steps) <= previous
  {
    var fraction := phase as real / (steps as real);
    FractionInUnit(phase, steps);
    ScaledDown(next - previous, fraction);
  }

  /** Equal steps of the phase make equal increments. */
  lemma LerpSteps(previous: real, next: real, phase: nat, steps: nat)
    requires steps >= 1
    ensures Lerp(previous, next, phase + 1, steps) - Lerp(previous, next, phase, steps)
         == (next - previous) / (steps as real)
  {
    var width, d := steps as real, next - previous;
    assert (phase + 1) as real / width == phase as real / width + 1.0 / width;
    RealDistribute(d, phase as real / width, 1.0 / width);
    RealQuotient(d, width);
  }

  lemma RealDistribute(d: real, x: real, y: real)
    ensures d * (x + y) == d * x + d * y
  {
  }

  lemma RealQuotient(d: real, width: real)
    requires width > 0.0
    ensures d * (1.0 / width) == d / width
  {
  }

  /** Where an output sample falls exactly on an input position it is the group that
      ended there: silence before the first. At equal rates it is its own group. */
  lemma ExactOnGroups(rates: Rates, groups: seq<real>, k: nat, m: nat)
    requires rates.input >= 1 && rates.output >= 1 && k * rates.input == m * rates.output && m < |groups|
    ensures GroupOf(rates, k) == m
    ensures rates.input != rates.output ==>
              SampleAt(rates, groups, k) == if m == 0 then 0.0 else groups[m - 1]
    ensures rates.input == rates.output ==> k == m && SampleAt(rates, groups, k) == groups[k]
  {
    Division(k * rates.input, rates.output, m, 0);
    if rates.input == rates.output {
      Division(k * rates.input, rates.output, k, 0);
    } else {
      LerpBetween(if m == 0 then 0.0 else groups[m - 1], groups[m], 0, rates.output);
      hide Lerp;
    }
  }

  /** Group `i` of the mix is the mean of its own samples. */
  lemma {:induction false} MonoIsMean(samples: seq<real>, channels: nat, i: nat)
    requires channels >= 1 && i < |Mono(samples, channels)|
    ensures 0 <= i * channels <= |samples| - channels
    ensures Mono(samples, channels)[i] * channels as real == Sum(samples[i * channels..i * channels + channels])
    decreases |samples|
  {
    hide Sum;
    if i == 0 {
      MeanTimes(Sum(samples[..channels]), channels as real);
    } else {
      var rest, at := samples[channels..], (i - 1) * channels;
      MonoIsMean(rest, channels, i - 1);
      Distribute(i - 1, 1, channels);
      assert i * channels == at + channels;
      assert rest[at..at + channels] == samples[at + channels..at + channels + channels];
    }
  }

  lemma MeanTimes(sum: real, n: real)
    requires n > 0.0
    ensures sum / n * n == sum
  {
  }

  lemma FractionInUnit(phase: nat, steps: nat)
    requires steps >= 1 && phase <= steps
    ensures 0.0 <= phase as real / (steps as real) <= 1.0
    ensures phase == 0 ==> phase as real / (steps as real) == 0.0
    ensures phase == steps ==> phase as real / (steps as real) == 1.0
  {
  }

  lemma ScaledDown(x: real, fraction: real)
    requires 0.0 <= fraction <= 1.0
    ensures x >= 0.0 ==> 0.0 <= x * fraction <= x
    ensures x <= 0.0 ==> x <= x * fraction <= 0.0
    ensures fraction == 0.0 ==> x * fraction == 0.0
    ensures fraction == 1.0 ==> x * fraction == x
  {
  }

  /** Quantisation clips to full scale, loses less than one unit toward zero, and
      treats both signs alike. */
  lemma QuantizeExact(v: real)
    ensures v >= 1.0 ==> Quantize(v) == 32767
    ensures 0.0 <= v <= 1.0 ==> Quantize(v) as real <= v * 32767.0 < Quantize(v) as real + 1.0
    ensures Quantize(-v) == -Quantize(v)
  {
  }

  /** Output samples up to `Count` fall inside the input, and no later ones do. */
  lemma CountIsExact(rates: Rates, n: nat, k: nat)
    requires rates.input >= 1 && rates.output >= 1
    ensures k < Count(rates, n) <==> k * rates.input < n * rates.output
    ensures k < Count(rates, n) <==> GroupOf(rates, k) < n
  {
    var at, end := k * rates.input, n * rates.output;
    QuotientBelow(end + rates.input - 1, rates.input, k + 1);
    assert (k + 1) * rates.input == at + rates.input;
    QuotientBelow(at, rates.output, n);
  }

  /** The whole output for a stream of groups. */
  function Resampled(rates: Rates, groups: seq<real>): (out: seq<int>)
    requires rates.input >= 1 && rates.output >= 1
    ensures |out| == Count(rates, |groups|)
  {
    seq(Count(rates, |groups|), k requires 0 <= k < Count(rates, |groups|) =>
      CountIsExact(rates, |groups|, k);
      Quantize(SampleAt(rates, groups, k)))
  }

  /** Later input never changes what was already produced. */
  lemma ResampledGrows(rates: Rates, groups: seq<real>, more: seq<real>)
    requires rates.input >= 1 && rates.output >= 1
    ensures Resampled(rates, groups) <= Resampled(rates, groups + more)
  {
    var all := groups + more;
    var short, long := Resampled(rates, groups), Resampled(rates, all);
    forall k | 0 <= k < |short|
      ensures k < |long| && short[k] == long[k]
    {
      CountIsExact(rates, |groups|, k);
      CountIsExact(rates, |all|, k);
      assert SampleAt(rates, groups, k) == SampleAt(rates, all, k);
    }
    if |long| < |short| {
      CountIsExact(rates, |groups|, |long|);
      CountIsExact(rates, |all|, |long|);
      assert false;
    }
  }

  /** One second of input makes exactly one second of output, for any rates. */
  lemma SecondForSecond(rates: Rates, seconds: nat)
    requires rates.input >= 1 && rates.output >= 1
    ensures Count(rates, seconds * rates.input) == seconds * rates.output
  {
    var total := seconds * rates.output;
    assert seconds * rates.input * rates.output == total * rates.input;
    Division(total * rates.input + rates.input - 1, rates.input, total, rates.input - 1);
  }

  // --------------------------------------------------------------------- the code

  class CaptureAdapter {
    const inChannels: nat
    const rates: Rates
    const frameSamples: nat
    /** `pos`, in units of 1/outRate. */
    var phase: nat
    var prev: real
    var chanSum: real
    var chanN: nat
    var frame: seq<int>
    /** Every full frame handed to the queue (which may refuse it). */
    var offered: seq<seq<int>>
    ghost var samples: seq<real>

    ghost predicate Configured() {
      inChannels >= 1 && rates.input >= 1 && rates.output >= 1
    }

    ghost predicate FramesCut()
      reads this`frame, this`offered
    {
      && (forall i :: 0 <= i < |offered| ==> |offered[i]| == Max(frameSamples, 1))
      && |frame| < Max(frameSamples, 1)
    }

    /** What has been emitted so far. */
    ghost function Emitted(): seq<int>
      reads this`frame, this`offered
    {
      Concat(offered) + frame
    }

    ghost predicate Valid()
      reads this
      requires Configured()
    {
      var groups := Mono(samples, inChannels);
      && FramesCut()
      && Emitted() == Resampled(rates, groups)
      && chanN == |Unfinished(samples, inChannels)|
      && chanSum == Sum(Unfinished(samples, inChannels))
      && prev == (if groups == [] then 0.0 else groups[|groups| - 1])
      && (rates.input != rates.output ==>
            phase == Count(rates, |groups|) * rates.input - |groups| * rates.output)
    }

    constructor (inChannels: nat, rates: Rates, frameSamples: nat)
      requires inChannels >= 1 && rates.input >= 1 && rates.output >= 1
      ensures Configured() && Valid() && samples == [] && offered == []
      ensures this.inChannels == inChannels && this.rates == rates && this.frameSamples == frameSamples
    {
      this.inChannels, this.rates, this.frameSamples := inChannels, rates, frameSamples;
      phase, prev, chanSum, chanN := 0, 0.0, 0.0, 0;
      frame, offered, samples := [], [], [];
      new;
      Division(rates.input - 1, rates.input, 0, rates.input - 1);
    }

    /** The rate is kept exactly: ceil(n * out / in) samples after `n` complete
        groups, in as many whole frames as they fill. */
    lemma RateKept()
      requires Configured() && Valid()
      ensures |Emitted()| == Count(rates, |samples| / inChannels)
      ensures |offered| == |Emitted()| / Max(frameSamples, 1)
    {
      GroupsComplete(samples, inChannels);
      ConcatLength(offered, Max(frameSamples, 1));
      Division(|Emitted()|, Max(frameSamples, 1), |offered|, |frame|);
    }

    method Emit(v: real)
      requires FramesCut()
      modifies this`frame, this`offered
      ensures FramesCut()
      ensures Emitted() == old(Emitted()) + [Quantize(v)]
      ensures old(offered) <= offered
    {
      frame := frame + [Quantize(v)];
      if |frame| >= frameSamples {
        offered := offered + [frame];
        assert offered[..|offered| - 1] == old(offered);
        frame := [];
      }
    }

    method Push(sample: real)
      requires Configured() && Valid()
      modifies this
      ensures Valid() && samples == old(samples) + [sample]
      ensures old(offered) <= offered
    {
      hide Mono, Unfinished, Resampled, Count, Sum;
      MonoAppend(samples, sample, inChannels);
      SumAppend(Unfinished(samples, inChannels), sample);
      ghost var groups := Mono(samples, inChannels);
      SumOfNone();
      samples := samples + [sample];
      chanSum := chanSum + sample;
      chanN := chanN + 1;
      if chanN < inChannels {
        return;
      }
      var mono := chanSum / (inChannels as real);
      chanSum, chanN := 0.0, 0;
      ProduceGroup(mono, groups);
      prev := mono;
    }

    /** Emits every output sample that falls in the group just completed. */
    method ProduceGroup(mono: real, ghost groups: seq<real>)
      requires Configured() && FramesCut() && Emitted() == Resampled(rates, groups)
      requires prev == if groups == [] then 0.0 else groups[|groups| - 1]
      requires rates.input != rates.output ==> phase == Count(rates, |groups|) * rates.input - |groups| * rates.output
      modifies this`phase, this`frame, this`offered
      ensures FramesCut() && Emitted() == Resampled(rates, groups + [mono])
      ensures rates.input != rates.output ==>
                phase == Count(rates, |groups| + 1) * rates.input - (|groups| + 1) * rates.output
      ensures old(offered) <= offered
    {
      hide Resampled, Count, Quantize, Lerp, Emitted, FramesCut;
      ghost var all := groups + [mono];
      ResampledGrows(rates, groups, [mono]);
      if rates.input == rates.output {
        CountAtEqualRates(rates, |groups|);
        CountAtEqualRates(rates, |all|);
        SampleInGroup(rates, groups, mono, |groups|, 0);
        Emit(mono);
        assert Emitted() == Resampled(rates, all);
      } else {
        Interpolate(mono, groups);
      }
    }

    /** The inner loop: one output sample per step of the phase, until the phase
        leaves the group. */
    method Interpolate(mono: real, ghost groups: seq<real>)
      requires Configured() && FramesCut() && Emitted() <= Resampled(rates, groups + [mono])
      requires rates.input != rates.output && prev == if groups == [] then 0.0 else groups[|groups| - 1]
      requires phase == |Emitted()| * rates.input - |groups| * rates.output
      modifies this`phase, this`frame, this`offered
      ensures FramesCut() && Emitted() == Resampled(rates, groups + [mono])
      ensures phase == |Emitted()| * rates.input - (|groups| + 1) * rates.output
      ensures old(offered) <= offered
    {
      hide Resampled, Count, Quantize, Lerp, Emitted, FramesCut;
      ghost var all := groups + [mono];
      while phase < rates.output
        invariant FramesCut() && Emitted() <= Resampled(rates, all) && old(offered) <= offered
        invariant phase == |Emitted()| * rates.input - |groups| * rates.output
        decreases rates.output - phase
      {
        ghost var k := |Emitted()|;
        SampleInGroup(rates, groups, mono, k, phase);
        Emit(Lerp(prev, mono, phase, rates.output));
        assert (k + 1) * rates.input == k * rates.input + rates.input;
        phase := phase + rates.input;
      }
      assert (|groups| + 1) * rates.output == |groups| * rates.output + rates.output;
      CountIsExact(rates, |all|, |Emitted()|);
      phase := phase - rates.output;
    }
  }

  lemma {:induction false} GroupsComplete(samples: seq<real>, channels: nat)
    requires channels >= 1
    ensures |Mono(samples, channels)| == |samples| / channels
    decreases |samples|
  {
    var groups := |Mono(samples, channels)|;
    if |samples| < channels {
      Division(|samples|, channels, 0, |samples|);
    } else {
      var left := |samples| - channels;
      GroupsComplete(samples[channels..], channels);
      Division(|samples|, channels, left / channels + 1, left % channels);
    }
  }

  lemma {:induction false} ConcatLength(frames: seq<seq<int>>, size: nat)
    requires forall i :: 0 <= i < |frames| ==> |frames[i]| == size
    ensures |Concat(frames)| == |frames| * size
  {
    if frames != [] {
      ConcatLength(frames[..|frames| - 1], size);
      assert (|frames| - 1) * size + size == |frames| * size;
    }
  }

  lemma SumOfNone()
    ensures Sum([]) == 0.0
  {
  }

  lemma SumAppend(xs: seq<real>, x: real)
    ensures Sum(xs + [x]) == Sum(xs) + x
  {
    var all := xs + [x];
    assert all[..|all| - 1] == xs;
  }

  /** A further sample joins the group in progress, or completes it. */
  lemma {:induction false} MonoAppend(samples: seq<real>, x: real, channels: nat)
    requires channels >= 1
    ensures var open, all := Unfinished(samples, channels) + [x], samples + [x];
            if |open| < channels
            then Mono(all, channels) == Mono(samples, channels) && Unfinished(all, channels) == open
            else Mono(all, channels) == Mono(samples, channels) + [Sum(open) / (channels as real)]
                 && Unfinished(all, channels) == []
    decreases |samples|
  {
    hide Sum;
    var all := samples + [x];
    if |samples| >= channels {
      MonoAppend(samples[channels..], x, channels);
      assert all[channels..] == samples[channels..] + [x] && all[..channels] == samples[..channels];
    } else if |all| == channels {
      assert all[..channels] == all && all[channels..] == [];
    }
  }

  lemma CountAtEqualRates(rates: Rates, n: nat)
    requires rates.input == rates.output >= 1
    ensures Count(rates, n) == n
  {
    Division(n * rates.output + rates.input - 1, rates.input, n, rates.input - 1);
  }

  /** The sample the code computes at `phase` inside the newest group. */
  lemma SampleInGroup(rates: Rates, groups: seq<real>, mono: real, k: nat, phase: nat)
    requires rates.input >= 1 && rates.output >= 1
    requires phase < rates.output && phase == k * rates.input - |groups| * rates.output
    ensures k < Count(rates, |groups| + 1)
    ensures var previous := if groups == [] then 0.0 else groups[|groups| - 1];
            Resampled(rates, groups + [mono])[k]
            == Quantize(if rates.input == rates.output then mono else Lerp(previous, mono, phase, rates.output))
  {
    var all := groups + [mono];
    hide Quantize, Count, Lerp;
    Division(k * rates.input, rates.output, |groups|, phase);
    CountIsExact(rates, |all|, k);
    assert all[|groups|] == mono && (groups != [] ==> all[|groups| - 1] == groups[|groups| - 1]);
  }
}
