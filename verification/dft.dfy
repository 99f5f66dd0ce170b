/**
 * `dft` of the Fourier utilities: an N-point forward discrete Fourier transform
 * normalised by 1/N, followed by the reordering of its outputs into signed-frequency
 * pairs 0, +1, -1, +2, -2, ... The cosine, sine, hypot and atan2 values are those of
 * an arbitrary `JsMath`; only the shape of the sums is modelled.
 */
module FourierTransform {
  import opened Trig

  /** An input sample, `{re, im}`. */
  datatype Complex = Complex(re: real, im: real)

  /** An output entry, `{freq, re, im, amp, phase}`. */
  datatype Coefficient = Coefficient(freq: int, re: real, im: real, amp: real, phase: real)

  /** φ = -2π·k·n/N, evaluated left to right as in the source. */
  function Angle(m: JsMath, k: nat, n: nat, size: nat): real
    requires size > 0
  {
    -(2.0 * m.pi) * (k as real) * (n as real) / (size as real)
  }

  /** The real part of `x[n]·e^{iφ}`, sample `n`'s contribution to frequency `k`. */
  function TermRe(m: JsMath, x: seq<Complex>, k: nat, n: nat): real
    requires n < |x|
  {
    var phi := Angle(m, k, n, |x|);
    x[n].re * m.cos(phi) - x[n].im * m.sin(phi)
  }

  /** The imaginary part of `x[n]·e^{iφ}`. */
  function TermIm(m: JsMath, x: seq<Complex>, k: nat, n: nat): real
    requires n < |x|
  {
    var phi := Angle(m, k, n, |x|);
    x[n].re * m.sin(phi) + x[n].im * m.cos(phi)
  }

  /** The sum of the first `count` real contributions to frequency `k`. */
  function SumRe(m: JsMath, x: seq<Complex>, k: nat, count: nat): real
    requires count <= |x|
  {
    if count == 0 then 0.0 else SumRe(m, x, k, count - 1) + TermRe(m, x, k, count - 1)
  }

  /** The sum of the first `count` imaginary contributions to frequency `k`. */
  function SumIm(m: JsMath, x: seq<Complex>, k: nat, count: nat): real
    requires count <= |x|
  {
    if count == 0 then 0.0 else SumIm(m, x, k, count - 1) + TermIm(m, x, k, count - 1)
  }

  /** The normalised frequency-`k` output, with amplitude and phase from `Math.hypot`
      and `Math.atan2`. */
  function Expected(m: JsMath, x: seq<Complex>, k: nat): Coefficient
    requires |x| > 0
  {
    var re := SumRe(m, x, k, |x|) / (|x| as real);
    var im := SumIm(m, x, k, |x|) / (|x| as real);
    Coefficient(k, re, im, m.hypot(re, im), m.atan2(im, re))
  }

  /** The inner loop of `dft` for one frequency `k`: the running sums of the weighted
      samples, before the division by N. */
  method WeightedSums(m: JsMath, x: seq<Complex>, k: nat) returns (sumRe: real, sumIm: real)
    requires |x| > 0
    ensures sumRe == SumRe(m, x, k, |x|) && sumIm == SumIm(m, x, k, |x|)
  {
    var size := |x|;
    sumRe, sumIm := 0.0, 0.0;
    var n := 0;
    while n < size
      invariant n <= size
      invariant sumRe == SumRe(m, x, k, n) && sumIm == SumIm(m, x, k, n)
    {
      var phi := -(2.0 * m.pi) * (k as real) * (n as real) / (size as real);
      assert phi == Angle(m, k, n, |x|);
      var c, s := m.cos(phi), m.sin(phi);
      sumRe := sumRe + (x[n].re * c - x[n].im * s);
      sumIm := sumIm + (x[n].re * s + x[n].im * c);
      n := n + 1;
    }
  }

  /** The double loop of `dft`: one output per frequency `k < N`, each the weighted sum
      of all N samples divided by N. */
  method Transform(m: JsMath, x: seq<Complex>) returns (out: seq<Coefficient>)
    ensures |out| == |x|
    ensures forall k :: 0 <= k < |x| ==> out[k] == Expected(m, x, k)
    ensures HypotNonNegative(m.hypot) ==> forall k :: 0 <= k < |out| ==> out[k].amp >= 0.0
  {
    var size := |x|;
    out := [];
    var k := 0;
    while k < size
      invariant k <= size && |out| == k
      invariant forall j :: 0 <= j < k ==> out[j] == Expected(m, x, j)
    {
      var sumRe, sumIm := WeightedSums(m, x, k);
      sumRe := sumRe / (size as real);
      sumIm := sumIm / (size as real);
      out := out + [Coefficient(k, sumRe, sumIm, m.hypot(sumRe, sumIm), m.atan2(sumIm, sumRe))];
      k := k + 1;
    }
  }

  /** The signed frequency at position `i` of the reordered list: 0, 1, -1, 2, -2, ... */
  function SignedFreq(i: nat): int {
    if i == 0 then 0 else if i % 2 == 1 then (i + 1) / 2 else -(i / 2)
  }

  /** The index of `out` that position `i` of the reordered list is copied from:
      0 first, then `k` for the entry of frequency +k and `N - k` for frequency -k. */
  function Source(i: nat, size: nat): int {
    if i == 0 then 0 else if i % 2 == 1 then (i + 1) / 2 else size - i / 2
  }

  /** Positions `2k - 1` and `2k` hold frequencies +k and -k, copied from `k` and `N - k`. */
  lemma PairPositions(k: int, size: nat)
    requires k >= 1
    ensures SignedFreq(2 * k - 1) == k && Source(2 * k - 1, size) == k
    ensures SignedFreq(2 * k) == -k && Source(2 * k, size) == size - k
  {
  }

  /** The reordering loop of `dft`: the frequency-0 entry first, then for each
      k = 1 .. ⌊N/2⌋ the entry of `out[k]` as frequency +k and the entry of `out[N-k]`
      as frequency -k. The `negK < N` guard never fails, so the length is 1 + 2⌊N/2⌋,
      and for even N both ±N/2 entries carry the values of `out[N/2]`. */
  method Reorder(out: seq<Coefficient>) returns (r: seq<Coefficient>)
    ensures |out| == 0 ==> r == []
    ensures |out| > 0 ==> |r| == 1 + 2 * (|out| / 2)
    ensures forall i :: 0 <= i < |r| ==>
      0 <= Source(i, |out|) < |out| && r[i] == out[Source(i, |out|)].(freq := SignedFreq(i))
  {
    var size := |out|;
    var mid := size / 2;
    r := [];
    if size > 0 {
      r := r + [out[0].(freq := 0)];
    }
    var k := 1;
    while k <= mid
      invariant 1 <= k <= mid + 1
      invariant |r| == (if size > 0 then 2 * k - 1 else 0)
      invariant forall i :: 0 <= i < |r| ==>
        0 <= Source(i, size) < size && r[i] == out[Source(i, size)].(freq := SignedFreq(i))
    {
      PairPositions(k, size);
      r := r + [out[k].(freq := k)];
      var negK := size - k;
      if negK < size {
        r := r + [out[negK].(freq := -k)];
      }
      k := k + 1;
    }
  }

  /** Entries 2k - 1 and 2k of the reordered list come from `out[k]` and `out[N - k]`
      with frequencies +k and -k; for even N the two entries of k = N/2 share their
      real and imaginary parts. */
  lemma ReorderedPairs(out: seq<Coefficient>, r: seq<Coefficient>, k: int)
    requires |out| > 0 && |r| == 1 + 2 * (|out| / 2)
    requires forall i :: 0 <= i < |r| ==>
      0 <= Source(i, |out|) < |out| && r[i] == out[Source(i, |out|)].(freq := SignedFreq(i))
    requires 1 <= k <= |out| / 2
    ensures r[2 * k - 1] == out[k].(freq := k)
    ensures r[2 * k] == out[|out| - k].(freq := -k)
    ensures 2 * k == |out| ==> r[2 * k - 1].re == r[2 * k].re && r[2 * k - 1].im == r[2 * k].im
  {
    PairPositions(k, |out|);
  }

  /** `dft`: the transform followed by the reordering. */
  method Dft(m: JsMath, x: seq<Complex>) returns (r: seq<Coefficient>)
    ensures |x| == 0 ==> r == []
    ensures |x| > 0 ==> |r| == 1 + 2 * (|x| / 2)
    ensures forall i :: 0 <= i < |r| ==>
      0 <= Source(i, |x|) < |x| && r[i] == Expected(m, x, Source(i, |x|)).(freq := SignedFreq(i))
    ensures HypotNonNegative(m.hypot) ==> forall i :: 0 <= i < |r| ==> r[i].amp >= 0.0
  {
    var out := Transform(m, x);
    r := Reorder(out);
  }

  /** No two entries of the reordered list share a frequency. */
  lemma SignedFreqInjective(i: nat, j: nat)
    requires i != j
    ensures SignedFreq(i) != SignedFreq(j)
  {
  }

  /** The plain sums of the first `count` real and imaginary parts. */
  function TotalRe(x: seq<Complex>, count: nat): real
    requires count <= |x|
  {
    if count == 0 then 0.0 else TotalRe(x, count - 1) + x[count - 1].re
  }

  function TotalIm(x: seq<Complex>, count: nat): real
    requires count <= |x|
  {
    if count == 0 then 0.0 else TotalIm(x, count - 1) + x[count - 1].im
  }

  /** At k = 0 every angle is 0, so with cos 0 = 1 and sin 0 = 0 the weighted sums
      are the plain sums of the samples. */
  lemma {:induction false} ZeroFrequencySums(m: JsMath, x: seq<Complex>, count: nat)
    requires UnitAtZero(m)
    requires count <= |x|
    ensures SumRe(m, x, 0, count) == TotalRe(x, count)
    ensures SumIm(m, x, 0, count) == TotalIm(x, count)
    decreases count
  {
    if count > 0 {
      ZeroFrequencySums(m, x, count - 1);
      assert Angle(m, 0, count - 1, |x|) == 0.0;
    }
  }

  /** The frequency-0 coefficient is the centroid of the samples; in particular a
      curve centred at the origin, as resampling leaves it, has none. */
  lemma ZeroFrequencyIsCentroid(m: JsMath, x: seq<Complex>)
    requires UnitAtZero(m)
    requires |x| > 0
    ensures Expected(m, x, 0).re == TotalRe(x, |x|) / (|x| as real)
    ensures Expected(m, x, 0).im == TotalIm(x, |x|) / (|x| as real)
    ensures TotalRe(x, |x|) == 0.0 && TotalIm(x, |x|) == 0.0 ==>
      Expected(m, x, 0).re == 0.0 && Expected(m, x, 0).im == 0.0
  {
    ZeroFrequencySums(m, x, |x|);
  }

  function AddSamples(x: seq<Complex>, y: seq<Complex>): (z: seq<Complex>)
    requires |x| == |y|
    ensures |z| == |x|
    ensures forall n :: 0 <= n < |x| ==> z[n] == Complex(x[n].re + y[n].re, x[n].im + y[n].im)
  {
    seq(|x|, n requires 0 <= n < |x| => Complex(x[n].re + y[n].re, x[n].im + y[n].im))
  }

  /** Sample `n`'s contributions add up over a sample-wise sum. */
  lemma TermsAdd(m: JsMath, x: seq<Complex>, y: seq<Complex>, k: nat, n: nat)
    requires |x| == |y| && n < |x|
    ensures TermRe(m, AddSamples(x, y), k, n) == TermRe(m, x, k, n) + TermRe(m, y, k, n)
    ensures TermIm(m, AddSamples(x, y), k, n) == TermIm(m, x, k, n) + TermIm(m, y, k, n)
  {
    var z := AddSamples(x, y);
    var phi := Angle(m, k, n, |x|);
    assert Angle(m, k, n, |z|) == phi;
    assert Angle(m, k, n, |y|) == phi;
  }

  /** The transform is additive: the sums of a sample-wise sum are the sums' sum. */
  lemma {:induction false} SumsAdd(m: JsMath, x: seq<Complex>, y: seq<Complex>, k: nat, count: nat)
    requires |x| == |y| && count <= |x|
    ensures SumRe(m, AddSamples(x, y), k, count) == SumRe(m, x, k, count) + SumRe(m, y, k, count)
    ensures SumIm(m, AddSamples(x, y), k, count) == SumIm(m, x, k, count) + SumIm(m, y, k, count)
    decreases count
  {
    if count > 0 {
      SumsAdd(m, x, y, k, count - 1);
      TermsAdd(m, x, y, k, count - 1);
    }
  }
}
