/**
 * The sampler that thins the payoff vector for reporting. The random
 * generator is an oracle: `picks` are the successive values it returns, each
 * a valid index into the data.
 */
module Sampling {

  function Min(a: int, b: int): int {
    if a <= b then a else b
  }

  /**
   * Returns the data unchanged when it has at most `sampleSize` elements;
   * otherwise `sampleSize` elements drawn with replacement, the i-th being
   * data[picks[i]].
   */
  method SampleData(data: seq<real>, sampleSize: int, picks: seq<int>) returns (sampled: seq<real>)
    requires sampleSize >= 0
    requires |data| > sampleSize ==> |picks| >= sampleSize
    requires |data| > sampleSize ==> forall i :: 0 <= i < sampleSize ==> 0 <= picks[i] < |data|
    ensures |sampled| == Min(|data|, sampleSize)
    ensures |data| <= sampleSize ==> sampled == data
    ensures |data| > sampleSize ==> forall i :: 0 <= i < sampleSize ==> sampled[i] == data[picks[i]]
    ensures forall x :: x in sampled ==> x in data
  {
    if |data| <= sampleSize {
      return data;
    }
    var buffer := new real[sampleSize](_ => 0.0);
    for i := 0 to sampleSize
      invariant forall j :: 0 <= j < i ==> buffer[j] == data[picks[j]]
    {
      buffer[i] := data[picks[i]];
    }
    sampled := buffer[..];
  }
}
