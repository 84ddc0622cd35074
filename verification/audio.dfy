/** The one step of the frequency analysis kept in the model: folding the eight
    analysed bands into bass, mid and high (`analyze_frequency_bands`, last
    three assignments). The FFT producing the eight bands is not modelled. */
module Audio {

  const NumBands := 8

  function Mean2(a: real, b: real): real { (a + b) / 2.0 }

  /** Slots 0, 1 and 2 become the means of bands 0-1, 2-3 and 4-5; slots 3..7
      keep their analysed values. Each new slot lies between the two bands it
      averages. */
  function ReduceBands(raw: seq<real>): (r: seq<real>)
    requires |raw| == NumBands
    ensures |r| == NumBands
    ensures forall k :: 3 <= k < NumBands ==> r[k] == raw[k]
    ensures forall k :: 0 <= k < 3 ==>
      (raw[2 * k] <= r[k] <= raw[2 * k + 1]) || (raw[2 * k + 1] <= r[k] <= raw[2 * k])
    ensures forall k :: 0 <= k < 3 ==> 2.0 * r[k] == raw[2 * k] + raw[2 * k + 1]
  {
    [Mean2(raw[0], raw[1]), Mean2(raw[2], raw[3]), Mean2(raw[4], raw[5])] + raw[3..]
  }

  /** Non-negative band magnitudes stay non-negative after the reduction. */
  lemma ReduceKeepsNonNegative(raw: seq<real>)
    requires |raw| == NumBands && forall k :: 0 <= k < NumBands ==> 0.0 <= raw[k]
    ensures forall k :: 0 <= k < NumBands ==> 0.0 <= ReduceBands(raw)[k]
  {
    var r := ReduceBands(raw);
    assert forall k :: 0 <= k < 3 ==> 2.0 * r[k] == raw[2 * k] + raw[2 * k + 1];
  }
}
