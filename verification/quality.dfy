/**
 The score arithmetic of the rankers' `get_quality_score`, over reals (the source computes
 with IEEE doubles and numpy/torch scalars, which are not modelled).
 */
module Quality {
  import opened Wrappers

  /** `min(sharpness / 1000.0, 1.0)`, where `calculate_image_sharpness` yields 0.0 when
      OpenCV raises. It never exceeds 1, is 0 for a failed measurement, is non-negative for
      a non-negative variance, and saturates exactly from a variance of 1000 upwards. */
  function NormalizedSharpness(sharpness: Attempt<real>): (n: real)
    ensures n <= 1.0
    ensures sharpness.Raised? ==> n == 0.0
    ensures (sharpness.Raised? || sharpness.value >= 0.0) ==> n >= 0.0
    ensures n == 1.0 <==> sharpness.Returned? && sharpness.value >= 1000.0
  {
    var s := match sharpness case Returned(v) => v case Raised => 0.0;
    if s / 1000.0 <= 1.0 then s / 1000.0 else 1.0
  }

  /** `max` of a non-empty vector: an entry no other entry exceeds. */
  function Max(ps: seq<real>): (m: real)
    requires |ps| > 0
    ensures forall i :: 0 <= i < |ps| ==> ps[i] <= m
    ensures exists i :: 0 <= i < |ps| && ps[i] == m
  {
    if |ps| == 1 then ps[0]
    else
      var rest := Max(ps[1..]);
      assert forall i :: 1 <= i < |ps| ==> ps[i] == ps[1..][i - 1];
      if ps[0] >= rest then ps[0] else rest
  }

  function Sum(ps: seq<real>): real
  {
    if |ps| == 0 then 0.0 else ps[0] + Sum(ps[1..])
  }

  /** Every entry lies in [0, 1]. */
  predicate InUnitInterval(ps: seq<real>)
  {
    forall i :: 0 <= i < |ps| ==> 0.0 <= ps[i] <= 1.0
  }

  /** A softmax output: non-negative entries summing to 1. */
  predicate IsProbabilityVector(ps: seq<real>)
  {
    && (forall i :: 0 <= i < |ps| ==> 0.0 <= ps[i])
    && Sum(ps) == 1.0
  }

  /** Non-negative entries are each at most their sum. */
  lemma {:induction false} EntryAtMostSum(ps: seq<real>)
    requires forall i :: 0 <= i < |ps| ==> 0.0 <= ps[i]
    ensures 0.0 <= Sum(ps)
    ensures forall i :: 0 <= i < |ps| ==> ps[i] <= Sum(ps)
  {
    if |ps| > 0 {
      EntryAtMostSum(ps[1..]);
      assert forall i :: 1 <= i < |ps| ==> ps[i] == ps[1..][i - 1];
    }
  }

  /** The entries of a probability vector lie in [0, 1]. */
  lemma ProbabilitiesInUnitInterval(ps: seq<real>)
    requires IsProbabilityVector(ps)
    ensures InUnitInterval(ps)
  {
    EntryAtMostSum(ps);
  }
}
