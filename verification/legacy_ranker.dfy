/**
 The TensorFlow ranker (src/photo_ranker.py): the quality score is the top softmax
 probability scaled to 10, then the shared ranking. Model inference is foreign:
 `probabilities` is the softmax output per image, or `Raised` when inference raised.
 */
module LegacyRanker {
  import opened Wrappers
  import opened PyDict
  import Ranking
  import Quality

  /** `get_quality_score`: `np.max(scores) * 10`, and 0.0 when anything in the `try`
      raised (`np.max` raises on an empty array). Otherwise the score is ten times one of
      the probabilities and at least ten times each of them. */
  function QualityScore(probabilities: Attempt<seq<real>>): (q: real)
    ensures probabilities.Raised? ==> q == 0.0
    ensures probabilities.Returned? && |probabilities.value| == 0 ==> q == 0.0
    ensures probabilities.Returned? ==>
              forall i :: 0 <= i < |probabilities.value| ==> 10.0 * probabilities.value[i] <= q
    ensures probabilities.Returned? && |probabilities.value| > 0 ==>
              exists i :: 0 <= i < |probabilities.value| && q == 10.0 * probabilities.value[i]
    ensures probabilities.Returned? && Quality.InUnitInterval(probabilities.value) ==> 0.0 <= q <= 10.0
  {
    match probabilities
      case Raised => 0.0
      case Returned(ps) => if |ps| == 0 then 0.0 else Quality.Max(ps) * 10.0
  }

  /** For a softmax output the score lies in [0, 10]. */
  lemma ProbabilityVectorScore(ps: seq<real>)
    requires Quality.IsProbabilityVector(ps)
    ensures 0.0 <= QualityScore(Returned(ps)) <= 10.0
  {
    Quality.ProbabilitiesInUnitInterval(ps);
  }

  /** The quality function of this copy, per image. */
  function Score<Img>(probabilities: Img -> Attempt<seq<real>>): Img -> real
  {
    img => QualityScore(probabilities(img))
  }

  /** `rank_images_in_cluster` of this copy: the shared stable descending ranking, where a
      failed image (score 0.0) comes after every member with a positive score, and where
      every score lies in [0, 10] when every member's softmax output is a probability vector. */
  function RankImagesInCluster<Img>(images: seq<(string, Img)>, probabilities: Img -> Attempt<seq<real>>)
    : (r: seq<Ranking.Scored>)
    ensures Ranking.SortedDesc(r)
    ensures multiset(r) == multiset(Ranking.ScoreAll(images, Score(probabilities)))
    ensures forall v :: Ranking.WithScore(r, v) == Ranking.WithScore(Ranking.ScoreAll(images, Score(probabilities)), v)
    ensures forall i, j :: 0 <= i < |r| && 0 <= j < |r| && r[i].1 > 0.0 && r[j].1 == 0.0 ==> i < j
    ensures (forall k :: 0 <= k < |images| ==>
               probabilities(images[k].1).Returned? ==> Quality.IsProbabilityVector(probabilities(images[k].1).value))
            ==> forall i :: 0 <= i < |r| ==> 0.0 <= r[i].1 <= 10.0
  {
    var r := Ranking.RankImagesInCluster(images, Score(probabilities));
    Ranking.PositiveBeforeZero(r);
    if forall k :: 0 <= k < |images| ==>
         probabilities(images[k].1).Returned? ==> Quality.IsProbabilityVector(probabilities(images[k].1).value)
    then
      ProbabilityScores(images, probabilities);
      Ranking.RankedScoresHold(images, Score(probabilities), r, (q: real) => 0.0 <= q <= 10.0);
      r
    else r
  }

  /** Probability vectors give every member a score in [0, 10]. */
  lemma ProbabilityScores<Img>(images: seq<(string, Img)>, probabilities: Img -> Attempt<seq<real>>)
    requires forall k :: 0 <= k < |images| ==>
               probabilities(images[k].1).Returned? ==> Quality.IsProbabilityVector(probabilities(images[k].1).value)
    ensures forall k :: 0 <= k < |images| ==> 0.0 <= Score(probabilities)(images[k].1) <= 10.0
  {
    forall k | 0 <= k < |images| ensures 0.0 <= Score(probabilities)(images[k].1) <= 10.0 {
      if probabilities(images[k].1).Returned? {
        Quality.ProbabilitiesInUnitInterval(probabilities(images[k].1).value);
      }
    }
  }

  /** `rank_clusters` of this copy. */
  function RankClusters<K(==, !new), Img>(groups: Dict<K, seq<(string, Img)>>, probabilities: Img -> Attempt<seq<real>>)
    : (r: Dict<K, seq<Ranking.Scored>>)
    ensures Keys(r) == Keys(groups)
    ensures forall k :: Get(r, k) == Ranking.RankedGroup(Get(groups, k), Score(probabilities))
  {
    Ranking.RankClusters(groups, Score(probabilities))
  }
}
