/**
 The torch ranker (src/photorank/photo_ranker.py): a quality score blending the top
 softmax probability of MobileNetV2 with normalised sharpness, then the shared ranking.
 Model loading and inference are foreign: `probabilities` is the softmax output per image,
 or `Raised` when loading or inference raised.
 */
module PhotoRanker {
  import opened Wrappers
  import opened PyDict
  import Ranking
  import Quality

  /** The inputs of one image's score are in range: softmax entries in [0, 1] and a
      non-negative sharpness variance (or a failed measurement). */
  predicate ValidMeasurement(probabilities: Attempt<seq<real>>, sharpness: Attempt<real>)
  {
    && (probabilities.Returned? ==> Quality.InUnitInterval(probabilities.value))
    && (sharpness.Returned? ==> sharpness.value >= 0.0)
  }

  /** `get_quality_score`: `(0.7 * max_confidence + 0.3 * normalized_sharpness) * 10`, and
      0.0 when anything in the `try` raised (`torch.max` raises on an empty tensor). With
      in-range inputs the score lies in [0, 10]. */
  function QualityScore(probabilities: Attempt<seq<real>>, sharpness: Attempt<real>): (q: real)
    ensures probabilities.Raised? ==> q == 0.0
    ensures probabilities.Returned? && |probabilities.value| == 0 ==> q == 0.0
    ensures ValidMeasurement(probabilities, sharpness) ==> 0.0 <= q <= 10.0
  {
    match probabilities
      case Raised => 0.0
      case Returned(ps) =>
        if |ps| == 0 then 0.0
        else
          var maxConfidence := Quality.Max(ps);
          (0.7 * maxConfidence + 0.3 * Quality.NormalizedSharpness(sharpness)) * 10.0
  }

  /** The quality function of this copy, per image. */
  function Score<Img>(probabilities: Img -> Attempt<seq<real>>, sharpness: Img -> Attempt<real>): Img -> real
  {
    img => QualityScore(probabilities(img), sharpness(img))
  }

  /** `rank_images_in_cluster` of this copy: the shared stable descending ranking, where a
      failed image (score 0.0) comes after every member with a positive score, and where
      every score lies in [0, 10] when every member's inputs are in range. */
  function RankImagesInCluster<Img>(images: seq<(string, Img)>,
                                    probabilities: Img -> Attempt<seq<real>>, sharpness: Img -> Attempt<real>)
    : (r: seq<Ranking.Scored>)
    ensures Ranking.SortedDesc(r)
    ensures multiset(r) == multiset(Ranking.ScoreAll(images, Score(probabilities, sharpness)))
    ensures forall v :: Ranking.WithScore(r, v)
                        == Ranking.WithScore(Ranking.ScoreAll(images, Score(probabilities, sharpness)), v)
    ensures forall i, j :: 0 <= i < |r| && 0 <= j < |r| && r[i].1 > 0.0 && r[j].1 == 0.0 ==> i < j
    ensures (forall k :: 0 <= k < |images| ==> ValidMeasurement(probabilities(images[k].1), sharpness(images[k].1)))
            ==> forall i :: 0 <= i < |r| ==> 0.0 <= r[i].1 <= 10.0
  {
    var r := Ranking.RankImagesInCluster(images, Score(probabilities, sharpness));
    Ranking.PositiveBeforeZero(r);
    if forall k :: 0 <= k < |images| ==> ValidMeasurement(probabilities(images[k].1), sharpness(images[k].1)) then
      Ranking.RankedScoresHold(images, Score(probabilities, sharpness), r, (q: real) => 0.0 <= q <= 10.0);
      r
    else r
  }

  /** `rank_clusters` of this copy. */
  function RankClusters<K(==, !new), Img>(groups: Dict<K, seq<(string, Img)>>,
                                          probabilities: Img -> Attempt<seq<real>>, sharpness: Img -> Attempt<real>)
    : (r: Dict<K, seq<Ranking.Scored>>)
    ensures Keys(r) == Keys(groups)
    ensures forall k :: Get(r, k) == Ranking.RankedGroup(Get(groups, k), Score(probabilities, sharpness))
  {
    Ranking.RankClusters(groups, Score(probabilities, sharpness))
  }
}
