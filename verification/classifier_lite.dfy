/**
 The lite classifier (src/photorank/photo_classifier_lite.py): feature extraction with
 failures filtered out, DBSCAN labels grouped by cluster id, and each group ranked by a
 sharpness-only quality score. Feature extraction, DBSCAN and the OpenCV Laplacian are
 foreign calls: `extract` and `sharpness` are parameters and `labels` is DBSCAN's output.
 */
module ClassifierLite {
  import opened Wrappers
  import opened PyDict
  import opened Grouping
  import opened Filtering
  import Ranking
  import Quality

  /** What one turn of the extraction loop sees: feature vector, `None` (the method
      catches its own errors and returns `None`), or an exception escaping to the loop. */
  datatype Extraction<F> = Features(features: F) | NoFeatures | ExtractionRaised

  /** The loop's three accumulators: `features`, `filenames` and `image_dict`. */
  datatype Extracted<F, Img> = Extracted(features: seq<F>, filenames: seq<string>, imageDict: Dict<string, Img>)

  /** `get_quality_score`: the normalised sharpness scaled to 10. */
  function QualityScore(sharpness: Attempt<real>): (q: real)
    ensures q <= 10.0
    ensures sharpness.Raised? ==> q == 0.0
    ensures sharpness.Returned? && sharpness.value >= 0.0 ==> q >= 0.0
    ensures q == 10.0 <==> sharpness.Returned? && sharpness.value >= 1000.0
  {
    Quality.NormalizedSharpness(sharpness) * 10.0
  }

  /** The quality function of this copy, per image. */
  function Score<Img>(sharpness: Img -> Attempt<real>): Img -> real
  {
    img => QualityScore(sharpness(img))
  }

  /** `rank_images_in_cluster` of this copy: the shared stable descending ranking, whose
      scores all lie at or below 10 and where every member scoring 0.0 (a failed image)
      comes after every member with a positive score. */
  function RankImagesInCluster<Img>(images: seq<(string, Img)>, sharpness: Img -> Attempt<real>)
    : (r: seq<Ranking.Scored>)
    ensures Ranking.SortedDesc(r)
    ensures multiset(r) == multiset(Ranking.ScoreAll(images, Score(sharpness)))
    ensures forall v :: Ranking.WithScore(r, v) == Ranking.WithScore(Ranking.ScoreAll(images, Score(sharpness)), v)
    ensures forall i :: 0 <= i < |r| ==> r[i].1 <= 10.0
    ensures forall i, j :: 0 <= i < |r| && 0 <= j < |r| && r[i].1 > 0.0 && r[j].1 == 0.0 ==> i < j
  {
    var r := Ranking.RankImagesInCluster(images, Score(sharpness));
    Ranking.PositiveBeforeZero(r);
    Ranking.RankedScoresHold(images, Score(sharpness), r, (q: real) => q <= 10.0);
    r
  }

  /** `rank_clusters` of this copy. */
  function RankClusters<Img>(groups: Dict<int, seq<(string, Img)>>, sharpness: Img -> Attempt<real>)
    : (r: Dict<int, seq<Ranking.Scored>>)
    ensures Keys(r) == Keys(groups)
    ensures forall k :: Get(r, k) == Ranking.RankedGroup(Get(groups, k), Score(sharpness))
  {
    Ranking.RankClusters(groups, Score(sharpness))
  }

  /** Whether the extraction loop keeps an image: only when features came back. */
  function Kept<Img, F>(extract: Img -> Extraction<F>): ((string, Img)) -> bool
  {
    (image: (string, Img)) => extract(image.1).Features?
  }

  /** The image kept last under filename `name`, searching from the end. */
  function LastKeptImage<Img, F>(images: seq<(string, Img)>, extract: Img -> Extraction<F>, name: string): Option<Img>
  {
    if |images| == 0 then None
    else
      var n := |images| - 1;
      if images[n].0 == name && extract(images[n].1).Features? then Some(images[n].1)
      else LastKeptImage(images[..n], extract, name)
  }

  /** The extraction loop (lines 111-119): exactly the images whose extraction returned
      features are kept, `features` and `filenames` stay index-aligned with them, and
      `image_dict` maps each kept filename to the image kept last under that name. */
  function ExtractAll<Img, F>(images: seq<(string, Img)>, extract: Img -> Extraction<F>): (e: Extracted<F, Img>)
    ensures e.filenames == Firsts(Filter(images, Kept(extract)))
    ensures |e.features| == |e.filenames|
    ensures forall j :: 0 <= j < |e.features| ==> Features(e.features[j]) == extract(Filter(images, Kept(extract))[j].1)
    ensures forall name :: name in Keys(e.imageDict) <==> name in e.filenames
    ensures forall name :: Get(e.imageDict, name) == LastKeptImage(images, extract, name)
  {
    if |images| == 0 then Extracted([], [], [])
    else
      var n := |images| - 1;
      var prev := ExtractAll(images[..n], extract);
      var kept := Filter(images[..n], Kept(extract));
      var (name, img) := images[n];
      match extract(img)
        case Features(f) =>
          assert Filter(images, Kept(extract)) == kept + [images[n]];
          FirstsAppend(kept, [images[n]]);
          ImageDictStep(images, extract, prev.imageDict);
          Extracted(prev.features + [f], prev.filenames + [name], Put(prev.imageDict, name, img))
        case _ =>
          assert Filter(images, Kept(extract)) == kept;
          assert forall name' :: LastKeptImage(images, extract, name') == LastKeptImage(images[..n], extract, name');
          prev
  }

  /** Storing a kept image under its filename keeps `image_dict` in step with the images
      kept last under each name. */
  lemma ImageDictStep<Img, F>(images: seq<(string, Img)>, extract: Img -> Extraction<F>, d: Dict<string, Img>)
    requires |images| > 0 && extract(images[|images| - 1].1).Features?
    requires forall name :: Get(d, name) == LastKeptImage(images[..|images| - 1], extract, name)
    ensures forall name :: Get(Put(d, images[|images| - 1].0, images[|images| - 1].1), name)
                           == LastKeptImage(images, extract, name)
  {
    var n := |images| - 1;
    PutOthers(d, images[n].0, images[n].1);
  }

  /** The members handed to the grouping loop: `(filenames[i], image_dict[filenames[i]])`.
      They carry the filenames of the kept images in order, and with duplicate filenames
      every same-named member carries the image kept last. */
  function Members<Img, F>(images: seq<(string, Img)>, extract: Img -> Extraction<F>): (m: seq<(string, Img)>)
    ensures Firsts(m) == Firsts(Filter(images, Kept(extract)))
    ensures forall j :: 0 <= j < |m| ==> LastKeptImage(images, extract, m[j].0) == Some(m[j].1)
  {
    var e := ExtractAll(images, extract);
    seq(|e.filenames|, i requires 0 <= i < |e.filenames| => (e.filenames[i], Get(e.imageDict, e.filenames[i]).value))
  }

  /** `cluster_images`. `labels` is what DBSCAN returned for the extracted features, one
      per kept image. No features gives the empty dict without clustering or ranking.
      Otherwise the keys are the labels in order of first occurrence and each label's
      value is the ranking of exactly the members carrying it, in input order. */
  function ClusterImages<Img, F>(images: seq<(string, Img)>, extract: Img -> Extraction<F>,
                                 labels: seq<int>, sharpness: Img -> Attempt<real>)
    : (r: Dict<int, seq<Ranking.Scored>>)
    requires |labels| == |Filter(images, Kept(extract))|
    ensures Filter(images, Kept(extract)) == [] ==> r == []
    ensures Keys(r) == FirstOccurrences(labels)
    ensures DistinctKeys(r)
    ensures forall k :: k in labels ==>
              Get(r, k) == Some(RankImagesInCluster(Select(labels, Members(images, extract), k), sharpness))
    ensures forall k :: k !in labels ==> Get(r, k) == None
  {
    var e := ExtractAll(images, extract);
    if |e.features| == 0 then []
    else
      var members := Members(images, extract);
      var groups := GroupByLabel(labels, members);
      GroupKeys(labels, members);
      GroupLookup(labels, members);
      RankClusters(groups, sharpness)
  }

  /** Every image whose features came back appears in exactly one ranked group, once per
      time it was passed in, and no other filename appears. */
  lemma ClusterImagesNames<Img, F>(images: seq<(string, Img)>, extract: Img -> Extraction<F>,
                                   labels: seq<int>, sharpness: Img -> Attempt<real>)
    requires |labels| == |Filter(images, Kept(extract))|
    ensures multiset(Firsts(FlatValues(ClusterImages(images, extract, labels, sharpness))))
            == multiset(Firsts(Filter(images, Kept(extract))))
  {
    var members := Members(images, extract);
    if |Filter(images, Kept(extract))| > 0 {
      var groups := GroupByLabel(labels, members);
      assert ClusterImages(images, extract, labels, sharpness) == Ranking.RankClusters(groups, Score(sharpness));
      Ranking.RankClustersNames(groups, Score(sharpness));
      GroupsPartition(labels, members);
      FirstsPermutation(FlatValues(groups), members);
    }
  }
}
