/**
 The TensorFlow classifier (src/photo_classifier.py): feature extraction where only an
 exception skips an image, and the grouping of DBSCAN labels into groups of bare
 filenames. ResNet50 and DBSCAN are foreign: `extract` is the feature extractor and
 `labels` is DBSCAN's output, one per kept image.
 */
module LegacyClassifier {
  import opened Wrappers
  import opened PyDict
  import opened Grouping
  import opened Filtering

  /** `cluster_images` returns the empty list `[]` when nothing was extracted, and a dict
      otherwise. */
  datatype Clustering = EmptyList | Groups(groups: Dict<int, seq<string>>)

  /** The loop's two accumulators: `features` and `filenames`. */
  datatype Extracted<F> = Extracted(features: seq<F>, filenames: seq<string>)

  /** Whether the extraction loop keeps an image: whenever `extract_features` returned. */
  function Kept<Img, F>(extract: Img -> Attempt<F>): ((string, Img)) -> bool
  {
    (image: (string, Img)) => extract(image.1).Returned?
  }

  /** The extraction loop (lines 40-46): an image is skipped exactly when extraction
      raised, and `features` and `filenames` stay index-aligned with the kept images. */
  function ExtractAll<Img, F>(images: seq<(string, Img)>, extract: Img -> Attempt<F>): (e: Extracted<F>)
    ensures e.filenames == Firsts(Filter(images, Kept(extract)))
    ensures |e.features| == |e.filenames|
    ensures forall j :: 0 <= j < |e.features| ==> Returned(e.features[j]) == extract(Filter(images, Kept(extract))[j].1)
  {
    if |images| == 0 then Extracted([], [])
    else
      var n := |images| - 1;
      var prev := ExtractAll(images[..n], extract);
      var kept := Filter(images[..n], Kept(extract));
      match extract(images[n].1)
        case Returned(f) =>
          assert Filter(images, Kept(extract)) == kept + [images[n]];
          FirstsAppend(kept, [images[n]]);
          Extracted(prev.features + [f], prev.filenames + [images[n].0])
        case Raised =>
          assert Filter(images, Kept(extract)) == kept;
          prev
  }

  /** `cluster_images`. Nothing extracted gives `[]` rather than a dict. Otherwise the keys
      are the labels in order of first occurrence, and each label holds exactly the bare
      filenames carrying it, in input order, unscored and unranked. */
  function ClusterImages<Img, F>(images: seq<(string, Img)>, extract: Img -> Attempt<F>, labels: seq<int>)
    : (r: Clustering)
    requires |labels| == |Filter(images, Kept(extract))|
    ensures r.EmptyList? <==> Filter(images, Kept(extract)) == []
    ensures r.Groups? ==> Keys(r.groups) == FirstOccurrences(labels) && DistinctKeys(r.groups)
    ensures r.Groups? ==>
              forall k :: Get(r.groups, k) == (if k in labels then Some(Select(labels, Firsts(Filter(images, Kept(extract))), k)) else None)
  {
    var e := ExtractAll(images, extract);
    if |e.features| == 0 then EmptyList
    else
      GroupKeys(labels, e.filenames);
      GroupLookup(labels, e.filenames);
      Groups(GroupByLabel(labels, e.filenames))
  }
}
