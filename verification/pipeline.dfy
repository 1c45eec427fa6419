/**
 The `/process` endpoint of src/photorank/app.py with the lite classifier plugged in
 behind `classifier.cluster_images(images)`: uploads are extracted, clustered by DBSCAN,
 ranked, and assembled into the response. DBSCAN is a parameter that returns one label
 per feature vector it is given.
 */
module Pipeline {
  import opened Wrappers
  import opened PyDict
  import opened Filtering
  import opened Web
  import opened ClassifierLite
  import Ranking

  /** The entries of one ranked group as the assembly loop reads them: the lite ranker
      always returns a float, so `float(score) if score is not None else None` keeps it. */
  function Optional(s: seq<Ranking.Scored>): seq<RankedEntry>
  {
    seq(|s|, i requires 0 <= i < |s| => (s[i].0, Some(s[i].1)))
  }

  function WithOptionalScores(d: Dict<int, seq<Ranking.Scored>>): Dict<int, seq<RankedEntry>>
  {
    seq(|d|, i requires 0 <= i < |d| => (d[i].0, Optional(d[i].1)))
  }

  /** Marking scores as present does not change which filenames the groups hold. */
  lemma {:induction false} OptionalNames(d: Dict<int, seq<Ranking.Scored>>)
    ensures Firsts(FlatValues(WithOptionalScores(d))) == Firsts(FlatValues(d))
  {
    if |d| > 0 {
      var r := WithOptionalScores(d);
      assert r[1..] == WithOptionalScores(d[1..]);
      OptionalNames(d[1..]);
      FirstsAppend(r[0].1, FlatValues(r[1..]));
      FirstsAppend(d[0].1, FlatValues(d[1..]));
    }
  }

  /** DBSCAN as the lite classifier calls it: one label per feature vector. */
  ghost predicate LabelsEveryPoint<F(!new)>(dbscan: seq<F> -> seq<int>)
  {
    forall fs :: |dbscan(fs)| == |fs|
  }

  /** `classifier.cluster_images(images)` with the lite classifier. */
  function LiteClassify<Img(!new), F(!new)>(extract: Img -> Extraction<F>, dbscan: seq<F> -> seq<int>,
                                sharpness: Img -> Attempt<real>): (classify: seq<(string, Img)> -> Classification)
    requires LabelsEveryPoint(dbscan)
    ensures forall images :: classify(images).Ranked?
  {
    (images: seq<(string, Img)>) =>
      var labels := dbscan(ExtractAll(images, extract).features);
      Ranked(WithOptionalScores(ClusterImages(images, extract, labels, sharpness)))
  }

  /** The filenames of the uploads, in upload order. */
  function UploadedNames<Img>(photos: seq<Photo<Img>>): seq<string>
  {
    seq(|photos|, i requires 0 <= i < |photos| => photos[i].filename)
  }

  /** End to end: with at least one upload the endpoint answers with results, and those
      show the filename of every upload whose features came back, once per such upload,
      and no other filename. */
  lemma ProcessShowsKeptPhotos<Img(!new), F(!new)>(photos: seq<Photo<Img>>, extract: Img -> Extraction<F>,
                                       dbscan: seq<F> -> seq<int>, sharpness: Img -> Attempt<real>)
    requires LabelsEveryPoint(dbscan)
    requires |photos| > 0
    ensures ProcessPhotos(photos, LiteClassify(extract, dbscan, sharpness)).Processed?
    ensures multiset(ShownNames(ProcessPhotos(photos, LiteClassify(extract, dbscan, sharpness)).results))
            == multiset(Firsts(Filter(Images(photos), Kept(extract))))
  {
    var images := Images(photos);
    var labels := dbscan(ExtractAll(images, extract).features);
    var clustered := ClusterImages(images, extract, labels, sharpness);
    var groups := WithOptionalScores(clustered);
    assert LiteClassify(extract, dbscan, sharpness)(images) == Ranked(groups);
    ClusterImagesNames(images, extract, labels, sharpness);
    OptionalNames(clustered);
    var kept := Filter(images, Kept(extract));
    FilterIndices(images, Kept(extract));
    assert |kept| == |Firsts(kept)|;
    forall i | 0 <= i < |FlatValues(groups)| ensures HasFilename(photos, FlatValues(groups)[i].0) {
      var name := FlatValues(groups)[i].0;
      assert name == Firsts(FlatValues(groups))[i];
      assert name in multiset(Firsts(kept));
      var j :| 0 <= j < |kept| && Firsts(kept)[j] == name;
      var k := KeptIndices(images, Kept(extract))[j];
      assert photos[k].filename == name;
    }
    ShowsEveryEntry(photos, groups);
  }

  /** When every upload's features come back, every uploaded filename is shown exactly as
      often as it was uploaded. */
  lemma ProcessShowsEveryPhoto<Img(!new), F(!new)>(photos: seq<Photo<Img>>, extract: Img -> Extraction<F>,
                                       dbscan: seq<F> -> seq<int>, sharpness: Img -> Attempt<real>)
    requires LabelsEveryPoint(dbscan)
    requires |photos| > 0
    requires forall i :: 0 <= i < |photos| ==> extract(photos[i].image).Features?
    ensures multiset(ShownNames(ProcessPhotos(photos, LiteClassify(extract, dbscan, sharpness)).results))
            == multiset(UploadedNames(photos))
  {
    var images := Images(photos);
    assert Firsts(images) == UploadedNames(photos);
    forall i | 0 <= i < |images| ensures Kept(extract)(images[i]) {
      assert images[i].1 == photos[i].image;
    }
    FilterAll(images, Kept(extract));
    ProcessShowsKeptPhotos(photos, extract, dbscan, sharpness);
  }
}
