/**
 The `/process` endpoint of src/app.py as written, together with the classifier it
 constructs (src/photo_classifier.py). That classifier hands back groups of bare filename
 strings, or the empty list `[]`. The assembly loop shared with src/photorank/app.py
 expects `(filename, score)` pairs instead. It unpacks each string into two names, which
 raises for every string that is not exactly two characters long.
 */
module LegacyProcess {
  import opened Wrappers
  import opened PyDict
  import opened Filtering
  import opened Grouping
  import opened Web
  import LegacyClassifier
  import Pipeline

  /** What `for filename, score in ranked_images` makes of one bare filename string.
      Unpacking raises unless the string has exactly two characters; then `filename` is its
      first character and `score` its second. The join looks the one-character filename up
      among the uploads, and only a matched entry reaches `float(score)`. Python's `float`
      on a one-character string is the parameter `toFloat`. An unmatched entry is dropped
      by the join, so its score is never read. */
  function UnpackName<Img>(photos: seq<Photo<Img>>, name: string, toFloat: string -> Attempt<real>)
    : (r: Attempt<RankedEntry>)
    ensures r.Returned? ==> |name| == 2 && r.value.0 == name[..1]
    ensures |name| != 2 ==> r.Raised?
  {
    if |name| != 2 then Raised
    else match FindByFilename(photos, name[..1])
      case None => Returned((name[..1], None))
      case Some(_) =>
        match toFloat(name[1..])
          case Raised => Raised
          case Returned(x) => Returned((name[..1], Some(x)))
  }

  /** One group's loop: the first raise ends the request. */
  function UnpackGroup<Img>(photos: seq<Photo<Img>>, names: seq<string>, toFloat: string -> Attempt<real>)
    : (r: Attempt<seq<RankedEntry>>)
    ensures r.Returned? ==> |r.value| == |names|
    ensures r.Returned? ==> forall j :: 0 <= j < |names| ==> |names[j]| == 2
  {
    if |names| == 0 then Returned([])
    else match UnpackName(photos, names[0], toFloat)
      case Raised => Raised
      case Returned(e) =>
        match UnpackGroup(photos, names[1..], toFloat)
          case Raised => Raised
          case Returned(rest) =>
            assert forall j :: 1 <= j < |names| ==> names[j] == names[1..][j - 1];
            Returned([e] + rest)
  }

  /** The loop over all groups, in iteration order: any raise ends the request, and
      otherwise the unpacked groups are what the join and assembly see. */
  function UnpackGroups<Img>(photos: seq<Photo<Img>>, g: Dict<int, seq<string>>, toFloat: string -> Attempt<real>)
    : (r: Attempt<Dict<int, seq<RankedEntry>>>)
    ensures r.Returned? ==> forall i :: 0 <= i < |FlatValues(g)| ==> |FlatValues(g)[i]| == 2
  {
    if |g| == 0 then Returned([])
    else match UnpackGroup(photos, g[0].1, toFloat)
      case Raised => Raised
      case Returned(entries) =>
        match UnpackGroups(photos, g[1..], toFloat)
          case Raised => Raised
          case Returned(rest) =>
            assert forall i :: |g[0].1| <= i < |FlatValues(g)| ==>
                     FlatValues(g)[i] == FlatValues(g[1..])[i - |g[0].1|];
            Returned([(g[0].0, entries)] + rest)
  }

  /** `process_photos` of src/app.py as written. No uploads gives 400. A raising classifier,
      the list `[]` (whose `.items()` raises), or a grouped name that does not unpack gives
      500. Results come back only when every grouped name is exactly two characters long. */
  function ProcessAsWritten<Img>(photos: seq<Photo<Img>>,
                                 classify: seq<(string, Img)> -> Attempt<LegacyClassifier.Clustering>,
                                 toFloat: string -> Attempt<real>)
    : (r: ProcessResponse)
    ensures r.NoPhotosUploaded? <==> |photos| == 0
    ensures r.Processed? ==> classify(Images(photos)).Returned? && classify(Images(photos)).value.Groups?
    ensures r.Processed? ==>
              var names := FlatValues(classify(Images(photos)).value.groups);
              forall i :: 0 <= i < |names| ==> |names[i]| == 2
  {
    if |photos| == 0 then NoPhotosUploaded
    else match classify(Images(photos))
      case Raised => ProcessingFailed
      case Returned(EmptyList) => ProcessingFailed
      case Returned(Groups(g)) =>
        match UnpackGroups(photos, g, toFloat)
          case Raised => ProcessingFailed
          case Returned(ranked) => Processed(Assemble(photos, ranked))
  }

  /** `classifier.cluster_images(images)` with src/photo_classifier.py: extraction, then
      DBSCAN (labelling every point), then the grouping of bare filenames. */
  function LegacyClassify<Img(!new), F(!new)>(extract: Img -> Attempt<F>, dbscan: seq<F> -> seq<int>)
    : (classify: seq<(string, Img)> -> Attempt<LegacyClassifier.Clustering>)
    requires Pipeline.LabelsEveryPoint(dbscan)
    ensures forall images :: classify(images).Returned?
  {
    (images: seq<(string, Img)>) =>
      Returned(LegacyClassifier.ClusterImages(images, extract, dbscan(LegacyClassifier.ExtractAll(images, extract).features)))
  }

  /** Every kept filename is the filename of some upload. */
  lemma KeptNamesUploaded<Img, F>(photos: seq<Photo<Img>>, extract: Img -> Attempt<F>)
    ensures forall j :: 0 <= j < |Filter(Images(photos), LegacyClassifier.Kept(extract))| ==>
              HasFilename(photos, Firsts(Filter(Images(photos), LegacyClassifier.Kept(extract)))[j])
  {
    var images := Images(photos);
    var keep := LegacyClassifier.Kept(extract);
    FilterIndices(images, keep);
    forall j | 0 <= j < |Filter(images, keep)| ensures HasFilename(photos, Firsts(Filter(images, keep))[j]) {
      var k := KeptIndices(images, keep)[j];
      assert photos[k].filename == Firsts(Filter(images, keep))[j];
    }
  }

  /** The classifier's groups hold exactly the kept filenames, each once per kept image, and
      every grouped name is the filename of an upload. */
  lemma GroupedNames<Img(!new), F(!new)>(photos: seq<Photo<Img>>, extract: Img -> Attempt<F>, dbscan: seq<F> -> seq<int>)
    requires Pipeline.LabelsEveryPoint(dbscan)
    requires LegacyClassify(extract, dbscan)(Images(photos)).value.Groups?
    ensures var names := FlatValues(LegacyClassify(extract, dbscan)(Images(photos)).value.groups);
            && multiset(names) == multiset(Firsts(Filter(Images(photos), LegacyClassifier.Kept(extract))))
            && |names| > 0
            && forall i :: 0 <= i < |names| ==> HasFilename(photos, names[i])
  {
    var images := Images(photos);
    var e := LegacyClassifier.ExtractAll(images, extract);
    var labels := dbscan(e.features);
    var kept := Firsts(Filter(images, LegacyClassifier.Kept(extract)));
    var g := GroupByLabel(labels, e.filenames);
    assert LegacyClassify(extract, dbscan)(images).value == LegacyClassifier.ClusterImages(images, extract, labels);
    assert LegacyClassifier.ClusterImages(images, extract, labels) == LegacyClassifier.Groups(g);
    GroupsPartition(labels, e.filenames);
    KeptNamesUploaded(photos, extract);
    var names := FlatValues(g);
    assert kept[0] in multiset(names);
    forall i | 0 <= i < |names| ensures HasFilename(photos, names[i]) {
      assert names[i] in multiset(kept);
    }
  }

  /** A stored filename passed `allowed_file`: a dot followed by an extension of at least
      three letters, so it is at least four characters long. */
  lemma AllowedFileLength(f: string)
    ensures AllowedFile(f) ==> |f| >= 4
  {
    if AllowedFile(f) {
      var i :| 0 <= i < |f| && f[i] == '.' && Lower(f[i + 1..]) in AllowedExtensions;
      assert |Lower(f[i + 1..])| == |f| - i - 1;
    }
  }

  /** As written, `/process` of src/app.py never answers with results when no upload's
      filename is exactly two characters long: the first grouped name fails to unpack. */
  lemma NeverProcesses<Img(!new), F(!new)>(photos: seq<Photo<Img>>, extract: Img -> Attempt<F>,
                                           dbscan: seq<F> -> seq<int>, toFloat: string -> Attempt<real>)
    requires Pipeline.LabelsEveryPoint(dbscan)
    requires forall i :: 0 <= i < |photos| ==> |photos[i].filename| != 2
    ensures !ProcessAsWritten(photos, LegacyClassify(extract, dbscan), toFloat).Processed?
  {
    var classify := LegacyClassify(extract, dbscan);
    if classify(Images(photos)).value.Groups? {
      GroupedNames(photos, extract, dbscan);
      var names := FlatValues(classify(Images(photos)).value.groups);
      var k :| 0 <= k < |photos| && photos[k].filename == names[0];
      assert |names[0]| != 2;
    }
  }

  /** The groups of bare filenames read as `(filename, None)` entries. */
  function Unscored(g: Dict<int, seq<string>>): Dict<int, seq<RankedEntry>>
  {
    seq(|g|, i requires 0 <= i < |g| => (g[i].0, seq(|g[i].1|, j requires 0 <= j < |g[i].1| => (g[i].1[j], None))))
  }

  /** Reading the filenames as unscored entries keeps the keys and the filenames. */
  lemma {:induction false} UnscoredNames(g: Dict<int, seq<string>>)
    ensures Keys(Unscored(g)) == Keys(g)
    ensures Firsts(FlatValues(Unscored(g))) == FlatValues(g)
  {
    if |g| > 0 {
      var u := Unscored(g);
      assert u[1..] == Unscored(g[1..]);
      UnscoredNames(g[1..]);
      FirstsAppend(u[0].1, FlatValues(u[1..]));
      assert Firsts(u[0].1) == g[0].1;
    }
  }

  /** The classifier's answer as the assembly loop evidently means to read it: `[]` is no
      group at all, and each bare filename is an entry without a score. */
  function Intended(c: Attempt<LegacyClassifier.Clustering>): (r: Classification)
    ensures r.ClassifierRaised? <==> c.Raised?
    ensures c.Returned? && c.value.EmptyList? ==> r == Ranked([])
    ensures c.Returned? && c.value.Groups? ==>
              r.Ranked? && Keys(r.groups) == Keys(c.value.groups)
              && Firsts(FlatValues(r.groups)) == FlatValues(c.value.groups)
  {
    match c
      case Raised => ClassifierRaised
      case Returned(EmptyList) => Ranked([])
      case Returned(Groups(g)) => UnscoredNames(g); Ranked(Unscored(g))
  }

  /** `process_photos` of src/app.py as evidently intended: the shared assembly over the
      classifier's answer read by `Intended`. Only no uploads (400) or a raising classifier
      (500) fail. */
  function ProcessIntended<Img>(photos: seq<Photo<Img>>,
                                classify: seq<(string, Img)> -> Attempt<LegacyClassifier.Clustering>)
    : (r: ProcessResponse)
    ensures r.NoPhotosUploaded? <==> |photos| == 0
    ensures r.ProcessingFailed? <==> |photos| > 0 && classify(Images(photos)).Raised?
    ensures r.Processed? ==> r.results == Assemble(photos, Intended(classify(Images(photos))).groups)
  {
    ProcessPhotos(photos, (images: seq<(string, Img)>) => Intended(classify(images)))
  }

  /** End to end, as intended: with at least one upload the endpoint answers with results,
      and those show the filename of every upload whose features came back, once per such
      upload, and no other filename. */
  lemma IntendedShowsKeptPhotos<Img(!new), F(!new)>(photos: seq<Photo<Img>>, extract: Img -> Attempt<F>,
                                                    dbscan: seq<F> -> seq<int>)
    requires Pipeline.LabelsEveryPoint(dbscan)
    requires |photos| > 0
    ensures ProcessIntended(photos, LegacyClassify(extract, dbscan)).Processed?
    ensures multiset(ShownNames(ProcessIntended(photos, LegacyClassify(extract, dbscan)).results))
            == multiset(Firsts(Filter(Images(photos), LegacyClassifier.Kept(extract))))
  {
    var classify := LegacyClassify(extract, dbscan);
    var c := classify(Images(photos));
    var groups := Intended(c).groups;
    match c.value
      case EmptyList =>
        var images := Images(photos);
        var labels := dbscan(LegacyClassifier.ExtractAll(images, extract).features);
        assert c == Returned(LegacyClassifier.ClusterImages(images, extract, labels));
        assert Filter(images, LegacyClassifier.Kept(extract)) == [];
        assert Assemble(photos, []) == Results([], []);
        assert ShownNames(Results([], [])) == [];
      case Groups(g) =>
        GroupedNames(photos, extract, dbscan);
        assert Firsts(FlatValues(groups)) == FlatValues(g);
        forall i | 0 <= i < |FlatValues(groups)| ensures HasFilename(photos, FlatValues(groups)[i].0) {
          assert FlatValues(groups)[i].0 == Firsts(FlatValues(groups))[i];
        }
        ShowsEveryEntry(photos, groups);
  }
}
