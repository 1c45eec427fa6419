/**
 The logic the two Flask apps (src/photorank/app.py and src/app.py) share word for word:
 the upload filename check, the turning of a ranked cluster dict into the response sent
 to the frontend, the `/process` endpoint around it, and the list filter of `/photos/<id>`
 DELETE. HTTP, file storage and JSON encoding are not modelled.
 */
module Web {
  import opened Wrappers
  import opened PyDict
  import opened Filtering

  /** `ALLOWED_EXTENSIONS`. */
  const AllowedExtensions: set<string> := {"png", "jpg", "jpeg", "heic"}

  /** The DBSCAN label of noise points. */
  const NoiseLabel: int := -1

  /** The position of the last `'.'` in `s`, if any. */
  function LastDot(s: string): (r: Option<nat>)
    ensures r.Some? ==> r.value < |s| && s[r.value] == '.'
    ensures r.Some? ==> forall j :: r.value < j < |s| ==> s[j] != '.'
    ensures r.None? ==> forall j :: 0 <= j < |s| ==> s[j] != '.'
  {
    if |s| == 0 then None
    else if s[|s| - 1] == '.' then Some(|s| - 1)
    else LastDot(s[..|s| - 1])
  }

  /** `str.lower` on one character, for ASCII letters. */
  function LowerChar(c: char): char
  {
    if 'A' <= c <= 'Z' then (c as int + 32) as char else c
  }

  function Lower(s: string): string
  {
    seq(|s|, i requires 0 <= i < |s| => LowerChar(s[i]))
  }

  /** `allowed_file`: `'.' in filename and filename.rsplit('.', 1)[1].lower() in
      ALLOWED_EXTENSIONS`. It holds exactly when some `'.'` is followed by no other `'.'`
      and the lowered text after it is an allowed extension. */
  function AllowedFile(filename: string): (ok: bool)
    ensures ok <==> exists i :: 0 <= i < |filename| && filename[i] == '.'
                      && (forall j :: i < j < |filename| ==> filename[j] != '.')
                      && Lower(filename[i + 1..]) in AllowedExtensions
  {
    match LastDot(filename)
      case None => false
      case Some(d) => Lower(filename[d + 1..]) in AllowedExtensions
  }

  /** The last dot is the dot followed by no other. */
  lemma LastDotAt(s: string, d: nat)
    requires d < |s| && s[d] == '.'
    requires forall j :: d < j < |s| ==> s[j] != '.'
    ensures LastDot(s) == Some(d)
  {
  }

  /** The suffix check ignores case and everything before the last dot. */
  lemma AllowedFileAccepts()
    ensures AllowedFile(".PNG")
    ensures AllowedFile("IMG_01.HeIc")
    ensures AllowedFile("archive.tar.jpg")
  {
    LastDotAt(".PNG", 0);
    assert Lower(".PNG"[1..]) == "png";
    LastDotAt("IMG_01.HeIc", 6);
    assert Lower("IMG_01.HeIc"[7..]) == "heic";
    LastDotAt("archive.tar.jpg", 11);
    assert Lower("archive.tar.jpg"[12..]) == "jpg";
  }

  /** A name without a dot is refused even when it spells an extension, and so are a
      disallowed last suffix and an empty one. */
  lemma AllowedFileRejects()
    ensures !AllowedFile("png")
    ensures !AllowedFile("photo.png.txt")
    ensures !AllowedFile("photo.")
  {
    LastDotAt("photo.png.txt", 9);
    assert Lower("photo.png.txt"[10..]) == "txt";
    LastDotAt("photo.", 5);
    assert Lower("photo."[6..]) == "";
  }

  /** An uploaded photo as the apps keep it in `uploaded_photos`. */
  datatype Photo<Img> = Photo(id: string, filename: string, url: string, filepath: string, image: Img)

  /** A photo as it appears in the response: `{id, filename, url, score}`. */
  datatype PhotoView = PhotoView(id: string, filename: string, url: string, score: Option<real>)

  /** `{id, photos, recommendedPhoto}`. */
  datatype ClusterRecord = ClusterRecord(id: int, photos: seq<PhotoView>, recommended: Option<PhotoView>)

  /** `{clusters, unclustered}`. */
  datatype Results = Results(clusters: seq<ClusterRecord>, unclustered: seq<PhotoView>)

  /** A `(filename, score)` pair of the ranked dict; a score may be `None`. */
  type RankedEntry = (string, Option<real>)

  /** Some uploaded photo has this filename. */
  predicate HasFilename<Img>(photos: seq<Photo<Img>>, name: string)
  {
    exists i :: 0 <= i < |photos| && photos[i].filename == name
  }

  /** `next((p for p in uploaded_photos if p['filename'] == filename), None)`, as a position. */
  function FindByFilename<Img>(photos: seq<Photo<Img>>, name: string): (r: Option<nat>)
    ensures r.Some? ==> r.value < |photos| && photos[r.value].filename == name
    ensures r.Some? ==> forall j :: 0 <= j < r.value ==> photos[j].filename != name
    ensures r.None? <==> !HasFilename(photos, name)
  {
    if |photos| == 0 then None
    else if photos[0].filename == name then Some(0)
    else match FindByFilename(photos[1..], name)
      case None =>
        assert forall j :: 1 <= j < |photos| ==> photos[j] == photos[1..][j - 1];
        None
      case Some(i) => Some(i + 1)
  }

  /** The view carries the id and url of the first uploaded photo with its filename. */
  predicate FromFirstUpload<Img>(photos: seq<Photo<Img>>, v: PhotoView)
  {
    exists k :: 0 <= k < |photos| && photos[k].filename == v.filename
      && (forall j :: 0 <= j < k ==> photos[j].filename != v.filename)
      && photos[k].id == v.id && photos[k].url == v.url
  }

  /** The ranked entries some uploaded photo matches, in order. */
  function Matched<Img>(photos: seq<Photo<Img>>, ranked: seq<RankedEntry>): seq<RankedEntry>
  {
    if |ranked| == 0 then []
    else (if HasFilename(photos, ranked[0].0) then [ranked[0]] else []) + Matched(photos, ranked[1..])
  }

  /** The (filename, score) pairs a list of views shows. */
  function Projection(views: seq<PhotoView>): seq<RankedEntry>
  {
    seq(|views|, i requires 0 <= i < |views| => (views[i].filename, views[i].score))
  }

  /** The join loop over one group: each ranked filename is looked up among the uploads
      and an unmatched one is dropped. The views show exactly the matched entries, in
      ranked order with their scores passed through, each with the id and url of the
      first upload carrying that filename. */
  function JoinPhotos<Img>(photos: seq<Photo<Img>>, ranked: seq<RankedEntry>): (views: seq<PhotoView>)
    ensures Projection(views) == Matched(photos, ranked)
    ensures forall i :: 0 <= i < |views| ==> FromFirstUpload(photos, views[i])
  {
    if |ranked| == 0 then []
    else
      var rest := JoinPhotos(photos, ranked[1..]);
      match FindByFilename(photos, ranked[0].0)
        case None =>
          assert Matched(photos, ranked) == Matched(photos, ranked[1..]);
          rest
        case Some(k) =>
          var v := PhotoView(photos[k].id, photos[k].filename, photos[k].url, ranked[0].1);
          assert FromFirstUpload(photos, v);
          assert Matched(photos, ranked) == [ranked[0]] + Matched(photos, ranked[1..]);
          ConsView(photos, v, rest);
          [v] + rest
  }

  lemma ConsView<Img>(photos: seq<Photo<Img>>, v: PhotoView, rest: seq<PhotoView>)
    requires FromFirstUpload(photos, v)
    requires forall i :: 0 <= i < |rest| ==> FromFirstUpload(photos, rest[i])
    ensures Projection([v] + rest) == [(v.filename, v.score)] + Projection(rest)
    ensures forall i :: 0 <= i < |[v] + rest| ==> FromFirstUpload(photos, ([v] + rest)[i])
  {
    assert forall i :: 0 < i <= |rest| ==> ([v] + rest)[i] == rest[i - 1];
  }

  /** No entry is dropped when every ranked filename was uploaded. */
  lemma {:induction false} MatchedAll<Img>(photos: seq<Photo<Img>>, ranked: seq<RankedEntry>)
    requires forall i :: 0 <= i < |ranked| ==> HasFilename(photos, ranked[i].0)
    ensures Matched(photos, ranked) == ranked
  {
    if |ranked| > 0 {
      MatchedAll(photos, ranked[1..]);
      assert ranked == [ranked[0]] + ranked[1..];
    }
  }

  /** `if not recommended_photo: recommended_photo = photo_obj`, over the appended views.
      A non-empty dict is truthy, so this keeps the first view. */
  function Recommend(current: Option<PhotoView>, views: seq<PhotoView>): (r: Option<PhotoView>)
    ensures r == if current.Some? then current else if |views| == 0 then None else Some(views[0])
    decreases |views|
  {
    if |views| == 0 then current
    else Recommend(if current.None? then Some(views[0]) else current, views[1..])
  }

  /** The record of one non-noise cluster: the id is the label, the photos are the
      joined group, and the recommendation is the first joined photo, or `None` when no
      filename matched (the record is still emitted). */
  function MakeCluster<Img>(photos: seq<Photo<Img>>, clusterId: int, ranked: seq<RankedEntry>): (c: ClusterRecord)
    ensures c.id == clusterId
    ensures Projection(c.photos) == Matched(photos, ranked)
    ensures forall i :: 0 <= i < |c.photos| ==> FromFirstUpload(photos, c.photos[i])
    ensures c.recommended == if |c.photos| == 0 then None else Some(c.photos[0])
  {
    var views := JoinPhotos(photos, ranked);
    ClusterRecord(clusterId, views, Recommend(None, views))
  }

  /** The labels other than noise, in order. */
  function NonNoise(labels: seq<int>): seq<int>
  {
    if |labels| == 0 then []
    else
      var n := |labels| - 1;
      NonNoise(labels[..n]) + (if labels[n] == NoiseLabel then [] else [labels[n]])
  }

  function ClusterIds(clusters: seq<ClusterRecord>): seq<int>
  {
    seq(|clusters|, i requires 0 <= i < |clusters| => clusters[i].id)
  }

  /** One turn of the result-assembly loop: the noise group's joined photos extend
      `unclustered`, any other group becomes a new cluster record. */
  function AddGroup<Img>(photos: seq<Photo<Img>>, prev: Results, group: (int, seq<RankedEntry>)): Results
  {
    if group.0 == NoiseLabel then Results(prev.clusters, prev.unclustered + JoinPhotos(photos, group.1))
    else Results(prev.clusters + [MakeCluster(photos, group.0, group.1)], prev.unclustered)
  }

  /** The result-assembly loop of `process_photos`, over the ranked dict in iteration order. */
  function Assemble<Img>(photos: seq<Photo<Img>>, groups: Dict<int, seq<RankedEntry>>): (r: Results)
    ensures ClusterIds(r.clusters) == NonNoise(Keys(groups))
    ensures forall i :: 0 <= i < |r.clusters| ==>
              r.clusters[i].recommended == if |r.clusters[i].photos| == 0 then None else Some(r.clusters[i].photos[0])
    ensures forall i :: 0 <= i < |r.unclustered| ==> FromFirstUpload(photos, r.unclustered[i])
  {
    if |groups| == 0 then Results([], [])
    else
      var n := |groups| - 1;
      var prev := Assemble(photos, groups[..n]);
      var (clusterId, ranked) := groups[n];
      assert Keys(groups) == Keys(groups[..n]) + [clusterId];
      var c := MakeCluster(photos, clusterId, ranked);
      assert ClusterIds(prev.clusters + [c]) == ClusterIds(prev.clusters) + [clusterId];
      AddGroup(photos, prev, groups[n])
  }

  /** Cluster record `c` stands for its id's group: it shows exactly the group's matched
      entries in ranked order with scores passed through, each from its first upload. */
  predicate StandsFor<Img>(photos: seq<Photo<Img>>, groups: Dict<int, seq<RankedEntry>>, c: ClusterRecord)
  {
    && Get(groups, c.id).Some?
    && Projection(c.photos) == Matched(photos, Get(groups, c.id).value)
    && forall j :: 0 <= j < |c.photos| ==> FromFirstUpload(photos, c.photos[j])
  }

  /** What the assembled results contain: every cluster record stands for its id's group,
      and `unclustered` shows exactly the matched entries of the noise group, or nothing
      when there is none. */
  lemma AssembleContent<Img>(photos: seq<Photo<Img>>, groups: Dict<int, seq<RankedEntry>>)
    requires DistinctKeys(groups)
    ensures forall i :: 0 <= i < |Assemble(photos, groups).clusters| ==>
              StandsFor(photos, groups, Assemble(photos, groups).clusters[i])
    ensures Projection(Assemble(photos, groups).unclustered) == NoiseEntries(photos, groups)
  {
    AssembleClusters(photos, groups);
    AssembleUnclustered(photos, groups);
  }

  lemma {:induction false} AssembleClusters<Img>(photos: seq<Photo<Img>>, groups: Dict<int, seq<RankedEntry>>)
    requires DistinctKeys(groups)
    ensures forall i :: 0 <= i < |Assemble(photos, groups).clusters| ==>
              StandsFor(photos, groups, Assemble(photos, groups).clusters[i])
  {
    if |groups| > 0 {
      var n := |groups| - 1;
      var pre := groups[..n];
      var prev := Assemble(photos, pre);
      assert groups == pre + [groups[n]];
      assert DistinctKeys(pre);
      AssembleClusters(photos, pre);
      assert Assemble(photos, groups) == AddGroup(photos, prev, groups[n]);
      forall i | 0 <= i < |prev.clusters| ensures StandsFor(photos, groups, prev.clusters[i]) {
        assert prev.clusters[i].id == ClusterIds(prev.clusters)[i];
        NonNoiseMembers(Keys(pre));
        GetPrefix(pre, [groups[n]], prev.clusters[i].id);
      }
      if groups[n].0 != NoiseLabel {
        var c := MakeCluster(photos, groups[n].0, groups[n].1);
        GetEntry(groups, n);
        assert StandsFor(photos, groups, c);
        assert forall i :: 0 <= i < |prev.clusters| ==> (prev.clusters + [c])[i] == prev.clusters[i];
      }
    }
  }

  /** The noise group's matched entries, or nothing when there is no noise group. */
  function NoiseEntries<Img>(photos: seq<Photo<Img>>, groups: Dict<int, seq<RankedEntry>>): seq<RankedEntry>
  {
    match Get(groups, NoiseLabel)
      case None => []
      case Some(ranked) => Matched(photos, ranked)
  }

  lemma {:induction false} AssembleUnclustered<Img>(photos: seq<Photo<Img>>, groups: Dict<int, seq<RankedEntry>>)
    requires DistinctKeys(groups)
    ensures Projection(Assemble(photos, groups).unclustered) == NoiseEntries(photos, groups)
  {
    if |groups| > 0 {
      var n := |groups| - 1;
      var pre := groups[..n];
      assert groups == pre + [groups[n]];
      assert DistinctKeys(pre);
      AssembleUnclustered(photos, pre);
      assert Assemble(photos, groups) == AddGroup(photos, Assemble(photos, pre), groups[n]);
      UnclusteredStep(photos, pre, groups[n], Assemble(photos, pre));
    }
  }

  /** One turn of the assembly loop keeps `unclustered` showing the noise group. */
  lemma UnclusteredStep<Img>(photos: seq<Photo<Img>>, pre: Dict<int, seq<RankedEntry>>,
                             group: (int, seq<RankedEntry>), prev: Results)
    requires DistinctKeys(pre + [group])
    requires Projection(prev.unclustered) == NoiseEntries(photos, pre)
    ensures Projection(AddGroup(photos, prev, group).unclustered) == NoiseEntries(photos, pre + [group])
  {
    var groups := pre + [group];
    var n := |pre|;
    assert groups[n] == group;
    if group.0 == NoiseLabel {
      GetEntry(groups, n);
      assert NoiseLabel !in Keys(pre) by {
        assert forall j :: 0 <= j < n ==> Keys(pre)[j] == groups[j].0;
      }
      var views := JoinPhotos(photos, group.1);
      assert Projection(prev.unclustered + views) == Projection(prev.unclustered) + Projection(views);
    } else if NoiseLabel in Keys(pre) {
      GetPrefix(pre, [group], NoiseLabel);
    } else {
      assert Keys(groups) == Keys(pre) + [group.0];
    }
  }

  /** Non-noise labels are the labels other than noise. */
  lemma {:induction false} NonNoiseMembers(labels: seq<int>)
    ensures forall x :: x in NonNoise(labels) <==> x in labels && x != NoiseLabel
  {
    if |labels| > 0 {
      var n := |labels| - 1;
      NonNoiseMembers(labels[..n]);
      assert labels == labels[..n] + [labels[n]];
    }
  }

  /** The filenames a list of views shows, in order. */
  function ViewNames(views: seq<PhotoView>): seq<string>
  {
    seq(|views|, i requires 0 <= i < |views| => views[i].filename)
  }

  /** The filenames shown across all cluster records, cluster by cluster. */
  function ClusterNames(clusters: seq<ClusterRecord>): seq<string>
  {
    if |clusters| == 0 then []
    else
      var n := |clusters| - 1;
      ClusterNames(clusters[..n]) + ViewNames(clusters[n].photos)
  }

  /** Every filename the response shows, in clusters or unclustered. */
  function ShownNames(r: Results): seq<string>
  {
    ClusterNames(r.clusters) + ViewNames(r.unclustered)
  }

  lemma {:induction false} MatchedAppend<Img>(photos: seq<Photo<Img>>, a: seq<RankedEntry>, b: seq<RankedEntry>)
    ensures Matched(photos, a + b) == Matched(photos, a) + Matched(photos, b)
  {
    if |a| > 0 {
      assert (a + b)[1..] == a[1..] + b;
      MatchedAppend(photos, a[1..], b);
    } else {
      assert a + b == b;
    }
  }

  /** One turn of the assembly loop shows the joined views of its group, in a cluster
      record or among the unclustered ones. */
  lemma AddGroupShows<Img>(photos: seq<Photo<Img>>, prev: Results, group: (int, seq<RankedEntry>))
    ensures multiset(ShownNames(AddGroup(photos, prev, group)))
            == multiset(ShownNames(prev)) + multiset(ViewNames(JoinPhotos(photos, group.1)))
  {
    var views := JoinPhotos(photos, group.1);
    if group.0 == NoiseLabel {
      ViewNamesAppend(prev.unclustered, views);
    } else {
      var c := MakeCluster(photos, group.0, group.1);
      assert c.photos == views;
      ClusterNamesSnoc(prev.clusters, c);
    }
  }

  lemma ViewNamesAppend(a: seq<PhotoView>, b: seq<PhotoView>)
    ensures ViewNames(a + b) == ViewNames(a) + ViewNames(b)
  {
  }

  lemma ClusterNamesSnoc(cs: seq<ClusterRecord>, c: ClusterRecord)
    ensures ClusterNames(cs + [c]) == ClusterNames(cs) + ViewNames(c.photos)
  {
    assert (cs + [c])[..|cs|] == cs;
  }

  /** The response shows each matched ranked filename once per entry, across all groups,
      and nothing else: assembly neither drops nor repeats a photo. */
  lemma {:induction false} AssembleShows<Img>(photos: seq<Photo<Img>>, groups: Dict<int, seq<RankedEntry>>)
    ensures multiset(ShownNames(Assemble(photos, groups)))
            == multiset(Firsts(Matched(photos, FlatValues(groups))))
  {
    if |groups| > 0 {
      var n := |groups| - 1;
      var pre := groups[..n];
      var ranked := groups[n].1;
      assert FlatValues(groups) == FlatValues(pre) + ranked by {
        assert groups == pre + [groups[n]];
        FlatValuesAppend(pre, [groups[n]]);
        assert FlatValues([groups[n]]) == ranked;
      }
      assert Assemble(photos, groups) == AddGroup(photos, Assemble(photos, pre), groups[n]);
      AddGroupShows(photos, Assemble(photos, pre), groups[n]);
      AssembleShows(photos, pre);
      MatchedAppend(photos, FlatValues(pre), ranked);
      var mp := Matched(photos, FlatValues(pre));
      var mr := Matched(photos, ranked);
      FirstsAppend(mp, mr);
      assert Firsts(Matched(photos, FlatValues(groups))) == Firsts(mp) + Firsts(mr);
      var views := JoinPhotos(photos, ranked);
      assert ViewNames(views) == Firsts(Projection(views));
      assert ViewNames(views) == Firsts(mr);
    }
  }

  /** When every ranked filename was uploaded, each ranked entry is shown exactly once. */
  lemma ShowsEveryEntry<Img>(photos: seq<Photo<Img>>, groups: Dict<int, seq<RankedEntry>>)
    requires forall i :: 0 <= i < |FlatValues(groups)| ==> HasFilename(photos, FlatValues(groups)[i].0)
    ensures multiset(ShownNames(Assemble(photos, groups))) == multiset(Firsts(FlatValues(groups)))
  {
    AssembleShows(photos, groups);
    MatchedAll(photos, FlatValues(groups));
  }

  /** What the classifier handed back to `process_photos`: an exception, the empty list
      `[]` (from src/photo_classifier.py), or a ranked dict. */
  datatype Classification = ClassifierRaised | EmptyList | Ranked(groups: Dict<int, seq<RankedEntry>>)

  /** The outcomes of `/process`: 400, 500, or the results. */
  datatype ProcessResponse = NoPhotosUploaded | ProcessingFailed | Processed(results: Results)

  /** `[(photo['filename'], photo['image']) for photo in uploaded_photos]`. */
  function Images<Img>(photos: seq<Photo<Img>>): seq<(string, Img)>
  {
    seq(|photos|, i requires 0 <= i < |photos| => (photos[i].filename, photos[i].image))
  }

  /** `process_photos`. With no uploads it answers 400 whatever the classifier would do.
      A raising classifier, or the list `[]` (whose `.items()` raises), gives 500. */
  function ProcessPhotos<Img>(photos: seq<Photo<Img>>, classify: seq<(string, Img)> -> Classification)
    : (r: ProcessResponse)
    ensures r.NoPhotosUploaded? <==> |photos| == 0
    ensures r.ProcessingFailed? <==> |photos| > 0 && !classify(Images(photos)).Ranked?
    ensures r.Processed? ==> r.results == Assemble(photos, classify(Images(photos)).groups)
  {
    if |photos| == 0 then NoPhotosUploaded
    else match classify(Images(photos))
      case Ranked(groups) => Processed(Assemble(photos, groups))
      case _ => ProcessingFailed
  }

  /** The photos whose id differs from `photoId`. */
  function OtherId<Img>(photoId: string): Photo<Img> -> bool
  {
    (p: Photo<Img>) => p.id != photoId
  }

  /** `[p for p in uploaded_photos if p['id'] != photo_id]`: exactly the photos with
      another id, in their order; when no photo has the id, nothing changes. */
  function WithoutId<Img>(photos: seq<Photo<Img>>, photoId: string): (r: seq<Photo<Img>>)
    ensures |r| == |KeptIndices(photos, OtherId(photoId))|
    ensures forall j :: 0 <= j < |r| ==> r[j] == photos[KeptIndices(photos, OtherId(photoId))[j]]
    ensures forall j :: 0 <= j < |r| ==> r[j].id != photoId
    ensures (forall i :: 0 <= i < |photos| ==> photos[i].id != photoId) ==> r == photos
  {
    var keep := OtherId(photoId);
    var r := Filter(photos, keep);
    FilterIndices(photos, keep);
    FilterAll(photos, keep);
    r
  }
}
