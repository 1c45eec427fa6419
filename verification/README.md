# photorank: the post-clustering pipeline in Dafny

photorank groups similar uploaded photos and recommends the best shot of each group.
This project models the deterministic part of that pipeline and proves what it promises.
It covers these steps after feature extraction and DBSCAN:

- **Extraction filter.** Images whose feature extraction fails are dropped. Features and
  filenames stay index-aligned.
- **Label grouping.** DBSCAN's labels, one per kept image, become an insertion-ordered dict
  from label to members.
- **In-cluster ranking.** Each group is sorted by quality score, descending and stable, by
  `rank_images_in_cluster`. `rank_clusters` applies this per key. The three source copies
  share one proved ranker. Each copy has its own quality score over `real`.
- **Result assembly.** `process_photos` in src/photorank/app.py turns the ranked dict into
  `{clusters, unclustered}`. Label -1 entries go to `unclustered`. Every other label becomes
  one cluster record whose recommended photo is its first member. Photos are joined back to
  the uploads by filename. src/app.py has the same loop, but with the classifier it uses the
  loop never completes: see Findings.
- **Upload validation and deletion.** `allowed_file` checks the extension. `delete_photo` is
  modelled in both apps. In src/app.py its lookup compares with `!=` (see Findings).

Python dicts keep insertion order, and the output order depends on it. So a dict is a
sequence of `(key, value)` pairs (`PyDict`). Foreign computations are function parameters:

- feature extraction is `extract`;
- the softmax output of the quality network is `probabilities`;
- the OpenCV Laplacian variance is `sharpness`;
- DBSCAN's output is `labels`, or `dbscan` in the end-to-end `Pipeline`.

An exception escaping a foreign call is the `Raised` case of `Attempt`.

Modules:

- `Wrappers`: `Option` and `Attempt`.
- `PyDict`: dict lookup, assignment, keys and flattening.
- `Filtering`: list comprehensions with a condition.
- `Grouping`: the label-grouping loop.
- `Ranking`: the shared stable descending ranking.
- `Quality`: score arithmetic.
- Source copies:
  - `ClassifierLite` is src/photorank/photo_classifier_lite.py.
  - `PhotoRanker` is src/photorank/photo_ranker.py.
  - `LegacyRanker` is src/photo_ranker.py.
  - `LegacyClassifier` is src/photo_classifier.py.
- `Web`: the logic both apps share.
- `App`: `delete_photo` of src/photorank/app.py.
- `LegacyApp`: `delete_photo` of src/app.py, as written.
- `Pipeline`: `/process` of src/photorank/app.py end to end, with the lite classifier.
- `LegacyProcess`: `/process` of src/app.py with src/photo_classifier.py, as written and as intended.

## Model

| member | source | states |
|---|---|---|
| `PyDict.Find` | src/photorank/photo_classifier_lite.py:134 | `k in d` finds the first entry with key `k`, and finds none exactly when no entry has it |
| `PyDict.Get` | src/photorank/photo_classifier_lite.py:136 | a lookup succeeds exactly when the key is among the dict's keys, and then returns a value stored under it |
| `PyDict.Put` | src/photorank/photo_classifier_lite.py:135 | `d[k] = v` makes `k` map to `v`; a present key keeps the key order, a new key is appended at the end |
| `PyDict.PutOthers` | src/photorank/photo_classifier_lite.py:135 | `d[k] = v` leaves the lookup of every other key unchanged |
| `PyDict.PutDistinct` | src/photorank/photo_classifier_lite.py:117 | assignment never creates a duplicate key |
| `PyDict.FirstsPermutation` | src/photorank/photo_ranker.py:101 | rearranging (filename, score) pairs rearranges their filenames: equal multisets of pairs give equal multisets of filenames |
| `Filtering.KeptIndices` | src/photorank/app.py:256 | the kept positions are ascending and are exactly those satisfying the condition |
| `Filtering.FilterIndices` | src/photorank/app.py:256 | a comprehension `[x for x in xs if keep(x)]` yields, in order, exactly the elements at the kept positions |
| `Filtering.FilterAll` | src/photorank/app.py:256 | a filter whose condition holds everywhere returns its input unchanged |
| `Grouping.FirstOccurrencesContent` | src/photorank/photo_classifier_lite.py:133-135 | the first-occurrence order of the labels lists every label exactly once and nothing else |
| `Grouping.GroupKeys` | src/photorank/photo_classifier_lite.py:133-135 | the group keys are the labels in order of first occurrence, with no key twice |
| `Grouping.GroupMembers` | src/photorank/photo_classifier_lite.py:132-136 | the group of a label holds exactly the members carrying that label, in input order; a label that does not occur has no group |
| `Grouping.GroupLookup` | src/photo_classifier.py:57-61 | the member-by-label characterisation holds for every label at once |
| `Grouping.SelectEmpty` | src/photo_classifier.py:57-61 | a label selects no member exactly when it does not occur |
| `Grouping.AddMemberFlat` | src/photorank/photo_classifier_lite.py:134-136 | one turn of the grouping loop adds exactly its item to the dict's members |
| `Grouping.GroupsPartition` | src/photorank/photo_classifier_lite.py:132-136 | the groups partition the items: their concatenated members are a permutation of the items |
| `Ranking.InsertMultiset` | src/photorank/photo_ranker.py:101 | inserting into a ranking adds exactly that pair |
| `Ranking.InsertSorted` | src/photorank/photo_ranker.py:101 | inserting into a non-increasing ranking keeps it non-increasing |
| `Ranking.InsertWithScore` | src/photorank/photo_ranker.py:101 | the inserted pair goes ahead of the pairs sharing its score; the pairs of every other score are untouched |
| `Ranking.StableSortDesc` | src/photorank/photo_ranker.py:101 | `sort(key=score, reverse=True)`: the result is non-increasing in score, a permutation of the input, and for every score keeps the input order of its pairs |
| `Ranking.SortStep` | src/photorank/photo_ranker.py:101 | inserting the head into a stable descending sort of the tail stably sorts the whole list |
| `Ranking.StableSortUnique` | src/photorank/photo_ranker.py:101 | two lists that are non-increasing and agree on each score's pairs in order are equal, so the sort above is the one Python performs |
| `Ranking.RankImagesInCluster` | src/photorank/photo_ranker.py:90-102 | the ranking keeps every member, is non-increasing in score, a permutation of the scored members, and stable among equal scores |
| `Ranking.InputIndex` | src/photorank/photo_ranker.py:93-98 | every ranked pair is the filename and score of some input member |
| `Ranking.RankedScoresHold` | src/photorank/photo_ranker.py:93-101 | any property every member's score has, every ranked score has |
| `Ranking.WithScoreWitness` | src/photorank/photo_ranker.py:101 | a non-empty set of pairs with score `v` witnesses a member scoring `v` |
| `Ranking.RankClusters` | src/photorank/photo_ranker.py:104-112 | the result has the same keys in the same order, and each key maps to the ranking of its own group |
| `Ranking.RankedNames` | src/photorank/photo_ranker.py:90-102 | ranking neither adds, drops nor repeats a filename |
| `Ranking.RankClustersNames` | src/photorank/photo_ranker.py:104-112 | ranking every group neither adds, drops nor repeats a filename across the dict |
| `Quality.NormalizedSharpness` | src/photorank/photo_classifier_lite.py:93 | `min(s / 1000, 1)` is at most 1. It is 0 when measurement fails and non-negative for a non-negative variance. It equals 1 exactly from a variance of 1000 up |
| `Quality.Max` | src/photo_ranker.py:35 | the max of a non-empty vector is one of its entries and no entry exceeds it |
| `Quality.EntryAtMostSum` | src/photo_ranker.py:33-35 | non-negative entries each lie between 0 and their sum |
| `Quality.ProbabilitiesInUnitInterval` | src/photo_ranker.py:33 | every entry of a softmax output lies in [0, 1] |
| `ClassifierLite.QualityScore` | src/photorank/photo_classifier_lite.py:87-101 | the lite score is at most 10. It is 0 for a failed measurement and non-negative for a non-negative variance. It reaches 10 exactly from a variance of 1000 up |
| `ClassifierLite.RankImagesInCluster` | src/photorank/photo_classifier_lite.py:142-154 | the lite ranking is non-increasing, a permutation of the scored members, and stable. Every score is at most 10. Every positive score precedes every failed (0.0) one |
| `ClassifierLite.RankClusters` | src/photorank/photo_classifier_lite.py:156-164 | the keys are preserved in order, and each key maps to the lite ranking of its own group |
| `ClassifierLite.ExtractAll` | src/photorank/photo_classifier_lite.py:111-119 | `filenames` lists exactly the images whose extraction returned features, in order. `features` is index-aligned with them. `image_dict` has exactly the kept filenames as keys, each mapped to the image kept last under that name |
| `ClassifierLite.ImageDictStep` | src/photorank/photo_classifier_lite.py:117 | storing a kept image keeps `image_dict` mapping each name to the last image kept under it |
| `ClassifierLite.Members` | src/photorank/photo_classifier_lite.py:136 | the grouped members carry the kept filenames in order. With duplicate filenames, each member carries the image kept last under its name |
| `ClassifierLite.ClusterImages` | src/photorank/photo_classifier_lite.py:103-140 | no kept image gives the empty dict. Otherwise the keys are the labels in first-occurrence order, without duplicates. Each label maps to the ranking of exactly the members carrying it, in input order, and other labels are absent |
| `ClassifierLite.ClusterImagesNames` | src/photorank/photo_classifier_lite.py:103-140 | the ranked groups hold each kept image's filename once per kept image and no other filename |
| `PhotoRanker.QualityScore` | src/photorank/photo_ranker.py:60-88 | a failed inference scores 0.0. With softmax entries in [0, 1] and a non-negative variance, the blend `(0.7 c + 0.3 min(s/1000, 1)) * 10` lies in [0, 10] |
| `PhotoRanker.RankImagesInCluster` | src/photorank/photo_ranker.py:90-102 | the ranking is non-increasing, a permutation of the scored members, and stable. Failed images (0.0) follow every positive score. All scores lie in [0, 10] when every member's inputs are in range |
| `PhotoRanker.RankClusters` | src/photorank/photo_ranker.py:104-112 | the keys are preserved in order, and each key maps to this copy's ranking of its own group |
| `LegacyRanker.QualityScore` | src/photo_ranker.py:26-39 | a failed inference scores 0.0. Otherwise the score is ten times the largest probability: at least ten times each entry and equal to ten times one of them. It lies in [0, 10] for entries in [0, 1] |
| `LegacyRanker.ProbabilityVectorScore` | src/photo_ranker.py:33-35 | a probability vector scores within [0, 10] |
| `LegacyRanker.RankImagesInCluster` | src/photo_ranker.py:41-53 | the ranking is non-increasing, a permutation of the scored members, and stable. Failed images follow every positive score. All scores lie in [0, 10] when every softmax output is a probability vector |
| `LegacyRanker.ProbabilityScores` | src/photo_ranker.py:26-39 | members whose outputs are probability vectors (or whose inference failed) all score within [0, 10] |
| `LegacyRanker.RankClusters` | src/photo_ranker.py:55-63 | the keys are preserved in order, and each key maps to this copy's ranking of its own group |
| `LegacyClassifier.ExtractAll` | src/photo_classifier.py:40-46 | exactly the images whose extraction did not raise are kept, in order. `features` and `filenames` are index-aligned with them |
| `LegacyClassifier.ClusterImages` | src/photo_classifier.py:33-63 | the empty list `[]` is returned exactly when nothing was extracted. Otherwise the dict's keys are the labels in first-occurrence order, without duplicates. Each label maps to exactly the bare filenames carrying it, in input order; other labels are absent |
| `Web.LastDot` | src/photorank/app.py:35 | `rsplit('.', 1)` splits at a `'.'` that no later `'.'` follows, and finds none exactly when there is no `'.'` |
| `Web.AllowedFile` | src/photorank/app.py:33-35 | a filename is allowed exactly when it has a `'.'` with no `'.'` after it, and the lowered text after that `'.'` is png, jpg, jpeg or heic |
| `Web.AllowedFileAccepts` | src/app.py:31-33 | `.PNG`, `IMG_01.HeIc` and `archive.tar.jpg` are allowed |
| `Web.AllowedFileRejects` | src/app.py:31-33 | `png`, `photo.png.txt` and `photo.` are refused |
| `Web.FindByFilename` | src/photorank/app.py:133 | the join finds the first upload with the filename, and finds none exactly when no upload has it |
| `Web.JoinPhotos` | src/photorank/app.py:145-158 | the views show exactly the ranked entries some upload matches, in ranked order, with scores passed through (`None` stays `None`). Each view has the id and url of the first upload with its filename |
| `Web.MatchedAll` | src/photorank/app.py:145-154 | when every ranked filename was uploaded, the join drops nothing |
| `Web.Recommend` | src/photorank/app.py:156-158 | `if not recommended_photo` keeps the first appended view, or `None` when nothing was appended |
| `Web.MakeCluster` | src/photorank/app.py:141-164 | a cluster record has the label as id and shows its group's matched entries in ranked order. Its recommendation is its first photo, or `None` when nothing matched; the record is emitted either way |
| `Web.Assemble` | src/photorank/app.py:127-169 | cluster records appear in the dict's key order with the noise label skipped. Each record recommends its first photo. Every unclustered view comes from the first upload with its filename |
| `Web.AssembleContent` | src/photorank/app.py:127-169 | every cluster record stands for its id's group. `unclustered` shows exactly the noise group's matched entries, or nothing when there is no noise group |
| `Web.AssembleClusters` | src/photorank/app.py:141-164 | every cluster record shows exactly the matched entries of the group under its id, each from its first upload |
| `Web.AssembleUnclustered` | src/photorank/app.py:131-140 | `unclustered` shows exactly the matched entries of the label -1 group, in ranked order |
| `Web.UnclusteredStep` | src/photorank/app.py:130-140 | one turn of the loop keeps `unclustered` showing the noise group's matched entries |
| `Web.NonNoiseMembers` | src/photorank/app.py:130-131 | the cluster ids are exactly the labels other than -1 |
| `Web.MatchedAppend` | src/photorank/app.py:145-147 | joining two runs of entries joins each run on its own |
| `Web.AddGroupShows` | src/photorank/app.py:130-164 | one turn of the loop shows its group's joined views, in a record or among the unclustered ones |
| `Web.AssembleShows` | src/photorank/app.py:127-169 | the response shows each matched ranked filename once per entry across all groups, and nothing else |
| `Web.ShowsEveryEntry` | src/photorank/app.py:127-169 | when every ranked filename was uploaded, each ranked entry is shown exactly once |
| `Web.ProcessPhotos` | src/photorank/app.py:94-215 | no uploads gives 400 without clustering. A raising classifier, or the `[]` it may return, gives 500. Otherwise the results are the assembly of the ranked dict |
| `Web.WithoutId` | src/photorank/app.py:256 | the new list holds exactly the photos with another id, in their order. When no photo has the id, nothing changes |
| `App.FindById` | src/photorank/app.py:245 | the lookup finds the first photo with the id, and finds none exactly when no photo has it |
| `App.DeletePhoto` | src/photorank/app.py:242-261 | 404 exactly when no photo has the id. Otherwise the file of the first photo with the id is removed, and exactly the photos with that id leave the list |
| `LegacyApp.FindOtherId` | src/app.py:189 | the `!=` lookup finds the first photo with a different id, and finds none exactly when every photo has the id |
| `LegacyApp.DeletePhotoAsWritten` | src/app.py:186-205 | as written, 404 exactly when every photo has the id (an empty list included). Otherwise the file removed is that of the first photo with another id, while the list filter still drops exactly the photos with the id |
| `LegacyApp.RefusesExistingPhoto` | src/app.py:189-192 | deleting the only photo by its own id answers 404 as written. The `==` lookup deletes it |
| `LegacyApp.RemovesAnotherPhotosFile` | src/app.py:189-200 | deleting `a` from `[a, b]` removes `b`'s file while `b` stays listed. The `==` lookup removes `a`'s file |
| `LegacyApp.AcceptsUnknownId` | src/app.py:189-202 | an unknown id is reported deleted, and the first photo's file is removed. The `==` lookup answers 404 |
| `LegacyProcess.UnpackName` | src/app.py:124-131 | unpacking a bare filename as `filename, score` raises for every string that is not exactly two characters long; a returned entry has the first character as its filename |
| `LegacyProcess.UnpackGroup` | src/app.py:111-131 | a group's loop completes only when every name in the group is two characters long, and then yields one entry per name |
| `LegacyProcess.UnpackGroups` | src/app.py:109-131 | the loop over all groups completes only when every grouped name is two characters long |
| `LegacyProcess.ProcessAsWritten` | src/app.py:92-159 | as written, 400 exactly when there are no uploads. Results come back only when the classifier returned groups (not `[]`) and every grouped name is two characters long |
| `LegacyProcess.LegacyClassify` | src/app.py:103 | with a DBSCAN that labels every point, src/photo_classifier.py's `cluster_images` always returns, with `[]` or a dict |
| `LegacyProcess.KeptNamesUploaded` | src/app.py:100 | every filename the extraction loop keeps is the filename of an upload |
| `LegacyProcess.GroupedNames` | src/photo_classifier.py:33-63 | a grouped result holds exactly the kept filenames, each once per kept image, at least one of them, and each the filename of an upload |
| `LegacyProcess.AllowedFileLength` | src/app.py:57 | a filename passing `allowed_file` is at least four characters long |
| `LegacyProcess.NeverProcesses` | src/app.py:103-124 | when no upload's filename is two characters long, src/app.py's `/process` never answers with results, whatever extraction and DBSCAN return |
| `LegacyProcess.UnscoredNames` | src/photo_classifier.py:61 | reading each bare filename as an unscored entry keeps the keys and the filenames |
| `LegacyProcess.Intended` | src/app.py:103-109 | the classifier's answer read as intended: it fails exactly when the classifier raised, `[]` is no groups, and groups keep their keys and filenames |
| `LegacyProcess.ProcessIntended` | src/app.py:92-159 | as intended: 400 exactly when there are no uploads, 500 exactly when the classifier raised, and otherwise the shared assembly of its groups |
| `LegacyProcess.IntendedShowsKeptPhotos` | src/app.py:92-148 | as intended, with at least one upload the endpoint answers with results. They show each upload whose extraction did not raise, once per such upload, and no other filename |
| `Pipeline.OptionalNames` | src/photorank/app.py:130-152 | marking scores as present does not change which filenames the groups hold |
| `Pipeline.LiteClassify` | src/photorank/app.py:123 | with a DBSCAN that labels every point, the lite `cluster_images` always returns a ranked dict |
| `Pipeline.ProcessShowsKeptPhotos` | src/photorank/app.py:94-169 | end to end, with at least one upload the endpoint answers with results. Those results show each upload whose features came back, once per such upload, and no other filename |
| `Pipeline.ProcessShowsEveryPhoto` | src/photorank/app.py:94-169 | when every upload's features come back, every uploaded filename is shown exactly as often as it was uploaded |

## Left out

- DBSCAN with cosine distance is delegated to sklearn. Its output is an input here: `labels` has one
  label per kept image. In `Pipeline` it is a `dbscan` function that returns one label per point.
- Feature extraction, model loading and inference (torch, TensorFlow, TensorFlow Hub, PIL
  preprocessing, softmax) and the OpenCV Laplacian are foreign calls. They are parameters:
  `extract`, `probabilities` and `sharpness`.
- Scores are Dafny `real`s. IEEE double rounding, NaN and infinities, and numpy/torch scalar types are not modelled.
- `Web.LowerChar` lowers ASCII letters only. Python's `str.lower` also folds other Unicode letters, and no
  allowed extension contains one, but a non-ASCII suffix whose lowering is ASCII is not modelled.
- HTTP plumbing is not modelled: Flask routing, `request.files`, `file.save`, `Image.open`,
  base64 and uuid generation. Neither are `jsonify`, the `clean_for_json` fallback,
  `processing_status` strings and the module-level globals. `process_photos` becomes a
  function from the uploads and the classifier's answer to the response.
- `App.DeletePhoto` reports which file the endpoint removes. The file system and the 500
  path of a failing `os.remove` are left out, and so is the `os.path.exists` test.
- `.photo_classifier`, which src/photorank/app.py imports, is not part of this model. `Pipeline`
  plugs in the lite classifier, which has the same `cluster_images` interface.
- Python's `float` on a one-character string is the parameter `toFloat` of
  `LegacyProcess.UnpackName`. The filename `secure_filename` stores is werkzeug's, so `LegacyProcess.NeverProcesses`
  takes as its hypothesis that no stored filename is two characters long. `LegacyProcess.AllowedFileLength`
  shows that a name passing `allowed_file` has at least four characters. That `secure_filename` keeps
  the extension is not modelled.
- `ClassifierLite.QualityScore` does not model the outer `try`/`except` of `get_quality_score`.
  `calculate_image_sharpness` already turns its own errors into 0.0, and the remaining
  arithmetic cannot raise over reals.
- `PhotoRanker.QualityScore` states its [0, 10] bound only for in-range inputs. A softmax
  output is not checked to be a probability vector in the source.
- `load_images`/`display_clusters` (utils.py), the `main.py` CLI, `test_local.py`, the upload and
  other read-only endpoints, and the React frontend are outside the core.
- Progress bars (`tqdm`) and console output are left out.

## Findings

| source | as written | input that shows it | evidently intended | confidence | as-written member | corrected member |
|---|---|---|---|---|---|---|
| src/app.py:189 | `delete_photo` looks the photo up with `p['id'] != photo_id`. It finds the first photo with a DIFFERENT id and removes that photo's file | `uploaded_photos = [a, b]`, delete `a.id`: `b`'s file is removed while `b` stays listed. Deleting the only photo by its own id answers 404. An unknown id answers success | `p['id'] == photo_id`, as in src/photorank/app.py:245: 404 exactly when no photo has the id, otherwise remove the file of that photo | high; not executed | `LegacyApp.DeletePhotoAsWritten` (counterexamples `LegacyApp.RemovesAnotherPhotosFile`, `LegacyApp.RefusesExistingPhoto`, `LegacyApp.AcceptsUnknownId`) | `App.DeletePhoto` |
| src/app.py:103-124 | src/app.py's `/process` uses src/photo_classifier.py. Its groups are lists of bare filenames, or `[]` when nothing was extracted. The assembly loop unpacks each name as `filename, score` and calls `.items()` on the answer | any upload list whose filenames are not two characters long (every name passing `allowed_file` has at least four): the first grouped name fails to unpack, and `[].items()` raises, so the answer is always 500 | the loop reads each bare filename as an entry without a score and `[]` as no groups, so the endpoint answers with every kept upload | medium (intent inferred from the score-less `None` branch); not executed | `LegacyProcess.ProcessAsWritten` (counterexample `LegacyProcess.NeverProcesses`) | `LegacyProcess.ProcessIntended` (property `LegacyProcess.IntendedShowsKeptPhotos`) |
