/**
 The grouping step that follows DBSCAN in both classifiers: one label per kept image,
 turned into an insertion-ordered dict from label to the members carrying it.
 */
module Grouping {
  import opened Wrappers
  import opened PyDict

  /** No element occurs twice. */
  predicate Distinct(s: seq<int>)
  {
    forall i, j :: 0 <= i < j < |s| ==> s[i] != s[j]
  }

  /** The labels in order of first occurrence: label `labels[n]` is listed at position `n`
      exactly when it does not occur earlier. */
  function FirstOccurrences(labels: seq<int>): seq<int>
  {
    if |labels| == 0 then []
    else
      var n := |labels| - 1;
      FirstOccurrences(labels[..n]) + (if labels[n] in labels[..n] then [] else [labels[n]])
  }

  /** The items whose label is `k`, in input order. */
  function Select<T>(labels: seq<int>, items: seq<T>, k: int): seq<T>
    requires |labels| == |items|
  {
    if |labels| == 0 then []
    else
      var n := |labels| - 1;
      Select(labels[..n], items[..n], k) + (if labels[n] == k then [items[n]] else [])
  }

  /** One turn of the grouping loop: `if k not in groups: groups[k] = []`, then
      `groups[k].append(x)`. */
  function AddMember<T>(groups: Dict<int, seq<T>>, k: int, x: T): Dict<int, seq<T>>
  {
    Put(groups, k, GetOr(groups, k, []) + [x])
  }

  /** The loop at photo_classifier_lite.py:132-136 and photo_classifier.py:57-61:
      `labels[i]` is the cluster id DBSCAN gave to `items[i]`. */
  function GroupByLabel<T>(labels: seq<int>, items: seq<T>): Dict<int, seq<T>>
    requires |labels| == |items|
  {
    if |labels| == 0 then []
    else
      var n := |labels| - 1;
      AddMember(GroupByLabel(labels[..n], items[..n]), labels[n], items[n])
  }

  /** First occurrences list every label once and nothing else. */
  lemma {:induction false} FirstOccurrencesContent(labels: seq<int>)
    ensures forall x :: x in FirstOccurrences(labels) <==> x in labels
    ensures Distinct(FirstOccurrences(labels))
  {
    if |labels| > 0 {
      var n := |labels| - 1;
      FirstOccurrencesContent(labels[..n]);
      assert labels == labels[..n] + [labels[n]];
    }
  }

  /** A label selects no member exactly when it does not occur. */
  lemma {:induction false} SelectEmpty<T>(labels: seq<int>, items: seq<T>, k: int)
    requires |labels| == |items|
    ensures Select(labels, items, k) == [] <==> k !in labels
  {
    if |labels| > 0 {
      var n := |labels| - 1;
      SelectEmpty(labels[..n], items[..n], k);
      assert labels == labels[..n] + [labels[n]];
    }
  }

  /** Group keys are the labels in order of first occurrence, each once. */
  lemma {:induction false} GroupKeys<T>(labels: seq<int>, items: seq<T>)
    requires |labels| == |items|
    ensures Keys(GroupByLabel(labels, items)) == FirstOccurrences(labels)
    ensures DistinctKeys(GroupByLabel(labels, items))
  {
    if |labels| > 0 {
      var n := |labels| - 1;
      GroupKeys(labels[..n], items[..n]);
      FirstOccurrencesContent(labels[..n]);
      var prev := GroupByLabel(labels[..n], items[..n]);
      var l := labels[n];
      var g := Put(prev, l, GetOr(prev, l, []) + [items[n]]);
      assert GroupByLabel(labels, items) == g;
      assert l in Keys(prev) <==> l in labels[..n];
      assert FirstOccurrences(labels) == FirstOccurrences(labels[..n]) + (if l in labels[..n] then [] else [l]);
      PutDistinct(prev, l, GetOr(prev, l, []) + [items[n]]);
    }
  }

  /** The groups partition the items: the group of every label is exactly the items
      carrying that label, in input order, and labels that do not occur have no group. */
  lemma {:induction false} GroupMembers<T>(labels: seq<int>, items: seq<T>, k: int)
    requires |labels| == |items|
    ensures Get(GroupByLabel(labels, items), k)
            == if k in labels then Some(Select(labels, items, k)) else None
  {
    if |labels| > 0 {
      var n := |labels| - 1;
      var prev := GroupByLabel(labels[..n], items[..n]);
      var l := labels[n];
      assert labels == labels[..n] + [l];
      assert GroupByLabel(labels, items) == Put(prev, l, GetOr(prev, l, []) + [items[n]]);
      GroupMembers(labels[..n], items[..n], k);
      PutOthers(prev, l, GetOr(prev, l, []) + [items[n]]);
      if k == l {
        GroupMembers(labels[..n], items[..n], l);
        SelectEmpty(labels[..n], items[..n], l);
        assert GetOr(prev, l, []) == Select(labels[..n], items[..n], l);
        assert Select(labels, items, k) == Select(labels[..n], items[..n], l) + [items[n]];
      } else {
        assert Select(labels, items, k) == Select(labels[..n], items[..n], k);
        assert k in labels <==> k in labels[..n];
      }
    }
  }

  /** `GroupMembers` for every label at once. */
  lemma GroupLookup<T>(labels: seq<int>, items: seq<T>)
    requires |labels| == |items|
    ensures forall k :: Get(GroupByLabel(labels, items), k)
                        == if k in labels then Some(Select(labels, items, k)) else None
  {
    forall k ensures Get(GroupByLabel(labels, items), k)
                     == if k in labels then Some(Select(labels, items, k)) else None {
      GroupMembers(labels, items, k);
    }
  }

  /** One turn of the grouping loop adds its item to the groups' members. */
  lemma AddMemberFlat<T>(groups: Dict<int, seq<T>>, k: int, x: T)
    ensures multiset(FlatValues(AddMember(groups, k, x))) == multiset(FlatValues(groups)) + multiset{x}
  {
    match Find(groups, k)
      case None =>
        assert GetOr(groups, k, []) + [x] == [x];
        assert AddMember(groups, k, x) == groups + [(k, [x])];
        FlatValuesAppend(groups, [(k, [x])]);
        assert FlatValues([(k, [x])]) == [x];
      case Some(i) =>
        assert GetOr(groups, k, []) == groups[i].1;
        assert groups[i := (k, groups[i].1 + [x])] == groups[i := (groups[i].0, groups[i].1 + [x])];
        FlatValuesExtend(groups, i, x);
  }

  /** The last turn of the grouping loop adds the last item to the groups' members. */
  lemma PartitionStep<T>(labels: seq<int>, items: seq<T>)
    requires |labels| == |items| > 0
    ensures multiset(FlatValues(GroupByLabel(labels, items)))
            == multiset(FlatValues(GroupByLabel(labels[..|labels| - 1], items[..|items| - 1]))) + multiset{items[|items| - 1]}
  {
    var n := |labels| - 1;
    AddMemberFlat(GroupByLabel(labels[..n], items[..n]), labels[n], items[n]);
  }

  /** Appending an item adds it to the multiset. Stated apart from `GroupsPartition`, so
      that the sequence identity is proved without the grouping facts in scope. */
  lemma MultisetSnoc<T>(items: seq<T>)
    requires |items| > 0
    ensures multiset(items) == multiset(items[..|items| - 1]) + multiset{items[|items| - 1]}
  {
    assert items == items[..|items| - 1] + [items[|items| - 1]];
  }

  /** No item is lost or duplicated by grouping: the groups hold exactly the items. */
  lemma {:induction false} GroupsPartition<T>(labels: seq<int>, items: seq<T>)
    requires |labels| == |items|
    ensures multiset(FlatValues(GroupByLabel(labels, items))) == multiset(items)
  {
    if |labels| > 0 {
      var n := |labels| - 1;
      PartitionStep(labels, items);
      GroupsPartition(labels[..n], items[..n]);
      MultisetSnoc(items);
    }
  }
}
