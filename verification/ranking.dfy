/**
 The in-cluster ranking shared by the three ranker copies: score every member, then
 `list.sort(key=score, reverse=True)`. Python's sort is stable, and `reverse=True`
 keeps equal elements in their original order, so the result is the unique arrangement
 that is non-increasing in score and keeps the input order among equal scores.
 */
module Ranking {
  import opened Wrappers
  import opened PyDict

  /** A (filename, score) pair as the rankers return it. */
  type Scored = (string, real)

  /** Scores never increase from one member to a later one. */
  predicate SortedDesc(s: seq<Scored>)
  {
    forall i, j :: 0 <= i < j < |s| ==> s[i].1 >= s[j].1
  }

  /** The members that score exactly `v`, in their order in `s`. */
  function WithScore(s: seq<Scored>, v: real): seq<Scored>
  {
    if |s| == 0 then []
    else (if s[0].1 == v then [s[0]] else []) + WithScore(s[1..], v)
  }

  /** Places `x` in front of every member of `t` whose score is at most `x`'s. */
  function Insert(x: Scored, t: seq<Scored>): seq<Scored>
  {
    if |t| == 0 || t[0].1 <= x.1 then [x] + t
    else [t[0]] + Insert(x, t[1..])
  }

  lemma {:induction false} InsertMultiset(x: Scored, t: seq<Scored>)
    ensures multiset(Insert(x, t)) == multiset(t) + multiset{x}
  {
    if |t| > 0 && t[0].1 > x.1 {
      var rest := Insert(x, t[1..]);
      InsertMultiset(x, t[1..]);
      assert Insert(x, t) == [t[0]] + rest;
      assert multiset([t[0]] + rest) == multiset{t[0]} + multiset(rest);
      assert t == [t[0]] + t[1..];
      assert multiset(t) == multiset{t[0]} + multiset(t[1..]);
    } else {
      assert Insert(x, t) == [x] + t;
      assert multiset([x] + t) == multiset{x} + multiset(t);
    }
  }

  /** No member scores above `m`. */
  predicate AtMost(s: seq<Scored>, m: real)
  {
    forall i :: 0 <= i < |s| ==> s[i].1 <= m
  }

  lemma {:induction false} InsertAtMost(x: Scored, t: seq<Scored>, m: real)
    requires AtMost(t, m) && x.1 <= m
    ensures AtMost(Insert(x, t), m)
  {
    if |t| > 0 && t[0].1 > x.1 {
      var rest := Insert(x, t[1..]);
      InsertAtMost(x, t[1..], m);
      assert Insert(x, t) == [t[0]] + rest;
      assert forall i :: 0 < i <= |rest| ==> ([t[0]] + rest)[i] == rest[i - 1];
    } else {
      assert Insert(x, t) == [x] + t;
      assert forall i :: 0 < i <= |t| ==> ([x] + t)[i] == t[i - 1];
    }
  }

  /** A head scoring at least every other member keeps a descending list descending. */
  lemma SortedCons(h: Scored, s: seq<Scored>)
    requires SortedDesc(s) && AtMost(s, h.1)
    ensures SortedDesc([h] + s)
  {
    assert forall i :: 0 < i <= |s| ==> ([h] + s)[i] == s[i - 1];
  }

  lemma {:induction false} InsertSorted(x: Scored, t: seq<Scored>)
    requires SortedDesc(t)
    ensures SortedDesc(Insert(x, t))
  {
    if |t| > 0 && t[0].1 > x.1 {
      var rest := Insert(x, t[1..]);
      assert SortedDesc(t[1..]) && AtMost(t[1..], t[0].1) by {
        assert forall i :: 0 <= i < |t[1..]| ==> t[1..][i] == t[i + 1];
      }
      InsertSorted(x, t[1..]);
      InsertAtMost(x, t[1..], t[0].1);
      SortedCons(t[0], rest);
      assert Insert(x, t) == [t[0]] + rest;
    } else {
      assert AtMost(t, x.1) by {
        assert forall i :: 0 <= i < |t| ==> t[i].1 <= t[0].1;
      }
      SortedCons(x, t);
      assert Insert(x, t) == [x] + t;
    }
  }

  lemma {:induction false} InsertWithScoreAt(x: Scored, t: seq<Scored>, v: real)
    ensures WithScore(Insert(x, t), v) == (if x.1 == v then [x] else []) + WithScore(t, v)
  {
    if |t| == 0 || t[0].1 <= x.1 {
      assert Insert(x, t) == [x] + t;
      assert ([x] + t)[0] == x;
      assert ([x] + t)[1..] == t;
    } else {
      var rest := Insert(x, t[1..]);
      InsertWithScoreAt(x, t[1..], v);
      assert Insert(x, t) == [t[0]] + rest;
      assert ([t[0]] + rest)[0] == t[0];
      assert ([t[0]] + rest)[1..] == rest;
      assert WithScore([t[0]] + rest, v) == (if t[0].1 == v then [t[0]] else []) + WithScore(rest, v);
      assert WithScore(t, v) == (if t[0].1 == v then [t[0]] else []) + WithScore(t[1..], v);
      assert x.1 == v ==> t[0].1 != v;
    }
  }

  /** Inserting `x` adds it ahead of the members that share its score, and changes no
      other score's members. */
  lemma InsertWithScore(x: Scored, t: seq<Scored>)
    ensures forall v :: WithScore(Insert(x, t), v) == (if x.1 == v then [x] else []) + WithScore(t, v)
  {
    forall v ensures WithScore(Insert(x, t), v) == (if x.1 == v then [x] else []) + WithScore(t, v) {
      InsertWithScoreAt(x, t, v);
    }
  }

  /** Insertion sort on scores, descending and stable. */
  function StableSortDesc(s: seq<Scored>): (r: seq<Scored>)
    ensures SortedDesc(r)
    ensures multiset(r) == multiset(s)
    ensures forall v :: WithScore(r, v) == WithScore(s, v)
  {
    if |s| == 0 then []
    else
      var rest := StableSortDesc(s[1..]);
      SortStep(s, rest);
      Insert(s[0], rest)
  }

  /** Inserting the head into a stable descending sort of the tail sorts the whole list. */
  lemma SortStep(s: seq<Scored>, rest: seq<Scored>)
    requires |s| > 0
    requires SortedDesc(rest)
    requires multiset(rest) == multiset(s[1..])
    requires forall v :: WithScore(rest, v) == WithScore(s[1..], v)
    ensures SortedDesc(Insert(s[0], rest))
    ensures multiset(Insert(s[0], rest)) == multiset(s)
    ensures forall v :: WithScore(Insert(s[0], rest), v) == WithScore(s, v)
  {
    InsertSorted(s[0], rest);
    InsertMultiset(s[0], rest);
    InsertWithScore(s[0], rest);
    assert s == [s[0]] + s[1..];
    assert multiset(s) == multiset(s[1..]) + multiset{s[0]};
  }

  /** The loop that pairs every member's filename with its score. */
  function ScoreAll<Img>(images: seq<(string, Img)>, score: Img -> real): seq<Scored>
  {
    seq(|images|, i requires 0 <= i < |images| => (images[i].0, score(images[i].1)))
  }

  /** `rank_images_in_cluster`, given the copy's quality function `score`. The function
      is total: every copy's `get_quality_score` turns an exception into 0.0, so the
      `except` around it in the loop never drops a member. */
  function RankImagesInCluster<Img>(images: seq<(string, Img)>, score: Img -> real): (r: seq<Scored>)
    ensures SortedDesc(r)
    ensures multiset(r) == multiset(ScoreAll(images, score))
    ensures |r| == |images|
    ensures forall v :: WithScore(r, v) == WithScore(ScoreAll(images, score), v)
  {
    var r := StableSortDesc(ScoreAll(images, score));
    assert |r| == |multiset(r)|;
    r
  }

  /** The position in the input of one ranked pair. */
  lemma InputIndex<Img>(images: seq<(string, Img)>, score: Img -> real, r: seq<Scored>, i: nat)
    returns (k: nat)
    requires multiset(r) == multiset(ScoreAll(images, score))
    requires i < |r|
    ensures k < |images| && r[i] == (images[k].0, score(images[k].1))
  {
    var s := ScoreAll(images, score);
    assert r[i] in multiset(r);
    assert r[i] in s;
    k :| 0 <= k < |s| && s[k] == r[i];
  }

  /** A property every input's score has, every ranked score has: the ranking only
      rearranges the scored inputs. */
  lemma RankedScoresHold<Img>(images: seq<(string, Img)>, score: Img -> real, r: seq<Scored>, ok: real -> bool)
    requires multiset(r) == multiset(ScoreAll(images, score))
    requires forall k :: 0 <= k < |images| ==> ok(score(images[k].1))
    ensures forall i :: 0 <= i < |r| ==> ok(r[i].1)
  {
    forall i | 0 <= i < |r| ensures ok(r[i].1) {
      var k := InputIndex(images, score, r, i);
    }
  }

  /** In a descending ranking every member scoring above 0.0 precedes every member
      scoring exactly 0.0, the score the rankers give a failed image. */
  lemma PositiveBeforeZero(r: seq<Scored>)
    requires SortedDesc(r)
    ensures forall i, j :: 0 <= i < |r| && 0 <= j < |r| && r[i].1 > 0.0 && r[j].1 == 0.0 ==> i < j
  {
  }

  /** A non-empty `WithScore` witnesses a member with that score. */
  lemma {:induction false} WithScoreWitness(s: seq<Scored>, v: real)
    requires WithScore(s, v) != []
    ensures exists i :: 0 <= i < |s| && s[i].1 == v
  {
    if s[0].1 != v {
      WithScoreWitness(s[1..], v);
      var i :| 0 <= i < |s[1..]| && s[1..][i].1 == v;
      assert s[i + 1].1 == v;
    }
  }

  lemma HeadScorePresent(s: seq<Scored>)
    requires |s| > 0
    ensures WithScore(s, s[0].1) == [s[0]] + WithScore(s[1..], s[0].1)
  {
  }

  /** Python's stable `sort(reverse=True)` is determined by its two properties: any two
      arrangements that are non-increasing in score and agree on the order of every
      score's members are equal. So `StableSortDesc` is that sort. */
  lemma {:induction false} StableSortUnique(a: seq<Scored>, b: seq<Scored>)
    requires SortedDesc(a) && SortedDesc(b)
    requires forall v :: WithScore(a, v) == WithScore(b, v)
    ensures a == b
  {
    if |a| == 0 || |b| == 0 {
      if |a| > 0 {
        HeadScorePresent(a);
        assert false;
      } else if |b| > 0 {
        HeadScorePresent(b);
        assert false;
      }
    } else {
      var m := a[0].1;
      assert WithScore(a, m) != [];
      WithScoreWitness(b, m);
      assert m <= b[0].1;
      assert WithScore(b, b[0].1) != [];
      WithScoreWitness(a, b[0].1);
      assert b[0].1 <= m;
      assert WithScore(a, m) == [a[0]] + WithScore(a[1..], m);
      assert WithScore(b, m) == [b[0]] + WithScore(b[1..], m);
      forall v ensures WithScore(a[1..], v) == WithScore(b[1..], v) {
        if v != m {
          assert WithScore(a, v) == WithScore(a[1..], v);
          assert WithScore(b, v) == WithScore(b[1..], v);
        } else {
          assert WithScore(a, m)[1..] == WithScore(a[1..], m);
          assert WithScore(b, m)[1..] == WithScore(b[1..], m);
        }
      }
      StableSortUnique(a[1..], b[1..]);
      assert a == [a[0]] + a[1..];
      assert b == [b[0]] + b[1..];
    }
  }

  /** A lookup in the ranked dict: the ranking of the group, if the key has one. */
  function RankedGroup<Img>(group: Option<seq<(string, Img)>>, score: Img -> real): Option<seq<Scored>>
  {
    match group
      case None => None
      case Some(g) => Some(RankImagesInCluster(g, score))
  }

  /** `rank_clusters`: a new dict with the same keys in the same order, each key mapped
      to the ranking of its own group. */
  function RankClusters<K(==, !new), Img>(groups: Dict<K, seq<(string, Img)>>, score: Img -> real)
    : (r: Dict<K, seq<Scored>>)
    ensures Keys(r) == Keys(groups)
    ensures forall k :: Get(r, k) == RankedGroup(Get(groups, k), score)
    ensures |r| == |groups|
    ensures forall i :: 0 <= i < |r| ==> r[i] == (groups[i].0, RankImagesInCluster(groups[i].1, score))
  {
    var r := seq(|groups|, i requires 0 <= i < |groups| => (groups[i].0, RankImagesInCluster(groups[i].1, score)));
    assert Keys(r) == Keys(groups);
    FindSameKeys(r, groups);
    r
  }

  /** Ranking keeps a group's filenames, each as often as before. */
  lemma RankedNames<Img>(images: seq<(string, Img)>, score: Img -> real)
    ensures multiset(Firsts(RankImagesInCluster(images, score))) == multiset(Firsts(images))
  {
    FirstsPermutation(RankImagesInCluster(images, score), ScoreAll(images, score));
    assert Firsts(ScoreAll(images, score)) == Firsts(images);
  }

  /** Ranking every group neither adds, drops nor repeats a filename. */
  lemma {:induction false} RankClustersNames<K(!new), Img>(groups: Dict<K, seq<(string, Img)>>, score: Img -> real)
    ensures multiset(Firsts(FlatValues(RankClusters(groups, score)))) == multiset(Firsts(FlatValues(groups)))
  {
    if |groups| > 0 {
      var r := RankClusters(groups, score);
      assert r[1..] == RankClusters(groups[1..], score);
      RankClustersNames(groups[1..], score);
      RankedNames(groups[0].1, score);
      FirstsAppend(r[0].1, FlatValues(r[1..]));
      FirstsAppend(groups[0].1, FlatValues(groups[1..]));
    }
  }
}
