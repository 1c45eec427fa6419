/**
 Python's `dict` keeps its keys in insertion order, and the program's output order
 depends on it. A dict is modelled as a sequence of (key, value) pairs; assignment
 `d[k] = v` updates an existing entry in place and appends a new key at the end.
 */
module PyDict {
  import opened Wrappers

  type Dict<K, V> = seq<(K, V)>

  /** The keys in iteration order. */
  function Keys<K, V>(d: Dict<K, V>): seq<K>
  {
    seq(|d|, i requires 0 <= i < |d| => d[i].0)
  }

  /** No key occurs twice: every dict the program builds has this shape. */
  predicate DistinctKeys<K(==, !new), V>(d: Dict<K, V>)
  {
    forall i, j :: 0 <= i < j < |d| ==> d[i].0 != d[j].0
  }

  /** The position of key `k`: the first entry carrying it, if any. */
  function Find<K(==, !new), V>(d: Dict<K, V>, k: K): (r: Option<nat>)
    ensures r.Some? ==> r.value < |d| && d[r.value].0 == k
    ensures r.Some? ==> forall j :: 0 <= j < r.value ==> d[j].0 != k
    ensures r.None? ==> forall j :: 0 <= j < |d| ==> d[j].0 != k
  {
    if |d| == 0 then None
    else if d[0].0 == k then Some(0)
    else match Find(d[1..], k)
      case None => None
      case Some(i) => Some(i + 1)
  }

  /** `d.get(k)`. */
  function Get<K(==, !new), V>(d: Dict<K, V>, k: K): (r: Option<V>)
    ensures r.Some? <==> k in Keys(d)
    ensures r.Some? ==> exists i :: 0 <= i < |d| && d[i] == (k, r.value)
  {
    match Find(d, k)
      case None => None
      case Some(i) => assert Keys(d)[i] == k; Some(d[i].1)
  }

  /** `d.get(k, default)`. */
  function GetOr<K(==, !new), V>(d: Dict<K, V>, k: K, default: V): V
  {
    match Get(d, k)
      case None => default
      case Some(v) => v
  }

  /** `d[k] = v`: the store law of a dict, and the insertion-order rule. */
  function Put<K(==, !new), V>(d: Dict<K, V>, k: K, v: V): (r: Dict<K, V>)
    ensures k in Keys(d) ==> Keys(r) == Keys(d)
    ensures k !in Keys(d) ==> Keys(r) == Keys(d) + [k]
    ensures Get(r, k) == Some(v)
  {
    match Find(d, k)
      case None =>
        var r := d + [(k, v)];
        assert Keys(r) == Keys(d) + [k];
        FindAppended(d, k, v);
        r
      case Some(i) =>
        var r := d[i := (k, v)];
        assert Keys(d)[i] == k;
        assert Keys(r) == Keys(d);
        FindSameKeys(r, d);
        assert Find(r, k) == Some(i);
        r
  }

  /** `d[k] = v` leaves every other key's lookup alone. */
  lemma PutOthers<K(!new), V>(d: Dict<K, V>, k: K, v: V)
    ensures forall k' :: k' != k ==> Get(Put(d, k, v), k') == Get(d, k')
  {
    var r := Put(d, k, v);
    match Find(d, k)
      case None =>
        assert r == d + [(k, v)];
        FindAppended(d, k, v);
      case Some(i) =>
        assert r == d[i := (k, v)];
        assert Keys(d)[i] == k;
        FindSameKeys(r, d);
  }

  /** `d[k] = v` adds no duplicate key. */
  lemma PutDistinct<K(!new), V>(d: Dict<K, V>, k: K, v: V)
    requires DistinctKeys(d)
    ensures DistinctKeys(Put(d, k, v))
  {
    var r := Put(d, k, v);
    assert forall i :: 0 <= i < |r| ==> r[i].0 == Keys(r)[i];
    assert forall i :: 0 <= i < |d| ==> d[i].0 == Keys(d)[i];
  }

  /** Lookups depend only on the key sequence. */
  lemma FindSameKeys<K(!new), V, W>(d: Dict<K, V>, e: Dict<K, W>)
    requires Keys(d) == Keys(e)
    ensures forall k :: Find(d, k) == Find(e, k)
  {
    forall k ensures Find(d, k) == Find(e, k) {
      assert forall j :: 0 <= j < |d| ==> d[j].0 == Keys(d)[j] == Keys(e)[j] == e[j].0;
    }
  }

  /** Appending a fresh key leaves every other lookup alone. */
  lemma FindAppended<K(!new), V>(d: Dict<K, V>, k: K, v: V)
    requires forall j :: 0 <= j < |d| ==> d[j].0 != k
    ensures Find(d + [(k, v)], k) == Some(|d|)
    ensures forall k' :: k' != k ==> Find(d + [(k, v)], k') == Find(d, k')
  {
    FindAppendedAt(d, k, v, k);
    forall k' | k' != k ensures Find(d + [(k, v)], k') == Find(d, k') {
      FindAppendedAt(d, k, v, k');
    }
  }

  lemma {:induction false} FindAppendedAt<K(!new), V>(d: Dict<K, V>, k: K, v: V, k': K)
    requires forall j :: 0 <= j < |d| ==> d[j].0 != k
    ensures Find(d + [(k, v)], k') == if k' == k then Some(|d|) else Find(d, k')
  {
    var e := d + [(k, v)];
    if |d| > 0 {
      assert e[0] == d[0];
      assert e[1..] == d[1..] + [(k, v)];
      assert forall j :: 0 <= j < |d[1..]| ==> d[1..][j] == d[j + 1];
      FindAppendedAt(d[1..], k, v, k');
    } else {
      assert e == [(k, v)];
      assert e[1..] == [];
    }
  }

  /** With distinct keys, every entry is what a lookup of its key returns. */
  lemma GetEntry<K(!new), V>(d: Dict<K, V>, i: nat)
    requires DistinctKeys(d)
    requires i < |d|
    ensures Get(d, d[i].0) == Some(d[i].1)
  {
    assert Keys(d)[i] == d[i].0;
  }

  /** Adding entries at the end does not change lookups of keys already present. */
  lemma GetPrefix<K(!new), V>(d: Dict<K, V>, e: Dict<K, V>, k: K)
    requires k in Keys(d)
    ensures Get(d + e, k) == Get(d, k)
  {
    var f := Find(d, k);
    assert forall j :: 0 <= j < |d| ==> (d + e)[j] == d[j] && Keys(d)[j] == d[j].0;
    var g := Find(d + e, k);
  }

  /** The first components of a list of pairs. */
  function Firsts<A, B>(s: seq<(A, B)>): seq<A>
  {
    seq(|s|, i requires 0 <= i < |s| => s[i].0)
  }

  /** Rearranging pairs rearranges their first components. */
  lemma {:induction false} FirstsPermutation<A, B>(a: seq<(A, B)>, b: seq<(A, B)>)
    requires multiset(a) == multiset(b)
    ensures multiset(Firsts(a)) == multiset(Firsts(b))
  {
    if |a| > 0 {
      assert a[0] in multiset(b);
      var k :| 0 <= k < |b| && b[k] == a[0];
      var b' := b[..k] + b[k + 1..];
      RemoveAt(a, b, k);
      FirstsPermutation(a[1..], b');
      FirstsRemoveAt(b, k);
      assert Firsts(a) == [a[0].0] + Firsts(a[1..]);
      assert multiset(Firsts(a)) == multiset{a[0].0} + multiset(Firsts(a[1..]));
    } else {
      assert multiset(b) == multiset{};
    }
  }

  /** Taking the same element out of two rearrangements of each other leaves two
      rearrangements of each other. */
  lemma RemoveAt<T>(a: seq<T>, b: seq<T>, k: nat)
    requires |a| > 0 && k < |b| && b[k] == a[0] && multiset(a) == multiset(b)
    ensures multiset(a[1..]) == multiset(b[..k] + b[k + 1..])
  {
    var b' := b[..k] + b[k + 1..];
    assert b == b[..k] + [b[k]] + b[k + 1..];
    assert multiset(b) == multiset(b[..k]) + multiset{b[k]} + multiset(b[k + 1..]);
    assert multiset(b') == multiset(b[..k]) + multiset(b[k + 1..]);
    assert a == [a[0]] + a[1..];
    assert multiset(a) == multiset{a[0]} + multiset(a[1..]);
    forall z ensures multiset(a[1..])[z] == multiset(b')[z] {
      assert multiset(a)[z] == multiset(b)[z];
    }
  }

  lemma FirstsRemoveAt<A, B>(b: seq<(A, B)>, k: nat)
    requires k < |b|
    ensures multiset(Firsts(b)) == multiset(Firsts(b[..k] + b[k + 1..])) + multiset{b[k].0}
  {
    assert b == b[..k] + [b[k]] + b[k + 1..];
    assert Firsts(b) == Firsts(b[..k]) + [b[k].0] + Firsts(b[k + 1..]);
    assert Firsts(b[..k] + b[k + 1..]) == Firsts(b[..k]) + Firsts(b[k + 1..]);
  }

  /** All values of a dict of lists, concatenated in iteration order. */
  function FlatValues<K, V>(d: Dict<K, seq<V>>): seq<V>
  {
    if |d| == 0 then [] else d[0].1 + FlatValues(d[1..])
  }

  lemma {:induction false} FlatValuesAppend<K, V>(d: Dict<K, seq<V>>, e: Dict<K, seq<V>>)
    ensures FlatValues(d + e) == FlatValues(d) + FlatValues(e)
  {
    if |d| > 0 {
      assert (d + e)[1..] == d[1..] + e;
      FlatValuesAppend(d[1..], e);
    } else {
      assert d + e == e;
    }
  }

  /** Appending `x` to one value adds `x` to the flattened values. */
  lemma {:induction false} FlatValuesExtend<K, V>(d: Dict<K, seq<V>>, i: nat, x: V)
    requires i < |d|
    ensures multiset(FlatValues(d[i := (d[i].0, d[i].1 + [x])])) == multiset(FlatValues(d)) + multiset{x}
  {
    var d' := d[i := (d[i].0, d[i].1 + [x])];
    if i == 0 {
      assert d'[1..] == d[1..];
    } else {
      assert d'[1..] == d[1..][i - 1 := (d[i].0, d[i].1 + [x])];
      FlatValuesExtend(d[1..], i - 1, x);
    }
  }

  lemma FirstsAppend<A, B>(a: seq<(A, B)>, b: seq<(A, B)>)
    ensures Firsts(a + b) == Firsts(a) + Firsts(b)
  {
  }
}
