/** List comprehensions `[x for x in xs if keep(x)]`, described by the positions they keep. */
module Filtering {

  /** The positions of the elements satisfying `keep`, ascending, and no others. */
  function KeptIndices<T>(xs: seq<T>, keep: T -> bool): (ks: seq<nat>)
    ensures forall j :: 0 <= j < |ks| ==> ks[j] < |xs| && keep(xs[ks[j]])
    ensures forall j, j' :: 0 <= j < j' < |ks| ==> ks[j] < ks[j']
    ensures forall i :: 0 <= i < |xs| && keep(xs[i]) ==> i in ks
  {
    if |xs| == 0 then []
    else
      var n := |xs| - 1;
      KeptIndices(xs[..n], keep) + (if keep(xs[n]) then [n] else [])
  }

  /** `[x for x in xs if keep(x)]`. */
  function Filter<T>(xs: seq<T>, keep: T -> bool): seq<T>
  {
    if |xs| == 0 then []
    else
      var n := |xs| - 1;
      Filter(xs[..n], keep) + (if keep(xs[n]) then [xs[n]] else [])
  }

  /** A filter yields exactly the elements satisfying `keep`, in their order. */
  lemma {:induction false} FilterIndices<T>(xs: seq<T>, keep: T -> bool)
    ensures |Filter(xs, keep)| == |KeptIndices(xs, keep)|
    ensures forall j :: 0 <= j < |Filter(xs, keep)| ==> Filter(xs, keep)[j] == xs[KeptIndices(xs, keep)[j]]
  {
    if |xs| > 0 {
      var n := |xs| - 1;
      FilterIndices(xs[..n], keep);
      var ks := KeptIndices(xs[..n], keep);
      assert forall j :: 0 <= j < |ks| ==> xs[..n][ks[j]] == xs[ks[j]];
    }
  }

  /** A filter that keeps every element is the identity. */
  lemma {:induction false} FilterAll<T>(xs: seq<T>, keep: T -> bool)
    ensures (forall i :: 0 <= i < |xs| ==> keep(xs[i])) ==> Filter(xs, keep) == xs
  {
    if |xs| > 0 && forall i :: 0 <= i < |xs| ==> keep(xs[i]) {
      var n := |xs| - 1;
      var pre := xs[..n];
      assert forall i :: 0 <= i < |pre| ==> keep(pre[i]) by {
        assert forall i :: 0 <= i < n ==> pre[i] == xs[i];
      }
      FilterAll(pre, keep);
      assert Filter(xs, keep) == Filter(pre, keep) + [xs[n]];
      assert pre + [xs[n]] == xs;
    }
  }
}
