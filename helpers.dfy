/** The two random helpers of the game. `Math.random` is not modelled: each random
    decision is an arbitrary choice (`:|`), so the contracts below hold for every outcome
    the random number generator could produce. */
module Helpers {
  import opened Wrappers

  /** `shuffleArray(a)`: reorders the elements of `a` in place and returns `a` itself, so
      the caller's array is permuted too. The source sorts with a comparator that answers
      at random; each comparison that swaps two elements is modelled by a swap of two
      arbitrarily chosen positions. */
  method ShuffleArray<T>(a: array<T>) returns (r: array<T>)
    modifies a
    ensures r == a
    ensures multiset(a[..]) == multiset(old(a[..]))
  {
    var i := a.Length;
    while i > 1
      invariant 0 <= i <= a.Length
      invariant multiset(a[..]) == multiset(old(a[..]))
    {
      var j :| 0 <= j < i;
      a[i - 1], a[j] := a[j], a[i - 1];
      i := i - 1;
    }
    r := a;
  }

  /** `randomItem(a)`: an element at some position of `a`; on an empty array the source
      reads index 0 and gets `undefined`, which is `None` here. `a` is a value, so nothing
      the caller holds is changed. */
  method RandomItem<T>(a: seq<T>) returns (r: Option<T>)
    ensures r.None? <==> |a| == 0
    ensures r.Some? ==> exists i :: 0 <= i < |a| && a[i] == r.value
  {
    if |a| == 0 {
      r := None;
    } else {
      var i :| 0 <= i < |a|;
      r := Some(a[i]);
    }
  }
}
