/** Order-preserving filtering and element-wise mapping of sequences: the model of
    `Array.prototype.filter` and `Array.prototype.map`, out of which every data
    chain of the game is built, together with what they preserve. */
module Seqs {

  /** `s.filter(keep)`: the elements of `s` that satisfy `keep`, in their original order. */
  function Filter<T>(s: seq<T>, keep: T -> bool): (r: seq<T>)
    ensures |r| <= |s|
    ensures forall i :: 0 <= i < |r| ==> keep(r[i])
    ensures multiset(r) <= multiset(s)
  {
    if s == [] then []
    else
      assert s == [s[0]] + s[1..];
      if keep(s[0]) then [s[0]] + Filter(s[1..], keep) else Filter(s[1..], keep)
  }

  /** `s.map(f)`: one result per element, in the same order. */
  function MapSeq<A, B>(s: seq<A>, f: A -> B): (r: seq<B>)
    ensures |r| == |s|
    ensures forall i :: 0 <= i < |s| ==> r[i] == f(s[i])
  {
    if s == [] then [] else [f(s[0])] + MapSeq(s[1..], f)
  }

  /** `idx` lists, in strictly increasing order, the positions of `s` that `r` is read from. */
  ghost predicate Embedding<T>(idx: seq<nat>, r: seq<T>, s: seq<T>)
  {
    && |idx| == |r|
    && (forall k :: 0 <= k < |idx| ==> idx[k] < |s| && r[k] == s[idx[k]])
    && (forall k, l :: 0 <= k < l < |idx| ==> idx[k] < idx[l])
  }

  /** `r` is obtained from `s` by deleting elements without reordering the rest. */
  ghost predicate IsSubsequence<T>(r: seq<T>, s: seq<T>)
  {
    exists idx :: Embedding(idx, r, s)
  }

  function Shifted(idx: seq<nat>): (r: seq<nat>)
    ensures |r| == |idx|
    ensures forall k :: 0 <= k < |idx| ==> r[k] == idx[k] + 1
  {
    seq(|idx|, k requires 0 <= k < |idx| => idx[k] + 1)
  }

  /** Filtering keeps the surviving elements in their original relative order. */
  lemma {:induction false} FilterIsSubsequence<T>(s: seq<T>, keep: T -> bool)
    ensures IsSubsequence(Filter(s, keep), s)
  {
    var idx := FilterEmbedding(s, keep);
  }

  lemma {:induction false} FilterEmbedding<T>(s: seq<T>, keep: T -> bool) returns (idx: seq<nat>)
    ensures Embedding(idx, Filter(s, keep), s)
  {
    if s == [] {
      idx := [];
    } else {
      var rest := FilterEmbedding(s[1..], keep);
      var tail := ShiftedEmbedding(rest, Filter(s[1..], keep), s);
      if keep(s[0]) {
        idx := ConsEmbedding(tail, Filter(s[1..], keep), s);
      } else {
        idx := tail;
      }
    }
  }

  /** An embedding into the tail of `s` is, shifted by one, an embedding into `s` that
      avoids position 0. */
  lemma ShiftedEmbedding<T>(idx: seq<nat>, r: seq<T>, s: seq<T>) returns (shifted: seq<nat>)
    requires s != [] && Embedding(idx, r, s[1..])
    ensures Embedding(shifted, r, s)
    ensures forall k :: 0 <= k < |shifted| ==> shifted[k] > 0
  {
    shifted := Shifted(idx);
    forall k | 0 <= k < |shifted|
      ensures shifted[k] < |s| && r[k] == s[shifted[k]]
    {
      assert s[1..][idx[k]] == s[idx[k] + 1];
    }
  }

  /** Position 0 in front of an embedding that avoids it embeds `[s[0]] + r`. */
  lemma ConsEmbedding<T>(idx: seq<nat>, r: seq<T>, s: seq<T>) returns (cons: seq<nat>)
    requires s != [] && Embedding(idx, r, s)
    requires forall k :: 0 <= k < |idx| ==> idx[k] > 0
    ensures Embedding(cons, [s[0]] + r, s)
  {
    cons := [0] + idx;
    var r' := [s[0]] + r;
    forall k | 0 <= k < |cons|
      ensures cons[k] < |s| && r'[k] == s[cons[k]]
    {
      if k > 0 {
        assert cons[k] == idx[k - 1] && r'[k] == r[k - 1];
      }
    }
  }

  /** Filtering an element in front of `s`. */
  lemma FilterCons<T>(x: T, s: seq<T>, keep: T -> bool)
    ensures Filter([x] + s, keep) == if keep(x) then [x] + Filter(s, keep) else Filter(s, keep)
  {
    assert ([x] + s)[0] == x && ([x] + s)[1..] == s;
  }

  /** Filtering keeps every occurrence of a kept value and no occurrence of a dropped one;
      with `FilterIsSubsequence` this determines the result completely. */
  lemma {:induction false} FilterCount<T>(s: seq<T>, keep: T -> bool, x: T)
    ensures multiset(Filter(s, keep))[x] == if keep(x) then multiset(s)[x] else 0
  {
    if s != [] {
      var tail := s[1..];
      assert s == [s[0]] + tail;
      FilterCons(s[0], tail, keep);
      FilterCount(tail, keep, x);
      assert multiset(s) == multiset{s[0]} + multiset(tail);
      if keep(s[0]) {
        assert multiset(Filter(s, keep)) == multiset{s[0]} + multiset(Filter(tail, keep));
      }
    }
  }

  /** Filtering a second time with the same test removes nothing more. */
  lemma {:induction false} FilterIdempotent<T>(s: seq<T>, keep: T -> bool)
    ensures Filter(Filter(s, keep), keep) == Filter(s, keep)
  {
    if s != [] {
      var tail := s[1..];
      assert s == [s[0]] + tail;
      FilterCons(s[0], tail, keep);
      FilterIdempotent(tail, keep);
      if keep(s[0]) {
        FilterCons(s[0], Filter(tail, keep), keep);
      }
    }
  }

  /** Filtering by a property of the image and then mapping is the same as mapping and then
      filtering the images: the two orders of `filter`/`map` in the source agree. */
  lemma {:induction false} MapOfFilter<A, B>(s: seq<A>, f: A -> B, keepA: A -> bool, keepB: B -> bool)
    requires forall x :: keepA(x) == keepB(f(x))
    ensures MapSeq(Filter(s, keepA), f) == Filter(MapSeq(s, f), keepB)
  {
    if s != [] {
      MapOfFilter(s[1..], f, keepA, keepB);
      assert MapSeq(s, f)[1..] == MapSeq(s[1..], f);
      if keepA(s[0]) {
        assert Filter(s, keepA)[1..] == Filter(s[1..], keepA);
      }
    }
  }
}
