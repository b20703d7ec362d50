/**
 * The in-place Fisher-Yates `shuffle` of `progress`. The random draws
 * `Math.floor(Math.random() * (i + 1))` are a parameter: `draws[i]` is the
 * index, between 0 and i, that position i is swapped with.
 */
module Shuffle {

  /** Fair draws for a list of length n: the draw for position i lies in 0..i. */
  predicate DrawsFit(draws: seq<int>, n: int) {
    n <= |draws| && forall i :: 0 <= i < |draws| ==> 0 <= draws[i] <= i
  }

  /** The elements at positions i and j exchanged. */
  function Swap<T>(s: seq<T>, i: int, j: int): (t: seq<T>)
    requires 0 <= i < |s| && 0 <= j < |s|
    ensures |t| == |s|
  {
    s[i := s[j]][j := s[i]]
  }

  /** A swap exchanges the two elements and keeps the rest, so it permutes the list. */
  lemma SwapPermutes<T>(s: seq<T>, i: int, j: int)
    requires 0 <= i < |s| && 0 <= j < |s|
    ensures Swap(s, i, j)[i] == s[j] && Swap(s, i, j)[j] == s[i]
    ensures forall k :: 0 <= k < |s| && k != i && k != j ==> Swap(s, i, j)[k] == s[k]
    ensures multiset(Swap(s, i, j)) == multiset(s)
  {
  }

  /** The swaps for positions i, i - 1, ..., 1 applied to s, in that order. */
  function ShuffledFrom<T>(s: seq<T>, draws: seq<int>, i: int): (t: seq<T>)
    requires i < |s| && DrawsFit(draws, |s|)
    ensures |t| == |s|
    ensures forall k :: 0 <= k < |s| && i < k ==> t[k] == s[k]
    decreases i
  {
    if i <= 0 then s
    else
      SwapPermutes(s, i, draws[i]);
      ShuffledFrom(Swap(s, i, draws[i]), draws, i - 1)
  }

  /** The order `shuffle` leaves a list in. */
  function Shuffled<T>(s: seq<T>, draws: seq<int>): (t: seq<T>)
    requires DrawsFit(draws, |s|)
    ensures |t| == |s|
  {
    ShuffledFrom(s, draws, |s| - 1)
  }

  lemma {:induction false} ShuffledFromPermutes<T>(s: seq<T>, draws: seq<int>, i: int)
    requires i < |s| && DrawsFit(draws, |s|)
    ensures |ShuffledFrom(s, draws, i)| == |s| && multiset(ShuffledFrom(s, draws, i)) == multiset(s)
    decreases i
  {
    if i > 0 {
      var t := Swap(s, i, draws[i]);
      SwapPermutes(s, i, draws[i]);
      ShuffledFromPermutes(t, draws, i - 1);
    }
  }

  /** Whatever the draws, the shuffled list is a permutation of the original. */
  lemma ShuffledPermutes<T>(s: seq<T>, draws: seq<int>)
    requires DrawsFit(draws, |s|)
    ensures |Shuffled(s, draws)| == |s| && multiset(Shuffled(s, draws)) == multiset(s)
  {
    ShuffledFromPermutes(s, draws, |s| - 1);
  }

  /** `shuffle(arr)`: swap position i with position draws[i], for i from the last position down to 1. */
  method ShuffleInPlace<T>(a: array<T>, draws: seq<int>)
    requires DrawsFit(draws, a.Length)
    modifies a
    ensures a[..] == Shuffled(old(a[..]), draws)
    ensures multiset(a[..]) == multiset(old(a[..]))
  {
    var i := a.Length - 1;
    while i > 0
      invariant -1 <= i < a.Length
      invariant ShuffledFrom(a[..], draws, i) == Shuffled(old(a[..]), draws)
    {
      var j := draws[i];
      ghost var before := a[..];
      a[i], a[j] := a[j], a[i];
      assert a[..] == Swap(before, i, j);
      assert ShuffledFrom(before, draws, i) == ShuffledFrom(a[..], draws, i - 1);
      i := i - 1;
    }
    ghost var was := old(a[..]);
    assert ShuffledFrom(a[..], draws, i) == a[..];
    ShuffledPermutes(was, draws);
  }
}
