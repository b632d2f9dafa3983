/** Folding a step over a sequence of blocks, when the step loses nothing. */
module HashFold {

  function Fold<S, K>(step: (S, K) -> S, s: S, ks: seq<K>): S {
    if ks == [] then s else Fold(step, step(s, ks[0]), ks[1..])
  }

  /** For a fixed block the step is injective in the state, and for a fixed state in the block. */
  ghost predicate Lossless<S(!new), K(!new)>(step: (S, K) -> S) {
    && (forall s, t, k :: step(s, k) == step(t, k) ==> s == t)
    && (forall s, k, l :: step(s, k) == step(s, l) ==> k == l)
  }

  /** Distinct states stay distinct over the same blocks. */
  lemma {:induction false} FoldKeepsApart<S(!new), K(!new)>(step: (S, K) -> S, s: S, t: S, ks: seq<K>)
    requires Lossless(step) && Fold(step, s, ks) == Fold(step, t, ks)
    ensures s == t
  {
    if ks != [] {
      FoldKeepsApart(step, step(s, ks[0]), step(t, ks[0]), ks[1..]);
    }
  }

  /** Two block sequences that differ at one place at most and fold to the same state are the same. */
  lemma {:induction false} OneDifferenceShows<S(!new), K(!new)>(step: (S, K) -> S, s: S, ks: seq<K>, ls: seq<K>, i: nat)
    requires Lossless(step) && |ks| == |ls|
    requires forall j :: 0 <= j < |ks| && j != i ==> ks[j] == ls[j]
    requires Fold(step, s, ks) == Fold(step, s, ls)
    ensures ks == ls
  {
    if ks != [] {
      if i == 0 {
        assert ks[1..] == ls[1..];
        FoldKeepsApart(step, step(s, ks[0]), step(s, ls[0]), ks[1..]);
      } else {
        OneDifferenceShows(step, step(s, ks[0]), ks[1..], ls[1..], i - 1);
      }
      assert ks == [ks[0]] + ks[1..] && ls == [ls[0]] + ls[1..];
    }
  }
}
