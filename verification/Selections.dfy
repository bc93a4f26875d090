/** Sequences that keep some elements of another one, in order. */
module Selections {
  /** `r` is what `s` holds at the positions `idx`, in order. */
  ghost predicate Selects<T>(s: seq<T>, r: seq<T>, idx: seq<nat>) {
    |idx| == |r| && (forall i, j :: 0 <= i < j < |idx| ==> idx[i] < idx[j]) &&
    forall i :: 0 <= i < |idx| ==> idx[i] < |s| && r[i] == s[idx[i]]
  }

  lemma SelectsMore<T>(s: seq<T>, r: seq<T>, idx: seq<nat>, x: T)
    requires Selects(s, r, idx)
    ensures Selects(s + [x], r, idx) && Selects(s + [x], r + [x], idx + [|s|])
  {
  }
}
