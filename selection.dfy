/**
 The index selection at the end of recommend_task. The similarity scores come
 from a library and are opaque here; only the choice of the best-scoring index
 is modelled. numpy's argmax returns the first index holding the maximum.
 */
module Selection {

  /** k is the first position of a largest score. */
  ghost predicate IsFirstMax(scores: seq<real>, k: int)
  {
    0 <= k < |scores| &&
    (forall j :: 0 <= j < |scores| ==> scores[j] <= scores[k]) &&
    (forall j :: 0 <= j < k ==> scores[j] < scores[k])
  }

  /** At most one position is the first maximum, so the selection is determined by the scores. */
  lemma FirstMaxUnique(scores: seq<real>, k1: int, k2: int)
    requires IsFirstMax(scores, k1) && IsFirstMax(scores, k2)
    ensures k1 == k2
  {
    assert scores[k1] == scores[k2];
  }

  /** argmax over a non-empty score row (numpy raises on an empty one). */
  method ArgMax(scores: seq<real>) returns (k: nat)
    requires scores != []
    ensures IsFirstMax(scores, k)
  {
    k := 0;
    for i := 1 to |scores|
      invariant k < i
      invariant forall j :: 0 <= j < i ==> scores[j] <= scores[k]
      invariant forall j :: 0 <= j < k ==> scores[j] < scores[k]
    {
      if scores[i] > scores[k] {
        k := i;
      }
    }
  }
}
