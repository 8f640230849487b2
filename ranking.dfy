/** The selection rule of the ranked search path: numpy's
    `scores.argsort()[::-1][:top_k]`. The similarity scores themselves come
    from a TF-IDF vectoriser and are an input here (one number per row), and
    so is the order `argsort` produces: numpy's default sort is not stable,
    so every statement below holds for any order `argsort` may return. */
module Ranking {
  import opened Select

  /** `order` is a possible result of `scores.argsort()`: every row index
      exactly once, arranged so that the scores never decrease. */
  predicate IsArgsort(scores: seq<real>, order: seq<nat>): (b: bool)
    ensures b ==> |order| == |scores| && forall k :: 0 <= k < |order| ==> order[k] < |scores|
    ensures b ==> forall k :: 0 <= k < |order| - 1 ==> scores[order[k]] <= scores[order[k + 1]]
  {
    && |order| == |scores|
    && (forall k :: 0 <= k < |order| ==> order[k] < |scores|)
    && (forall a, b :: 0 <= a < b < |order| ==> order[a] != order[b])
    && (forall j :: 0 <= j < |scores| ==> j in order)
    && (forall a, b :: 0 <= a < b < |order| ==> scores[order[a]] <= scores[order[b]])
  }

  /** `scores.argsort()[::-1][:top_k]`: the rows to return, best first.
      There are as many as the slice `[:top_k]` keeps, each a distinct row,
      in non-increasing score order, and no row left out scores higher than
      a row kept; the first one has the highest score of all. */
  function TopK(scores: seq<real>, order: seq<nat>, topK: int): (ranked: seq<nat>)
    requires IsArgsort(scores, order)
    ensures |ranked| == Bound(|scores|, topK)
    ensures forall t :: 0 <= t < |ranked| ==> ranked[t] < |scores|
    ensures forall t, u :: 0 <= t < u < |ranked| ==> ranked[t] != ranked[u]
    ensures forall t, u :: 0 <= t < u < |ranked| ==> scores[ranked[u]] <= scores[ranked[t]]
    ensures forall t, j :: 0 <= t < |ranked| && 0 <= j < |scores| && j !in ranked ==>
      scores[j] <= scores[ranked[t]]
    ensures |ranked| > 0 ==> forall j :: 0 <= j < |scores| ==> scores[j] <= scores[ranked[0]]
  {
    var ranked := Slice(Reverse(order), 0, topK);
    TopKSelects(scores, order, ranked);
    ranked
  }

  /** The facts behind `TopK`, for any prefix of the reversed order. */
  lemma TopKSelects(scores: seq<real>, order: seq<nat>, ranked: seq<nat>)
    requires IsArgsort(scores, order)
    requires |ranked| <= |order|
    requires forall i :: 0 <= i < |ranked| ==> ranked[i] == order[|order| - 1 - i]
    ensures forall t, u :: 0 <= t < u < |ranked| ==> ranked[t] != ranked[u]
    ensures forall t, u :: 0 <= t < u < |ranked| ==> scores[ranked[u]] <= scores[ranked[t]]
    ensures forall t, j :: 0 <= t < |ranked| && 0 <= j < |scores| && j !in ranked ==>
      scores[j] <= scores[ranked[t]]
    ensures |ranked| > 0 ==> forall j :: 0 <= j < |scores| ==> scores[j] <= scores[ranked[0]]
  {
    var n := |order|;
    forall t, u | 0 <= t < u < |ranked|
      ensures ranked[t] != ranked[u] && scores[ranked[u]] <= scores[ranked[t]]
    {
      assert ranked[u] == order[n - 1 - u] && ranked[t] == order[n - 1 - t];
    }
    forall t, j | 0 <= t < |ranked| && 0 <= j < |scores| && j !in ranked
      ensures scores[j] <= scores[ranked[t]]
    {
      LeftOutScoresLower(scores, order, ranked, t, j);
    }
    if |ranked| > 0 {
      forall j | 0 <= j < |scores| ensures scores[j] <= scores[ranked[0]] {
        if j in ranked {
          var u :| 0 <= u < |ranked| && ranked[u] == j;
          if u > 0 { assert scores[ranked[u]] <= scores[ranked[0]]; }
        } else {
          LeftOutScoresLower(scores, order, ranked, 0, j);
        }
      }
    }
  }

  /** A row outside the kept prefix of the reversed order sits lower in
      `order` than every kept row, so it scores no higher. */
  lemma LeftOutScoresLower(scores: seq<real>, order: seq<nat>, ranked: seq<nat>, t: nat, j: nat)
    requires IsArgsort(scores, order)
    requires |ranked| <= |order|
    requires forall i :: 0 <= i < |ranked| ==> ranked[i] == order[|order| - 1 - i]
    requires t < |ranked| && j < |scores| && j !in ranked
    ensures scores[j] <= scores[ranked[t]]
  {
    var n := |order|;
    forall q | n - |ranked| <= q < n ensures order[q] != j {
      assert ranked[n - 1 - q] == order[q];
    }
    assert j in order;
    var p :| 0 <= p < n && order[p] == j;
    assert p < n - 1 - t;
    assert scores[order[p]] <= scores[order[n - 1 - t]];
  }

  /** A reference argsort (insertion sort, ties kept in index order): every
      score vector has a valid `argsort` order, so the ranked path can always
      be taken. */
  function Argsort(scores: seq<real>): (order: seq<nat>)
    ensures IsArgsort(scores, order)
  {
    SortPrefix(scores, |scores|)
  }

  /** The indices `0..m-1` sorted by score. */
  function SortPrefix(scores: seq<real>, m: nat): (order: seq<nat>)
    requires m <= |scores|
    ensures |order| == m
    ensures forall k :: 0 <= k < |order| ==> order[k] < m
    ensures forall a, b :: 0 <= a < b < |order| ==> order[a] != order[b]
    ensures forall j :: 0 <= j < m ==> j in order
    ensures forall a, b :: 0 <= a < b < |order| ==> scores[order[a]] <= scores[order[b]]
  {
    if m == 0 then []
    else
      var sorted := SortPrefix(scores, m - 1);
      var p := InsertPos(scores, sorted, m - 1);
      var order := sorted[..p] + [m - 1] + sorted[p..];
      InsertSorted(scores, sorted, m - 1, p, order);
      order
  }

  /** Inserting index `i` at its `InsertPos` into the sorted indices
      `0..i-1` gives the sorted indices `0..i`. */
  lemma InsertSorted(scores: seq<real>, sorted: seq<nat>, i: nat, p: nat, order: seq<nat>)
    requires i < |scores| && |sorted| == i
    requires forall k :: 0 <= k < |sorted| ==> sorted[k] < i
    requires forall a, b :: 0 <= a < b < |sorted| ==> sorted[a] != sorted[b]
    requires forall j :: 0 <= j < i ==> j in sorted
    requires forall a, b :: 0 <= a < b < |sorted| ==> scores[sorted[a]] <= scores[sorted[b]]
    requires p <= |sorted|
    requires forall k :: 0 <= k < p ==> scores[sorted[k]] <= scores[i]
    requires forall k :: p <= k < |sorted| ==> scores[i] < scores[sorted[k]]
    requires order == sorted[..p] + [i] + sorted[p..]
    ensures |order| == i + 1
    ensures forall k :: 0 <= k < |order| ==> order[k] < i + 1
    ensures forall a, b :: 0 <= a < b < |order| ==> order[a] != order[b]
    ensures forall j :: 0 <= j < i + 1 ==> j in order
    ensures forall a, b :: 0 <= a < b < |order| ==> scores[order[a]] <= scores[order[b]]
  {
    assert forall k :: 0 <= k < p ==> order[k] == sorted[k];
    assert order[p] == i;
    assert forall k :: p < k < |order| ==> order[k] == sorted[k - 1];
    forall j | 0 <= j < i + 1 ensures j in order {
      if j < i {
        assert j in sorted;
        var k :| 0 <= k < |sorted| && sorted[k] == j;
        if k < p { assert order[k] == j; } else { assert order[k + 1] == j; }
      } else {
        assert order[p] == j;
      }
    }
    forall a, b | 0 <= a < b < |order|
      ensures order[a] != order[b] && scores[order[a]] <= scores[order[b]]
    {
      if b < p {
      } else if b == p {
      } else if a < p {
        assert scores[order[a]] <= scores[i] < scores[order[b]];
      } else if a == p {
      } else {
        assert order[a] == sorted[a - 1] && order[b] == sorted[b - 1];
      }
    }
  }

  /** Where score `scores[i]` goes in the ascending `sorted`: after every
      entry that scores no higher, before every entry that scores higher. */
  function InsertPos(scores: seq<real>, sorted: seq<nat>, i: nat): (p: nat)
    requires i < |scores|
    requires forall k :: 0 <= k < |sorted| ==> sorted[k] < |scores|
    requires forall a, b :: 0 <= a < b < |sorted| ==> scores[sorted[a]] <= scores[sorted[b]]
    ensures p <= |sorted|
    ensures forall k :: 0 <= k < p ==> scores[sorted[k]] <= scores[i]
    ensures forall k :: p <= k < |sorted| ==> scores[i] < scores[sorted[k]]
  {
    if sorted == [] || scores[i] < scores[sorted[0]] then 0
    else 1 + InsertPos(scores, sorted[1..], i)
  }
}
