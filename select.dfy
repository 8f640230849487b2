/** Selection over sequences as Python and pandas do it: slicing with
    Python's bounds rules (`s[:k]`, `DataFrame.head(k)`), reversal
    (`s[::-1]`), the first row a mask selects (`df[mask].iloc[0]`) and the
    positions a mask selects, in order (`df[mask]`). */
module Select {

  datatype Option<T> = None | Some(value: T)

  /** How Python normalises a slice bound `i` for a sequence of length `n`:
      a negative bound counts from the end, and the result is clamped to
      `0..n`. */
  function Bound(n: nat, i: int): (b: nat)
    ensures b <= n
  {
    if i < 0 then (if i + n < 0 then 0 else i + n)
    else if i > n then n
    else i
  }

  /** Python's `s[start:stop]`: empty when the normalised bounds cross. */
  function Slice<T>(s: seq<T>, start: int, stop: int): (r: seq<T>)
    ensures |r| <= |s|
    ensures Bound(|s|, start) < Bound(|s|, stop) ==> |r| == Bound(|s|, stop) - Bound(|s|, start)
    ensures Bound(|s|, stop) <= Bound(|s|, start) ==> r == []
    ensures forall i :: 0 <= i < |r| ==> r[i] == s[Bound(|s|, start) + i]
  {
    var lo, hi := Bound(|s|, start), Bound(|s|, stop);
    if lo < hi then s[lo..hi] else []
  }

  /** Within the bounds, a Python slice is the ordinary subsequence. */
  lemma SliceWithin<T>(s: seq<T>, start: int, stop: int)
    ensures 0 <= start <= stop <= |s| ==> Slice(s, start, stop) == s[start..stop]
  {
  }

  /** `s[:k]` keeps the first `min(k, |s|)` elements for `k >= 0`, and for
      a negative `k` drops the last `-k` of them. */
  lemma SlicePrefix<T>(s: seq<T>, k: int)
    ensures 0 <= k ==> Slice(s, 0, k) == s[..if k < |s| then k else |s|]
    ensures k < 0 ==> Slice(s, 0, k) == s[..if -k < |s| then |s| + k else 0]
  {
  }

  /** `s[::-1]`. */
  function Reverse<T>(s: seq<T>): (r: seq<T>)
    ensures |r| == |s|
    ensures forall i :: 0 <= i < |s| ==> r[i] == s[|s| - 1 - i]
  {
    if s == [] then [] else [s[|s| - 1]] + Reverse(s[..|s| - 1])
  }

  /** The index of the first element of `s` that `p` selects, or `None`
      when it selects none. */
  function FirstIndex<T>(s: seq<T>, p: T -> bool): (r: Option<nat>)
    ensures r.Some? ==> r.value < |s| && p(s[r.value])
    ensures r.Some? ==> forall j :: 0 <= j < r.value ==> !p(s[j])
    ensures r.None? <==> forall j :: 0 <= j < |s| ==> !p(s[j])
  {
    if s == [] then None
    else if p(s[0]) then Some(0)
    else match FirstIndex(s[1..], p)
      case None => None
      case Some(k) => Some(k + 1)
  }

  /** The indices of the elements of `s` that `p` selects, in increasing
      order: exactly the selected ones, each once. */
  function Positions<T>(s: seq<T>, p: T -> bool): (ps: seq<nat>)
    ensures forall t :: 0 <= t < |ps| ==> ps[t] < |s| && p(s[ps[t]])
    ensures forall t, u :: 0 <= t < u < |ps| ==> ps[t] < ps[u]
    ensures forall j :: 0 <= j < |s| && p(s[j]) ==> j in ps
    ensures ps == [] <==> forall j :: 0 <= j < |s| ==> !p(s[j])
  {
    if s == [] then []
    else
      var init := s[..|s| - 1];
      var ps := Positions(init, p);
      assert forall t :: 0 <= t < |ps| ==> s[ps[t]] == init[ps[t]];
      ps + if p(s[|s| - 1]) then [|s| - 1] else []
  }

  /** Two filters that agree on every element select the same positions. */
  lemma {:induction false} PositionsAgree<T>(s: seq<T>, p: T -> bool, p': T -> bool)
    requires forall i :: 0 <= i < |s| ==> p(s[i]) == p'(s[i])
    ensures Positions(s, p) == Positions(s, p')
  {
    if s != [] {
      var init := s[..|s| - 1];
      assert forall i :: 0 <= i < |init| ==> init[i] == s[i];
      PositionsAgree(init, p, p');
    }
  }
}
