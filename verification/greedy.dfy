/** The selection loop of makeGreedyCPUMove, over the capture counts of
    the candidate moves in enumeration order. */
module Greedy {
  import opened Wrappers

  /** j is the first position holding the maximum of xs. */
  ghost predicate IsFirstMax(xs: seq<int>, j: int) {
    && 0 <= j < |xs|
    && (forall k :: 0 <= k < |xs| ==> xs[k] <= xs[j])
    && (forall k :: 0 <= k < j ==> xs[k] < xs[j])
  }

  lemma FirstMaxUnique(xs: seq<int>, j: int, j': int)
    requires IsFirstMax(xs, j) && IsFirstMax(xs, j')
    ensures j == j'
  {
    assert xs[j] == xs[j'];
  }

  /** The candidate loop of makeGreedyCPUMove from position i on: `best`
      is the chosen position so far (null at the start) and maxSoFar its
      count (-1 at the start); a later candidate replaces it only when
      strictly greater, so the earliest maximum wins. */
  function BestFrom(xs: seq<int>, i: nat, best: Option<nat>, maxSoFar: int): (r: Option<nat>)
    requires i <= |xs|
    requires forall k :: 0 <= k < |xs| ==> xs[k] >= 0
    requires i == 0 ==> best == None && maxSoFar == -1
    requires i > 0 ==> best.Some? && IsFirstMax(xs[..i], best.value) && maxSoFar == xs[best.value]
    decreases |xs| - i
    ensures |xs| == 0 ==> r == None
    ensures |xs| > 0 ==> r.Some? && IsFirstMax(xs, r.value)
  {
    if i == |xs| then
      assert i > 0 ==> xs[..i] == xs;
      best
    else
      assert forall k :: 0 <= k < i ==> xs[..i + 1][k] == xs[..i][k];
      if xs[i] > maxSoFar then BestFrom(xs, i + 1, Some(i), xs[i])
      else BestFrom(xs, i + 1, best, maxSoFar)
  }

  /** The position the greedy loop settles on: None only for no candidates. */
  function FirstMax(xs: seq<int>): (r: Option<nat>)
    requires forall k :: 0 <= k < |xs| ==> xs[k] >= 0
    ensures r.None? <==> |xs| == 0
    ensures r.Some? ==> IsFirstMax(xs, r.value)
  {
    BestFrom(xs, 0, None, -1)
  }
}
