/**
 The id rule both repositories share: a new record gets the largest stored
 id plus one, or one when nothing is stored.
 */
module Ids {

  /** The value the id stream falls back to when it is empty. */
  const EmptyListSize: int := 0
  /** The step added to the largest id. */
  const IdIncrement: int := 1

  /** The largest of a non-empty list of ids. */
  function Max(ids: seq<int>): (m: int)
    requires |ids| > 0
    ensures forall i :: 0 <= i < |ids| ==> ids[i] <= m
    ensures m in ids
  {
    if |ids| == 1 then ids[0]
    else
      var rest := Max(ids[1..]);
      assert rest in ids;
      if ids[0] >= rest then ids[0] else rest
  }

  /** The id the next stored record receives. */
  function Next(ids: seq<int>): (r: int)
    ensures forall i :: 0 <= i < |ids| ==> ids[i] < r
    ensures |ids| == 0 ==> r == 1
    ensures |ids| > 0 ==> r - 1 in ids
  {
    (if |ids| == 0 then EmptyListSize else Max(ids)) + IdIncrement
  }

  ghost predicate Distinct(ids: seq<int>) {
    forall i, j :: 0 <= i < j < |ids| ==> ids[i] != ids[j]
  }

  /** Appending the next id to distinct ids keeps them distinct. */
  lemma NextKeepsDistinct(ids: seq<int>)
    requires Distinct(ids)
    ensures Distinct(ids + [Next(ids)])
  {
  }
}
