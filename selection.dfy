/** Picking the best-scored candidate. */
module Selection {

  /** The index of the first maximal score. This is what `sorted(xs, key=f, reverse=True)[0]`
      returns (the sort is stable, also in reverse) and what `max(xs, key=f)` returns. */
  function FirstArgMax(scores: seq<real>): (i: nat)
    requires |scores| > 0
    ensures i < |scores|
    ensures forall j :: 0 <= j < |scores| ==> scores[j] <= scores[i]
    ensures forall j :: 0 <= j < i ==> scores[j] < scores[i]
  {
    if |scores| == 1 then 0
    else
      var j := FirstArgMax(scores[..|scores| - 1]);
      if scores[|scores| - 1] > scores[j] then |scores| - 1 else j
  }
}
