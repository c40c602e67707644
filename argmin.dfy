/** Python's `min(xs, key=d)`: a left-to-right scan that replaces its
    candidate only on a strictly smaller key, so the first minimum wins. */
module ArgMin {

  /** `i` is the first position at which `d` takes its least value. */
  predicate IsFirstMin(d: seq<real>, i: int)
  {
    0 <= i < |d| &&
    (forall j :: 0 <= j < |d| ==> d[i] <= d[j]) &&
    (forall j :: 0 <= j < i ==> d[i] < d[j])
  }

  /** The scan `min` performs, over the keys `d` of its arguments. */
  function FirstArgMin(d: seq<real>): (i: nat)
    requires |d| > 0
    ensures IsFirstMin(d, i)
  {
    if |d| == 1 then 0
    else
      var k := FirstArgMin(d[..|d| - 1]);
      if d[|d| - 1] < d[k] then |d| - 1 else k
  }

  /** At most one position is the first minimum. */
  lemma FirstMinUnique(d: seq<real>, i: int, j: int)
    requires IsFirstMin(d, i) && IsFirstMin(d, j)
    ensures i == j
  {
    assert d[i] == d[j];
  }
}
