/** The inflection finder of morph.py: the first pair of neighbouring values
    that breaks the direction fixed by the first pair. */
module Inflection {
  import opened Wrappers

  /** The direction test the scan applies to one pair: non-strict `<=` when
      going up, non-strict `>=` when going down. */
  predicate Follows(up: bool, x: real, y: real) {
    if up then x <= y else x >= y
  }

  /** The pair of neighbours `(j, j + 1)` follows the direction `up`. */
  predicate FollowsAt(values: seq<real>, up: bool, j: int)
    requires 0 <= j < |values| - 1
  {
    Follows(up, values[j], values[j + 1])
  }

  /** Every pair of neighbours follows the direction `up`. */
  predicate Monotone(values: seq<real>, up: bool) {
    forall j :: 0 <= j < |values| - 1 ==> FollowsAt(values, up, j)
  }

  /** The direction the first pair fixes: up when `values[0] <= values[1]`. */
  function Direction(values: seq<real>): bool
    requires |values| >= 2
  {
    values[0] <= values[1]
  }

  /** The scan from index `i` on: the index after the first pair `(j, j + 1)`,
      `j >= i`, that does not follow `up`, or None when every such pair does
      (ScanFromCorrect). */
  function ScanFrom(values: seq<real>, up: bool, i: nat): (r: Option<nat>)
    requires i < |values|
    ensures r.Some? ==> i < r.value < |values|
    decreases |values| - i
  {
    if i == |values| - 1 then None
    else if !FollowsAt(values, up, i) then Some(i + 1)
    else ScanFrom(values, up, i + 1)
  }

  /** The scan stops just after the first pair from `i` on that breaks `up`,
      and finds nothing exactly when no such pair does. */
  lemma {:induction false} ScanFromCorrect(values: seq<real>, up: bool, i: nat)
    requires i < |values|
    ensures var r := ScanFrom(values, up, i);
      r.Some? ==> !FollowsAt(values, up, r.value - 1)
    ensures var r := ScanFrom(values, up, i);
      r.Some? ==> forall j :: i <= j < r.value - 1 ==> FollowsAt(values, up, j)
    ensures ScanFrom(values, up, i).None? <==> forall j :: i <= j < |values| - 1 ==> FollowsAt(values, up, j)
    decreases |values| - i
  {
    if i < |values| - 1 && FollowsAt(values, up, i) {
      ScanFromCorrect(values, up, i + 1);
    }
  }

  /** findInflection: None for two values or fewer; otherwise the direction is
      `values[0] <= values[1]` and the result is the index just after the first
      pair that breaks it, or None when no pair does (FindInflectionCorrect).
      The first pair always follows the direction it fixes, so an inflection
      is at least 2. */
  function FindInflection(values: seq<real>): (r: Option<nat>)
    ensures |values| <= 2 ==> r == None
    ensures r.Some? ==> 2 <= r.value <= |values| - 1
  {
    if |values| <= 2 then None
    else ScanFrom(values, Direction(values), 0)
  }

  /** The inflection breaks the direction of the first pair, every pair before
      it follows that direction, and there is none exactly when the whole
      sequence follows it. */
  lemma FindInflectionCorrect(values: seq<real>)
    ensures var r := FindInflection(values);
      r.Some? ==> !FollowsAt(values, Direction(values), r.value - 1)
    ensures var r := FindInflection(values);
      r.Some? ==> forall j :: 0 <= j < r.value - 1 ==> FollowsAt(values, Direction(values), j)
    ensures |values| > 2 ==> (FindInflection(values) == None <==> Monotone(values, Direction(values)))
  {
    if |values| > 2 {
      ScanFromCorrect(values, Direction(values), 0);
    }
  }

  /** A sequence that is neither non-decreasing nor non-increasing has an
      inflection, and both sides of it, `[0, k)` and `[k - 1, n)`, hold at
      least two and fewer than `n` values. */
  lemma NonMonotoneHasInflection(values: seq<real>)
    requires !Monotone(values, true) && !Monotone(values, false)
    ensures |values| > 2
    ensures FindInflection(values).Some?
    ensures var k := FindInflection(values).value;
      2 <= k < |values| && 2 <= |values| - (k - 1) < |values|
  {
    FindInflectionCorrect(values);
  }

  /** Direction breaks the scan reports for the sequences the test suite uses,
      and one where the code's fixed direction differs from a sign-change rule:
      `[1, 2, 2, 1]` gives 3 here, not 2. */
  lemma FindInflectionExamples()
    ensures FindInflection([]) == None
    ensures FindInflection([5.0]) == None
    ensures FindInflection([4.0, 3.0]) == None
    ensures FindInflection([1.0, 2.0, 3.0]) == None
    ensures FindInflection([3.0, 2.0, 1.0]) == None
    ensures FindInflection([1.0, 2.0, 1.0]) == Some(2)
    ensures FindInflection([1.0, 0.0, 1.0]) == Some(2)
    ensures FindInflection([1.0, 2.0, 3.0, 0.0]) == Some(3)
    ensures FindInflection([3.0, 2.0, 1.0, 4.0]) == Some(3)
    ensures FindInflection([1.0, 2.0, 2.0, 1.0]) == Some(3)
  {
  }
}
