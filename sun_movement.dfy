/** The sun-altitude rewrite of morph.py (overrideSunMovement). The keyframes'
    altitudes are one array; every call works on the index range [lo, hi) of
    it, which is what the Python slices `scenes[:ip]` and `scenes[ip-1:]`
    amount to, since they share the scene objects. */
module SunMovement {
  import opened Wrappers
  import opened Inflection
  import opened RealArith

  /** The run's lower end: its first value when it is non-decreasing, else its last. */
  function Dawn(s: seq<real>): real
    requires |s| > 0
  {
    if Monotone(s, true) then s[0] else s[|s| - 1]
  }

  /** The run's upper end: its first value when it is non-increasing, else its last. */
  function Dusk(s: seq<real>): real
    requires |s| > 0
  {
    if Monotone(s, false) then s[0] else s[|s| - 1]
  }

  /** The altitude step of a monotone run: `(dusk - dawn) / (num - 1)`. */
  function Step(s: seq<real>): real
    requires |s| >= 2
  {
    (Dusk(s) - Dawn(s)) / (|s| - 1) as real
  }

  /** The rewrite of one monotone run, as morph.py writes it: every interior
      value becomes `i * step`, without `dawn` added; the two ends stay. */
  function Ramp(s: seq<real>, step: real): (r: seq<real>)
    requires |s| >= 2
    ensures |r| == |s| && r[0] == s[0] && r[|s| - 1] == s[|s| - 1]
    ensures forall i :: 0 < i < |s| - 1 ==> r[i] == i as real * step
  {
    seq(|s|, i requires 0 <= i < |s| => if i == 0 || i == |s| - 1 then s[i] else i as real * step)
  }

  /** What overrideSunMovement leaves in a range that held `s`: nothing changes
      for two values or fewer; a run that is neither non-decreasing nor
      non-increasing is split at its inflection (OverrideAtInflection); a
      monotone run gets Ramp with its Step. The two ends of every range are kept. */
  function Override(s: seq<real>): (r: seq<real>)
    ensures |r| == |s|
    ensures |s| > 0 ==> r[0] == s[0] && r[|s| - 1] == s[|s| - 1]
    ensures |s| <= 2 ==> r == s
    decreases |s|, 1
  {
    if |s| <= 2 then s
    else if !Monotone(s, true) && !Monotone(s, false) then OverrideAtInflection(s)
    else Ramp(s, Step(s))
  }

  /** The split case of Override: with `ip` the inflection, the sides
      `[0, ip)` and `[ip - 1, n)` are rewritten in turn, so the second
      side's rewrite decides the shared index `ip - 1`. */
  function OverrideAtInflection(s: seq<real>): (r: seq<real>)
    requires |s| > 2 && !Monotone(s, true) && !Monotone(s, false)
    ensures |r| == |s| && r[0] == s[0] && r[|s| - 1] == s[|s| - 1]
    decreases |s|, 0
  {
    NonMonotoneHasInflection(s);
    var ip := FindInflection(s).value;
    var left := Override(s[..ip]);
    var right := Override(s[ip - 1..]);
    left[..ip - 1] + right
  }

  /** `after` is `before` with the range [lo, hi) rewritten by Override and
      every value outside the range as it was. */
  ghost predicate RangeOverridden(before: seq<real>, after: seq<real>, lo: nat, hi: nat)
    requires lo <= hi <= |before|
  {
    |after| == |before| && after[lo..hi] == Override(before[lo..hi])
    && after[..lo] == before[..lo] && after[hi..] == before[hi..]
  }

  /** The split case of Override, one unfolding. */
  lemma OverrideSplit(s: seq<real>, ip: nat)
    requires !Monotone(s, true) && !Monotone(s, false)
    requires FindInflection(s) == Some(ip)
    ensures 2 <= ip < |s|
    ensures Override(s) == Override(s[..ip])[..ip - 1] + Override(s[ip - 1..])
  {
    NonMonotoneHasInflection(s);
  }

  /** Rewriting [lo, mid) and then [mid - 1, hi) is rewriting [lo, hi), when
      `mid - lo` is the inflection of that range: the second side starts at
      the first side's last index, which the first rewrite keeps. */
  lemma OverrideRangeSplit(before: seq<real>, middle: seq<real>, after: seq<real>, lo: nat, mid: nat, hi: nat)
    requires lo + 2 <= mid <= hi <= |before|
    requires !Monotone(before[lo..hi], true) && !Monotone(before[lo..hi], false)
    requires FindInflection(before[lo..hi]) == Some(mid - lo)
    requires RangeOverridden(before, middle, lo, mid)
    requires RangeOverridden(middle, after, mid - 1, hi)
    ensures RangeOverridden(before, after, lo, hi)
  {
    var left := Override(before[lo..mid]);
    var right := Override(middle[mid - 1..hi]);
    RangeKeepsLast(before, lo, mid);
    SplitFrames(before, middle, after, lo, mid, hi, left, right);
    var s := before[lo..hi];
    var ip := mid - lo;
    assert s[..ip] == before[lo..mid];
    assert s[ip - 1..] == before[mid - 1..hi];
    OverrideSplit(s, ip);
  }

  /** Override keeps the last value of a range. */
  lemma RangeKeepsLast(a: seq<real>, lo: nat, hi: nat)
    requires lo < hi <= |a|
    ensures Override(a[lo..hi])[hi - lo - 1] == a[hi - 1]
  {
    var t := a[lo..hi];
    assert Override(t)[|t| - 1] == t[|t| - 1];
  }

  /** The index bookkeeping of the split, on plain sequences: `middle` holds
      `left` in [lo, mid) and `after` holds `right` in [mid - 1, hi); since
      `left` ends on the value `before` has at `mid - 1`, the second side
      starts from what `before` held, and `after` holds `left` without its
      last value, then `right`, in [lo, hi). */
  lemma SplitFrames(before: seq<real>, middle: seq<real>, after: seq<real>, lo: nat, mid: nat, hi: nat,
                    left: seq<real>, right: seq<real>)
    requires lo < mid <= hi <= |before| == |middle| == |after|
    requires |left| == mid - lo && left[mid - lo - 1] == before[mid - 1]
    requires middle[lo..mid] == left && middle[..lo] == before[..lo] && middle[mid..] == before[mid..]
    requires after[mid - 1..hi] == right && after[..mid - 1] == middle[..mid - 1] && after[hi..] == middle[hi..]
    ensures middle[mid - 1..hi] == before[mid - 1..hi]
    ensures after[lo..hi] == left[..mid - lo - 1] + right
    ensures after[..lo] == before[..lo] && after[hi..] == before[hi..]
  {
    assert middle[mid - 1..hi] == [middle[mid - 1]] + middle[mid..][..hi - mid];
    assert before[mid - 1..hi] == [before[mid - 1]] + before[mid..][..hi - mid];
    assert after[lo..mid - 1] == left[..mid - lo - 1] by {
      assert after[lo..mid - 1] == after[..mid - 1][lo..];
      assert middle[lo..mid - 1] == middle[..mid - 1][lo..];
      assert middle[lo..mid - 1] == middle[lo..mid][..mid - lo - 1];
    }
    assert after[lo..hi] == after[lo..mid - 1] + after[mid - 1..hi];
    assert after[..lo] == after[..mid - 1][..lo];
    assert middle[..lo] == middle[..mid - 1][..lo];
    assert middle[hi..] == middle[mid..][hi - mid..];
    assert before[hi..] == before[mid..][hi - mid..];
  }

  /** overrideSunMovement on the scenes `lo .. hi - 1`: afterwards the range
      holds Override of what it held, and no altitude outside it changes. */
  method OverrideSunMovement(altitudes: array<real>, lo: nat, hi: nat)
    requires lo <= hi <= altitudes.Length
    modifies altitudes
    ensures RangeOverridden(old(altitudes[..]), altitudes[..], lo, hi)
    decreases hi - lo
  {
    var sunAltitudes := altitudes[lo..hi];
    if |sunAltitudes| <= 2 {
      return;
    }
    var isIncreasing := Monotone(sunAltitudes, true);
    var isDecreasing := Monotone(sunAltitudes, false);

    if !isIncreasing && !isDecreasing {
      NonMonotoneHasInflection(sunAltitudes);
      var inflectionPoint := FindInflection(sunAltitudes).value;
      ghost var before := altitudes[..];
      var mid := lo + inflectionPoint;
      OverrideSunMovement(altitudes, lo, mid);
      ghost var middle := altitudes[..];
      OverrideSunMovement(altitudes, mid - 1, hi);
      OverrideRangeSplit(before, middle, altitudes[..], lo, mid, hi);
      return;
    }

    RewriteMonotoneRange(altitudes, lo, hi, isIncreasing, isDecreasing);
  }

  /** The monotone case of overrideSunMovement on [lo, hi): with `dawn` and
      `dusk` the run's lower and upper ends, every interior index `lo + i`
      gets `i * step`; the ends and everything outside the range stay. */
  method RewriteMonotoneRange(altitudes: array<real>, lo: nat, hi: nat, isIncreasing: bool, isDecreasing: bool)
    requires lo + 2 < hi <= altitudes.Length
    requires isIncreasing == Monotone(altitudes[lo..hi], true)
    requires isDecreasing == Monotone(altitudes[lo..hi], false)
    requires isIncreasing || isDecreasing
    modifies altitudes
    ensures RangeOverridden(old(altitudes[..]), altitudes[..], lo, hi)
  {
    var sunAltitudes := altitudes[lo..hi];
    var dawn := if isIncreasing then sunAltitudes[0] else sunAltitudes[|sunAltitudes| - 1];
    var dusk := if isDecreasing then sunAltitudes[0] else sunAltitudes[|sunAltitudes| - 1];
    var num := |sunAltitudes|;
    var step := (dusk - dawn) / (num - 1) as real;

    for i := 1 to num - 1
      invariant forall k :: 0 <= k < altitudes.Length ==>
        altitudes[k] == if lo + 1 <= k < lo + i then (k - lo) as real * step else old(altitudes[k])
    {
      altitudes[lo + i] := i as real * step;
    }
    RewriteRange(old(altitudes[..]), altitudes[..], lo, hi, step);
  }

  /** The loop over the interior of a monotone range leaves the whole
      sequence as RangeOverridden says. */
  lemma RewriteRange(a: seq<real>, b: seq<real>, lo: nat, hi: nat, step: real)
    requires lo + 2 < hi <= |a| == |b|
    requires Monotone(a[lo..hi], true) || Monotone(a[lo..hi], false)
    requires step == Step(a[lo..hi])
    requires forall k :: 0 <= k < |b| ==> b[k] == if lo + 1 <= k < hi - 1 then (k - lo) as real * step else a[k]
    ensures RangeOverridden(a, b, lo, hi)
  {
    var s := a[lo..hi];
    var target := Ramp(s, step);
    assert Override(s) == target by {
      OverrideOfMonotone(s);
    }
    forall k | 0 <= k < hi - lo ensures b[lo..hi][k] == target[k] {
      assert b[lo..hi][k] == b[lo + k];
    }
  }

  /** Consequence of the split: the value at the inflection's left neighbour,
      the last value the first direction reaches, is never rewritten. */
  lemma OverrideKeepsTurningPoint(s: seq<real>)
    requires !Monotone(s, true) && !Monotone(s, false)
    ensures FindInflection(s).Some?
    ensures var ip := FindInflection(s).value; Override(s)[ip - 1] == s[ip - 1]
  {
    NonMonotoneHasInflection(s);
    var ip := FindInflection(s).value;
    var left := Override(s[..ip]);
    var right := Override(s[ip - 1..]);
    assert Override(s) == left[..ip - 1] + right;
    assert right[0] == s[ip - 1];
  }

  /** The ends of a monotone run are ordered the way the run goes. */
  lemma {:induction false} MonotoneEnds(s: seq<real>, up: bool)
    requires |s| > 0 && Monotone(s, up)
    ensures Follows(up, s[0], s[|s| - 1])
    decreases |s|
  {
    if |s| > 1 {
      var t := s[..|s| - 1];
      assert Monotone(t, up) by {
        forall j | 0 <= j < |t| - 1 ensures FollowsAt(t, up, j) {
          assert FollowsAt(s, up, j);
        }
      }
      MonotoneEnds(t, up);
      assert FollowsAt(s, up, |s| - 2);
    }
  }

  /** A monotone run of more than two values is rewritten by Ramp with its Step. */
  lemma OverrideOfMonotone(s: seq<real>)
    requires |s| > 2 && (Monotone(s, true) || Monotone(s, false))
    ensures Override(s) == Ramp(s, Step(s))
  {
  }

  /** An interior value of the rewritten run is `i * step`. */
  lemma RampAt(s: seq<real>, step: real, i: nat)
    requires 1 <= i <= |s| - 2
    ensures Ramp(s, step)[i] == i as real * step
  {
  }

  /** The step of a monotone run, by direction: the rise of a non-decreasing
      run, or the fall of a non-increasing one, over `num - 1`. */
  lemma StepByDirection(s: seq<real>)
    requires |s| > 2
    ensures Monotone(s, true) ==> Step(s) == (s[|s| - 1] - s[0]) / (|s| - 1) as real
    ensures Monotone(s, false) ==> Step(s) == (s[0] - s[|s| - 1]) / (|s| - 1) as real
  {
    RunEndsDifference(s);
  }

  /** A monotone range of more than two values gets `i * step` at every
      interior index `i`, with Step (`(dusk - dawn) / (num - 1)`, see
      StepByDirection) computed from its ends. */
  lemma OverrideMonotoneRun(s: seq<real>, i: nat)
    requires |s| > 2 && (Monotone(s, true) || Monotone(s, false))
    requires 1 <= i <= |s| - 2
    ensures Override(s)[i] == i as real * Step(s)
  {
    OverrideOfMonotone(s);
    RampAt(s, Step(s), i);
  }

  /** `dusk - dawn` is the rise of a non-decreasing run and the fall of a
      non-increasing one. */
  lemma RunEndsDifference(s: seq<real>)
    requires |s| > 0
    ensures Monotone(s, true) ==> Dusk(s) - Dawn(s) == s[|s| - 1] - s[0]
    ensures Monotone(s, false) ==> Dusk(s) - Dawn(s) == s[0] - s[|s| - 1]
  {
    if Monotone(s, true) && Monotone(s, false) {
      MonotoneEnds(s, true);
      MonotoneEnds(s, false);
    }
  }

  /** An evenly spaced non-decreasing ramp that starts at zero, such as the
      altitudes 0, 1, 2, 3, 4, is left as it is. */
  lemma OverrideKeepsRampFromZero(s: seq<real>, c: real)
    requires c >= 0.0
    requires forall i :: 0 <= i < |s| ==> s[i] == i as real * c
    ensures Override(s) == s
  {
    if |s| > 2 {
      assert Monotone(s, true) by {
        forall j | 0 <= j < |s| - 1 ensures FollowsAt(s, true, j) {
          assert s[j + 1] == j as real * c + c;
        }
      }
      RampRunStep(s, c);
      OverrideOfMonotone(s);
      RampOfRamp(s, c);
    }
  }

  /** The step of a ramp `i * c`, `c >= 0`, is `c`. */
  lemma RampRunStep(s: seq<real>, c: real)
    requires |s| > 2 && c >= 0.0
    requires forall i :: 0 <= i < |s| ==> s[i] == i as real * c
    ensures Step(s) == c
  {
    var n := |s|;
    var m := (n - 1) as real;
    assert s[n - 1] == m * c && s[0] == 0.0;
    assert Dawn(s) == 0.0 by {
      assert FollowsAt(s, true, 0) by {
        assert s[1] == c;
      }
    }
    if Monotone(s, false) {
      assert FollowsAt(s, false, 0);
      assert s[1] == c;
      assert c == 0.0;
    }
    assert Dusk(s) - Dawn(s) == m * c;
    MulDiv(c, m);
  }

  /** A ramp `i * c` rewritten with step `c` is itself. */
  lemma RampOfRamp(s: seq<real>, c: real)
    requires |s| > 2
    requires forall i :: 0 <= i < |s| ==> s[i] == i as real * c
    ensures Ramp(s, c) == s
  {
    forall i | 0 <= i < |s| ensures Ramp(s, c)[i] == s[i] {
    }
  }

  /** The altitudes of the sun test, 0 to 4 in steps of 1, stay as they are. */
  lemma OverrideExamples()
    ensures Override([0.0, 1.0, 2.0, 3.0, 4.0]) == [0.0, 1.0, 2.0, 3.0, 4.0]
  {
    OverrideKeepsRampFromZero([0.0, 1.0, 2.0, 3.0, 4.0], 1.0);
  }

  /** The run rewrite as written moves a run that does not start at zero
      (`[10, 11, 12]` becomes `[10, 1, 12]`) and turns a decreasing run into
      one that goes up in its interior (`[4, 3, 2, 1, 0]` becomes
      `[4, 1, 2, 3, 0]`). */
  lemma RewriteRunMovesRaisedRun()
    ensures Override([10.0, 11.0, 12.0]) == [10.0, 1.0, 12.0]
    ensures Override([4.0, 3.0, 2.0, 1.0, 0.0]) == [4.0, 1.0, 2.0, 3.0, 0.0]
    ensures !Monotone(Override([4.0, 3.0, 2.0, 1.0, 0.0]), false)
  {
    var a := [10.0, 11.0, 12.0];
    assert Monotone(a, true) by {
      assert FollowsAt(a, true, 0) && FollowsAt(a, true, 1);
    }
    assert !Monotone(a, false) by {
      assert !FollowsAt(a, false, 0);
    }
    assert Ramp(a, Step(a)) == [10.0, 1.0, 12.0];
    var b := [4.0, 3.0, 2.0, 1.0, 0.0];
    assert !Monotone(b, true) by {
      assert !FollowsAt(b, true, 0);
    }
    assert Ramp(b, Step(b)) == [4.0, 1.0, 2.0, 3.0, 0.0];
    var c := [4.0, 1.0, 2.0, 3.0, 0.0];
    assert !FollowsAt(c, false, 1);
  }

  /** The evidently intended run rewrite: straight-line interpolation from the
      run's first value to its last, `s[0] + i * (s[n-1] - s[0]) / (n - 1)`. */
  function InterpolateRun(s: seq<real>): (r: seq<real>)
    requires |s| >= 2
    ensures |r| == |s| && r[0] == s[0] && r[|s| - 1] == s[|s| - 1]
  {
    var step := (s[|s| - 1] - s[0]) / (|s| - 1) as real;
    seq(|s|, i requires 0 <= i < |s| => if i == 0 || i == |s| - 1 then s[i] else s[0] + i as real * step)
  }

  /** Every value of the interpolated run, ends included, lies on the line
      `s[0] + i * step`. */
  lemma InterpolateRunAt(s: seq<real>, i: nat)
    requires |s| >= 2 && i < |s|
    ensures InterpolateRun(s)[i] == s[0] + i as real * ((s[|s| - 1] - s[0]) / (|s| - 1) as real)
  {
    if i == |s| - 1 {
      var m := (|s| - 1) as real;
      DivMul(s[|s| - 1] - s[0], m);
    }
  }

  /** The interpolated run keeps the direction of a monotone run. */
  lemma InterpolateRunKeepsDirection(s: seq<real>, up: bool)
    requires |s| >= 2 && Monotone(s, up)
    ensures Monotone(InterpolateRun(s), up)
  {
    MonotoneEnds(s, up);
    var m := (|s| - 1) as real;
    var step := (s[|s| - 1] - s[0]) / m;
    DivSign(s[|s| - 1] - s[0], m);
    var r := InterpolateRun(s);
    forall j | 0 <= j < |s| - 1 ensures FollowsAt(r, up, j) {
      InterpolateRunAt(s, j);
      InterpolateRunAt(s, j + 1);
      assert r[j + 1] == r[j] + step;
    }
  }

  /** An evenly spaced run is its own interpolation. */
  lemma InterpolateRunKeepsEvenSpacing(s: seq<real>, d: real)
    requires |s| >= 2
    requires forall i :: 0 <= i < |s| ==> s[i] == s[0] + i as real * d
    ensures InterpolateRun(s) == s
  {
    var m := (|s| - 1) as real;
    assert s[|s| - 1] - s[0] == m * d;
    MulDiv(d, m);
    forall i | 0 <= i < |s| ensures InterpolateRun(s)[i] == s[i] {
      InterpolateRunAt(s, i);
    }
  }
}
