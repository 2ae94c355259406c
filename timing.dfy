/** The time axis of morph.py's getTimes: each keyframe gets a cumulative time
    `distance * r / v` after its predecessor, where `distance` is the Euclidean
    distance between neighbouring camera positions, `r` the frame rate and `v`
    the camera speed; optionally the axis is stretched so that its last time is
    a fixed length. */
module Timing {
  import opened Wrappers
  import opened RealArith

  /** The camera position of a keyframe (getX, getY, getZ). */
  datatype Point = Point(x: real, y: real, z: real)

  /** What getTimes returns: the time of every keyframe and the total length. */
  datatype TimeAxis = TimeAxis(times: seq<real>, totalLength: real)

  /** The ways getTimes fails. EmptyPath: `xes[0]` of an empty list.
      MissingFixedLength: `i * None` when the keyframes coincide.
      ZeroSpeed: division by `v == 0`. ZeroRawDuration: the rescale divides
      by a last time of zero. */
  datatype TimesError = EmptyPath | MissingFixedLength | ZeroSpeed | ZeroRawDuration

  function Last(s: seq<real>): real
    requires |s| >= 1
  {
    s[|s| - 1]
  }

  /** `dx * dx + dy * dy + dz * dz`. */
  function SumOfSquares(dx: real, dy: real, dz: real): real {
    dx * dx + dy * dy + dz * dz
  }

  /** The squared distance from `p` to `q`. */
  function SquaredSpan(p: Point, q: Point): real {
    SumOfSquares(q.x - p.x, q.y - p.y, q.z - p.z)
  }

  /** The Euclidean distance from one keyframe to the next, `** 0.5` being the
      parameter `sqrt`. */
  function Distance(sqrt: real -> real, p: Point, q: Point): real {
    sqrt(SquaredSpan(p, q))
  }

  /** What the model needs of the square root: the distance it yields is never
      negative, and zero exactly between equal points. */
  ghost predicate MeasuresDistance(sqrt: real -> real) {
    forall p, q :: 0.0 <= Distance(sqrt, p, q) && (Distance(sqrt, p, q) == 0.0 <==> p == q)
  }

  /** Every keyframe has the x, y and z of the first one (`areAllSame`). */
  predicate AllSame(ps: seq<Point>)
    requires |ps| >= 1
  {
    forall i :: 0 <= i < |ps| ==> ps[i].x == ps[0].x && ps[i].y == ps[0].y && ps[i].z == ps[0].z
  }

  /** The length of the polyline through the keyframes: the sum of the
      distances between neighbours. */
  function PathLength(sqrt: real -> real, ps: seq<Point>): real
    requires |ps| >= 1
  {
    if |ps| == 1 then 0.0
    else PathLength(sqrt, ps[..|ps| - 1]) + Distance(sqrt, ps[|ps| - 2], ps[|ps| - 1])
  }

  /** The time a segment of length `d` takes: `distance * r / v`. */
  function SegmentTime(d: real, r: real, v: real): real
    requires v != 0.0
  {
    d * r / v
  }

  lemma SegmentTimeZero(r: real, v: real)
    requires v != 0.0
    ensures SegmentTime(0.0, r, v) == 0.0
  {
  }

  /** Segment times add up like the lengths. */
  lemma SegmentTimeAdd(a: real, b: real, r: real, v: real)
    requires v != 0.0
    ensures SegmentTime(a + b, r, v) == SegmentTime(a, r, v) + SegmentTime(b, r, v)
  {
    assert (a + b) * r == a * r + b * r;
  }

  /** Multiplying the rate by `c` multiplies a segment time `t` by `c`. */
  lemma SegmentTimeScaleRate(t: real, u: real, d: real, r: real, v: real, c: real)
    requires v != 0.0
    requires t == SegmentTime(d, r, v) && u == SegmentTime(d, c * r, v)
    ensures u == c * t
  {
    assert d * (c * r) == c * (d * r);
  }

  /** Multiplying the speed by a non-zero `c` divides a segment time `t` by `c`. */
  lemma SegmentTimeScaleSpeed(t: real, u: real, d: real, r: real, v: real, c: real)
    requires v != 0.0 && c != 0.0
    requires t == SegmentTime(d, r, v) && u == SegmentTime(d, r, c * v)
    ensures c * u == t
  {
  }

  /** A segment time is never negative at a non-negative rate and a positive
      speed, and positive for a positive length at a positive rate. */
  lemma SegmentTimeSign(d: real, r: real, v: real)
    requires 0.0 <= d && 0.0 <= r && 0.0 < v
    ensures 0.0 <= SegmentTime(d, r, v)
    ensures 0.0 < d && 0.0 < r ==> 0.0 < SegmentTime(d, r, v)
  {
  }

  /** The times the loop builds: 0 for the first keyframe, and each later one
      the time of its predecessor plus `distance * r / v`. */
  function RawTimes(sqrt: real -> real, ps: seq<Point>, r: real, v: real): (t: seq<real>)
    requires |ps| >= 1 && (|ps| == 1 || v != 0.0)
    ensures |t| == |ps| && t[0] == 0.0
  {
    if |ps| == 1 then [0.0]
    else
      var before := RawTimes(sqrt, ps[..|ps| - 1], r, v);
      before + [SegmentTime(Distance(sqrt, ps[|ps| - 2], ps[|ps| - 1]), r, v) + Last(before)]
  }

  /** The evenly spaced times of coincident keyframes: `i * L / (n - 1)`. */
  function Uniform(n: nat, fixedLength: real): (t: seq<real>)
    requires n >= 2
    ensures |t| == n
  {
    seq(n, i => i as real * fixedLength / (n - 1) as real)
  }

  /** Every time multiplied by `factor`. */
  function Scale(t: seq<real>, factor: real): (s: seq<real>)
    ensures |s| == |t|
    ensures forall i :: 0 <= i < |t| ==> s[i] == t[i] * factor
  {
    seq(|t|, i requires 0 <= i < |t| => t[i] * factor)
  }

  /** The timing up to the rescale (morph.py lines 89-111) of a non-empty path:
      the coincident case needs a fixed length, the other needs a non-zero
      speed once there is a segment. */
  function Measure(sqrt: real -> real, ps: seq<Point>, r: real, v: real, fixedLength: Option<real>): (res: Result<TimeAxis, TimesError>)
    requires |ps| >= 1
    ensures res.Ok? ==> |res.value.times| == |ps| && res.value.times[0] == 0.0
  {
    if AllSame(ps) && |ps| > 1 then
      if fixedLength.None? then Err(MissingFixedLength)
      else Ok(TimeAxis(Uniform(|ps|, fixedLength.value), fixedLength.value))
    else if |ps| > 1 && v == 0.0 then Err(ZeroSpeed)
    else Ok(TimeAxis(RawTimes(sqrt, ps, r, v), PathLength(sqrt, ps)))
  }

  /** The rescale (morph.py lines 113-115): with a fixed length every time is
      multiplied by `fixedLength / last`, which puts the last time at the fixed
      length; a last time of zero is a division by zero. */
  function FitLength(t: TimeAxis, fixedLength: Option<real>): (res: Result<TimeAxis, TimesError>)
    requires |t.times| >= 1
    ensures res.Err? <==> fixedLength.Some? && Last(t.times) == 0.0
    ensures res.Err? ==> res.error == ZeroRawDuration
    ensures res.Ok? ==> |res.value.times| == |t.times| && res.value.totalLength == t.totalLength
    ensures res.Ok? && t.times[0] == 0.0 ==> res.value.times[0] == 0.0
    ensures res.Ok? && fixedLength.Some? ==> Last(res.value.times) == fixedLength.value
    ensures res.Ok? && fixedLength.None? ==> res.value == t
  {
    if fixedLength.None? then Ok(t)
    else if Last(t.times) == 0.0 then Err(ZeroRawDuration)
    else
      var factor := fixedLength.value / Last(t.times);
      DivMul(fixedLength.value, Last(t.times));
      Ok(TimeAxis(Scale(t.times, factor), t.totalLength))
  }

  /** getTimes as a function of its inputs: one time per keyframe starting at
      0, and an error exactly in the cases the code fails. */
  function Times(sqrt: real -> real, ps: seq<Point>, r: real, v: real, fixedLength: Option<real>): (res: Result<TimeAxis, TimesError>)
    ensures res == Err(EmptyPath) <==> |ps| == 0
    ensures res == Err(MissingFixedLength) <==> 1 < |ps| && AllSame(ps) && fixedLength.None?
    ensures res == Err(ZeroSpeed) <==> 1 < |ps| && !AllSame(ps) && v == 0.0
    ensures res.Ok? ==> |res.value.times| == |ps| && res.value.times[0] == 0.0
  {
    if |ps| == 0 then Err(EmptyPath)
    else
      match Measure(sqrt, ps, r, v, fixedLength)
      case Err(e) => Err(e)
      case Ok(t) => FitLength(t, fixedLength)
  }

  /** The loop of getTimes (morph.py lines 99-111): for every pair of
      neighbouring keyframes it appends `distance * r / v` plus the previous
      time and adds `distance` to the length; the division fails at speed 0. */
  method AccumulateTimes(sqrt: real -> real, keyframes: seq<Point>, r: real, v: real)
    returns (res: Result<TimeAxis, TimesError>)
    requires |keyframes| >= 1
    ensures |keyframes| > 1 && v == 0.0 ==> res == Err(ZeroSpeed)
    ensures |keyframes| == 1 || v != 0.0 ==>
      res == Ok(TimeAxis(RawTimes(sqrt, keyframes, r, v), PathLength(sqrt, keyframes)))
  {
    var times := [0.0];
    var totalLength := 0.0;
    for i := 0 to |keyframes| - 1
      invariant i == 0 || v != 0.0
      invariant times == RawTimes(sqrt, keyframes[..i + 1], r, v)
      invariant totalLength == PathLength(sqrt, keyframes[..i + 1])
    {
      var previousFrame := keyframes[i];
      var nextFrame := keyframes[i + 1];
      var dx := nextFrame.x - previousFrame.x;
      var dy := nextFrame.y - previousFrame.y;
      var dz := nextFrame.z - previousFrame.z;
      var distance := sqrt(SumOfSquares(dx, dy, dz));
      if v == 0.0 {
        return Err(ZeroSpeed);
      }
      ghost var before := times;
      times := times + [distance * r / v];
      times := times[|times| - 1 := times[|times| - 1] + times[|times| - 2]];
      totalLength := totalLength + distance;
      RawTimesExtend(sqrt, keyframes, r, v, i, before, distance * r / v);
      PathLengthPrefix(sqrt, keyframes, i);
    }
    assert keyframes[..|keyframes|] == keyframes;
    return Ok(TimeAxis(times, totalLength));
  }

  /** getTimes: the coincident keyframes get evenly spaced times, the others
      the times of the loop; then the times are rescaled in place to the fixed
      length when one is given. */
  method GetTimes(sqrt: real -> real, keyframes: seq<Point>, r: real, v: real, fixedLength: Option<real>)
    returns (res: Result<TimeAxis, TimesError>)
    ensures res == Times(sqrt, keyframes, r, v, fixedLength)
  {
    if |keyframes| == 0 {
      return Err(EmptyPath);
    }
    var times: seq<real>;
    var totalLength: real;
    var areAllSame := AllSame(keyframes);
    if areAllSame && |keyframes| > 1 {
      if fixedLength.None? {
        return Err(MissingFixedLength);
      }
      times := seq(|keyframes|, i => i as real * fixedLength.value / (|keyframes| - 1) as real);
      totalLength := fixedLength.value;
    } else {
      var accumulated := AccumulateTimes(sqrt, keyframes, r, v);
      if accumulated.Err? {
        return accumulated;
      }
      times, totalLength := accumulated.value.times, accumulated.value.totalLength;
    }
    assert Measure(sqrt, keyframes, r, v, fixedLength) == Ok(TimeAxis(times, totalLength));
    if fixedLength.Some? {
      if times[|times| - 1] == 0.0 {
        return Err(ZeroRawDuration);
      }
      var factor := fixedLength.value / times[|times| - 1];
      times := seq(|times|, i requires 0 <= i < |times| => times[i] * factor);
    }
    return Ok(TimeAxis(times, totalLength));
  }

  // ----- The loop's times -----

  /** One turn of the loop: the times of one more keyframe are the times so
      far and the previous time plus the new segment's. */
  lemma RawTimesExtend(sqrt: real -> real, ps: seq<Point>, r: real, v: real, i: nat, before: seq<real>, step: real)
    requires i + 1 < |ps| && v != 0.0
    requires before == RawTimes(sqrt, ps[..i + 1], r, v)
    requires step == SegmentTime(Distance(sqrt, ps[i], ps[i + 1]), r, v)
    ensures RawTimes(sqrt, ps[..i + 2], r, v) == before + [step + Last(before)]
  {
    var prefix := ps[..i + 2];
    assert prefix[..i + 1] == ps[..i + 1];
  }

  /** The times of a prefix of the path are a prefix of the times: appending
      keyframes leaves the earlier times alone. */
  lemma {:induction false} RawTimesPrefix(sqrt: real -> real, ps: seq<Point>, r: real, v: real, k: nat)
    requires 1 <= k <= |ps| && (|ps| == 1 || v != 0.0)
    ensures RawTimes(sqrt, ps, r, v)[..k] == RawTimes(sqrt, ps[..k], r, v)
    decreases |ps|
  {
    if k < |ps| {
      var init := ps[..|ps| - 1];
      RawTimesPrefix(sqrt, init, r, v, k);
      assert init[..k] == ps[..k];
      assert RawTimes(sqrt, ps, r, v)[..k] == RawTimes(sqrt, init, r, v)[..k];
    } else {
      assert ps[..k] == ps;
    }
  }

  /** The lengths of a prefix of the path, likewise. */
  lemma {:induction false} PathLengthPrefix(sqrt: real -> real, ps: seq<Point>, i: nat)
    requires 0 <= i < |ps| - 1
    ensures PathLength(sqrt, ps[..i + 2]) == PathLength(sqrt, ps[..i + 1]) + Distance(sqrt, ps[i], ps[i + 1])
  {
    assert ps[..i + 2][..i + 1] == ps[..i + 1];
  }

  /** Each time is its predecessor's plus `distance * r / v` for the segment
      between them. */
  lemma RawTimesStep(sqrt: real -> real, ps: seq<Point>, r: real, v: real, i: nat)
    requires v != 0.0 && i < |ps| - 1
    ensures RawTimes(sqrt, ps, r, v)[i + 1] == RawTimes(sqrt, ps, r, v)[i] + SegmentTime(Distance(sqrt, ps[i], ps[i + 1]), r, v)
  {
    var pre := ps[..i + 2];
    RawTimesPrefix(sqrt, ps, r, v, i + 2);
    var t := RawTimes(sqrt, pre, r, v);
    var init := RawTimes(sqrt, pre[..i + 1], r, v);
    assert t == init + [SegmentTime(Distance(sqrt, pre[i], pre[i + 1]), r, v) + Last(init)];
    assert Last(init) == t[i];
    assert pre[i] == ps[i] && pre[i + 1] == ps[i + 1];
  }

  /** The time of keyframe `i` is the time the path up to it takes at `r / v`. */
  lemma {:induction false} RawTimesAt(sqrt: real -> real, ps: seq<Point>, r: real, v: real, i: nat)
    requires v != 0.0 && i < |ps|
    ensures RawTimes(sqrt, ps, r, v)[i] == SegmentTime(PathLength(sqrt, ps[..i + 1]), r, v)
    decreases i
  {
    if i == 0 {
      assert PathLength(sqrt, ps[..1]) == 0.0;
      SegmentTimeZero(r, v);
    } else {
      RawTimesAt(sqrt, ps, r, v, i - 1);
      RawTimesStep(sqrt, ps, r, v, i - 1);
      PathLengthPrefix(sqrt, ps, i - 1);
      SegmentTimeAdd(PathLength(sqrt, ps[..i]), Distance(sqrt, ps[i - 1], ps[i]), r, v);
    }
  }

  /** With a non-negative rate and a positive speed the times never decrease,
      and they strictly increase across a segment between distinct points when
      the rate is positive. */
  lemma RawTimesIncrease(sqrt: real -> real, ps: seq<Point>, r: real, v: real, i: nat)
    requires MeasuresDistance(sqrt) && 0.0 <= r && 0.0 < v && i < |ps| - 1
    ensures RawTimes(sqrt, ps, r, v)[i] <= RawTimes(sqrt, ps, r, v)[i + 1]
    ensures 0.0 < r && ps[i] != ps[i + 1] ==> RawTimes(sqrt, ps, r, v)[i] < RawTimes(sqrt, ps, r, v)[i + 1]
  {
    RawTimesStep(sqrt, ps, r, v, i);
    assert 0.0 <= Distance(sqrt, ps[i], ps[i + 1]);
    assert ps[i] != ps[i + 1] ==> 0.0 < Distance(sqrt, ps[i], ps[i + 1]);
    SegmentTimeSign(Distance(sqrt, ps[i], ps[i + 1]), r, v);
  }

  /** Multiplying the rate by `c` multiplies every time by `c`. */
  lemma RawTimesScaleRate(sqrt: real -> real, ps: seq<Point>, r: real, v: real, c: real, i: nat)
    requires v != 0.0 && i < |ps|
    ensures RawTimes(sqrt, ps, c * r, v)[i] == c * RawTimes(sqrt, ps, r, v)[i]
  {
    RawTimesAt(sqrt, ps, r, v, i);
    RawTimesAt(sqrt, ps, c * r, v, i);
    SegmentTimeScaleRate(RawTimes(sqrt, ps, r, v)[i], RawTimes(sqrt, ps, c * r, v)[i], PathLength(sqrt, ps[..i + 1]), r, v, c);
  }

  /** Multiplying the speed by a non-zero `c` divides every time by `c`. */
  lemma RawTimesScaleSpeed(sqrt: real -> real, ps: seq<Point>, r: real, v: real, c: real, i: nat)
    requires v != 0.0 && c != 0.0 && i < |ps|
    ensures c * RawTimes(sqrt, ps, r, c * v)[i] == RawTimes(sqrt, ps, r, v)[i]
  {
    RawTimesAt(sqrt, ps, r, v, i);
    RawTimesAt(sqrt, ps, r, c * v, i);
    SegmentTimeScaleSpeed(RawTimes(sqrt, ps, r, v)[i], RawTimes(sqrt, ps, r, c * v)[i], PathLength(sqrt, ps[..i + 1]), r, v, c);
  }

  /** The length of a path is the length up to keyframe `k` plus the length
      from it on. */
  lemma {:induction false} PathLengthSplit(sqrt: real -> real, ps: seq<Point>, k: nat)
    requires k < |ps|
    ensures PathLength(sqrt, ps) == PathLength(sqrt, ps[..k + 1]) + PathLength(sqrt, ps[k..])
    decreases |ps|
  {
    if k == |ps| - 1 {
      assert ps[..k + 1] == ps;
      assert ps[k..] == [ps[k]];
    } else {
      var init := ps[..|ps| - 1];
      PathLengthSplit(sqrt, init, k);
      assert init[..k + 1] == ps[..k + 1];
      var tail := ps[k..];
      assert tail[..|tail| - 1] == init[k..];
      assert tail[|tail| - 2] == ps[|ps| - 2] && tail[|tail| - 1] == ps[|ps| - 1];
    }
  }

  // ----- getTimes -----

  /** Without a fixed length and away from the coincident case, getTimes
      returns the loop's times and the path length. */
  lemma TimesUnfixed(sqrt: real -> real, ps: seq<Point>, r: real, v: real)
    requires |ps| == 1 || (|ps| > 1 && !AllSame(ps) && v != 0.0)
    ensures Times(sqrt, ps, r, v, None) == Ok(TimeAxis(RawTimes(sqrt, ps, r, v), PathLength(sqrt, ps)))
  {
  }

  /** A single keyframe gets time 0 and length 0; a fixed length cannot be
      reached from a last time of 0. */
  lemma TimesSingle(sqrt: real -> real, p: Point, r: real, v: real, l: real)
    ensures Times(sqrt, [p], r, v, None) == Ok(TimeAxis([0.0], 0.0))
    ensures Times(sqrt, [p], r, v, Some(l)) == Err(ZeroRawDuration)
  {
  }

  /** Multiplying the rate by `c` multiplies every time by `c` and leaves the
      length and the failure cases alone. */
  lemma TimesScaleRate(sqrt: real -> real, ps: seq<Point>, r: real, v: real, c: real)
    ensures Times(sqrt, ps, c * r, v, None).Ok? <==> Times(sqrt, ps, r, v, None).Ok?
    ensures Times(sqrt, ps, r, v, None).Ok? ==>
      var a := Times(sqrt, ps, r, v, None).value;
      var b := Times(sqrt, ps, c * r, v, None).value;
      && b.totalLength == a.totalLength
      && |b.times| == |a.times|
      && forall i :: 0 <= i < |a.times| ==> b.times[i] == c * a.times[i]
  {
    if Times(sqrt, ps, r, v, None).Ok? {
      TimesUnfixed(sqrt, ps, r, v);
      TimesUnfixed(sqrt, ps, c * r, v);
      var a := RawTimes(sqrt, ps, r, v);
      var b := RawTimes(sqrt, ps, c * r, v);
      forall i | 0 <= i < |ps|
        ensures b[i] == c * a[i]
      {
        if v != 0.0 {
          RawTimesScaleRate(sqrt, ps, r, v, c, i);
        }
      }
    }
  }

  /** Multiplying the speed by a non-zero `c` divides every time by `c` and
      leaves the length and the failure cases alone. */
  lemma TimesScaleSpeed(sqrt: real -> real, ps: seq<Point>, r: real, v: real, c: real)
    requires c != 0.0
    ensures Times(sqrt, ps, r, c * v, None).Ok? <==> Times(sqrt, ps, r, v, None).Ok?
    ensures Times(sqrt, ps, r, v, None).Ok? ==>
      var a := Times(sqrt, ps, r, v, None).value;
      var b := Times(sqrt, ps, r, c * v, None).value;
      && b.totalLength == a.totalLength
      && |b.times| == |a.times|
      && forall i :: 0 <= i < |a.times| ==> c * b.times[i] == a.times[i]
  {
    if Times(sqrt, ps, r, v, None).Ok? {
      TimesUnfixed(sqrt, ps, r, v);
      TimesUnfixed(sqrt, ps, r, c * v);
      var a := RawTimes(sqrt, ps, r, v);
      var b := RawTimes(sqrt, ps, r, c * v);
      forall i | 0 <= i < |ps|
        ensures c * b[i] == a[i]
      {
        if v != 0.0 {
          RawTimesScaleSpeed(sqrt, ps, r, v, c, i);
        }
      }
    }
  }

  /** Appending a keyframe keeps every earlier time and adds one, after the
      old last one by `distance * r / v` for the new segment (strictly later
      when the new point is distinct and rate and speed are positive); the
      length grows by that segment's distance. */
  lemma TimesAppend(sqrt: real -> real, ps: seq<Point>, p: Point, r: real, v: real)
    requires |ps| >= 1 && v != 0.0
    requires |ps| == 1 || !AllSame(ps)
    requires !AllSame(ps + [p])
    ensures Times(sqrt, ps, r, v, None).Ok? && Times(sqrt, ps + [p], r, v, None).Ok?
    ensures var old_ := Times(sqrt, ps, r, v, None).value;
      var new_ := Times(sqrt, ps + [p], r, v, None).value;
      var d := Distance(sqrt, ps[|ps| - 1], p);
      && new_.times == old_.times + [SegmentTime(d, r, v) + Last(old_.times)]
      && new_.totalLength == old_.totalLength + d
      && (MeasuresDistance(sqrt) && 0.0 < r && 0.0 < v && p != ps[|ps| - 1] ==> Last(old_.times) < Last(new_.times))
  {
    var qs := ps + [p];
    assert qs[..|qs| - 1] == ps;
    TimesUnfixed(sqrt, ps, r, v);
    TimesUnfixed(sqrt, qs, r, v);
    if MeasuresDistance(sqrt) && 0.0 < r && 0.0 < v && p != ps[|ps| - 1] {
      RawTimesIncrease(sqrt, qs, r, v, |ps| - 1);
    }
  }

  /** The time and length a distinct keyframe adds to a path are those of the
      stand-alone two-point path from the old last keyframe to it. */
  lemma TimesTriangle(sqrt: real -> real, ps: seq<Point>, p: Point, r: real, v: real)
    requires |ps| >= 1 && v != 0.0
    requires |ps| == 1 || !AllSame(ps)
    requires p != ps[|ps| - 1]
    ensures Times(sqrt, ps, r, v, None).Ok? && Times(sqrt, ps + [p], r, v, None).Ok?
    ensures Times(sqrt, [ps[|ps| - 1], p], r, v, None).Ok?
    ensures var old_ := Times(sqrt, ps, r, v, None).value;
      var new_ := Times(sqrt, ps + [p], r, v, None).value;
      var pair := Times(sqrt, [ps[|ps| - 1], p], r, v, None).value;
      && Last(new_.times) - Last(old_.times) == Last(pair.times)
      && new_.totalLength == old_.totalLength + pair.totalLength
  {
    var q := ps[|ps| - 1];
    assert !AllSame(ps + [p]) by {
      assert (ps + [p])[|ps|] == p && (ps + [p])[|ps| - 1] == q;
    }
    assert !AllSame([q, p]) by {
      assert [q, p][1] == p;
    }
    TimesAppend(sqrt, ps, p, r, v);
    TimesUnfixed(sqrt, [q, p], r, v);
    assert [q, p][..1] == [q];
  }

  /** With a fixed length `l`, the timing is the one before the rescale with
      every time multiplied by `l / last`; the last time is then `l` and the
      length is unchanged. A last time of 0 before the rescale fails. */
  lemma TimesFixed(sqrt: real -> real, ps: seq<Point>, r: real, v: real, l: real)
    requires |ps| >= 1
    ensures Measure(sqrt, ps, r, v, Some(l)).Ok? && Last(Measure(sqrt, ps, r, v, Some(l)).value.times) == 0.0
      <==> Times(sqrt, ps, r, v, Some(l)) == Err(ZeroRawDuration)
    ensures Times(sqrt, ps, r, v, Some(l)).Ok? ==>
      var raw := Measure(sqrt, ps, r, v, Some(l)).value;
      var res := Times(sqrt, ps, r, v, Some(l)).value;
      && res.times == Scale(raw.times, l / Last(raw.times))
      && Last(res.times) == l
      && res.totalLength == raw.totalLength
  {
  }

  /** Away from the coincident case, the times with a fixed length `l` are
      the times without one, all multiplied by the one scalar `l / last`; the
      length is the same, and the rescale fails exactly when the times without
      a fixed length end at 0. */
  lemma TimesFixedScalesUnfixed(sqrt: real -> real, ps: seq<Point>, r: real, v: real, l: real)
    requires |ps| >= 1 && (|ps| == 1 || !AllSame(ps))
    ensures Times(sqrt, ps, r, v, Some(l)).Ok? <==>
      Times(sqrt, ps, r, v, None).Ok? && Last(Times(sqrt, ps, r, v, None).value.times) != 0.0
    ensures Times(sqrt, ps, r, v, Some(l)).Ok? ==>
      var a := Times(sqrt, ps, r, v, None).value;
      var b := Times(sqrt, ps, r, v, Some(l)).value;
      && b.times == Scale(a.times, l / Last(a.times))
      && b.totalLength == a.totalLength
      && Last(b.times) == l
  {
    assert Measure(sqrt, ps, r, v, Some(l)) == Measure(sqrt, ps, r, v, None);
  }

  /** Coincident keyframes: without a fixed length getTimes fails; with a
      non-zero fixed length `l` the times are `i * l / (n - 1)`, evenly spaced
      from 0 to `l`, and the length is `l`. */
  lemma TimesCoincident(sqrt: real -> real, ps: seq<Point>, r: real, v: real, l: real)
    requires |ps| > 1 && AllSame(ps)
    ensures Times(sqrt, ps, r, v, None) == Err(MissingFixedLength)
    ensures l == 0.0 <==> Times(sqrt, ps, r, v, Some(l)) == Err(ZeroRawDuration)
    ensures l != 0.0 ==> Times(sqrt, ps, r, v, Some(l)) == Ok(TimeAxis(Uniform(|ps|, l), l))
  {
    var n := |ps|;
    var u := Uniform(n, l);
    MulDiv(l, (n - 1) as real);
    assert Last(u) == l;
    if l != 0.0 {
      assert l / l == 1.0;
      assert Scale(u, l / l) == u;
    }
  }

  /** The coincident times are evenly spaced, `l / (n - 1)` apart, from 0 to `l`. */
  lemma UniformSpacing(n: nat, l: real, i: nat)
    requires n >= 2 && i < n - 1
    ensures Uniform(n, l)[0] == 0.0 && Last(Uniform(n, l)) == l
    ensures Uniform(n, l)[i + 1] - Uniform(n, l)[i] == l / (n - 1) as real
  {
    MulDiv(l, (n - 1) as real);
    SegmentTimeAdd(i as real, 1.0, l, (n - 1) as real);
  }

  /** Three coincident keyframes with fixed length 100 get times 0, 50, 100. */
  lemma TimesCoincidentExample(sqrt: real -> real, p: Point, r: real, v: real)
    ensures Times(sqrt, [p, p, p], r, v, Some(100.0)) == Ok(TimeAxis([0.0, 50.0, 100.0], 100.0))
  {
    TimesCoincident(sqrt, [p, p, p], r, v, 100.0);
    assert Uniform(3, 100.0) == [0.0, 50.0, 100.0];
  }
}
