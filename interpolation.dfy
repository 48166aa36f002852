/** Clamped linear interpolation shared by the animator's actions: where a
    script time falls relative to an action's [startTime, endTime], the
    fraction of the action elapsed, and channel-wise blending of vectors and
    transfer-function control points. */
module Interpolation {

  /** The three branches every interpolating action takes. */
  datatype Phase = Before | After | Between(fraction: real)

  /** `value` lies on the closed segment joining `a` and `b`. */
  predicate InSegment(value: real, a: real, b: real) {
    (a <= value <= b) || (b <= value <= a)
  }

  /** Share of the action's duration elapsed at script time `t`. Only the
      interior branch computes it, so the divisor is never zero. */
  function Fraction(t: real, startTime: real, endTime: real): (f: real)
    requires startTime < t < endTime
    ensures 0.0 < f < 1.0
    ensures startTime + f * (endTime - startTime) == t
  {
    var actionTime := t - startTime;
    var duration := endTime - startTime;
    QuotientBelowOne(actionTime, duration);
    actionTime / duration
  }

  lemma QuotientBelowOne(x: real, y: real)
    requires 0.0 < x < y
    ensures 0.0 < x / y < 1.0
  {
    var q := x / y;
    assert q * y == x;
    if q >= 1.0 {
      ProductNonNegative(q - 1.0, y);
      assert false;
    }
  }

  lemma ProductNonNegative(x: real, y: real)
    requires 0.0 <= x && 0.0 <= y
    ensures 0.0 <= x * y
  {
  }

  lemma ProductPositive(x: real, y: real)
    requires 0.0 < x && 0.0 < y
    ensures 0.0 < x * y
  {
  }

  /** Which branch an action takes at time `t`: at or before the start it
      copies the start state, otherwise at or after the end it copies the end
      state, otherwise it blends. */
  function PhaseAt(t: real, startTime: real, endTime: real): (p: Phase)
    ensures p.Before? <==> t <= startTime
    ensures p.After? <==> startTime < t && endTime <= t
    ensures p.Between? <==> startTime < t < endTime
    ensures p.Between? ==> 0.0 < p.fraction < 1.0 && startTime + p.fraction * (endTime - startTime) == t
  {
    if t <= startTime then Before
    else if t >= endTime then After
    else Between(Fraction(t, startTime, endTime))
  }

  /** One channel blended from `a` towards `b`. */
  function Lerp(a: real, b: real, f: real): (r: real)
    ensures f == 0.0 ==> r == a
    ensures f == 1.0 ==> r == b
    ensures 0.0 <= f <= 1.0 ==> InSegment(r, a, b)
    ensures 0.0 < f < 1.0 && a != b ==> r != a && r != b
  {
    BlendStaysInSegment(a, b, f);
    a + f * (b - a)
  }

  lemma BlendStaysInSegment(a: real, b: real, f: real)
    ensures 0.0 <= f <= 1.0 ==> InSegment(a + f * (b - a), a, b)
    ensures 0.0 < f < 1.0 && a != b ==> a + f * (b - a) != a && a + f * (b - a) != b
  {
    var d := b - a;
    assert (1.0 - f) * d == d - f * d;
    if 0.0 <= f <= 1.0 {
      if a <= b {
        ProductNonNegative(f, d);
        ProductNonNegative(1.0 - f, d);
      } else {
        ProductNonNegative(f, -d);
        ProductNonNegative(1.0 - f, -d);
      }
    }
    if 0.0 < f < 1.0 && a != b {
      var magnitude := if a < b then d else -d;
      ProductPositive(f, magnitude);
      ProductPositive(1.0 - f, magnitude);
    }
  }

  /** Every component of `a` blended with the matching component of `b`. */
  function LerpVec(a: seq<real>, b: seq<real>, f: real): (r: seq<real>)
    requires |a| == |b|
    ensures |r| == |a|
    ensures f == 0.0 ==> r == a
    ensures f == 1.0 ==> r == b
    ensures 0.0 <= f <= 1.0 ==> forall i :: 0 <= i < |r| ==> InSegment(r[i], a[i], b[i])
  {
    seq(|a|, i requires 0 <= i < |a| => Lerp(a[i], b[i], f))
  }

  /** The loop `for i in range(n): target[i] = start[i] + fraction * (end[i] - start[i])`
      writing into a zero-initialised list of the same width. */
  method BlendVector(start: seq<real>, end: seq<real>, fraction: real) returns (target: seq<real>)
    requires |start| == |end|
    ensures target == LerpVec(start, end, fraction)
  {
    target := seq(|start|, _ => 0.0);
    for i := 0 to |start|
      invariant |target| == |start|
      invariant forall j :: 0 <= j < i ==> target[j] == Lerp(start[j], end[j], fraction)
    {
      target := target[i := start[i] + fraction * (end[i] - start[i])];
    }
  }

  /** Every control point has `width` elements. */
  predicate PointsOfWidth(points: seq<seq<real>>, width: nat) {
    forall i :: 0 <= i < |points| ==> |points[i]| == width
  }

  /** `end` supplies a matching point for every point of `start`: it has at
      least as many points and point `i` has the width of `start`'s point `i`. */
  predicate Covers(end: seq<seq<real>>, start: seq<seq<real>>) {
    |start| <= |end| && forall i :: 0 <= i < |start| ==> |end[i]| == |start[i]|
  }

  /** Control points blended index by index. The result has the start's point
      count; extra points of `end` are never read. */
  function LerpPoints(start: seq<seq<real>>, end: seq<seq<real>>, f: real): (r: seq<seq<real>>)
    requires Covers(end, start)
    ensures |r| == |start|
    ensures forall i :: 0 <= i < |r| ==> |r[i]| == |start[i]|
    ensures f == 0.0 ==> r == start
    ensures f == 1.0 ==> r == end[..|start|]
    ensures 0.0 <= f <= 1.0 ==>
      forall i, j :: 0 <= i < |r| && 0 <= j < |r[i]| ==> InSegment(r[i][j], start[i][j], end[i][j])
  {
    seq(|start|, i requires 0 <= i < |start| => LerpVec(start[i], end[i], f))
  }

  /** The index loop over a transfer function: the target starts as a copy of
      the start function and point `index` is overwritten by the blend of start
      point `index` and end point `index`. */
  method BlendControlPoints(start: seq<seq<real>>, end: seq<seq<real>>, fraction: real)
    returns (target: seq<seq<real>>)
    requires Covers(end, start)
    ensures target == LerpPoints(start, end, fraction)
  {
    target := start;
    for index := 0 to |start|
      invariant |target| == |start|
      invariant forall j :: 0 <= j < index ==> target[j] == LerpVec(start[j], end[j], fraction)
      invariant forall j :: index <= j < |start| ==> target[j] == start[j]
    {
      var targetValue := BlendVector(start[index], end[index], fraction);
      target := target[index := targetValue];
    }
  }
}
