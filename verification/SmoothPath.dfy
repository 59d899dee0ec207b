/**
 The chart's curve: monotone cubic interpolation (Fritsch-Carlson) through a list
 of vertices. Coordinates are reals, and the length of a tangent pair is given by
 its defining equation.

 The claim is that smoothing never invents a reading: on every segment the curve
 moves one way only, between the two values it joins.
 */
module SmoothPath {
  import opened Basics

  datatype Point = Point(x: real, y: real)

  /** Four control points of one cubic segment. */
  datatype Segment = Segment(p0: Point, p1: Point, p2: Point, p3: Point)

  /** A segment without width has slope zero. */
  function Slopes(vertices: seq<Point>): (slopes: seq<real>)
    requires |vertices| >= 2
    ensures |slopes| == |vertices| - 1
  {
    seq(|vertices| - 1, i requires 0 <= i < |vertices| - 1 =>
      var width := vertices[i + 1].x - vertices[i].x;
      if width != 0.0 then (vertices[i + 1].y - vertices[i].y) / width else 0.0)
  }

  /** `hypot(a, b)` is the length of the vector (`a`, `b`). */
  ghost predicate IsHypot(hypot: (real, real) -> real) {
    forall a, b :: hypot(a, b) >= 0.0 && hypot(a, b) * hypot(a, b) == a * a + b * b
  }

  // -------------------------------------------------------------------------
  // The limit on tangents

  function Scaled(ratio: real, slope: real, scale: real): real {
    scale * ratio * slope
  }

  /** `tangent` is zero or has the sign of `slope`. */
  predicate Along(tangent: real, slope: real) {
    if slope > 0.0 then tangent >= 0.0 else if slope < 0.0 then tangent <= 0.0 else tangent == 0.0
  }

  /** The tangents at the two ends of a segment, as multiples of its slope, lie in the disc of radius 3. */
  predicate Limited(left: real, right: real, slope: real) {
    left * left + right * right <= 9.0 * (slope * slope)
  }

  /** A segment whose tangents have been limited. */
  predicate Settled(left: real, right: real, slope: real) {
    Along(left, slope) && Along(right, slope) && Limited(left, right, slope)
  }

  /** `shrunk` is `tangent` moved toward zero, or left alone. */
  predicate Shrunk(shrunk: real, tangent: real) {
    (0.0 <= shrunk <= tangent) || (tangent <= shrunk <= 0.0)
  }

  lemma ShrinkingKeepsAlong(shrunk: real, tangent: real, slope: real)
    requires Shrunk(shrunk, tangent) && Along(tangent, slope)
    ensures Along(shrunk, slope)
  {
  }

  lemma SquareShrinks(shrunk: real, tangent: real)
    requires Shrunk(shrunk, tangent)
    ensures shrunk * shrunk <= tangent * tangent
  {
    if shrunk >= 0.0 && tangent >= shrunk {
      assert shrunk * shrunk <= shrunk * tangent <= tangent * tangent;
    } else {
      assert shrunk * shrunk <= shrunk * tangent <= tangent * tangent;
    }
  }

  /** A later segment that shrinks the shared tangent leaves this one settled. */
  lemma ShrinkingKeepsSettled(left: real, right: real, shrunk: real, slope: real)
    requires Settled(left, right, slope) && Shrunk(shrunk, right)
    ensures Settled(left, shrunk, slope)
  {
    SquareShrinks(shrunk, right);
    ShrinkingKeepsAlong(shrunk, right, slope);
  }

  /** Scaling a tangent pair outside the disc onto its rim. */
  lemma ScaledPairIsSettled(left: real, right: real, slope: real, radius: real)
    requires slope != 0.0 && Along(left, slope) && Along(right, slope)
    requires radius > 3.0
    requires radius * radius == left / slope * (left / slope) + right / slope * (right / slope)
    ensures var scale := 3.0 / radius;
            var newLeft, newRight := Scaled(left / slope, slope, scale), Scaled(right / slope, slope, scale);
            && Settled(newLeft, newRight, slope)
            && Shrunk(newLeft, left) && Shrunk(newRight, right)
  {
    var scale := 3.0 / radius;
    ScaleIsPartial(radius);
    ScaledTangent(left, slope, scale);
    ScaledTangent(right, slope, scale);
    PairOnRim(left / slope, right / slope, slope, radius, scale);
  }

  lemma PairOnRim(a: real, b: real, slope: real, radius: real, scale: real)
    requires scale * radius == 3.0 && radius * radius == a * a + b * b
    ensures Limited(scale * a * slope, scale * b * slope, slope)
  {
    SquareOfScaled(scale, a, slope);
    SquareOfScaled(scale, b, slope);
    SumOnRim(scale, radius, a * a, b * b, slope * slope);
  }

  lemma ScaleIsPartial(radius: real)
    requires radius > 3.0
    ensures 0.0 < 3.0 / radius < 1.0 && 3.0 / radius * radius == 3.0
  {
  }

  lemma ScaledTangent(tangent: real, slope: real, scale: real)
    requires slope != 0.0 && Along(tangent, slope) && 0.0 < scale < 1.0
    ensures scale * (tangent / slope) * slope == scale * tangent
    ensures Shrunk(scale * tangent, tangent) && Along(scale * tangent, slope)
  {
    assert tangent / slope * slope == tangent;
    assert scale * (tangent / slope) * slope == scale * (tangent / slope * slope);
  }

  lemma SquareOfScaled(scale: real, a: real, slope: real)
    ensures scale * a * slope * (scale * a * slope) == scale * scale * (a * a) * (slope * slope)
  {
  }

  lemma SumOnRim(scale: real, radius: real, a2: real, b2: real, s2: real)
    requires scale * radius == 3.0 && radius * radius == a2 + b2
    ensures scale * scale * a2 * s2 + scale * scale * b2 * s2 == 9.0 * s2
  {
    assert scale * scale * (a2 + b2) == scale * radius * (scale * radius);
    assert scale * scale * a2 * s2 + scale * scale * b2 * s2 == scale * scale * (a2 + b2) * s2;
  }

  /** A pair inside the disc already is limited. */
  lemma PairInsideDisc(left: real, right: real, slope: real, radius: real)
    requires slope != 0.0 && 0.0 <= radius <= 3.0
    requires radius * radius == left / slope * (left / slope) + right / slope * (right / slope)
    ensures Limited(left, right, slope)
  {
    var a, b := left / slope, right / slope;
    ProductIsMonotone(radius, 3.0, radius);
    PairWithin(a, b, slope);
    assert left == a * slope && right == b * slope;
  }

  lemma PairWithin(a: real, b: real, slope: real)
    requires a * a + b * b <= 9.0
    ensures Limited(a * slope, b * slope, slope)
  {
    assert a * slope * (a * slope) + b * slope * (b * slope) == (a * a + b * b) * (slope * slope);
    ProductIsMonotone(a * a + b * b, 9.0, slope * slope);
  }

  lemma ProductIsMonotone(a: real, b: real, c: real)
    requires a <= b && c >= 0.0
    ensures a * c <= b * c
  {
  }

  // -------------------------------------------------------------------------
  // The tangents

  /** The average of the two neighbouring slopes, or zero where they disagree in sign. */
  function FirstTangents(slopes: seq<real>): (tangents: seq<real>)
    requires slopes != []
    ensures |tangents| == |slopes| + 1
  {
    seq(|slopes| + 1, i requires 0 <= i <= |slopes| =>
      if i == 0 then slopes[0]
      else if i == |slopes| then slopes[i - 1]
      else if slopes[i - 1] * slopes[i] <= 0.0 then 0.0
      else (slopes[i - 1] + slopes[i]) / 2.0)
  }

  /** Limits the tangent pair of segment `i`. */
  ghost function LimitSegment(tangents: seq<real>, slopes: seq<real>, i: nat,
                              hypot: (real, real) -> real): (limited: seq<real>)
    requires i < |slopes| && |tangents| == |slopes| + 1
    ensures |limited| == |tangents|
  {
    if slopes[i] == 0.0 then
      tangents[i := 0.0][i + 1 := 0.0]
    else
      var left, right := tangents[i] / slopes[i], tangents[i + 1] / slopes[i];
      var radius := hypot(left, right);
      if radius > 3.0 then
        tangents[i := Scaled(left, slopes[i], 3.0 / radius)][i + 1 := Scaled(right, slopes[i], 3.0 / radius)]
      else
        tangents
  }

  /** Limits the first `n` segments, from left to right. */
  ghost function LimitSegments(tangents: seq<real>, slopes: seq<real>, n: nat,
                               hypot: (real, real) -> real): (limited: seq<real>)
    requires n <= |slopes| && |tangents| == |slopes| + 1
    ensures |limited| == |tangents|
  {
    if n == 0 then tangents else LimitSegment(LimitSegments(tangents, slopes, n - 1, hypot), slopes, n - 1, hypot)
  }

  method InitialTangents(slopes: seq<real>) returns (tangents: seq<real>)
    requires slopes != []
    ensures tangents == FirstTangents(slopes)
  {
    var count := |slopes| + 1;
    tangents := seq(count, _ => 0.0);
    tangents := tangents[0 := slopes[0]];
    tangents := tangents[count - 1 := slopes[count - 2]];
    for i := 1 to count - 1
      invariant |tangents| == count
      invariant forall k :: 0 <= k < i ==> tangents[k] == FirstTangents(slopes)[k]
      invariant tangents[count - 1] == FirstTangents(slopes)[count - 1]
    {
      if slopes[i - 1] * slopes[i] <= 0.0 {
        tangents := tangents[i := 0.0];
      } else {
        tangents := tangents[i := (slopes[i - 1] + slopes[i]) / 2.0];
      }
    }
  }

  method Tangents(slopes: seq<real>, hypot: (real, real) -> real) returns (tangents: seq<real>)
    requires slopes != []
    ensures tangents == LimitSegments(FirstTangents(slopes), slopes, |slopes|, hypot)
  {
    tangents := InitialTangents(slopes);
    for i := 0 to |slopes|
      invariant |tangents| == |slopes| + 1
      invariant tangents == LimitSegments(FirstTangents(slopes), slopes, i, hypot)
    {
      ghost var before := tangents;
      if slopes[i] == 0.0 {
        tangents := tangents[i := 0.0][i + 1 := 0.0];
        continue;
      }
      var left := tangents[i] / slopes[i];
      var right := tangents[i + 1] / slopes[i];
      var radius := hypot(left, right);
      if radius > 3.0 {
        var scale := 3.0 / radius;
        tangents := tangents[i := Scaled(left, slopes[i], scale)];
        tangents := tangents[i + 1 := Scaled(right, slopes[i], scale)];
      }
      assert tangents == LimitSegment(before, slopes, i, hypot);
    }
  }

  /** Both tangents of every segment are along its slope. */
  ghost predicate AllAlong(tangents: seq<real>, slopes: seq<real>) {
    |tangents| == |slopes| + 1
    && forall i :: 0 <= i < |slopes| ==> Along(tangents[i], slopes[i]) && Along(tangents[i + 1], slopes[i])
  }

  ghost predicate SettledUpTo(tangents: seq<real>, slopes: seq<real>, n: nat) {
    |tangents| == |slopes| + 1 && n <= |slopes|
    && forall i :: 0 <= i < n ==> Settled(tangents[i], tangents[i + 1], slopes[i])
  }

  lemma AverageIsAlong(a: real, b: real)
    ensures a * b > 0.0 ==> Along((a + b) / 2.0, a) && Along((a + b) / 2.0, b)
  {
    if a > 0.0 && b < 0.0 {
      assert a * b < 0.0;
    } else if a < 0.0 && b > 0.0 {
      assert a * b < 0.0;
    }
  }

  lemma FirstTangentIsAlong(slopes: seq<real>, i: nat)
    requires slopes != [] && i <= |slopes|
    ensures i > 0 ==> Along(FirstTangents(slopes)[i], slopes[i - 1])
    ensures i < |slopes| ==> Along(FirstTangents(slopes)[i], slopes[i])
  {
    if 0 < i < |slopes| {
      AverageIsAlong(slopes[i - 1], slopes[i]);
    }
  }

  lemma FirstTangentsAreAlong(slopes: seq<real>)
    requires slopes != []
    ensures AllAlong(FirstTangents(slopes), slopes)
  {
    var tangents := FirstTangents(slopes);
    forall i | 0 <= i < |slopes|
      ensures Along(tangents[i], slopes[i]) && Along(tangents[i + 1], slopes[i])
    {
      FirstTangentIsAlong(slopes, i);
      FirstTangentIsAlong(slopes, i + 1);
    }
  }

  /** What limiting a segment does to its own pair. */
  lemma LimitedPair(left: real, right: real, slope: real, radius: real)
    requires slope != 0.0 && Along(left, slope) && Along(right, slope) && radius >= 0.0
    requires radius * radius == left / slope * (left / slope) + right / slope * (right / slope)
    ensures var newLeft := if radius > 3.0 then Scaled(left / slope, slope, 3.0 / radius) else left;
            var newRight := if radius > 3.0 then Scaled(right / slope, slope, 3.0 / radius) else right;
            Settled(newLeft, newRight, slope) && Shrunk(newLeft, left) && Shrunk(newRight, right)
  {
    if radius > 3.0 {
      ScaledPairIsSettled(left, right, slope, radius);
    } else {
      PairInsideDisc(left, right, slope, radius);
    }
  }

  lemma LimitPair(tangents: seq<real>, slopes: seq<real>, i: nat, hypot: (real, real) -> real)
    requires IsHypot(hypot) && AllAlong(tangents, slopes) && i < |slopes|
    ensures var limited := LimitSegment(tangents, slopes, i, hypot);
            && Settled(limited[i], limited[i + 1], slopes[i])
            && Shrunk(limited[i], tangents[i]) && Shrunk(limited[i + 1], tangents[i + 1])
            && forall k :: 0 <= k < |tangents| && k != i && k != i + 1 ==> limited[k] == tangents[k]
  {
    assert Along(tangents[i], slopes[i]) && Along(tangents[i + 1], slopes[i]);
    if slopes[i] != 0.0 {
      var left, right := tangents[i] / slopes[i], tangents[i + 1] / slopes[i];
      assert hypot(left, right) >= 0.0 && hypot(left, right) * hypot(left, right) == left * left + right * right;
      LimitedPair(tangents[i], tangents[i + 1], slopes[i], hypot(left, right));
    }
  }

  /** Limiting a segment keeps every tangent along its slopes, and the segments before it settled. */
  lemma LimitKeepsOthers(tangents: seq<real>, limited: seq<real>, slopes: seq<real>, i: nat)
    requires AllAlong(tangents, slopes) && SettledUpTo(tangents, slopes, i) && i < |slopes| && |limited| == |tangents|
    requires Settled(limited[i], limited[i + 1], slopes[i])
    requires Shrunk(limited[i], tangents[i]) && Shrunk(limited[i + 1], tangents[i + 1])
    requires forall k :: 0 <= k < |tangents| && k != i && k != i + 1 ==> limited[k] == tangents[k]
    ensures AllAlong(limited, slopes) && SettledUpTo(limited, slopes, i + 1)
  {
    forall k | 0 <= k < |slopes|
      ensures Along(limited[k], slopes[k]) && Along(limited[k + 1], slopes[k])
    {
      assert Along(tangents[k], slopes[k]) && Along(tangents[k + 1], slopes[k]);
    }
    forall k | 0 <= k < i
      ensures Settled(limited[k], limited[k + 1], slopes[k])
    {
      assert Settled(tangents[k], tangents[k + 1], slopes[k]);
      if k + 1 == i {
        ShrinkingKeepsSettled(tangents[k], tangents[i], limited[i], slopes[k]);
      }
    }
  }

  /** After the limiting loop every segment is settled, although each one changes a tangent of the one before. */
  lemma {:induction false} AllSegmentsSettle(slopes: seq<real>, n: nat, hypot: (real, real) -> real)
    requires slopes != [] && n <= |slopes| && IsHypot(hypot)
    ensures var tangents := LimitSegments(FirstTangents(slopes), slopes, n, hypot);
            AllAlong(tangents, slopes) && SettledUpTo(tangents, slopes, n)
  {
    if n == 0 {
      FirstTangentsAreAlong(slopes);
    } else {
      var tangents := LimitSegments(FirstTangents(slopes), slopes, n - 1, hypot);
      AllSegmentsSettle(slopes, n - 1, hypot);
      LimitPair(tangents, slopes, n - 1, hypot);
      LimitKeepsOthers(tangents, LimitSegment(tangents, slopes, n - 1, hypot), slopes, n - 1);
    }
  }

  // -------------------------------------------------------------------------
  // One segment of the curve

  function Between(a: real, b: real, t: real): real {
    (1.0 - t) * a + t * b
  }

  function Blend(values: seq<real>, t: real): (blended: seq<real>)
    requires values != []
    ensures |blended| == |values| - 1
  {
    seq(|values| - 1, i requires 0 <= i < |values| - 1 => Between(values[i], values[i + 1], t))
  }

  /** De Casteljau's construction of the point at parameter `t` of a Bezier curve. */
  function Bezier(values: seq<real>, t: real): real
    requires values != []
    decreases |values|
  {
    if |values| == 1 then values[0] else Bezier(Blend(values, t), t)
  }

  /** The derivative along a segment that rises by `rise` and whose end derivatives are `left` and `right`. */
  function Velocity(left: real, right: real, rise: real, t: real): real {
    Bezier([left, 3.0 * rise - left - right, right], t)
  }

  lemma BezierOfTwo(a: real, b: real, t: real)
    ensures Bezier([a, b], t) == Between(a, b, t)
  {
    assert Blend([a, b], t) == [Between(a, b, t)];
  }

  lemma BezierOfThree(a: real, b: real, c: real, t: real)
    ensures Bezier([a, b, c], t) == (1.0 - t) * (1.0 - t) * a + 2.0 * ((1.0 - t) * t * b) + t * t * c
  {
    var p, q := Between(a, b, t), Between(b, c, t);
    assert Blend([a, b, c], t) == [p, q];
    BezierOfTwo(p, q, t);
  }

  lemma BezierOfFour(a: real, b: real, c: real, d: real, t: real)
    ensures Bezier([a, b, c, d], t)
            == a + 3.0 * (b - a) * t + 3.0 * (a - 2.0 * b + c) * (t * t) + (d - 3.0 * c + 3.0 * b - a) * (t * t * t)
  {
    var p, q, r := Between(a, b, t), Between(b, c, t), Between(c, d, t);
    assert Blend([a, b, c, d], t) == [p, q, r];
    BezierOfThree(p, q, r, t);
    NestedBlends(a, b, c, d, t);
  }

  lemma NestedBlends(a: real, b: real, c: real, d: real, t: real)
    ensures (1.0 - t) * (1.0 - t) * Between(a, b, t) + 2.0 * ((1.0 - t) * t * Between(b, c, t))
            + t * t * Between(c, d, t)
            == a + 3.0 * (b - a) * t + 3.0 * (a - 2.0 * b + c) * (t * t) + (d - 3.0 * c + 3.0 * b - a) * (t * t * t)
  {
  }

  /** The polynomial with the given coefficients, lowest degree first. */
  function Polynomial(coefficients: seq<real>, t: real): real {
    if coefficients == [] then 0.0 else coefficients[0] + t * Polynomial(coefficients[1..], t)
  }

  lemma PolynomialOfTwo(c0: real, c1: real, t: real)
    ensures Polynomial([c0, c1], t) == c0 + c1 * t
  {
    assert [c0, c1][1..] == [c1] && [c1][1..] == [];
    assert Polynomial([c1], t) == c1;
  }

  lemma PolynomialOfThree(c0: real, c1: real, c2: real, t: real)
    ensures Polynomial([c0, c1, c2], t) == c0 + c1 * t + c2 * (t * t)
  {
    PolynomialOfTwo(c1, c2, t);
    assert [c0, c1, c2][1..] == [c1, c2];
  }

  lemma PolynomialOfFour(c0: real, c1: real, c2: real, c3: real, t: real)
    ensures Polynomial([c0, c1, c2, c3], t) == c0 + c1 * t + c2 * (t * t) + c3 * (t * t * t)
  {
    PolynomialOfThree(c1, c2, c3, t);
    assert [c0, c1, c2, c3][1..] == [c1, c2, c3];
  }

  lemma SegmentPolynomial(a: real, d: real, left: real, right: real, t: real)
    ensures Bezier([a, a + left / 3.0, d - right / 3.0, d], t)
            == Polynomial([a, left, 3.0 * (d - a) - 2.0 * left - right, left + right - 2.0 * (d - a)], t)
  {
    BezierOfFour(a, a + left / 3.0, d - right / 3.0, d, t);
    PolynomialOfFour(a, left, 3.0 * (d - a) - 2.0 * left - right, left + right - 2.0 * (d - a), t);
    SegmentCoefficients(a, d, left, right, t);
  }

  lemma SegmentCoefficients(a: real, d: real, left: real, right: real, t: real)
    ensures var b, c := a + left / 3.0, d - right / 3.0;
            a + 3.0 * (b - a) * t + 3.0 * (a - 2.0 * b + c) * (t * t) + (d - 3.0 * c + 3.0 * b - a) * (t * t * t)
            == a + left * t + (3.0 * (d - a) - 2.0 * left - right) * (t * t)
               + (left + right - 2.0 * (d - a)) * (t * t * t)
  {
  }

  lemma VelocityPolynomial(left: real, right: real, rise: real, t: real)
    ensures Velocity(left, right, rise, t)
            == Polynomial([left, 2.0 * (3.0 * rise - 2.0 * left - right), 3.0 * (left + right - 2.0 * rise)], t)
  {
    BezierOfThree(left, 3.0 * rise - left - right, right, t);
    PolynomialOfThree(left, 2.0 * (3.0 * rise - 2.0 * left - right), 3.0 * (left + right - 2.0 * rise), t);
    VelocityCoefficients(left, right, rise, t);
  }

  lemma VelocityCoefficients(left: real, right: real, rise: real, t: real)
    ensures (1.0 - t) * (1.0 - t) * left + 2.0 * ((1.0 - t) * t * (3.0 * rise - left - right)) + t * t * right
            == left + 2.0 * (3.0 * rise - 2.0 * left - right) * t + 3.0 * (left + right - 2.0 * rise) * (t * t)
  {
  }

  /** The mean of three values with Simpson's weights, times `width`. */
  function SimpsonMean(width: real, first: real, middle: real, last: real): real {
    width / 6.0 * (first + 4.0 * middle + last)
  }

  lemma SimpsonRaw(c1: real, c2: real, c3: real, t: real, u: real)
    ensures var m := (t + u) / 2.0;
            c1 * u + c2 * (u * u) + c3 * (u * u * u) - (c1 * t + c2 * (t * t) + c3 * (t * t * t))
            == (u - t) / 6.0 * (c1 + 2.0 * c2 * t + 3.0 * c3 * (t * t)
                                + 4.0 * (c1 + 2.0 * c2 * m + 3.0 * c3 * (m * m))
                                + (c1 + 2.0 * c2 * u + 3.0 * c3 * (u * u)))
  {
  }

  /** Simpson's rule is exact for the derivative of a cubic. */
  lemma SimpsonIsExact(c0: real, c1: real, c2: real, c3: real, t: real, u: real)
    ensures Polynomial([c0, c1, c2, c3], u) - Polynomial([c0, c1, c2, c3], t)
            == SimpsonMean(u - t, Polynomial([c1, 2.0 * c2, 3.0 * c3], t),
                           Polynomial([c1, 2.0 * c2, 3.0 * c3], (t + u) / 2.0),
                           Polynomial([c1, 2.0 * c2, 3.0 * c3], u))
  {
    var m := (t + u) / 2.0;
    PolynomialOfFour(c0, c1, c2, c3, t);
    PolynomialOfFour(c0, c1, c2, c3, u);
    PolynomialOfThree(c1, 2.0 * c2, 3.0 * c3, t);
    PolynomialOfThree(c1, 2.0 * c2, 3.0 * c3, m);
    PolynomialOfThree(c1, 2.0 * c2, 3.0 * c3, u);
    SimpsonRaw(c1, c2, c3, t, u);
  }

  /** An increment of the curve is a mean of three of its derivatives. */
  lemma IncrementIsMeanVelocity(a: real, d: real, left: real, right: real, t: real, u: real)
    ensures Bezier([a, a + left / 3.0, d - right / 3.0, d], u) - Bezier([a, a + left / 3.0, d - right / 3.0, d], t)
            == SimpsonMean(u - t, Velocity(left, right, d - a, t), Velocity(left, right, d - a, (t + u) / 2.0),
                           Velocity(left, right, d - a, u))
  {
    SegmentPolynomial(a, d, left, right, t);
    SegmentPolynomial(a, d, left, right, u);
    VelocityPolynomial(left, right, d - a, t);
    VelocityPolynomial(left, right, d - a, (t + u) / 2.0);
    VelocityPolynomial(left, right, d - a, u);
    SimpsonIsExact(a, left, 3.0 * (d - a) - 2.0 * left - right, left + right - 2.0 * (d - a), t, u);
  }

  lemma ProductIsPositive(a: real, b: real)
    requires a > 0.0 && b > 0.0
    ensures a * b > 0.0
  {
  }

  lemma ProductSigns(a: real, b: real)
    requires a >= 0.0 && b >= 0.0
    ensures a * b >= 0.0
  {
  }

  lemma SquareSign(a: real)
    ensures a * a >= 0.0
  {
    if a >= 0.0 {
      ProductSigns(a, a);
    } else {
      ProductSigns(-a, -a);
    }
  }

  lemma RootIsMonotone(a: real, b: real)
    requires b >= 0.0 && a * a <= b * b
    ensures a <= b
  {
    if a > b {
      ProductIsPositive(a - b, a + b);
    }
  }

  lemma SumWithinNineRises(left: real, right: real, rise: real)
    requires rise >= 0.0 && Limited(left, right, rise)
    ensures left + right <= 9.0 * rise
  {
    SquareSign(left - right);
    SquareSign(rise);
    RootIsMonotone(left + right, 9.0 * rise);
  }

  /** The condition of Fritsch and Carlson, for a rising segment. */
  lemma DiscBoundsTheDip(left: real, right: real, rise: real)
    requires rise >= 0.0 && left >= 0.0 && right >= 0.0 && Limited(left, right, rise)
    requires left + right > 3.0 * rise
    ensures var dip := left + right - 3.0 * rise; dip * dip <= left * right
  {
    var sum := left + right;
    SumWithinNineRises(left, right, rise);
    ProductSigns(sum - 3.0 * rise, 9.0 * rise - sum);
    assert sum * sum == left * left + right * right + 2.0 * (left * right);
  }

  /** A tangent pair in the disc with one end at rest stays below three times the rise. */
  lemma BothEndsMove(left: real, right: real, rise: real)
    requires rise >= 0.0 && left >= 0.0 && Limited(left, right, rise)
    requires left + right > 3.0 * rise
    ensures left > 0.0
  {
    SquareSign(left);
    RootIsMonotone(right, 3.0 * rise);
  }

  lemma RisingVelocity(left: real, right: real, rise: real, t: real)
    requires Settled(left, right, rise) && rise >= 0.0 && 0.0 <= t <= 1.0
    ensures Velocity(left, right, rise, t) >= 0.0
  {
    var s := 1.0 - t;
    var dip := left + right - 3.0 * rise;
    BezierOfThree(left, -dip, right, t);
    assert Velocity(left, right, rise, t) == left * (s * s) + 2.0 * (-dip * (s * t)) + right * (t * t);
    if dip <= 0.0 {
      ProductSigns(s, s);
      ProductSigns(s, t);
      ProductSigns(t, t);
      SumOfSigns(left, -dip, right, s * s, s * t, t * t);
    } else {
      DiscBoundsTheDip(left, right, rise);
      BothEndsMove(left, right, rise);
      QuadraticIsNonNegative(left, dip, right, s, t);
    }
  }

  lemma SumOfSigns(a: real, b: real, c: real, x: real, y: real, z: real)
    requires a >= 0.0 && b >= 0.0 && c >= 0.0 && x >= 0.0 && y >= 0.0 && z >= 0.0
    ensures a * x + 2.0 * (b * y) + c * z >= 0.0
  {
    ProductSigns(a, x);
    ProductSigns(b, y);
    ProductSigns(c, z);
  }

  lemma SquareCompleted(a: real, k: real, b: real, s: real, t: real)
    requires k * k <= a * b
    ensures a * (a * (s * s) + 2.0 * (-k * (s * t)) + b * (t * t)) >= 0.0
  {
    SquareSign(a * s - k * t);
    SquareSign(t);
    ProductSigns(a * b - k * k, t * t);
    assert a * (a * (s * s) + 2.0 * (-k * (s * t)) + b * (t * t))
        == (a * s - k * t) * (a * s - k * t) + (a * b - k * k) * (t * t);
  }

  lemma PositiveFactor(a: real, q: real)
    requires a > 0.0 && a * q >= 0.0
    ensures q >= 0.0
  {
    if q < 0.0 {
      ProductIsPositive(a, -q);
    }
  }

  lemma QuadraticIsNonNegative(a: real, k: real, b: real, s: real, t: real)
    requires a > 0.0 && k * k <= a * b
    ensures a * (s * s) + 2.0 * (-k * (s * t)) + b * (t * t) >= 0.0
  {
    SquareCompleted(a, k, b, s, t);
    PositiveFactor(a, a * (s * s) + 2.0 * (-k * (s * t)) + b * (t * t));
  }

  lemma NegatedBezier(a: real, b: real, c: real, t: real)
    ensures Bezier([-a, -b, -c], t) == -Bezier([a, b, c], t)
  {
    BezierOfThree(a, b, c, t);
    BezierOfThree(-a, -b, -c, t);
  }

  lemma NegatedVelocity(left: real, right: real, rise: real, t: real)
    ensures Velocity(-left, -right, -rise, t) == -Velocity(left, right, rise, t)
  {
    NegatedBezier(left, 3.0 * rise - left - right, right, t);
    assert 3.0 * -rise - -left - -right == -(3.0 * rise - left - right);
  }

  /** The velocity of a settled segment never opposes its rise. */
  lemma VelocityIsAlong(left: real, right: real, rise: real, t: real)
    requires Settled(left, right, rise) && 0.0 <= t <= 1.0
    ensures Along(Velocity(left, right, rise, t), rise)
  {
    if rise > 0.0 {
      RisingVelocity(left, right, rise, t);
    } else if rise < 0.0 {
      RisingVelocity(-left, -right, -rise, t);
      NegatedVelocity(left, right, rise, t);
    } else {
      BezierOfThree(0.0, 0.0, 0.0, t);
    }
  }

  // -------------------------------------------------------------------------
  // The whole curve

  datatype Path = Empty | Dot(at: Point) | Curve(segments: seq<Segment>)

  function SegmentOf(from: Point, to: Point, left: real, right: real): Segment {
    var third := (to.x - from.x) / 3.0;
    Segment(from, Point(from.x + third, from.y + left * third), Point(to.x - third, to.y - right * third), to)
  }

  /** The point of a segment at parameter `t`. */
  function At(s: Segment, t: real): Point {
    Point(Bezier([s.p0.x, s.p1.x, s.p2.x, s.p3.x], t), Bezier([s.p0.y, s.p1.y, s.p2.y, s.p3.y], t))
  }

  ghost function FinalTangents(vertices: seq<Point>, hypot: (real, real) -> real): (tangents: seq<real>)
    requires |vertices| >= 2
    ensures |tangents| == |vertices|
  {
    LimitSegments(FirstTangents(Slopes(vertices)), Slopes(vertices), |vertices| - 1, hypot)
  }

  function CurveThrough(vertices: seq<Point>, tangents: seq<real>): Path
    requires 2 <= |vertices| == |tangents|
  {
    Curve(seq(|vertices| - 1, i requires 0 <= i < |vertices| - 1 =>
      SegmentOf(vertices[i], vertices[i + 1], tangents[i], tangents[i + 1])))
  }

  /** The tangents fit the vertices: every segment is settled. */
  ghost predicate Fits(vertices: seq<Point>, tangents: seq<real>) {
    && 2 <= |vertices| == |tangents|
    && forall i :: 0 <= i < |vertices| - 1 ==> Settled(tangents[i], tangents[i + 1], Slopes(vertices)[i])
  }

  lemma FinalTangentsFit(vertices: seq<Point>, hypot: (real, real) -> real)
    requires |vertices| >= 2 && IsHypot(hypot)
    ensures Fits(vertices, FinalTangents(vertices, hypot))
  {
    AllSegmentsSettle(Slopes(vertices), |vertices| - 1, hypot);
  }

  method SmoothPath(vertices: seq<Point>, hypot: (real, real) -> real) returns (path: Path)
    ensures |vertices| == 0 ==> path == Empty
    ensures |vertices| == 1 ==> path == Dot(vertices[0])
    ensures |vertices| >= 2 ==> path == CurveThrough(vertices, FinalTangents(vertices, hypot))
  {
    if |vertices| == 0 {
      return Empty;
    }
    if |vertices| == 1 {
      return Dot(vertices[0]);
    }
    var tangents := Tangents(Slopes(vertices), hypot);
    var parts: seq<Segment> := [];
    for i := 0 to |vertices| - 1
      invariant |parts| == i
      invariant forall k :: 0 <= k < i ==>
                  parts[k] == SegmentOf(vertices[k], vertices[k + 1], tangents[k], tangents[k + 1])
    {
      parts := parts + [SegmentOf(vertices[i], vertices[i + 1], tangents[i], tangents[i + 1])];
    }
    path := Curve(parts);
  }

  lemma AlongScales(tangent: real, slope: real, width: real)
    requires Along(tangent, slope)
    ensures Along(tangent * width, slope * width)
  {
    var t, s, w := Abs(tangent), Abs(slope), Abs(width);
    ProductSigns(t, w);
    if s > 0.0 && w > 0.0 {
      ProductIsPositive(s, w);
    }
  }

  lemma LimitedScales(left: real, right: real, slope: real, width: real)
    requires Limited(left, right, slope)
    ensures Limited(left * width, right * width, slope * width)
  {
    SquareSign(width);
    ProductIsMonotone(left * left + right * right, 9.0 * (slope * slope), width * width);
    assert left * width * (left * width) + right * width * (right * width)
      == (left * left + right * right) * (width * width);
    assert 9.0 * (slope * width * (slope * width)) == 9.0 * (slope * slope) * (width * width);
  }

  /** In units of the rise instead of the slope a settled segment is still settled. */
  lemma ControlsByRise(from: Point, to: Point, left: real, right: real, slope: real)
    returns (byLeft: real, byRight: real)
    requires Settled(left, right, slope)
    requires slope == if to.x - from.x != 0.0 then (to.y - from.y) / (to.x - from.x) else 0.0
    ensures var s := SegmentOf(from, to, left, right);
            s.p1.y == from.y + byLeft / 3.0 && s.p2.y == to.y - byRight / 3.0
    ensures Settled(byLeft, byRight, to.y - from.y)
  {
    var width := to.x - from.x;
    byLeft, byRight := left * width, right * width;
    ThirdOfProduct(left, width);
    ThirdOfProduct(right, width);
    SettledByRise(left, right, slope, width, to.y - from.y);
  }

  lemma SegmentIsSettled(vertices: seq<Point>, tangents: seq<real>, i: nat) returns (left: real, right: real)
    requires Fits(vertices, tangents) && i + 1 < |vertices|
    ensures var s := CurveThrough(vertices, tangents).segments[i];
            && s.p0 == vertices[i] && s.p3 == vertices[i + 1]
            && s.p1.y == s.p0.y + left / 3.0 && s.p2.y == s.p3.y - right / 3.0
            && Settled(left, right, vertices[i + 1].y - vertices[i].y)
  {
    left, right := ControlsByRise(vertices[i], vertices[i + 1], tangents[i], tangents[i + 1], Slopes(vertices)[i]);
  }

  lemma ThirdOfProduct(tangent: real, width: real)
    ensures tangent * (width / 3.0) == tangent * width / 3.0
  {
  }

  lemma SettledByRise(left: real, right: real, slope: real, width: real, rise: real)
    requires Settled(left, right, slope)
    requires slope == if width != 0.0 then rise / width else 0.0
    ensures Settled(left * width, right * width, rise)
  {
    if width == 0.0 {
      ZeroProduct(width, left);
      ZeroProduct(width, right);
      SquareSign(rise);
    } else {
      assert slope * width == rise;
      AlongScales(left, slope, width);
      AlongScales(right, slope, width);
      LimitedScales(left, right, slope, width);
    }
  }

  lemma ZeroProduct(a: real, b: real)
    requires a == 0.0
    ensures b * a == 0.0
  {
  }

  /** The curve passes through its vertices. */
  lemma EndsAtVertices(a: real, b: real, c: real, d: real)
    ensures Bezier([a, b, c, d], 0.0) == a && Bezier([a, b, c, d], 1.0) == d
  {
    BezierOfFour(a, b, c, d, 0.0);
    BezierOfFour(a, b, c, d, 1.0);
  }

  lemma EvenControls(from: real, to: real, t: real)
    ensures Bezier([from, from + (to - from) / 3.0, to - (to - from) / 3.0, to], t) == from + (to - from) * t
  {
    BezierOfFour(from, from + (to - from) / 3.0, to - (to - from) / 3.0, to, t);
  }

  /** Across the segment the curve advances evenly: it is the graph of a function where x increases. */
  lemma AdvancesEvenly(vertices: seq<Point>, tangents: seq<real>, i: nat, t: real)
    requires i + 1 < |vertices| == |tangents|
    ensures At(CurveThrough(vertices, tangents).segments[i], t).x == vertices[i].x
            + (vertices[i + 1].x - vertices[i].x) * t
  {
    EvenControls(vertices[i].x, vertices[i + 1].x, t);
  }

  lemma MeanIsAlong(width: real, first: real, middle: real, last: real, rise: real)
    requires width >= 0.0 && Along(first, rise) && Along(middle, rise) && Along(last, rise)
    ensures Along(SimpsonMean(width, first, middle, last), rise)
  {
    var total := first + 4.0 * middle + last;
    ProductSigns(width / 6.0, Abs(total));
    if total < 0.0 {
      assert width / 6.0 * -total == -(width / 6.0 * total);
    } else if total == 0.0 {
      ZeroProduct(total, width / 6.0);
    }
  }

  /** On every segment the curve moves only toward the next vertex. */
  lemma CurveMovesOneWay(vertices: seq<Point>, tangents: seq<real>, i: nat, t: real, u: real)
    requires Fits(vertices, tangents) && i + 1 < |vertices| && 0.0 <= t <= u <= 1.0
    ensures var s := CurveThrough(vertices, tangents).segments[i];
            Along(At(s, u).y - At(s, t).y, vertices[i + 1].y - vertices[i].y)
  {
    var a, d := vertices[i].y, vertices[i + 1].y;
    var left, right := SegmentIsSettled(vertices, tangents, i);
    IncrementIsMeanVelocity(a, d, left, right, t, u);
    VelocityIsAlong(left, right, d - a, t);
    VelocityIsAlong(left, right, d - a, (t + u) / 2.0);
    VelocityIsAlong(left, right, d - a, u);
    MeanIsAlong(u - t, Velocity(left, right, d - a, t), Velocity(left, right, d - a, (t + u) / 2.0),
                Velocity(left, right, d - a, u), d - a);
  }

  /** Smoothing invents no reading: the curve stays between the two values it joins. */
  lemma CurveStaysBetweenVertices(vertices: seq<Point>, tangents: seq<real>, i: nat, t: real)
    requires Fits(vertices, tangents) && i + 1 < |vertices| && 0.0 <= t <= 1.0
    ensures var y := At(CurveThrough(vertices, tangents).segments[i], t).y;
            vertices[i].y <= y <= vertices[i + 1].y || vertices[i + 1].y <= y <= vertices[i].y
  {
    var s := CurveThrough(vertices, tangents).segments[i];
    CurveMovesOneWay(vertices, tangents, i, 0.0, t);
    CurveMovesOneWay(vertices, tangents, i, t, 1.0);
    EndsAtVertices(s.p0.y, s.p1.y, s.p2.y, s.p3.y);
  }

  /** The control points stay between the end values too, so every drawing of the curve does. */
  lemma ControlPointsStayBetweenVertices(vertices: seq<Point>, tangents: seq<real>, i: nat)
    requires Fits(vertices, tangents) && i + 1 < |vertices|
    ensures var s := CurveThrough(vertices, tangents).segments[i];
            || (s.p0.y <= s.p1.y <= s.p3.y && s.p0.y <= s.p2.y <= s.p3.y)
            || (s.p3.y <= s.p1.y <= s.p0.y && s.p3.y <= s.p2.y <= s.p0.y)
  {
    var left, right := SegmentIsSettled(vertices, tangents, i);
    SettledIsBounded(left, right, vertices[i + 1].y - vertices[i].y);
  }

  lemma SettledIsBounded(left: real, right: real, rise: real)
    requires Settled(left, right, rise)
    ensures Abs(left) <= 3.0 * Abs(rise) && Abs(right) <= 3.0 * Abs(rise)
  {
    SquareSign(left);
    SquareSign(right);
    RootIsMonotone(Abs(left), 3.0 * Abs(rise));
    RootIsMonotone(Abs(right), 3.0 * Abs(rise));
  }

  /** Where two segments meet, the curve leaves along the tangent it arrived with. */
  lemma CurveIsSmoothAtVertices(vertices: seq<Point>, tangents: seq<real>, i: nat)
    requires 0 < i && i + 1 < |vertices| == |tangents|
    ensures var segments := CurveThrough(vertices, tangents).segments;
            var before, after := segments[i - 1], segments[i];
            && before.p3 == after.p0 == vertices[i]
            && before.p3.y - before.p2.y == tangents[i] * (before.p3.x - before.p2.x)
            && after.p1.y - after.p0.y == tangents[i] * (after.p1.x - after.p0.x)
  {
    SegmentEnds(vertices[i - 1], vertices[i], tangents[i - 1], tangents[i]);
    SegmentEnds(vertices[i], vertices[i + 1], tangents[i], tangents[i + 1]);
  }

  lemma SegmentEnds(from: Point, to: Point, left: real, right: real)
    ensures var s := SegmentOf(from, to, left, right);
            && s.p1.y - s.p0.y == left * (s.p1.x - s.p0.x)
            && s.p3.y - s.p2.y == right * (s.p3.x - s.p2.x)
  {
  }
}
