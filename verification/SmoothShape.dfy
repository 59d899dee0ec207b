/**
 What the smoothed curve looks like: a straight line stays one, a tangent is the mean of its
 neighbours' slopes wherever no limit is reached, and a limit reached is not overshot.
 */
module SmoothShape {
  import opened Basics
  import opened SmoothPath

  // -------------------------------------------------------------------------
  // The tangents before any limit

  predicate AgreeInSign(a: real, b: real) {
    (a > 0.0 && b > 0.0) || (a < 0.0 && b < 0.0)
  }

  lemma SignOfProduct(a: real, b: real)
    ensures AgreeInSign(a, b) <==> a * b > 0.0
  {
    if a > 0.0 && b > 0.0 {
      ProductIsPositive(a, b);
    } else if a < 0.0 && b < 0.0 {
      ProductIsPositive(-a, -b);
    } else if a >= 0.0 && b <= 0.0 {
      ProductSigns(a, -b);
    } else {
      ProductSigns(-a, b);
    }
  }

  /** The end slopes at the ends; inside the mean of the neighbouring slopes, or zero where they disagree in sign. */
  lemma FirstTangentIs(slopes: seq<real>, i: nat)
    requires slopes != [] && i <= |slopes|
    ensures var tangent := FirstTangents(slopes)[i];
            if i == 0 then tangent == slopes[0]
            else if i == |slopes| then tangent == slopes[i - 1]
            else if AgreeInSign(slopes[i - 1], slopes[i]) then tangent + tangent == slopes[i - 1] + slopes[i]
            else tangent == 0.0
  {
    if 0 < i < |slopes| {
      SignOfProduct(slopes[i - 1], slopes[i]);
    }
  }

  // -------------------------------------------------------------------------
  // What one segment's limit does

  function Product(a: real, b: real): real {
    a * b
  }

  lemma RatioSquares(left: real, right: real, slope: real)
    requires slope != 0.0
    ensures Product(left / slope * (left / slope) + right / slope * (right / slope), slope * slope)
            == left * left + right * right
  {
    var a, b := left / slope, right / slope;
    assert a * slope == left && b * slope == right;
    assert (a * a + b * b) * (slope * slope) == a * slope * (a * slope) + b * slope * (b * slope);
  }

  /** The radius is at most three exactly when the pair is in the disc. */
  lemma RadiusMeaning(left: real, right: real, slope: real, radius: real)
    requires slope != 0.0 && radius >= 0.0
    requires radius * radius == left / slope * (left / slope) + right / slope * (right / slope)
    ensures radius <= 3.0 <==> Limited(left, right, slope)
  {
    var a, b := left / slope, right / slope;
    RatioSquares(left, right, slope);
    RadiusBySquares(radius, Abs(slope), Abs(slope));
    SquareOfAbs(slope);
    RadiusByPair(radius, radius * radius, a * a + b * b, Abs(slope) * Abs(slope), slope * slope,
                 left * left + right * right);
  }

  lemma RadiusByPair(radius: real, square: real, ratios: real, scale: real, slopes: real, pair: real)
    requires square == ratios && scale == slopes && Product(ratios, slopes) == pair
    requires radius <= 3.0 <==> Product(square, scale) <= 9.0 * scale
    ensures radius <= 3.0 <==> pair <= 9.0 * slopes
  {
  }

  lemma SquareOfAbs(a: real)
    ensures Abs(a) * Abs(a) == a * a
  {
  }

  lemma RadiusBySquares(radius: real, s: real, t: real)
    requires radius >= 0.0 && s > 0.0 && t > 0.0
    ensures radius <= 3.0 <==> Product(radius * radius, s * t) <= 9.0 * (s * t)
  {
    ProductIsPositive(s, t);
    if radius <= 3.0 {
      SquareIsMonotone(radius, 3.0);
      ProductIsMonotone(radius * radius, 9.0, s * t);
    } else {
      SquareIsStrict(3.0, radius);
      StrictProduct(9.0, radius * radius, s * t);
    }
  }

  lemma SquareIsMonotone(a: real, b: real)
    requires 0.0 <= a <= b
    ensures a * a <= b * b
  {
    ProductIsMonotone(a, b, a);
    ProductIsMonotone(a, b, b);
  }

  lemma SquareIsStrict(a: real, b: real)
    requires 0.0 <= a < b
    ensures a * a < b * b
  {
    ProductIsPositive(b - a, a + b);
    assert (b - a) * (a + b) == b * b - a * a;
  }

  lemma StrictProduct(a: real, b: real, c: real)
    requires a < b && c > 0.0
    ensures a * c < b * c
  {
    ProductIsPositive(b - a, c);
  }

  lemma ZeroSquares(left: real, right: real)
    requires left * left + right * right <= 0.0
    ensures left == 0.0 && right == 0.0
  {
    if left != 0.0 {
      PositiveSum(Abs(left), Abs(left), right);
      SquareOfAbs(left);
    }
    if right != 0.0 {
      PositiveSum(Abs(right), Abs(right), left);
      SquareOfAbs(right);
    }
  }

  lemma PositiveSum(a: real, b: real, c: real)
    requires a > 0.0 && b > 0.0
    ensures a * b + c * c > 0.0
  {
    ProductIsPositive(a, b);
    SquareSign(c);
  }

  /** A pair inside the disc is left alone. */
  lemma InsideStays(tangents: seq<real>, slopes: seq<real>, i: nat, hypot: (real, real) -> real)
    requires IsHypot(hypot) && i < |slopes| && |tangents| == |slopes| + 1
    requires Limited(tangents[i], tangents[i + 1], slopes[i])
    ensures LimitSegment(tangents, slopes, i, hypot) == tangents
  {
    var left, right, slope := tangents[i], tangents[i + 1], slopes[i];
    if slope == 0.0 {
      ZeroSquares(left, right);
    } else {
      var a, b := left / slope, right / slope;
      assert hypot(a, b) >= 0.0 && hypot(a, b) * hypot(a, b) == a * a + b * b;
      RadiusMeaning(left, right, slope, hypot(a, b));
    }
  }

  /** A pair outside is scaled onto the rim of the disc, and not below it. */
  lemma OutsideReachesRim(tangents: seq<real>, slopes: seq<real>, i: nat, hypot: (real, real) -> real)
    requires IsHypot(hypot) && i < |slopes| && |tangents| == |slopes| + 1 && slopes[i] != 0.0
    requires !Limited(tangents[i], tangents[i + 1], slopes[i])
    ensures var limited := LimitSegment(tangents, slopes, i, hypot);
            && limited[i] * limited[i] + limited[i + 1] * limited[i + 1] == 9.0 * (slopes[i] * slopes[i])
            && limited[i] * tangents[i + 1] == limited[i + 1] * tangents[i]
            && Shrunk(limited[i], tangents[i]) && Shrunk(limited[i + 1], tangents[i + 1])
  {
    var left, right, slope := tangents[i], tangents[i + 1], slopes[i];
    var a, b := left / slope, right / slope;
    assert hypot(a, b) >= 0.0 && hypot(a, b) * hypot(a, b) == a * a + b * b;
    RadiusMeaning(left, right, slope, hypot(a, b));
    ScaledOntoRim(left, right, slope, hypot(a, b));
  }

  lemma ScaledOntoRim(left: real, right: real, slope: real, radius: real)
    requires slope != 0.0 && radius > 3.0
    requires radius * radius == left / slope * (left / slope) + right / slope * (right / slope)
    ensures var newLeft := Scaled(left / slope, slope, 3.0 / radius);
            var newRight := Scaled(right / slope, slope, 3.0 / radius);
            && newLeft * newLeft + newRight * newRight == 9.0 * (slope * slope)
            && newLeft * right == newRight * left && Shrunk(newLeft, left) && Shrunk(newRight, right)
  {
    var scale, a, b := 3.0 / radius, left / slope, right / slope;
    ScaleIsPartial(radius);
    SquareOfScaled(scale, a, slope);
    SquareOfScaled(scale, b, slope);
    SumOnRim(scale, radius, a * a, b * b, slope * slope);
    ScaledBack(left, slope, scale);
    ScaledBack(right, slope, scale);
    assert scale * left * right == scale * right * left;
  }

  lemma ScaledBack(tangent: real, slope: real, scale: real)
    requires slope != 0.0 && 0.0 < scale < 1.0
    ensures Scaled(tangent / slope, slope, scale) == scale * tangent && Shrunk(scale * tangent, tangent)
  {
    assert tangent / slope * slope == tangent;
    assert scale * (tangent / slope) * slope == scale * (tangent / slope * slope);
    if tangent >= 0.0 {
      ProductSigns(scale, tangent);
      ProductIsMonotone(scale, 1.0, tangent);
    } else {
      ProductSigns(scale, -tangent);
      ProductIsMonotone(scale, 1.0, -tangent);
      assert scale * -tangent == -(scale * tangent);
    }
  }

  // -------------------------------------------------------------------------
  // Tangents that no limit touches

  /** A tangent is as it was before the segments beside it are limited, and stays once they are. */
  lemma {:induction false} TouchedByNeighbours(tangents: seq<real>, slopes: seq<real>, n: nat, k: nat,
                                               hypot: (real, real) -> real)
    requires n <= |slopes| && |tangents| == |slopes| + 1 && k <= |slopes|
    ensures n < k ==> LimitSegments(tangents, slopes, n, hypot)[k] == tangents[k]
    ensures n > k ==> LimitSegments(tangents, slopes, n, hypot)[k] == LimitSegments(tangents, slopes, k + 1, hypot)[k]
  {
    if n > 0 && (n < k || n > k + 1) {
      TouchedByNeighbours(tangents, slopes, n - 1, k, hypot);
    }
  }

  lemma ShrunkStaysLimited(left: real, right: real, shrunk: real, slope: real)
    requires Limited(left, right, slope) && Shrunk(shrunk, left)
    ensures Limited(shrunk, right, slope)
  {
    SquareShrinks(shrunk, left);
  }

  /** Before its own segment is limited a tangent was shrunk by the segment before, at most. */
  lemma ShrunkBefore(slopes: seq<real>, i: nat, hypot: (real, real) -> real)
    requires IsHypot(hypot) && slopes != [] && i < |slopes|
    ensures Shrunk(LimitSegments(FirstTangents(slopes), slopes, i, hypot)[i], FirstTangents(slopes)[i])
  {
    if i > 0 {
      var before := LimitSegments(FirstTangents(slopes), slopes, i - 1, hypot);
      AllSegmentsSettle(slopes, i - 1, hypot);
      LimitPair(before, slopes, i - 1, hypot);
      TouchedByNeighbours(FirstTangents(slopes), slopes, i - 1, i, hypot);
    }
  }

  /** The tangents of segment `i` before any limit lie in its disc. */
  ghost predicate IsInside(slopes: seq<real>, i: nat)
    requires i < |slopes|
  {
    Limited(FirstTangents(slopes)[i], FirstTangents(slopes)[i + 1], slopes[i])
  }

  lemma InsideSegmentStays(slopes: seq<real>, i: nat, hypot: (real, real) -> real)
    requires IsHypot(hypot) && i < |slopes| && IsInside(slopes, i)
    ensures LimitSegments(FirstTangents(slopes), slopes, i + 1, hypot)
            == LimitSegments(FirstTangents(slopes), slopes, i, hypot)
  {
    var first := FirstTangents(slopes);
    var before := LimitSegments(first, slopes, i, hypot);
    ShrunkBefore(slopes, i, hypot);
    TouchedByNeighbours(first, slopes, i, i + 1, hypot);
    ShrunkStaysLimited(first[i], first[i + 1], before[i], slopes[i]);
    InsideStays(before, slopes, i, hypot);
  }

  /** A tangent between segments inside their discs is not limited at all. */
  lemma UnlimitedTangent(slopes: seq<real>, i: nat, hypot: (real, real) -> real)
    requires IsHypot(hypot) && slopes != [] && i <= |slopes|
    requires i > 0 ==> IsInside(slopes, i - 1)
    requires i < |slopes| ==> IsInside(slopes, i)
    ensures LimitSegments(FirstTangents(slopes), slopes, |slopes|, hypot)[i] == FirstTangents(slopes)[i]
  {
    TangentAfterLeft(slopes, i, hypot);
    if i < |slopes| {
      InsideSegmentStays(slopes, i, hypot);
      TouchedByNeighbours(FirstTangents(slopes), slopes, |slopes|, i, hypot);
    }
  }

  lemma TangentAfterLeft(slopes: seq<real>, i: nat, hypot: (real, real) -> real)
    requires IsHypot(hypot) && slopes != [] && i <= |slopes|
    requires i > 0 ==> IsInside(slopes, i - 1)
    ensures LimitSegments(FirstTangents(slopes), slopes, i, hypot)[i] == FirstTangents(slopes)[i]
  {
    if i > 0 {
      TouchedByNeighbours(FirstTangents(slopes), slopes, i - 1, i, hypot);
      InsideSegmentStays(slopes, i - 1, hypot);
    }
  }

  /**
   Where no limit is reached beside it, a vertex has the mean of the neighbouring slopes for its tangent, or
   zero where they disagree in sign; the first and the last have the slope of their segment.
   */
  lemma TangentIsMean(vertices: seq<Point>, i: nat, hypot: (real, real) -> real)
    requires IsHypot(hypot) && |vertices| >= 2 && i < |vertices|
    requires i > 0 ==> IsInside(Slopes(vertices), i - 1)
    requires i + 1 < |vertices| ==> IsInside(Slopes(vertices), i)
    ensures var slopes, tangent := Slopes(vertices), FinalTangents(vertices, hypot)[i];
            if i == 0 then tangent == slopes[0]
            else if i == |slopes| then tangent == slopes[i - 1]
            else if AgreeInSign(slopes[i - 1], slopes[i]) then tangent + tangent == slopes[i - 1] + slopes[i]
            else tangent == 0.0
  {
    UnlimitedTangent(Slopes(vertices), i, hypot);
    FirstTangentIs(Slopes(vertices), i);
  }

  /** Both ends of a level segment, or of one without width, are flat. */
  lemma LevelEndsAreFlat(vertices: seq<Point>, i: nat, hypot: (real, real) -> real)
    requires IsHypot(hypot) && i + 1 < |vertices|
    requires vertices[i].y == vertices[i + 1].y || vertices[i].x == vertices[i + 1].x
    ensures FinalTangents(vertices, hypot)[i] == FinalTangents(vertices, hypot)[i + 1] == 0.0
  {
    NoSlope(vertices[i], vertices[i + 1]);
    FinalTangentsFit(vertices, hypot);
    assert Settled(FinalTangents(vertices, hypot)[i], FinalTangents(vertices, hypot)[i + 1], Slopes(vertices)[i]);
  }

  lemma NoSlope(from: Point, to: Point)
    requires from.y == to.y || from.x == to.x
    ensures Slopes([from, to])[0] == 0.0
  {
  }

  // -------------------------------------------------------------------------
  // A straight line

  /** A point of the line with slope `m` through (0, `c`). Folded until `UnfoldHere`. */
  ghost predicate IsOn(p: Point, m: real, c: real) {
    forall u: nat :: UnfoldHere(u) ==> p.y == c + m * p.x
  }

  /** The vertices lie on a line and go to the right. */
  ghost predicate OnLine(vertices: seq<Point>, m: real, c: real) {
    && (forall i :: 0 <= i < |vertices| ==> IsOn(vertices[i], m, c))
    && (forall i :: 0 <= i < |vertices| - 1 ==> vertices[i].x < vertices[i + 1].x)
  }

  lemma SlopeOfLine(from: Point, to: Point, m: real, c: real)
    requires from.x < to.x && IsOn(from, m, c) && IsOn(to, m, c)
    ensures (to.y - from.y) / (to.x - from.x) == m
  {
    assert UnfoldHere(0);
    var width := to.x - from.x;
    assert to.y - from.y == m * width;
    assert (m * width / width - m) * width == 0.0;
  }

  /** Equal slopes have inside pairs only. */
  lemma EvenIsInside(slopes: seq<real>, m: real, i: nat)
    requires (forall k :: 0 <= k < |slopes| ==> slopes[k] == m) && i < |slopes|
    ensures FirstTangents(slopes)[i] == m && FirstTangents(slopes)[i + 1] == m && IsInside(slopes, i)
  {
    EvenFirst(slopes, m, i);
    EvenFirst(slopes, m, i + 1);
    SquareSign(m);
  }

  lemma EvenFirst(slopes: seq<real>, m: real, i: nat)
    requires slopes != [] && (forall k :: 0 <= k < |slopes| ==> slopes[k] == m) && i <= |slopes|
    ensures FirstTangents(slopes)[i] == m
  {
    FirstTangentIs(slopes, i);
  }

  lemma TangentOfLine(vertices: seq<Point>, m: real, c: real, i: nat, hypot: (real, real) -> real)
    requires IsHypot(hypot) && |vertices| >= 2 && OnLine(vertices, m, c) && i < |vertices|
    ensures FinalTangents(vertices, hypot)[i] == m
  {
    forall k | 0 <= k < |vertices| - 1
      ensures Slopes(vertices)[k] == m
    {
      SlopeOfLine(vertices[k], vertices[k + 1], m, c);
    }
    EvenTangent(Slopes(vertices), m, i, hypot);
  }

  lemma EvenTangent(slopes: seq<real>, m: real, i: nat, hypot: (real, real) -> real)
    requires IsHypot(hypot) && slopes != [] && (forall k :: 0 <= k < |slopes| ==> slopes[k] == m) && i <= |slopes|
    ensures LimitSegments(FirstTangents(slopes), slopes, |slopes|, hypot)[i] == m
  {
    forall k: nat | k < |slopes|
      ensures IsInside(slopes, k)
    {
      EvenIsInside(slopes, m, k);
    }
    UnlimitedTangent(slopes, i, hypot);
    EvenFirst(slopes, m, i);
  }

  lemma StraightControls(from: Point, to: Point, m: real, t: real)
    requires to.y - from.y == m * (to.x - from.x)
    ensures At(SegmentOf(from, to, m, m), t).x == from.x + (to.x - from.x) * t
    ensures At(SegmentOf(from, to, m, m), t).y == from.y + (to.y - from.y) * t
  {
    ThirdOfProduct(m, to.x - from.x);
    EvenControls(from.x, to.x, t);
    EvenControls(from.y, to.y, t);
    var s := SegmentOf(from, to, m, m);
    assert s.p1.y == from.y + (to.y - from.y) / 3.0;
    assert s.p2.y == to.y - (to.y - from.y) / 3.0;
  }

  lemma PointOnLine(from: Point, to: Point, m: real, c: real, t: real)
    requires from.y == c + m * from.x && to.y == c + m * to.x
    ensures from.y + (to.y - from.y) * t == c + m * (from.x + (to.x - from.x) * t)
  {
    assert (to.y - from.y) * t == m * (to.x - from.x) * t;
    assert m * (from.x + (to.x - from.x) * t) == m * from.x + m * ((to.x - from.x) * t);
    assert m * (to.x - from.x) * t == m * ((to.x - from.x) * t);
  }

  /** Vertices on a line are joined by that line. */
  lemma LineIsKept(vertices: seq<Point>, m: real, c: real, i: nat, t: real, hypot: (real, real) -> real)
    requires IsHypot(hypot) && OnLine(vertices, m, c) && i + 1 < |vertices|
    ensures IsOn(At(CurveThrough(vertices, FinalTangents(vertices, hypot)).segments[i], t), m, c)
  {
    TangentOfLine(vertices, m, c, i, hypot);
    TangentOfLine(vertices, m, c, i + 1, hypot);
    StraightSegment(vertices[i], vertices[i + 1], m, c, t);
  }

  lemma StraightSegment(from: Point, to: Point, m: real, c: real, t: real)
    requires IsOn(from, m, c) && IsOn(to, m, c)
    ensures IsOn(At(SegmentOf(from, to, m, m), t), m, c)
  {
    assert UnfoldHere(0);
    assert to.y - from.y == m * (to.x - from.x);
    StraightControls(from, to, m, t);
    PointOnLine(from, to, m, c, t);
  }
}
