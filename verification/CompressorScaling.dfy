/** What compression does not depend on, and how sharp its error bound is. */
module CompressorScaling {
  import opened Compressor
  import opened CompressorBounds

  /** A measurement in other units: time becomes c*t + d, value k*y + b. */
  function RescalePoint(p: Point, c: real, d: real, k: real, b: real): Point {
    Point(c * p.t + d, k * p.y + b)
  }

  function Rescale(s: seq<Point>, c: real, d: real, k: real, b: real): seq<Point> {
    seq(|s|, i requires 0 <= i < |s| => RescalePoint(s[i], c, d, k, b))
  }

  lemma ScaledQuotient(k: real, c: real, dy: real, dt: real, h: real)
    requires c != 0.0 && dt != 0.0 && c * dt != 0.0
    ensures (k * dy) / (c * dt) * (c * h) == k * (dy / dt * h)
  {
    var x, q := (k * dy) / (c * dt), dy / dt;
    DivideCancels(dy, dt);
    DivideCancels(k * dy, c * dt);
    assert (x * c - k * q) * dt == 0.0;
    assert x * c == k * q;
    assert x * (c * h) == (x * c) * h;
  }

  lemma RescaledLine(p1: Point, p3: Point, t: real, c: real, d: real, k: real, b: real)
    requires p1.t < p3.t && c > 0.0
    ensures c * p1.t + d < c * p3.t + d
    ensures Line(RescalePoint(p1, c, d, k, b), RescalePoint(p3, c, d, k, b), c * t + d) == k * Line(p1, p3, t) + b
  {
    var dy, dt, h := p3.y - p1.y, p3.t - p1.t, t - p1.t;
    assert c * dt > 0.0;
    ScaledQuotient(k, c, dy, dt, h);
    assert (k * p3.y + b) - (k * p1.y + b) == k * dy;
    assert (c * p3.t + d) - (c * p1.t + d) == c * dt;
    assert (c * t + d) - (c * p1.t + d) == c * h;
    var line := dy / dt * h;
    assert k * (p1.y + line) == k * p1.y + k * line;
  }

  lemma ScaledBelow(k: real, x: real, eps: real)
    requires k != 0.0
    ensures Abs(k * x) < Abs(k) * eps <==> Abs(x) < eps
  {
    var a := Abs(k);
    assert Abs(k * x) == a * Abs(x);
    var y := Abs(x);
    if y < eps { assert a * y < a * eps; }
    if y >= eps { assert a * y >= a * eps; }
  }

  lemma AffineDifference(k: real, b: real, x: real, y: real)
    ensures (k * x + b) - (k * y + b) == k * (x - y)
  {
  }

  lemma RescaledDrop(p1: Point, p2: Point, p3: Point, eps: real, c: real, d: real, k: real, b: real)
    requires p1.t < p3.t && c > 0.0 && k != 0.0
    ensures RescalePoint(p1, c, d, k, b).t != RescalePoint(p3, c, d, k, b).t
    ensures InterpDrop(RescalePoint(p1, c, d, k, b), RescalePoint(p2, c, d, k, b), RescalePoint(p3, c, d, k, b),
                       Abs(k) * eps)
            == InterpDrop(p1, p2, p3, eps)
  {
    hide Line;
    RescaledLine(p1, p3, p2.t, c, d, k, b);
    var q1, q2, q3 := RescalePoint(p1, c, d, k, b), RescalePoint(p2, c, d, k, b), RescalePoint(p3, c, d, k, b);
    var line, y := Line(p1, p3, p2.t), p2.y;
    AffineDifference(k, b, line, y);
    assert q2.t == c * p2.t + d && q2.y == k * y + b;
    assert Line(q1, q3, q2.t) == k * line + b;
    ScaledBelow(k, line - y, eps);
  }

  lemma LaterStaysLater(p: Point, q: Point, c: real, d: real, k: real, b: real)
    requires p.t < q.t && c > 0.0
    ensures RescalePoint(p, c, d, k, b).t < RescalePoint(q, c, d, k, b).t
  {
    MulOrder(c, p.t, q.t);
    assert RescalePoint(p, c, d, k, b).t == c * p.t + d;
    assert RescalePoint(q, c, d, k, b).t == c * q.t + d;
  }

  lemma RescaledOrder(s: seq<Point>, c: real, d: real, k: real, b: real)
    requires TimeOrdered(s) && c > 0.0
    ensures TimeOrdered(Rescale(s, c, d, k, b))
  {
    var r := Rescale(s, c, d, k, b);
    forall i, j | 0 <= i < j < |r| ensures r[i].t < r[j].t {
      LaterStaysLater(s[i], s[j], c, d, k, b);
    }
  }

  lemma MulOrder(k: real, x: real, y: real)
    requires x <= y
    ensures k >= 0.0 ==> k * x <= k * y
    ensures k > 0.0 && x < y ==> k * x < k * y
    ensures k <= 0.0 ==> k * y <= k * x
  {
  }

  /** The extremes of k*y + b are attained at the extremes of y, swapped if k is negative. */
  lemma ScaledRange(k: real, b: real, lo: real, hi: real, x: real, z: real, least: real, most: real)
    requires lo <= x <= hi && lo <= z <= hi && least == k * x + b && most == k * z + b
    requires least <= k * lo + b <= most && least <= k * hi + b <= most
    ensures most - least == Abs(k) * (hi - lo)
  {
    MulOrder(k, lo, x); MulOrder(k, x, hi);
    MulOrder(k, lo, z); MulOrder(k, z, hi);
    assert k * (hi - lo) == k * hi - k * lo;
  }

  lemma Extremes(s: seq<Point>) returns (lo: nat, hi: nat)
    requires s != []
    ensures lo < |s| && hi < |s| && s[lo].y == MinY(s) && s[hi].y == MaxY(s)
  {
    RangeBounds(s);
    lo, hi :| 0 <= lo < |s| && 0 <= hi < |s| && s[lo].y == MinY(s) && s[hi].y == MaxY(s);
  }

  lemma InRange(s: seq<Point>, i: nat)
    requires i < |s|
    ensures MinY(s) <= s[i].y <= MaxY(s)
  {
    RangeBounds(s);
  }

  lemma RescaledRange(s: seq<Point>, c: real, d: real, k: real, b: real)
    requires s != []
    ensures var r := Rescale(s, c, d, k, b);
            MaxY(r) - MinY(r) == Abs(k) * (MaxY(s) - MinY(s))
  {
    hide Abs, MinY, MaxY;
    var r := Rescale(s, c, d, k, b);
    var lo, hi := Extremes(s);
    var lo', hi' := Extremes(r);
    InRange(s, lo'); InRange(s, hi'); InRange(r, lo); InRange(r, hi);
    RescaledValue(s, lo, c, d, k, b); RescaledValue(s, hi, c, d, k, b);
    RescaledValue(s, lo', c, d, k, b); RescaledValue(s, hi', c, d, k, b);
    hide Rescale;
    assert MinY(r) <= r[lo].y <= MaxY(r) && MinY(r) <= r[hi].y <= MaxY(r);
    assert MinY(r) == k * s[lo'].y + b && MaxY(r) == k * s[hi'].y + b;
    ScaledRange(k, b, s[lo].y, s[hi].y, s[lo'].y, s[hi'].y, MinY(r), MaxY(r));
  }

  lemma RescaledValue(s: seq<Point>, i: nat, c: real, d: real, k: real, b: real)
    requires i < |s|
    ensures Rescale(s, c, d, k, b)[i].y == k * s[i].y + b
  {
  }

  lemma MulAssoc(x: real, y: real, z: real)
    ensures x * y * z == x * (y * z)
  {
  }

  lemma RescaledThreshold(s: seq<Point>, precision: real, c: real, d: real, k: real, b: real)
    requires s != []
    ensures Threshold(Rescale(s, c, d, k, b), precision) == Abs(k) * Threshold(s, precision)
  {
    hide Abs, Rescale;
    RescaledRange(s, c, d, k, b);
    assert |Rescale(s, c, d, k, b)| == |s| by { RescaledLength(s, c, d, k, b); }
    MulAssoc(Abs(k), MaxY(s) - MinY(s), precision);
  }

  lemma RescaledLength(s: seq<Point>, c: real, d: real, k: real, b: real)
    ensures |Rescale(s, c, d, k, b)| == |s|
  {
  }

  /** The unit of time, the unit of the metric, its sign and both origins do not matter. */
  lemma UnitsDoNotMatter(s: seq<Point>, precision: real, c: real, d: real, k: real, b: real)
    requires TimeOrdered(s) && s != [] && c > 0.0 && k != 0.0
    ensures var r := Rescale(s, c, d, k, b);
            && r != [] && TimeOrdered(r)
            && Kept(DropTest(r, Threshold(r, precision)), |r|) == Kept(DropTest(s, Threshold(s, precision)), |s|)
  {
    hide Threshold, InterpDrop, Abs, RescalePoint;
    var r := Rescale(s, c, d, k, b);
    RescaledOrder(s, c, d, k, b);
    var eps := Threshold(s, precision);
    RescaledThreshold(s, precision, c, d, k, b);
    var eps' := Threshold(r, precision);
    assert eps' == Abs(k) * eps;
    var drop, drop' := DropTest(s, eps), DropTest(r, eps');
    forall i, j | 0 <= i < j < |s| - 1 ensures drop(i, j) == drop'(i, j) {
      RescaledDrop(s[i], s[j], s[j + 1], eps, c, d, k, b);
    }
    AgreeingTests(drop, drop', |s|, |s|);
  }

  // A fan: from the first point, each next point is seen one unit of slope steeper.

  function Fan(m: nat, far: real): seq<Point> {
    seq(m + 2, i => if i == 0 then Point(0.0, 0.0)
                    else Point(far + i as real, (i - 1) as real * (far + i as real)))
  }

  lemma RisingProduct(x: real, y: real, u: real, v: real)
    requires 0.0 <= x <= y && 0.0 <= u <= v
    ensures 0.0 <= x * u <= y * v
  {
    assert x * u <= y * u;
  }

  lemma FanEnds(m: nat, far: real)
    ensures |Fan(m, far)| == m + 2 && Fan(m, far)[0].y == 0.0
    ensures Fan(m, far)[m + 1].y == m as real * (far + (m + 1) as real)
  {
  }

  lemma FanRises(m: nat, far: real, i: nat)
    requires far >= 0.0 && i <= m + 1
    ensures Fan(m, far)[0].y <= Fan(m, far)[i].y <= Fan(m, far)[m + 1].y
  {
    if i > 0 {
      RisingProduct((i - 1) as real, m as real, far + i as real, far + (m + 1) as real);
    }
  }

  lemma FanThreshold(m: nat, far: real)
    requires m >= 2 && far >= 0.0
    ensures Threshold(Fan(m, far), 1.0 / m as real) == far + (m + 1) as real
  {
    hide Fan, MinY, MaxY;
    var s := Fan(m, far);
    FanEnds(m, far);
    var lo, hi := Extremes(s);
    FanRises(m, far, lo);
    FanRises(m, far, hi);
    InRange(s, 0);
    InRange(s, m + 1);
    assert MinY(s) == 0.0 && MaxY(s) == m as real * (far + (m + 1) as real);
    FanRange(m as real, far + (m + 1) as real);
  }

  lemma FanRange(n: real, x: real)
    requires n > 0.0
    ensures (n * x - 0.0) * (1.0 / n) == x
  {
    var q := 1.0 / n;
    assert n * q == 1.0;
    assert n * x * q == (n * q) * x;
  }

  lemma FanArithmetic(u: real, v: real, t: real, x: real)
    requires t != 0.0
    ensures u * t / t * x - v * x == (u - v) * x
  {
    assert u * t / t == u;
  }

  /** Seen from the first point, the line to `c` passes point `j` at slope c - 1. */
  lemma FanLine(m: nat, far: real, j: nat, c: nat)
    requires far >= 0.0 && 1 <= j <= c <= m + 1
    ensures var s := Fan(m, far);
            Line(s[0], s[c], s[j].t) - s[j].y == (c - j) as real * (far + j as real)
  {
    FanArithmetic((c - 1) as real, (j - 1) as real, far + c as real, far + j as real);
  }

  lemma FanDrop(m: nat, far: real, eps: real, b: nat)
    requires far >= 0.0 && 1 <= b <= m && eps == far + (m + 1) as real && TimeOrdered(Fan(m, far))
    ensures DropTest(Fan(m, far), eps)(0, b)
  {
    FanLine(m, far, b, b + 1);
    hide Line;
    assert Line(Fan(m, far)[0], Fan(m, far)[b + 1], Fan(m, far)[b].t) - Fan(m, far)[b].y == far + b as real;
  }

  lemma {:induction false} FanAnchors(m: nat, far: real, eps: real, b: nat)
    requires far >= 0.0 && 1 <= b <= m + 1 && eps == far + (m + 1) as real && TimeOrdered(Fan(m, far))
    ensures Anchor(DropTest(Fan(m, far), eps), b) == 0
    ensures b <= m ==> DropTest(Fan(m, far), eps)(0, b)
  {
    hide DropTest, Fan;
    if b > 1 {
      FanAnchors(m, far, eps, b - 1);
    }
    if b <= m {
      FanDrop(m, far, eps, b);
    }
  }

  lemma FanError(m: nat, far: real)
    requires m >= 2 && far >= 0.0 && TimeOrdered(Fan(m, far))
    ensures RebuildError(Fan(m, far), 0, 1, m + 1) == m as real * (far + 1.0)
  {
    FanLine(m, far, 1, m + 1);
    hide Line;
    assert m as real * (far + 1.0) > 0.0;
  }

  lemma FarEnough(factor: real, n: real) returns (far: real)
    requires 0.0 <= factor < 1.0 && n >= 1.0
    ensures far >= 0.0 && (1.0 - factor) * far == n
  {
    far := n / (1.0 - factor);
    DivideCancels(n, 1.0 - factor);
    assert far >= 0.0;
  }

  lemma Reciprocal(n: real)
    requires n > 1.0
    ensures 0.0 < 1.0 / n < 1.0
  {
  }

  lemma SharpArithmetic(factor: real, n: real, far: real)
    requires 0.0 <= factor < 1.0 && n >= 1.0 && far >= 0.0 && (1.0 - factor) * far == n
    ensures n * (far + 1.0) > factor * ((far + n + 1.0) * n)
  {
    assert factor * (far + n + 1.0) == far - (1.0 - factor) * far + factor * n + factor;
    var lhs, rhs := far + 1.0, factor * (far + n + 1.0);
    assert lhs > rhs;
    assert n * lhs > n * rhs;
    assert factor * ((far + n + 1.0) * n) == n * rhs;
  }

  /** The bound (c-j) * eps is sharp: no factor below 1 can be put before it, however many
      points are dropped. In particular no fixed multiple of the threshold bounds the error. */
  lemma BoundIsSharp(m: nat, factor: real) returns (s: seq<Point>, precision: real)
    requires m >= 2 && 0.0 <= factor < 1.0
    ensures |s| == m + 2 && TimeOrdered(s) && 0.0 < precision < 1.0
    ensures forall j: nat :: 1 <= j <= m ==> !IsKept(DropTest(s, Threshold(s, precision)), |s|, j)
    ensures RebuildError(s, 0, 1, m + 1) > factor * (Threshold(s, precision) * m as real)
  {
    var n := m as real;
    hide Threshold, RebuildError, DropTest;
    var far := FarEnough(factor, n);
    s, precision := Fan(m, far), 1.0 / n;
    FanThreshold(m, far);
    Reciprocal(n);
    var eps := far + (m + 1) as real;
    forall j: nat | 1 <= j <= m ensures !IsKept(DropTest(s, eps), |s|, j) {
      FanAnchors(m, far, eps, j);
    }
    FanError(m, far);
    SharpArithmetic(factor, n, far);
  }

  lemma SecondPassRange()
    ensures Threshold([Point(0.0, 0.0), Point(1.0, 0.0), Point(2.0, 4.0), Point(3.0, 5.0)], 0.4) == 2.0
  {
    var s := [Point(0.0, 0.0), Point(1.0, 0.0), Point(2.0, 4.0), Point(3.0, 5.0)];
    var lo, hi := Extremes(s);
    InRange(s, 0);
    InRange(s, 3);
    assert MinY(s) == 0.0 && MaxY(s) == 5.0;
  }

  lemma SecondPassTests()
    ensures !InterpDrop(Point(0.0, 0.0), Point(1.0, 0.0), Point(2.0, 4.0), 2.0)
    ensures InterpDrop(Point(1.0, 0.0), Point(2.0, 4.0), Point(3.0, 5.0), 2.0)
    ensures InterpDrop(Point(0.0, 0.0), Point(1.0, 0.0), Point(3.0, 5.0), 2.0)
  {
  }

  lemma KeptNext(drop: Test, n: nat, b: nat)
    requires b < n
    ensures KeptBelow(drop, n, b + 1) ==
            if IsKept(drop, n, b) then KeptBelow(drop, n, b) + [b] else KeptBelow(drop, n, b)
    ensures KeptBelow(drop, n, 0) == []
  {
  }

  lemma FourPointPass(drop: Test)
    requires !drop(0, 1) && drop(1, 2)
    ensures Kept(drop, 4) == [0, 1, 3]
  {
    hide KeptBelow;
    assert Anchor(drop, 1) == 0 && Anchor(drop, 2) == 1;
    KeptNext(drop, 4, 0);
    KeptNext(drop, 4, 1);
    assert KeptBelow(drop, 4, 2) == [0, 1];
    KeptNext(drop, 4, 2);
    KeptNext(drop, 4, 3);
    hide IsKept;
  }

  lemma ThreePointPass(drop: Test)
    requires drop(0, 1)
    ensures Kept(drop, 3) == [0, 2]
  {
    hide KeptBelow;
    assert Anchor(drop, 1) == 0;
    KeptNext(drop, 3, 0);
    KeptNext(drop, 3, 1);
    KeptNext(drop, 3, 2);
  }

  /** The published wording of the rule is not what the result satisfies: after compressing
      this series with precision 0.4 a kept point still lies within the threshold of the line
      between its kept neighbours, so a second pass drops more. */
  lemma SecondPassCanDropMore()
    ensures var s := [Point(0.0, 0.0), Point(1.0, 0.0), Point(2.0, 4.0), Point(3.0, 5.0)];
            && TimeOrdered(s) && Threshold(s, 0.4) == 2.0
            && Kept(DropTest(s, 2.0), 4) == [0, 1, 3]
            && var r := Select(s, [0, 1, 3]);
               TimeOrdered(r) && DropTest(r, 2.0)(0, 1) && Kept(DropTest(r, 2.0), 3) == [0, 2]
  {
    var s := [Point(0.0, 0.0), Point(1.0, 0.0), Point(2.0, 4.0), Point(3.0, 5.0)];
    var r := [Point(0.0, 0.0), Point(1.0, 0.0), Point(3.0, 5.0)];
    assert r == Select(s, [0, 1, 3]);
    SecondPassRange();
    SecondPassTests();
    hide InterpDrop, Threshold;
    assert s[0] == r[0] == Point(0.0, 0.0) && s[1] == r[1] == Point(1.0, 0.0);
    assert s[2] == Point(2.0, 4.0) && s[3] == r[2] == Point(3.0, 5.0);
    assert !DropTest(s, 2.0)(0, 1) && DropTest(s, 2.0)(1, 2);
    assert DropTest(r, 2.0)(0, 1);
    FourPointPass(DropTest(s, 2.0));
    ThreePointPass(DropTest(r, 2.0));
  }
}
