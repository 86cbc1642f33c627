/** The weighted error bound is sharp for every choice of times. */
module CompressorSharpness {
  import opened Compressor
  import opened CompressorBounds
  import opened CompressorScaling

  ghost predicate Ascending(times: seq<real>) {
    forall i, j :: 0 <= i < j < |times| ==> times[i] < times[j]
  }

  /** Seen from the first point, each next point is steeper by as much as moves the line by `step`
      at the point before. */
  function SlopeAt(times: seq<real>, step: real, i: nat): real
    requires Ascending(times) && 1 <= i < |times|
  {
    if i == 1 then 0.0 else SlopeAt(times, step, i - 1) + step / (times[i - 1] - times[0])
  }

  function Height(times: seq<real>, step: real, i: nat): real
    requires Ascending(times) && i < |times|
  {
    if i == 0 then 0.0 else SlopeAt(times, step, i) * (times[i] - times[0])
  }

  function Steepening(times: seq<real>, step: real): (s: seq<Point>)
    requires Ascending(times)
    ensures |s| == |times|
    ensures forall i :: 0 <= i < |s| ==> s[i].t == times[i] && s[i].y == Height(times, step, i)
  {
    seq(|times|, i requires 0 <= i < |times| => Point(times[i], Height(times, step, i)))
  }

  lemma InOrder(times: seq<real>, step: real)
    requires Ascending(times)
    ensures TimeOrdered(Steepening(times, step))
  {
    hide Height;
  }

  lemma ThroughFirst(p1: Point, p3: Point, t: real, u: real)
    requires p1.t < p3.t && p1.y == 0.0 && p3.y == u * (p3.t - p1.t)
    ensures Line(p1, p3, t) == u * (t - p1.t)
  {
    var far := p3.t - p1.t;
    assert u * far / far == u;
  }

  lemma Difference(u: real, v: real, d: real)
    ensures u * d - v * d == (u - v) * d
  {
  }

  lemma SteepLine(times: seq<real>, step: real, j: nat, c: nat)
    requires Ascending(times) && 1 <= j <= c < |times|
    ensures var s := Steepening(times, step);
            Line(s[0], s[c], s[j].t) - s[j].y ==
            (SlopeAt(times, step, c) - SlopeAt(times, step, j)) * (times[j] - times[0])
  {
    hide SlopeAt, Line, Steepening;
    var s, u, v := Steepening(times, step), SlopeAt(times, step, c), SlopeAt(times, step, j);
    ThroughFirst(s[0], s[c], s[j].t, u);
    Difference(u, v, times[j] - times[0]);
  }

  /** Each point is passed by the line to its successor at distance `step`. */
  lemma StepError(times: seq<real>, step: real, b: nat)
    requires Ascending(times) && 1 <= b && b + 1 < |times|
    ensures var s := Steepening(times, step);
            Line(s[0], s[b + 1], s[b].t) - s[b].y == step
  {
    hide Line, Steepening, Height;
    SteepLine(times, step, b, b + 1);
    var q := step / (times[b] - times[0]);
    assert SlopeAt(times, step, b + 1) - SlopeAt(times, step, b) == q;
    hide SlopeAt;
    DivideCancels(step, times[b] - times[0]);
  }

  lemma SteepDrop(times: seq<real>, step: real, b: nat)
    requires Ascending(times) && 1 <= b && b + 1 < |times| && 0.0 < step < 1.0
    ensures TimeOrdered(Steepening(times, step)) && DropTest(Steepening(times, step), 1.0)(0, b)
  {
    hide Line, SlopeAt, Steepening, Height;
    InOrder(times, step);
    StepError(times, step, b);
  }

  lemma {:induction false} SteepAnchors(times: seq<real>, step: real, b: nat)
    requires Ascending(times) && 1 <= b < |times| && 0.0 < step < 1.0
    ensures TimeOrdered(Steepening(times, step))
    ensures Anchor(DropTest(Steepening(times, step), 1.0), b) == 0
  {
    hide DropTest, SlopeAt, Steepening, Height;
    InOrder(times, step);
    if b > 1 {
      SteepAnchors(times, step, b - 1);
      SteepDrop(times, step, b - 1);
    }
  }

  lemma SwapFactors(x: real, y: real, d: real)
    requires d != 0.0
    ensures x / d * y == x * (y / d)
  {
    assert x / d * d == x && y / d * d == y;
    assert (x / d * y - x * (y / d)) * d == 0.0;
  }

  /** The slopes add up to the weights. */
  lemma {:induction false} SlopeIsWeights(times: seq<real>, step: real, d: seq<real>, c: nat)
    requires Ascending(times) && 1 <= c < |times| == |d| && forall i :: 0 <= i < |d| ==> d[i] == times[i] - times[0]
    ensures SlopeAt(times, step, c) * d[1] == step * Weights(d, 1, c)
  {
    if c > 1 {
      SlopeIsWeights(times, step, d, c - 1);
      SwapFactors(step, d[1], d[c - 1]);
      var u, w, q := SlopeAt(times, step, c - 1), Weights(d, 1, c - 1), d[1] / d[c - 1];
      assert (u + step / d[c - 1]) * d[1] == u * d[1] + step / d[c - 1] * d[1];
      assert step * (w + q) == step * w + step * q;
    }
  }

  lemma {:induction false} WeightsPositive(d: seq<real>, c: nat)
    requires 1 < c <= |d| && forall i :: 1 <= i < c ==> 0.0 < d[i]
    ensures Weights(d, 1, c) > 0.0
  {
    if c > 2 { WeightsPositive(d, c - 1); }
    QuotientPositive(d[1], d[c - 1]);
  }

  lemma QuotientPositive(x: real, d: real)
    requires x > 0.0 && d > 0.0
    ensures x / d > 0.0
  {
    assert x / d * d == x;
  }

  lemma {:induction false} SlopesRise(times: seq<real>, step: real, i: nat, j: nat)
    requires Ascending(times) && 1 <= i <= j < |times| && step > 0.0
    ensures 0.0 <= SlopeAt(times, step, i) <= SlopeAt(times, step, j)
    decreases j
  {
    if j > i {
      SlopesRise(times, step, i, j - 1);
      QuotientPositive(step, times[j - 1] - times[0]);
    } else if j > 1 {
      SlopesRise(times, step, j - 1, j - 1);
      QuotientPositive(step, times[j - 1] - times[0]);
    }
  }

  lemma SteepRises(times: seq<real>, step: real, i: nat)
    requires Ascending(times) && 1 < |times| && i < |times| && step > 0.0
    ensures 0.0 <= Height(times, step, i) <= Height(times, step, |times| - 1)
  {
    var n := |times| - 1;
    SlopesRise(times, step, n, n);
    if i > 0 { SlopesRise(times, step, i, n); }
    hide SlopeAt;
    if i > 0 {
      RisingProduct(SlopeAt(times, step, i), SlopeAt(times, step, n), times[i] - times[0], times[n] - times[0]);
    } else {
      RisingProduct(0.0, SlopeAt(times, step, n), 0.0, times[n] - times[0]);
    }
  }

  /** The last value exceeds 1 if the step is large enough for the last two times. */
  lemma LastIsHigh(times: seq<real>, step: real)
    requires Ascending(times) && |times| > 2 && step > 0.0
    requires var n := |times| - 1; step * (times[n] - times[0]) > times[n - 1] - times[0]
    ensures Height(times, step, |times| - 1) > 1.0
  {
    var n := |times| - 1;
    var near, far := times[n - 1] - times[0], times[n] - times[0];
    SlopesRise(times, step, n - 1, n - 1);
    var u := SlopeAt(times, step, n - 1);
    assert SlopeAt(times, step, n) == u + step / near;
    assert Height(times, step, n) == (u + step / near) * far;
    hide SlopeAt, Height;
    SumAboveOne(u, step, near, far);
  }

  lemma SumAboveOne(u: real, step: real, near: real, far: real)
    requires u >= 0.0 && 0.0 < near < far && step * far > near
    ensures (u + step / near) * far > 1.0
  {
    var q := step / near;
    assert q * near == step;
    var x := q * far;
    assert x * near == step * far by { assert q * far * near == q * near * far; }
    AboveOne(step * far, near, x);
    RisingProduct(0.0, u, 0.0, far);
    assert (u + q) * far == u * far + x;
  }

  lemma AboveOne(x: real, d: real, q: real)
    requires x > d > 0.0 && q * d == x
    ensures q > 1.0
  {
    assert (q - 1.0) * d > 0.0;
  }

  lemma SteepThreshold(times: seq<real>, step: real)
    requires Ascending(times) && |times| > 2 && step > 0.0 && Height(times, step, |times| - 1) > 1.0
    ensures var s := Steepening(times, step);
            Threshold(s, 1.0 / s[|s| - 1].y) == 1.0 && 0.0 < 1.0 / s[|s| - 1].y < 1.0
  {
    hide SlopeAt, MinY, MaxY, Steepening;
    var s := Steepening(times, step);
    assert s[0].y == 0.0;
    hide Height;
    var lo, hi := Extremes(s);
    SteepRises(times, step, lo);
    SteepRises(times, step, hi);
    InRange(s, 0);
    InRange(s, |s| - 1);
    var r := s[|s| - 1].y;
    assert MinY(s) == 0.0 && MaxY(s) == r;
    Reciprocal(r);
    assert (r - 0.0) * (1.0 / r) == 1.0;
  }

  lemma BelowOne(near: real, far: real, q: real)
    requires near < far && far > 0.0 && q * far == near
    ensures q < 1.0
  {
    var p := 1.0 - q;
    assert p * far == far - near;
    QuotientPositive(p * far, far);
    assert p * far / far == p;
  }

  lemma StepExists(factor: real, near: real, far: real) returns (step: real)
    requires 0.0 <= factor < 1.0 && 0.0 < near < far
    ensures factor < step < 1.0 && step * far > near
  {
    var q := near / far;
    DivideCancels(near, far);
    BelowOne(near, far, q);
    var low := if q > factor then q else factor;
    step := (low + 1.0) / 2.0;
    var p := step - q;
    assert p > 0.0;
    assert p * far > 0.0;
    assert step * far == p * far + q * far;
  }

  /** The reconstruction bound eps * sum (t_j-t_a)/(t_i-t_a) is sharp whatever the times: for any
      times, and any factor below 1, there are values of which only the ends are kept and whose first
      dropped one exceeds that factor of the bound. */
  lemma WeightedBoundIsSharp(times: seq<real>, factor: real) returns (s: seq<Point>, precision: real)
    requires Ascending(times) && |times| > 2 && 0.0 <= factor < 1.0
    ensures |s| == |times| && forall i :: 0 <= i < |s| ==> s[i].t == times[i]
    ensures TimeOrdered(s) && 0.0 < precision < 1.0
    ensures forall j: nat :: 1 <= j < |s| - 1 ==> !IsKept(DropTest(s, Threshold(s, precision)), |s|, j)
    ensures RebuildError(s, 0, 1, |s| - 1) > factor * (Threshold(s, precision) * Weights(Distances(s, 0), 1, |s| - 1))
  {
    hide Threshold, DropTest, Steepening, Height, SlopeAt, Weights, RebuildError;
    var n := |times| - 1;
    var step := StepExists(factor, times[n - 1] - times[0], times[n] - times[0]);
    s := Steepening(times, step);
    InOrder(times, step);
    LastIsHigh(times, step);
    precision := 1.0 / s[n].y;
    SteepThreshold(times, step);
    forall j: nat | 1 <= j < n ensures !IsKept(DropTest(s, 1.0), |s|, j) {
      SteepAnchors(times, step, j);
      SteepDrop(times, step, j);
    }
    SteepError(times, step, factor);
  }

  lemma SteepError(times: seq<real>, step: real, factor: real)
    requires Ascending(times) && |times| > 2 && 0.0 <= factor < step
    ensures var s := Steepening(times, step);
            TimeOrdered(s) && RebuildError(s, 0, 1, |s| - 1) > factor * (1.0 * Weights(Distances(s, 0), 1, |s| - 1))
  {
    hide Steepening, Height, Line, Weights;
    InOrder(times, step);
    var n, s := |times| - 1, Steepening(times, step);
    var d := Distances(s, 0);
    SteepLine(times, step, 1, n);
    SlopeIsWeights(times, step, d, n);
    WeightsPositive(d, n);
    var w := Weights(d, 1, n);
    assert SlopeAt(times, step, 1) == 0.0;
    hide SlopeAt;
    assert Line(s[0], s[n], s[1].t) - s[1].y == step * w;
    ScaledOrder(factor, step, w);
  }

  lemma ScaledOrder(x: real, y: real, w: real)
    requires 0.0 <= x < y && w > 0.0
    ensures 0.0 <= x * w < y * w
  {
  }
}
