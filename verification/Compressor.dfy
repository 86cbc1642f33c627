/** The loop of `reduce_changing_metric` and the one-pass filter it amounts to. */
module Compressor {

  /** One measurement: its time and its value. */
  datatype Point = Point(t: real, y: real)

  ghost predicate TimeOrdered(s: seq<Point>) {
    forall i, j :: 0 <= i < j < |s| ==> s[i].t < s[j].t
  }

  function Abs(x: real): real {
    if x < 0.0 then -x else x
  }

  /** The line through `p1` and `p3`, read off at time `t`. */
  function Line(p1: Point, p3: Point, t: real): real
    requires p1.t != p3.t
  {
    p1.y + (p3.y - p1.y) / (p3.t - p1.t) * (t - p1.t)
  }

  predicate InterpDrop(p1: Point, p2: Point, p3: Point, eps: real)
    requires p1.t != p3.t
  {
    Abs(Line(p1, p3, p2.t) - p2.y) < eps
  }

  function MaxY(s: seq<Point>): real
    requires s != []
  {
    if |s| == 1 then s[0].y
    else var m := MaxY(s[..|s| - 1]); if s[|s| - 1].y > m then s[|s| - 1].y else m
  }

  function MinY(s: seq<Point>): real
    requires s != []
  {
    if |s| == 1 then s[0].y
    else var m := MinY(s[..|s| - 1]); if s[|s| - 1].y < m then s[|s| - 1].y else m
  }

  function Threshold(s: seq<Point>, precision: real): real
    requires s != []
  {
    (MaxY(s) - MinY(s)) * precision
  }

  function Distance(s: seq<Point>, i: nat, j: nat): real
    requires i < |s| && j < |s|
  {
    Abs(s[i].y - s[j].y)
  }

  /** The dynamic range, from the values alone: the largest distance between any two of them. */
  ghost predicate IsRange(s: seq<Point>, range: real) {
    && (forall i: nat, j: nat :: i < |s| && j < |s| ==> Distance(s, i, j) <= range)
    && exists i: nat, j: nat :: i < |s| && j < |s| && Distance(s, i, j) == range
  }

  lemma DistanceWithin(s: seq<Point>, i: nat, j: nat)
    requires i < |s| && j < |s|
    ensures Distance(s, i, j) <= MaxY(s) - MinY(s)
  {
    RangeBounds(s);
    hide MaxY, MinY;
  }

  lemma FarthestApart(s: seq<Point>) returns (i: nat, j: nat)
    requires s != []
    ensures i < |s| && j < |s| && Distance(s, i, j) == MaxY(s) - MinY(s)
  {
    RangeBounds(s);
    hide MaxY, MinY;
    j, i :| 0 <= i < |s| && 0 <= j < |s| && s[j].y == MinY(s) && s[i].y == MaxY(s);
    assert s[i].y >= s[j].y;
  }

  lemma RangeIsSpread(s: seq<Point>, range: real)
    requires s != []
    ensures IsRange(s, range) <==> range == MaxY(s) - MinY(s)
  {
    hide MaxY, MinY, Distance;
    var i, j := FarthestApart(s);
    forall k: nat, l: nat | k < |s| && l < |s| ensures Distance(s, k, l) <= MaxY(s) - MinY(s) {
      DistanceWithin(s, k, l);
    }
  }

  /** The threshold is the dynamic range times the precision. */
  lemma ThresholdIsRange(s: seq<Point>, precision: real, range: real)
    requires s != [] && IsRange(s, range)
    ensures Threshold(s, precision) == range * precision
  {
    RangeIsSpread(s, range);
    hide IsRange, MaxY, MinY;
  }

  lemma ScaledDistance(x: real, y: real, precision: real)
    requires x <= y && precision >= 0.0
    ensures x * precision <= y * precision
  {
  }

  /** Scaled by the precision, no two values are farther apart than the threshold, and two are just so
      far. */
  lemma ThresholdBoundsDistances(s: seq<Point>, precision: real)
    requires s != [] && precision >= 0.0
    ensures forall i: nat, j: nat :: i < |s| && j < |s| ==> Distance(s, i, j) * precision <= Threshold(s, precision)
    ensures exists i: nat, j: nat :: i < |s| && j < |s| && Distance(s, i, j) * precision == Threshold(s, precision)
  {
    hide Threshold, Distance, IsRange, MaxY, MinY;
    var range := MaxY(s) - MinY(s);
    RangeIsSpread(s, range);
    ThresholdIsRange(s, precision, range);
    forall i: nat, j: nat | i < |s| && j < |s| ensures Distance(s, i, j) * precision <= Threshold(s, precision) {
      DistanceWithin(s, i, j);
      ScaledDistance(Distance(s, i, j), range, precision);
    }
    var i, j := FarthestApart(s);
    assert Distance(s, i, j) * precision == Threshold(s, precision);
  }

  /** The threshold, from the values alone: the dynamic range times the precision. */
  ghost predicate IsThreshold(s: seq<Point>, precision: real, eps: real) {
    exists range :: IsRange(s, range) && eps == range * precision
  }

  /** There is one threshold, the one that is computed. */
  lemma ThresholdIsUnique(s: seq<Point>, precision: real, eps: real)
    requires s != []
    ensures IsThreshold(s, precision, eps) <==> eps == Threshold(s, precision)
  {
    hide IsRange, Threshold;
    var range := RangeExists(s);
    ThresholdIsRange(s, precision, range);
    if IsThreshold(s, precision, eps) {
      var r :| IsRange(s, r) && eps == r * precision;
      ThresholdIsRange(s, precision, r);
    }
  }

  lemma RangeExists(s: seq<Point>) returns (range: real)
    requires s != []
    ensures IsRange(s, range)
  {
    range := MaxY(s) - MinY(s);
    RangeIsSpread(s, range);
  }

  /** The line passes through both points, at a constant slope. */
  lemma LineThroughBoth(p1: Point, p3: Point, t: real, t': real)
    requires p1.t != p3.t
    ensures Line(p1, p3, p1.t) == p1.y && Line(p1, p3, p3.t) == p3.y
    ensures (Line(p1, p3, t') - Line(p1, p3, t)) * (p3.t - p1.t) == (p3.y - p1.y) * (t' - t)
  {
    var d, q := p3.t - p1.t, (p3.y - p1.y) / (p3.t - p1.t);
    assert q * d == p3.y - p1.y;
    assert q * (p1.t - p1.t) == 0.0;
    assert Line(p1, p3, t') - Line(p1, p3, t) == q * (t' - t);
    assert q * (t' - t) * d == q * d * (t' - t);
  }

  // The one-pass filter over n positions. Each inner position is judged once, by a test
  // against the last position kept before it.

  type Test = (int, int) -> bool

  /** The drop test between positions: `b` against the line from `a` to the successor of `b`. */
  function DropTest(s: seq<Point>, eps: real): Test
    requires TimeOrdered(s)
  {
    (a: int, b: int) => 0 <= a < b && b + 1 < |s| && InterpDrop(s[a], s[b], s[b + 1], eps)
  }

  /** The last position kept before `b`. */
  function Anchor(drop: Test, b: nat): (a: nat)
    requires 1 <= b
    ensures a < b
  {
    if b == 1 then 0
    else if drop(Anchor(drop, b - 1), b - 1) then Anchor(drop, b - 1)
    else b - 1
  }

  predicate IsKept(drop: Test, n: nat, b: nat)
    requires b < n
  {
    b == 0 || b == n - 1 || !drop(Anchor(drop, b), b)
  }

  /** The kept positions below `b`, in order. */
  function KeptBelow(drop: Test, n: nat, b: nat): (ps: seq<nat>)
    requires b <= n
    ensures forall i :: 0 <= i < |ps| ==> ps[i] < b
    ensures forall i, j :: 0 <= i < j < |ps| ==> ps[i] < ps[j]
    ensures forall p: nat :: p in ps <==> p < b && IsKept(drop, n, p)
  {
    if b == 0 then []
    else KeptBelow(drop, n, b - 1) + if IsKept(drop, n, b - 1) then [b - 1] else []
  }

  function Kept(drop: Test, n: nat): seq<nat> {
    KeptBelow(drop, n, n)
  }

  function Select<T>(s: seq<T>, ps: seq<nat>): seq<T>
    requires forall i :: 0 <= i < |ps| ==> ps[i] < |s|
  {
    seq(|ps|, i requires 0 <= i < |ps| => s[ps[i]])
  }

  /** The working series before position `b` is judged: what the filter kept so far
      (`kept`, ending at the anchor), then the untouched rest of the original. */
  ghost predicate Working(s: seq<Point>, drop: Test, b: nat, kept: seq<Point>, redux: seq<Point>) {
    1 <= b < |s| && kept == Select(s, KeptBelow(drop, |s|, b)) &&
    kept != [] && kept[|kept| - 1] == s[Anchor(drop, b)] && redux == kept + s[b..]
  }

  lemma SelectAppend<T>(s: seq<T>, ps: seq<nat>, p: nat)
    requires p < |s| && forall i :: 0 <= i < |ps| ==> ps[i] < |s|
    ensures Select(s, ps + [p]) == Select(s, ps) + [s[p]]
  {
  }

  lemma WorkingStart(s: seq<Point>, drop: Test)
    requires |s| >= 2
    ensures Working(s, drop, 1, [s[0]], s)
  {
    SelectAppend(s, [], 0);
    assert KeptBelow(drop, |s|, 1) == [] + [0];
  }

  lemma WorkingEnd(s: seq<Point>, drop: Test, kept: seq<Point>, redux: seq<Point>)
    requires |s| >= 2 && Working(s, drop, |s| - 1, kept, redux)
    ensures redux == Select(s, Kept(drop, |s|))
  {
    SelectAppend(s, KeptBelow(drop, |s|, |s| - 1), |s| - 1);
    assert s[|s| - 1..] == [s[|s| - 1]];
  }

  lemma WorkingStep(s: seq<Point>, drop: Test, b: nat, kept: seq<Point>, redux: seq<Point>)
    requires Working(s, drop, b, kept, redux) && b + 1 < |s|
    ensures var k, a := |kept|, Anchor(drop, b);
            && |redux| == k + |s| - b
            && redux[k - 1] == s[a] && redux[k] == s[b] && redux[k + 1] == s[b + 1]
            && if drop(a, b)
               then Working(s, drop, b + 1, kept, redux[..k] + redux[k + 1..])
               else Working(s, drop, b + 1, kept + [s[b]], redux)
  {
    var ps, k := KeptBelow(drop, |s|, b), |kept|;
    assert redux[..k] + redux[k + 1..] == kept + s[b + 1..];
    assert redux == (kept + [s[b]]) + s[b + 1..];
    SelectAppend(s, ps, b);
    assert KeptBelow(drop, |s|, b + 1) == if drop(Anchor(drop, b), b) then ps else ps + [b];
  }

  /** The loop of `reduce_changing_metric`: every step settles one position of the original, and
      the outcome is what the one-pass filter keeps. */
  method DropAndRecheck(series: seq<Point>, eps: real) returns (redux: seq<Point>, ghost steps: nat)
    requires |series| >= 2 && TimeOrdered(series)
    ensures redux == Select(series, Kept(DropTest(series, eps), |series|))
    ensures steps == |series| - 2
  {
    hide InterpDrop, Select, KeptBelow, Anchor;
    redux := series;
    var idx := 0;
    steps := 0;
    ghost var drop := DropTest(series, eps);
    ghost var kept := [series[0]];
    WorkingStart(series, drop);
    while true
      invariant Working(series, drop, steps + 1, kept, redux) && |kept| == idx + 1
      decreases |series| - steps
    {
      var metricLen := |redux|;
      if idx == metricLen - 2 {
        WorkingEnd(series, drop, kept, redux);
        break;
      }
      WorkingStep(series, drop, steps + 1, kept, redux);
      var p1, p2, p3 := redux[idx], redux[idx + 1], redux[idx + 2];
      if InterpDrop(p1, p2, p3, eps) {
        redux := redux[..idx + 1] + redux[idx + 2..];
      } else {
        kept := kept + [series[steps + 1]];
        idx := idx + 1;
      }
      steps := steps + 1;
    }
  }

  /** `reduce_changing_metric`: the loop with the dynamic range times the precision as threshold. */
  method ReduceChangingMetric(series: seq<Point>, precision: real)
    returns (redux: seq<Point>, ghost steps: nat)
    requires |series| >= 2 && TimeOrdered(series)
    ensures forall eps :: IsThreshold(series, precision, eps) ==>
              redux == Select(series, Kept(DropTest(series, eps), |series|))
    ensures steps == |series| - 2
  {
    hide IsThreshold, Threshold, DropTest, Kept;
    var eps := Threshold(series, precision);
    redux, steps := DropAndRecheck(series, eps);
    forall eps' | IsThreshold(series, precision, eps') ensures eps' == eps {
      ThresholdIsUnique(series, precision, eps');
    }
  }

  /** The anchor of `b` is kept, and nothing between it and `b` is. */
  lemma {:induction false} AnchorIsLastKept(drop: Test, n: nat, b: nat)
    requires 1 <= b < n
    ensures IsKept(drop, n, Anchor(drop, b))
    ensures forall i :: Anchor(drop, b) < i < b ==> !IsKept(drop, n, i)
    ensures forall i :: Anchor(drop, b) < i <= b ==> Anchor(drop, i) == Anchor(drop, b)
  {
    if b > 1 {
      AnchorIsLastKept(drop, n, b - 1);
    }
  }

  // A rule for which positions to keep, stated without the algorithm.

  function LastMarked(keep: seq<bool>, b: nat): (a: nat)
    requires 1 <= b <= |keep| && keep[0]
    ensures a < b
  {
    if b == 1 || keep[b - 1] then b - 1 else LastMarked(keep, b - 1)
  }

  /** Both ends are kept, and an inner position is kept exactly if the test against the
      position kept last before it fails. */
  ghost predicate ObeysDropRule(drop: Test, n: nat, keep: seq<bool>) {
    |keep| == n >= 2 && keep[0] && keep[n - 1] &&
    forall b :: 0 < b < n - 1 ==> (keep[b] <==> !drop(LastMarked(keep, b), b))
  }

  /** Below `b` the marking is that of the filter. */
  ghost predicate MarksKept(drop: Test, n: nat, keep: seq<bool>, b: nat)
    requires b <= |keep| == n
  {
    forall i: nat :: i < b ==> keep[i] == IsKept(drop, n, i)
  }

  lemma {:induction false} MarkedAnchor(drop: Test, keep: seq<bool>, b: nat)
    requires 1 <= b < |keep| && keep[0] && MarksKept(drop, |keep|, keep, b)
    ensures LastMarked(keep, b) == Anchor(drop, b)
  {
    if b > 1 {
      MarkedAnchor(drop, keep, b - 1);
      assert keep[b - 1] == IsKept(drop, |keep|, b - 1);
    }
  }

  lemma RuleFixesOne(drop: Test, n: nat, keep: seq<bool>, i: nat)
    requires ObeysDropRule(drop, n, keep) && i < n
    requires 0 < i < n - 1 ==> LastMarked(keep, i) == Anchor(drop, i)
    ensures keep[i] == IsKept(drop, n, i)
  {
    hide LastMarked, Anchor;
    if 0 < i < n - 1 {
      assert keep[i] <==> !drop(LastMarked(keep, i), i);
    }
  }

  lemma MarksOneMore(drop: Test, n: nat, keep: seq<bool>, i: nat)
    requires i < n == |keep| && MarksKept(drop, n, keep, i) && keep[i] == IsKept(drop, n, i)
    ensures MarksKept(drop, n, keep, i + 1)
  {
  }

  lemma {:induction false} RuleFixesMark(drop: Test, n: nat, keep: seq<bool>, b: nat)
    requires ObeysDropRule(drop, n, keep) && b <= n
    ensures MarksKept(drop, n, keep, b)
  {
    if b > 0 {
      var i := b - 1;
      assert |keep| == n && keep[0];
      hide ObeysDropRule, MarksKept, IsKept, LastMarked, Anchor;
      RuleFixesMark(drop, n, keep, i);
      if 0 < i < n - 1 {
        MarkedAnchor(drop, keep, i);
      }
      RuleFixesOne(drop, n, keep, i);
      MarksOneMore(drop, n, keep, i);
    }
  }

  /** What the filter keeps is the one and only marking that obeys the rule. */
  lemma KeptIsTheRule(drop: Test, n: nat, keep: seq<bool>)
    requires n >= 2
    ensures ObeysDropRule(drop, n, keep) <==> |keep| == n && MarksKept(drop, n, keep, n)
  {
    if ObeysDropRule(drop, n, keep) {
      RuleFixesMark(drop, n, keep, n);
    }
    if |keep| == n && MarksKept(drop, n, keep, n) {
      assert keep[0] == IsKept(drop, n, 0);
      assert keep[n - 1] == IsKept(drop, n, n - 1);
      forall b | 0 < b < n - 1 ensures keep[b] <==> !drop(LastMarked(keep, b), b) {
        MarkedAnchor(drop, keep, b);
      }
    }
  }

  /** Tests that agree keep the same positions. */
  lemma {:induction false} AgreeingTests(drop: Test, drop': Test, n: nat, b: nat)
    requires b <= n && forall i, j :: 0 <= i < j < n - 1 ==> drop(i, j) == drop'(i, j)
    ensures 1 <= b < n ==> Anchor(drop, b) == Anchor(drop', b)
    ensures KeptBelow(drop, n, b) == KeptBelow(drop', n, b)
  {
    if b > 0 {
      AgreeingTests(drop, drop', n, b - 1);
    }
  }

  lemma {:induction false} RangeBounds(s: seq<Point>)
    requires s != []
    ensures forall i :: 0 <= i < |s| ==> MinY(s) <= s[i].y <= MaxY(s)
    ensures exists i, j :: 0 <= i < |s| && 0 <= j < |s| && s[i].y == MinY(s) && s[j].y == MaxY(s)
  {
    var n := |s| - 1;
    if n == 0 {
      assert s[0].y == MinY(s) && s[0].y == MaxY(s);
    } else {
      var r := s[..n];
      RangeBounds(r);
      var i, j :| 0 <= i < n && 0 <= j < n && r[i].y == MinY(r) && r[j].y == MaxY(r);
      assert s[i] == r[i] && s[j] == r[j];
      var i' := if s[n].y < MinY(r) then n else i;
      var j' := if s[n].y > MaxY(r) then n else j;
      assert s[i'].y == MinY(s) && s[j'].y == MaxY(s);
      forall k | 0 <= k < |s| ensures MinY(s) <= s[k].y <= MaxY(s) {
        if k < n { assert s[k] == r[k]; }
      }
    }
  }

  /** A constant series has threshold 0, so nothing is ever strictly closer: it is kept whole. */
  lemma ConstantSeriesKeptWhole(s: seq<Point>, precision: real, b: nat)
    requires TimeOrdered(s) && b < |s|
    requires forall i :: 0 <= i < |s| ==> s[i].y == s[0].y
    ensures IsKept(DropTest(s, Threshold(s, precision)), |s|, b)
  {
    hide Threshold, DropTest;
    ConstantThreshold(s, precision);
    if 0 < b < |s| - 1 {
      NothingBelowZero(s, Anchor(DropTest(s, 0.0), b), b);
    }
  }

  lemma ConstantThreshold(s: seq<Point>, precision: real)
    requires s != [] && forall i :: 0 <= i < |s| ==> s[i].y == s[0].y
    ensures Threshold(s, precision) == 0.0
  {
    RangeBounds(s);
    var i, j :| 0 <= i < |s| && 0 <= j < |s| && s[i].y == MinY(s) && s[j].y == MaxY(s);
    hide MinY, MaxY;
    ZeroRange(MaxY(s) - MinY(s), precision);
  }

  lemma ZeroRange(range: real, precision: real)
    requires range == 0.0
    ensures range * precision == 0.0
  {
  }

  lemma NothingBelowZero(s: seq<Point>, a: nat, b: nat)
    requires TimeOrdered(s) && a < b && b + 1 < |s|
    ensures !DropTest(s, 0.0)(a, b)
  {
    hide Line;
  }

  // The documentation describes the outcome by a test on three neighbours. A second pass
  // over the result judges neighbours the first pass never compared.

  /** `i` passes the drop test between its two immediate neighbours. */
  predicate Flanked(drop: Test, i: int) {
    drop(i - 1, i)
  }

  lemma {:induction false} SettledAnchors(drop: Test, n: nat, b: nat)
    requires b <= n && forall i :: 0 < i < n - 1 ==> !Flanked(drop, i)
    ensures forall i: nat :: i < b ==> IsKept(drop, n, i)
    ensures 1 <= b < n ==> Anchor(drop, b) == b - 1
  {
    if b > 0 {
      SettledAnchors(drop, n, b - 1);
      if 1 < b { assert b - 1 < n - 1 ==> !Flanked(drop, b - 1); }
    }
  }

  lemma {:induction false} AllKeptAnchors(drop: Test, n: nat, b: nat)
    requires 1 <= b < n && forall i: nat :: i < n ==> IsKept(drop, n, i)
    ensures Anchor(drop, b) == b - 1
  {
    if b > 1 {
      AllKeptAnchors(drop, n, b - 1);
      assert IsKept(drop, n, b - 1);
    }
  }

  /** A pass keeps a series whole exactly if no three neighbours of it pass the drop test. */
  lemma KeptWholeIffSettled(drop: Test, n: nat)
    ensures (forall i: nat :: i < n ==> IsKept(drop, n, i)) <==>
            (forall i :: 0 < i < n - 1 ==> !Flanked(drop, i))
  {
    if forall i :: 0 < i < n - 1 ==> !Flanked(drop, i) {
      SettledAnchors(drop, n, n);
    }
    if forall i: nat :: i < n ==> IsKept(drop, n, i) {
      forall i | 0 < i < n - 1 ensures !Flanked(drop, i) {
        AllKeptAnchors(drop, n, i);
        assert IsKept(drop, n, i);
      }
    }
  }
}
