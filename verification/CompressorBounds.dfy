/** How far a compressed series can be from the original: the cumulative reconstruction bound. */
module CompressorBounds {
  import opened Compressor

  // Real arithmetic.

  lemma DivideCancels(x: real, d: real)
    requires d != 0.0
    ensures x / d * d == x
  {
  }

  lemma TriangleScaled(u: real, v: real, w: real, d: real, eps: real, p: real, q: real)
    requires Abs(u * d) < eps * p && Abs(v * d) < eps * q && w == u + v
    ensures Abs(w * d) < eps * (p + q)
  {
    var x, y := u * d, v * d;
    assert w * d == x + y;
    assert eps * (p + q) == eps * p + eps * q;
  }

  lemma ScaleBound(eps: real, w: real, n: real)
    requires eps >= 0.0 && w <= n
    ensures eps * w <= eps * n
  {
  }

  lemma WeightAtMostOne(d: real, D: real)
    requires 0.0 < d <= D
    ensures 0.0 < d / D <= 1.0
  {
    DivideCancels(d, D);
  }

  // Slopes `u` seen from one anchor, at distances `d` from it.

  /** The sum over i in j..c-1 of d[j] / d[i]: each weight is at most 1. */
  function Weights(d: seq<real>, j: nat, c: nat): (w: real)
    requires j <= c <= |d| && forall i :: j <= i < c ==> 0.0 < d[i]
    decreases c
  {
    if c == j then 0.0 else Weights(d, j, c - 1) + d[j] / d[c - 1]
  }

  lemma {:induction false} WeightsAtMostCount(d: seq<real>, j: nat, c: nat)
    requires j <= c <= |d| && forall i :: j <= i < c ==> 0.0 < d[j] <= d[i]
    ensures Weights(d, j, c) <= (c - j) as real
    decreases c
  {
    if c > j {
      WeightsAtMostCount(d, j, c - 1);
      WeightAtMostOne(d[j], d[c - 1]);
    }
  }

  /** By how much the line moves at distance d[j] when its slope goes from u[i] to u[c]. */
  function Shift(u: seq<real>, d: seq<real>, j: nat, i: nat, c: nat): real
    requires j < |d| && i < |u| && c < |u|
  {
    Abs((u[c] - u[i]) * d[j])
  }

  /** A bound on a shift at d[i] gives one at the nearer d[j]. */
  lemma ShiftNearer(u: seq<real>, d: seq<real>, eps: real, j: nat, i: nat)
    requires j <= i && i + 1 < |u| == |d| && 0.0 < d[j] <= d[i]
    requires Shift(u, d, i, i, i + 1) < eps
    ensures Shift(u, d, j, i, i + 1) < eps * (d[j] / d[i])
  {
    var q, v := d[j] / d[i], (u[i + 1] - u[i]) * d[i];
    DivideCancels(d[j], d[i]);
    assert q * d[i] == d[j];
    assert q > 0.0;
    assert (u[i + 1] - u[i]) * d[j] == v * q;
    assert Abs(v * q) == Abs(v) * q;
  }

  lemma ShiftsAdd(u: seq<real>, d: seq<real>, eps: real, j: nat, i: nat, c: nat, p: real, q: real)
    requires j < |d| && j < |u| && i < |u| && c < |u|
    requires Shift(u, d, j, j, i) < eps * p && Shift(u, d, j, i, c) < eps * q
    ensures Shift(u, d, j, j, c) < eps * (p + q)
  {
    TriangleScaled(u[i] - u[j], u[c] - u[i], u[c] - u[j], d[j], eps, p, q);
  }

  ghost predicate SmallStep(u: seq<real>, d: seq<real>, eps: real, i: nat)
    requires i + 1 < |u| == |d|
  {
    Shift(u, d, i, i, i + 1) < eps
  }

  /** If each next slope moves the line by less than eps at its own point, the last one
      moves it by less than the weighted sum at the first. */
  lemma {:induction false} Telescope(u: seq<real>, d: seq<real>, eps: real, j: nat, c: nat)
    requires j < c < |u| == |d|
    requires forall i :: j <= i < c ==> 0.0 < d[j] <= d[i]
    requires forall i :: j <= i < c ==> SmallStep(u, d, eps, i)
    ensures Shift(u, d, j, j, c) < eps * Weights(d, j, c)
    decreases c
  {
    hide Shift;
    var i := c - 1;
    assert SmallStep(u, d, eps, i);
    ShiftNearer(u, d, eps, j, i);
    if i == j {
      assert Weights(d, j, i) == 0.0;
    } else {
      Telescope(u, d, eps, j, i);
      ShiftsAdd(u, d, eps, j, i, c, Weights(d, j, i), d[j] / d[i]);
    }
  }

  // The series as slopes and distances seen from position `a`.

  function Distances(s: seq<Point>, a: nat): seq<real>
    requires a < |s|
  {
    seq(|s|, i requires 0 <= i < |s| => s[i].t - s[a].t)
  }

  function Slopes(s: seq<Point>, a: nat): seq<real>
    requires a < |s| && TimeOrdered(s)
  {
    seq(|s|, i requires 0 <= i < |s| => if i <= a then 0.0 else (s[i].y - s[a].y) / (s[i].t - s[a].t))
  }

  /** The error of rebuilding point `j` on the line from `a` to `c`. */
  function RebuildError(s: seq<Point>, a: nat, j: nat, c: nat): real
    requires TimeOrdered(s) && a < c < |s| && j < |s|
  {
    Abs(Line(s[a], s[c], s[j].t) - s[j].y)
  }

  lemma ErrorIsShift(s: seq<Point>, a: nat, j: nat, c: nat)
    requires TimeOrdered(s) && a < j < |s| && a < c < |s|
    ensures |Slopes(s, a)| == |s|
    ensures RebuildError(s, a, j, c) == Shift(Slopes(s, a), Distances(s, a), j, j, c)
  {
    var d := s[j].t - s[a].t;
    DivideCancels(s[j].y - s[a].y, d);
    var u, v := Slopes(s, a)[c], Slopes(s, a)[j];
    assert (u - v) * d == u * d - v * d;
  }

  lemma PositiveBound(s: seq<Point>, eps: real, a: nat, j: nat, c: nat)
    requires TimeOrdered(s) && a < c < |s| && j < |s| && RebuildError(s, a, j, c) < eps
    ensures eps > 0.0
  {
  }

  ghost predicate DroppedAgainst(s: seq<Point>, eps: real, a: nat, i: nat)
    requires TimeOrdered(s) && a < i && i + 1 < |s|
  {
    RebuildError(s, a, i, i + 1) < eps
  }

  lemma TestIsError(s: seq<Point>, eps: real, a: nat, i: nat)
    requires TimeOrdered(s) && a < i && i + 1 < |s|
    ensures DropTest(s, eps)(a, i) <==> DroppedAgainst(s, eps, a, i)
  {
  }

  /** If every point between `a` and `c` was dropped against `a`, the errors of the
      separate tests telescope. */
  lemma DroppedRunError(s: seq<Point>, eps: real, a: nat, j: nat, c: nat)
    requires TimeOrdered(s) && a < j < c < |s|
    requires forall i :: a < i < c ==> DroppedAgainst(s, eps, a, i)
    ensures RebuildError(s, a, j, c) < eps * Weights(Distances(s, a), j, c)
    ensures RebuildError(s, a, j, c) < eps * (c - j) as real
  {
    hide RebuildError, Shift, Slopes;
    var u, d := Slopes(s, a), Distances(s, a);
    assert |u| == |s| by { ErrorIsShift(s, a, j, c); }
    forall i | j <= i < c ensures SmallStep(u, d, eps, i) {
      ErrorIsShift(s, a, i, i + 1);
      assert DroppedAgainst(s, eps, a, i);
    }
    Telescope(u, d, eps, j, c);
    ErrorIsShift(s, a, j, c);
    WeightsAtMostCount(d, j, c);
    assert DroppedAgainst(s, eps, a, j);
    PositiveBound(s, eps, a, j, j + 1);
    ScaleBound(eps, Weights(d, j, c), (c - j) as real);
  }

  /** The first position at or after `j` that is kept. */
  function NextKept(drop: Test, n: nat, j: nat): (c: nat)
    requires j < n
    ensures j <= c < n && IsKept(drop, n, c)
    ensures forall i :: j <= i < c ==> !IsKept(drop, n, i)
    decreases n - j
  {
    if IsKept(drop, n, j) then j else NextKept(drop, n, j + 1)
  }

  lemma {:induction false} AnchorStays(drop: Test, n: nat, j: nat, i: nat)
    requires 1 <= j <= i < n && forall k :: j <= k < i ==> !IsKept(drop, n, k)
    ensures Anchor(drop, i) == Anchor(drop, j)
    decreases i
  {
    if j < i {
      AnchorStays(drop, n, j, i - 1);
      assert !IsKept(drop, n, i - 1);
    }
  }

  /** Every position strictly between the kept neighbours of a dropped one was dropped
      against the left neighbour. */
  lemma DroppedRun(drop: Test, n: nat, j: nat)
    requires j < n && !IsKept(drop, n, j)
    ensures var a, c := Anchor(drop, j), NextKept(drop, n, j);
            && IsKept(drop, n, a) && a < j < c
            && forall i :: a < i < c ==> drop(a, i)
  {
    var a, c := Anchor(drop, j), NextKept(drop, n, j);
    AnchorIsLastKept(drop, n, j);
    forall i | a < i < c ensures drop(a, i) {
      if i <= j {
        assert Anchor(drop, i) == a;
      } else {
        AnchorStays(drop, n, j, i);
      }
      assert !IsKept(drop, n, i);
    }
  }

  /** The reconstruction bound. A dropped point is rebuilt on the line between its kept
      neighbours a and c with an error below eps * sum_{i=j..c-1} (t_j-t_a)/(t_i-t_a),
      hence below (c-j) * eps. */
  lemma ReconstructionBound(s: seq<Point>, eps: real, j: nat)
    requires TimeOrdered(s) && j < |s|
    ensures var drop := DropTest(s, eps);
            !IsKept(drop, |s|, j) ==>
              var a, c := Anchor(drop, j), NextKept(drop, |s|, j);
              && IsKept(drop, |s|, a) && a < j < c
              && RebuildError(s, a, j, c) < eps * Weights(Distances(s, a), j, c)
              && RebuildError(s, a, j, c) < eps * (c - j) as real
  {
    hide RebuildError, DropTest, DroppedAgainst;
    var drop := DropTest(s, eps);
    if !IsKept(drop, |s|, j) {
      var a, c := Anchor(drop, j), NextKept(drop, |s|, j);
      DroppedRun(drop, |s|, j);
      forall i | a < i < c ensures DroppedAgainst(s, eps, a, i) {
        TestIsError(s, eps, a, i);
      }
      DroppedRunError(s, eps, a, j, c);
    }
  }
}
