/** `compress_prmon_output`: the union index, the two ways of filling its gaps, and what
    a reader of the compressed table can rely on. */
module CompressedFrame {
  import opened Wrappers
  import opened Compressor
  import opened CompressorBounds

  /** A column over the union index, with gaps. */
  type Column = seq<Option<real>>

  ghost predicate Increasing(u: seq<nat>) {
    forall i, j :: 0 <= i < j < |u| ==> u[i] < u[j]
  }

  /** The values `y` at the positions `u`, present only where `keep` says so. */
  function Sparse(y: seq<real>, keep: seq<bool>, u: seq<nat>): Column
    requires |keep| == |y| && forall i :: 0 <= i < |u| ==> u[i] < |y|
  {
    seq(|u|, i requires 0 <= i < |u| => if keep[u[i]] then Some(y[u[i]]) else None)
  }

  // Filling gaps.

  /** The nearest row at or before `k - 1` that has a value, or -1. */
  function PrevValid(col: Column, k: nat): (p: int)
    requires k <= |col|
    ensures -1 <= p < k && (p >= 0 ==> col[p].Some?)
    ensures forall i :: p < i < k ==> col[i].None?
  {
    if k == 0 then -1 else if col[k - 1].Some? then k - 1 else PrevValid(col, k - 1)
  }

  /** The nearest row at or after `k` that has a value, or the number of rows. */
  function NextValid(col: Column, k: nat): (q: nat)
    requires k <= |col|
    ensures k <= q <= |col| && (q < |col| ==> col[q].Some?)
    ensures forall i :: k <= i < q ==> col[i].None?
    decreases |col| - k
  {
    if k == |col| || col[k].Some? then k else NextValid(col, k + 1)
  }

  /** Linear interpolation by index: leading gaps stay, trailing gaps repeat the last value. */
  function InterpolateAt(times: seq<real>, col: Column, k: nat): Option<real>
    requires |times| == |col| && k < |col|
    requires forall i, j :: 0 <= i < j < |times| ==> times[i] < times[j]
  {
    if col[k].Some? then col[k]
    else
      var p, q := PrevValid(col, k), NextValid(col, k);
      if p == -1 then None
      else if q == |col| then col[p]
      else Some(Line(Point(times[p], col[p].value), Point(times[q], col[q].value), times[k]))
  }

  function ForwardFillAt(col: Column, k: nat): Option<real>
    requires k < |col|
  {
    if col[k].Some? || k == 0 then col[k] else ForwardFillAt(col, k - 1)
  }

  /** To the nearest integer, halves to the even one. */
  function Round(x: real): int {
    var f := x.Floor;
    var r := x - f as real;
    if r < 0.5 then f else if r > 0.5 then f + 1 else if f % 2 == 0 then f else f + 1
  }

  lemma RoundIsNear(x: real)
    ensures Abs(Round(x) as real - x) <= 0.5
  {
  }

  lemma RoundKeepsOrder(x: real, y: real)
    requires x <= y
    ensures Round(x) <= Round(y)
  {
    assert x.Floor <= y.Floor;
  }

  lemma RoundHalvesToEven(x: real)
    requires x - x.Floor as real == 0.5
    ensures Round(x) % 2 == 0
  {
  }

  lemma RoundExactOnIntegers(x: real)
    ensures Round(x) as real == x <==> x.Floor as real == x
  {
  }

  // Changing metrics.

  function Times(s: seq<Point>, u: seq<nat>): seq<real>
    requires forall i :: 0 <= i < |u| ==> u[i] < |s|
  {
    seq(|u|, i requires 0 <= i < |u| => s[u[i]].t)
  }

  function Values(s: seq<Point>): seq<real> {
    seq(|s|, i requires 0 <= i < |s| => s[i].y)
  }

  function KeepMask(drop: Test, n: nat): seq<bool> {
    seq(n, i requires 0 <= i < n => IsKept(drop, n, i))
  }

  /** What the piecewise linear curve through the kept points says at position `j`. */
  function Rebuilt(s: seq<Point>, drop: Test, j: nat): real
    requires TimeOrdered(s) && j < |s|
  {
    if IsKept(drop, |s|, j) then s[j].y
    else Line(s[Anchor(drop, j)], s[NextKept(drop, |s|, j)], s[j].t)
  }

  ghost predicate CoversKept(drop: Test, n: nat, u: seq<nat>) {
    && Increasing(u)
    && (forall i :: 0 <= i < |u| ==> u[i] < n)
    && forall p: nat :: p < n && IsKept(drop, n, p) ==> p in u
  }

  lemma RowsInOrder(u: seq<nat>, i: nat, k: nat)
    requires Increasing(u) && i < |u| && k < |u|
    ensures u[i] < u[k] <==> i < k
  {
  }

  lemma PrevValidIs(col: Column, k: nat, i: nat)
    requires i < k <= |col| && col[i].Some? && forall m :: i < m < k ==> col[m].None?
    ensures PrevValid(col, k) == i
  {
  }

  lemma NextValidIs(col: Column, k: nat, i: nat)
    requires k <= i < |col| && col[i].Some? && forall m :: k <= m < i ==> col[m].None?
    ensures NextValid(col, k) == i
  {
  }

  /** The neighbouring values in the table are those of the kept neighbours in the original,
      wherever the other columns put the rows between them. */
  lemma ValidNeighbours(col: Column, drop: Test, n: nat, u: seq<nat>, k: nat)
    requires CoversKept(drop, n, u) && k < |u| == |col| && !IsKept(drop, n, u[k])
    requires forall i :: 0 <= i < |u| ==> (col[i].Some? <==> IsKept(drop, n, u[i]))
    ensures var p, q := PrevValid(col, k), NextValid(col, k);
            p >= 0 && q < |u| && u[p] == Anchor(drop, u[k]) && u[q] == NextKept(drop, n, u[k])
  {
    var j := u[k];
    var a, c := Anchor(drop, j), NextKept(drop, n, j);
    AnchorIsLastKept(drop, n, j);
    var i :| 0 <= i < |u| && u[i] == a;
    var m :| 0 <= m < |u| && u[m] == c;
    RowsInOrder(u, i, k);
    RowsInOrder(u, k, m);
    forall x | i < x < k ensures col[x].None? {
      RowsInOrder(u, i, x);
      RowsInOrder(u, x, k);
    }
    forall x | k <= x < m ensures col[x].None? {
      RowsInOrder(u, x, m);
    }
    PrevValidIs(col, k, i);
    NextValidIs(col, k, m);
  }

  /** Filling a changing metric: every row gets the value of the curve through its own kept
      points, so nothing stays missing. */
  lemma FilledIsRebuilt(s: seq<Point>, drop: Test, u: seq<nat>, k: nat)
    requires TimeOrdered(s) && CoversKept(drop, |s|, u) && k < |u|
    requires forall i, j :: 0 <= i < j < |u| ==> Times(s, u)[i] < Times(s, u)[j]
    ensures InterpolateAt(Times(s, u), Sparse(Values(s), KeepMask(drop, |s|), u), k) == Some(Rebuilt(s, drop, u[k]))
  {
    hide Line;
    if !IsKept(drop, |s|, u[k]) {
      var col := Sparse(Values(s), KeepMask(drop, |s|), u);
      ValidNeighbours(col, drop, |s|, u, k);
    }
  }

  /** The rounded entry of a row is within half a unit of the reconstruction bound, or of the
      measurement if that was kept; a kept integer comes back unchanged. */
  lemma EntryBound(s: seq<Point>, eps: real, j: nat)
    requires TimeOrdered(s) && j < |s|
    ensures var drop := DropTest(s, eps);
            var entry := Round(Rebuilt(s, drop, j)) as real;
            if IsKept(drop, |s|, j)
            then Abs(entry - s[j].y) <= 0.5 && (s[j].y.Floor as real == s[j].y ==> entry == s[j].y)
            else Abs(entry - s[j].y) < eps * (NextKept(drop, |s|, j) - j) as real + 0.5
  {
    hide DropTest, Line, Round;
    var drop := DropTest(s, eps);
    RoundIsNear(Rebuilt(s, drop, j));
    if IsKept(drop, |s|, j) {
      RoundExactOnIntegers(s[j].y);
    } else {
      ReconstructionBound(s, eps, j);
    }
  }

  // Order.

  lemma RisingProducts(q: real, x: real, y: real, z: real)
    requires q >= 0.0 && 0.0 <= x <= y <= z
    ensures 0.0 <= q * x <= q * y <= q * z
  {
  }

  lemma LineRises(p1: Point, p3: Point, t: real, t': real)
    requires p1.t < p3.t && p1.y <= p3.y && p1.t <= t <= t' <= p3.t
    ensures p1.y <= Line(p1, p3, t) <= Line(p1, p3, t') <= p3.y
  {
    var dy, dt := p3.y - p1.y, p3.t - p1.t;
    var q := dy / dt;
    DivideCancels(dy, dt);
    assert q >= 0.0;
    RisingProducts(q, t - p1.t, t' - p1.t, dt);
    assert Line(p1, p3, t) == p1.y + q * (t - p1.t);
    assert Line(p1, p3, t') == p1.y + q * (t' - p1.t);
  }

  ghost predicate Rising(s: seq<Point>) {
    forall i, j :: 0 <= i <= j < |s| ==> s[i].y <= s[j].y
  }

  lemma RebuiltRisesOnce(s: seq<Point>, drop: Test, j: nat)
    requires TimeOrdered(s) && Rising(s) && j + 1 < |s|
    ensures Rebuilt(s, drop, j) <= Rebuilt(s, drop, j + 1)
  {
    hide Line;
    var n := |s|;
    if !IsKept(drop, n, j) {
      var a, c := Anchor(drop, j), NextKept(drop, n, j);
      var t' := if IsKept(drop, n, j + 1) then s[c].t else s[j + 1].t;
      LineRises(s[a], s[c], s[j].t, t');
    } else if !IsKept(drop, n, j + 1) {
      LineRises(s[j], s[NextKept(drop, n, j + 1)], s[j + 1].t, s[j + 1].t);
      assert Anchor(drop, j + 1) == j by { AnchorIsLastKept(drop, n, j + 1); }
    }
  }

  /** A metric that never falls never falls in the table either. */
  lemma {:induction false} RebuiltRises(s: seq<Point>, drop: Test, i: nat, j: nat)
    requires TimeOrdered(s) && Rising(s) && i <= j < |s|
    ensures Rebuilt(s, drop, i) <= Rebuilt(s, drop, j)
    ensures Round(Rebuilt(s, drop, i)) <= Round(Rebuilt(s, drop, j))
    decreases j
  {
    hide Rebuilt, Round;
    if i < j {
      RebuiltRises(s, drop, i, j - 1);
      RebuiltRisesOnce(s, drop, j - 1);
      RoundKeepsOrder(Rebuilt(s, drop, j - 1), Rebuilt(s, drop, j));
    }
  }

  // Steady metrics.

  /** `metric != metric.shift(1)`: the first position has nothing before it. */
  predicate ChangesAt(y: seq<real>, i: nat)
    requires i < |y|
  {
    i == 0 || y[i] != y[i - 1]
  }

  function ChangeMask(y: seq<real>): seq<bool> {
    seq(|y|, i requires 0 <= i < |y| => ChangesAt(y, i))
  }

  lemma {:induction false} ConstantBetweenChanges(y: seq<real>, i: nat, j: nat)
    requires i <= j < |y| && forall k: nat :: i < k <= j ==> !ChangesAt(y, k)
    ensures y[i] == y[j]
    decreases j
  {
    if i < j {
      assert !ChangesAt(y, j);
      ConstantBetweenChanges(y, i, j - 1);
    }
  }

  lemma NextRow(u: seq<nat>, k: nat, p: nat)
    requires Increasing(u) && 0 < k < |u| && p in u && p <= u[k]
    ensures p <= u[k - 1] || p == u[k]
  {
    var i :| 0 <= i < |u| && u[i] == p;
    RowsInOrder(u, k - 1, i);
    RowsInOrder(u, k, i);
  }

  /** Forward filling a steady metric over any union index gives back the original. */
  lemma {:induction false} SteadyIsLossless(y: seq<real>, u: seq<nat>, k: nat)
    requires Increasing(u) && k < |u| && forall i :: 0 <= i < |u| ==> u[i] < |y|
    requires forall p: nat :: p < |y| && ChangesAt(y, p) ==> p in u
    ensures ForwardFillAt(Sparse(y, ChangeMask(y), u), k) == Some(y[u[k]])
  {
    if !ChangesAt(y, u[k]) {
      assert ChangesAt(y, 0);
      var z :| 0 <= z < |u| && u[z] == 0;
      RowsInOrder(u, z, k);
      SteadyIsLossless(y, u, k - 1);
      forall p: nat | p in u && p <= u[k] ensures p <= u[k - 1] || p == u[k] {
        NextRow(u, k, p);
      }
      ConstantBetweenChanges(y, u[k - 1], u[k]);
    }
  }

  /** The change points are the least set that can be filled forward to the original. */
  lemma ChangePointsAreMinimal(y: seq<real>, keep: seq<bool>, full: seq<nat>, p: nat)
    requires |keep| == |y| == |full| && (forall i :: 0 <= i < |full| ==> full[i] == i)
    requires forall i: nat :: i < |y| ==> ForwardFillAt(Sparse(y, keep, full), i) == Some(y[i])
    requires p < |y| && ChangesAt(y, p)
    ensures keep[p]
  {
    var col := Sparse(y, keep, full);
    assert ForwardFillAt(col, p) == Some(y[p]);
    if p > 0 {
      assert ForwardFillAt(col, p - 1) == Some(y[p - 1]);
    }
  }

  // The whole table.

  const CHANGING := ["vmem", "pss", "rss", "swap", "rchar", "wchar", "read_bytes", "write_bytes",
                     "rx_packets", "tx_packets", "rx_bytes", "tx_bytes", "gpufbmem", "gpumempct",
                     "gpusmpct", "utime", "stime"]
  const STEADY := ["nprocs", "nthreads", "ngpus"]

  datatype Frame = Frame(index: seq<real>, columns: map<string, seq<real>>)
  datatype Table = Table(index: seq<real>, columns: map<string, Column>)
  datatype Error = NoObjectsToConcatenate

  ghost predicate ValidFrame(f: Frame) {
    && (forall i, j :: 0 <= i < j < |f.index| ==> f.index[i] < f.index[j])
    && forall name :: name in f.columns ==> |f.columns[name]| == |f.index|
  }

  function Series(f: Frame, name: string): (s: seq<Point>)
    requires ValidFrame(f) && name in f.columns
    ensures |s| == |f.index|
    ensures forall i :: 0 <= i < |s| ==> s[i].t == f.index[i] && s[i].y == f.columns[name][i]
  {
    seq(|f.index|, i requires 0 <= i < |f.index| => Point(f.index[i], f.columns[name][i]))
  }

  function Present(f: Frame, names: seq<string>): set<string> {
    set name | name in names && name in f.columns
  }

  function Known(f: Frame): set<string> {
    Present(f, CHANGING) + Present(f, STEADY)
  }

  /** No metric is in both lists, and none is twice in one: each has its one way of being filled. */
  lemma MetricsOnce()
    ensures |CHANGING| == 17 && |STEADY| == 3
    ensures forall i, j :: 0 <= i < j < |CHANGING + STEADY| ==> (CHANGING + STEADY)[i] != (CHANGING + STEADY)[j]
  {
  }

  /** The metrics of a frame are the columns with one of the names in either list. */
  lemma KnownIff(f: Frame, name: string)
    ensures name in Known(f) <==> name in f.columns && (name in CHANGING || name in STEADY)
    ensures name in Present(f, CHANGING) <==> name in f.columns && name in CHANGING
  {
  }

  /** The drop test of one changing metric of the frame. */
  function TestOf(f: Frame, precision: real, name: string): Test
    requires ValidFrame(f) && name in f.columns && f.index != []
  {
    DropTest(Series(f, name), Threshold(Series(f, name), precision))
  }

  /** Which positions a metric contributes to the union index. */
  function Mask(f: Frame, precision: real, name: string): seq<bool>
    requires ValidFrame(f) && name in f.columns && f.index != []
  {
    if name in CHANGING then KeepMask(TestOf(f, precision, name), |f.index|)
    else ChangeMask(f.columns[name])
  }

  predicate InUnion(f: Frame, precision: real, p: nat)
    requires ValidFrame(f) && p < |f.index|
  {
    exists name :: name in Known(f) && Mask(f, precision, name)[p]
  }

  function UnionMask(f: Frame, precision: real): seq<bool>
    requires ValidFrame(f)
  {
    seq(|f.index|, p requires 0 <= p < |f.index| => InUnion(f, precision, p))
  }

  /** The marked positions below `b`, in order. */
  function Marked(mask: seq<bool>, b: nat): (u: seq<nat>)
    requires b <= |mask|
    ensures Increasing(u)
    ensures forall i :: 0 <= i < |u| ==> u[i] < b
    ensures forall p: nat :: p in u <==> p < b && mask[p]
  {
    if b == 0 then [] else Marked(mask, b - 1) + if mask[b - 1] then [b - 1] else []
  }

  /** The positions kept by some metric, in time order. */
  function Union(f: Frame, precision: real): (u: seq<nat>)
    requires ValidFrame(f)
    ensures Increasing(u)
    ensures forall i :: 0 <= i < |u| ==> u[i] < |f.index|
    ensures forall p: nat :: p in u <==> p < |f.index| && InUnion(f, precision, p)
  {
    Marked(UnionMask(f, precision), |f.index|)
  }

  function Fill(times: seq<real>, col: Column, changing: bool): Column
    requires |times| == |col|
    requires forall i, j :: 0 <= i < j < |times| ==> times[i] < times[j]
  {
    seq(|col|, k requires 0 <= k < |col| =>
      var v := if changing then InterpolateAt(times, col, k) else ForwardFillAt(col, k);
      if v.Some? then Some(Round(v.value) as real) else None)
  }

  function UnionTimes(f: Frame, u: seq<nat>): (times: seq<real>)
    requires forall i :: 0 <= i < |u| ==> u[i] < |f.index|
  {
    seq(|u|, k requires 0 <= k < |u| => f.index[u[k]])
  }

  function CompressPrmonOutput(f: Frame, precision: real, skipInterpolate: bool): Result<Table, Error>
    requires ValidFrame(f)
  {
    if |f.index| <= 2 then
      Success(Table(f.index, map name | name in f.columns ::
        Sparse(f.columns[name], seq(|f.index|, i => true), seq(|f.index|, (i: nat) => i))))
    else if Known(f) == {} then
      Failure(NoObjectsToConcatenate)
    else
      var u := Union(f, precision);
      var times := UnionTimes(f, u);
      Success(Table(times, map name | name in Known(f) ::
        var col := Sparse(f.columns[name], Mask(f, precision, name), u);
        if skipInterpolate then col else Fill(times, col, name in CHANGING)))
  }

  /** The first measurement is always in the index; the last one is whenever a changing
      metric is present, and otherwise exactly if some steady metric changes there. */
  lemma EndsInIndex(f: Frame, precision: real)
    requires ValidFrame(f) && |f.index| > 2 && Known(f) != {}
    ensures InUnion(f, precision, 0)
    ensures InUnion(f, precision, |f.index| - 1) <==>
            Present(f, CHANGING) != {} ||
            exists name :: name in Present(f, STEADY) && ChangesAt(f.columns[name], |f.index| - 1)
  {
    var n := |f.index|;
    var first :| first in Known(f);
    assert Mask(f, precision, first)[0];
    if Present(f, CHANGING) != {} {
      var name :| name in Present(f, CHANGING);
      assert name in Known(f) && Mask(f, precision, name)[n - 1];
    } else {
      forall name | name in Known(f) ensures Mask(f, precision, name)[n - 1] == ChangesAt(f.columns[name], n - 1) {
        assert name in Present(f, STEADY) && name !in CHANGING;
      }
    }
  }

  lemma OnlyNprocsKnown(f: Frame)
    requires f.columns.Keys == {"nprocs"}
    ensures "nprocs" !in CHANGING && Known(f) == {"nprocs"}
  {
    assert STEADY[0] == "nprocs";
    assert Present(f, STEADY) == {"nprocs"};
    forall name | name in CHANGING ensures name != "nprocs" {
    }
  }

  lemma FirstMarked(mask: seq<bool>)
    requires mask == [true, false, false]
    ensures Marked(mask, |mask|) == [0]
  {
    assert Marked(mask, 1) == [0] && Marked(mask, 2) == [0];
  }

  /** Three measurements of a constant `nprocs` and nothing else: only the first time is left. */
  lemma LastTimeCanBeMissing(precision: real, skip: bool)
    ensures var f := Frame([0.0, 1.0, 2.0], map["nprocs" := [5.0, 5.0, 5.0]]);
            && ValidFrame(f) && !InUnion(f, precision, 2)
            && var out := CompressPrmonOutput(f, precision, skip);
               out.Success? && out.value.index == [0.0]
  {
    var f := Frame([0.0, 1.0, 2.0], map["nprocs" := [5.0, 5.0, 5.0]]);
    OnlyNprocsKnown(f);
    hide InUnion, UnionMask, CHANGING, STEADY, Known, Fill, Mask, Marked;
    OnlySteady(f, precision, 0);
    OnlySteady(f, precision, 1);
    OnlySteady(f, precision, 2);
    FirstMarked(UnionMask(f, precision));
    assert UnionTimes(f, [0]) == [0.0];
  }

  lemma OnlySteady(f: Frame, precision: real, p: nat)
    requires ValidFrame(f) && Known(f) == {"nprocs"} && "nprocs" !in CHANGING && p < |f.index|
    ensures InUnion(f, precision, p) <==> ChangesAt(f.columns["nprocs"], p)
    ensures |UnionMask(f, precision)| == |f.index| && UnionMask(f, precision)[p] == InUnion(f, precision, p)
  {
    assert "nprocs" in Known(f);
    assert Mask(f, precision, "nprocs")[p] == ChangesAt(f.columns["nprocs"], p);
  }

  lemma MaskCovered(f: Frame, precision: real, name: string)
    requires ValidFrame(f) && f.index != [] && name in Known(f)
    ensures |Mask(f, precision, name)| == |f.index|
    ensures forall p: nat :: p < |f.index| && Mask(f, precision, name)[p] ==> p in Union(f, precision)
  {
  }

  lemma ChangingFilled(f: Frame, precision: real, name: string, times: seq<real>, k: nat)
    requires ValidFrame(f) && f.index != [] && name in Known(f) && name in CHANGING
    requires k < |Union(f, precision)|
    requires times == UnionTimes(f, Union(f, precision))
    ensures var u := Union(f, precision);
            |Mask(f, precision, name)| == |f.index| &&
            InterpolateAt(times, Sparse(f.columns[name], Mask(f, precision, name), u), k)
              == Some(Rebuilt(Series(f, name), TestOf(f, precision, name), u[k]))
  {
    hide Rebuilt, InterpolateAt, TestOf, IsKept;
    var n, u := |f.index|, Union(f, precision);
    var s, drop := Series(f, name), TestOf(f, precision, name);
    assert Values(s) == f.columns[name] && Times(s, u) == times;
    assert Mask(f, precision, name) == KeepMask(drop, n);
    forall p: nat | p < n && IsKept(drop, n, p) ensures p in u {
      MaskCovered(f, precision, name);
      assert Mask(f, precision, name)[p];
    }
    hide Union, InUnion, Mask;
    FilledIsRebuilt(s, drop, u, k);
  }

  lemma SteadyFilled(f: Frame, precision: real, name: string, k: nat)
    requires ValidFrame(f) && f.index != [] && name in Known(f) && name !in CHANGING
    requires k < |Union(f, precision)|
    ensures var u := Union(f, precision);
            |Mask(f, precision, name)| == |f.index| &&
            ForwardFillAt(Sparse(f.columns[name], Mask(f, precision, name), u), k) == Some(f.columns[name][u[k]])
  {
    var y, u := f.columns[name], Union(f, precision);
    MaskCovered(f, precision, name);
    forall p: nat | p < |y| && ChangesAt(y, p) ensures p in u {
      assert Mask(f, precision, name)[p];
    }
    SteadyIsLossless(y, u, k);
  }

  /** The drop test of a metric is that with its own threshold. */
  lemma TestIs(f: Frame, precision: real, name: string, eps: real)
    requires ValidFrame(f) && name in f.columns && f.index != [] && IsThreshold(Series(f, name), precision, eps)
    ensures TestOf(f, precision, name) == DropTest(Series(f, name), eps)
  {
    hide IsThreshold, Threshold;
    ThresholdIsUnique(Series(f, name), precision, eps);
  }

  /** Every entry of the filled table: changing metrics follow the curve through their own kept
      points, with the threshold `eps` that their range has, steady ones have the original value, and
      nothing is missing. */
  lemma FilledTable(f: Frame, precision: real, name: string, k: nat, eps: real)
    requires ValidFrame(f) && |f.index| > 2 && name in Known(f)
    requires name in CHANGING ==> IsThreshold(Series(f, name), precision, eps)
    requires k < |Union(f, precision)|
    ensures var u := Union(f, precision);
            var out := CompressPrmonOutput(f, precision, false);
            && out.Success? && |out.value.index| == |u| && out.value.index[k] == f.index[u[k]]
            && out.value.columns.Keys == Known(f) && |out.value.columns[name]| == |u|
            && out.value.columns[name][k] == Some(Round(
                 if name in CHANGING then Rebuilt(Series(f, name), DropTest(Series(f, name), eps), u[k])
                 else f.columns[name][u[k]]) as real)
  {
    hide Round, Rebuilt, TestOf, Mask, IsThreshold;
    var u := Union(f, precision);
    var times := UnionTimes(f, u);
    MaskCovered(f, precision, name);
    if name in CHANGING {
      TestIs(f, precision, name, eps);
      ChangingFilled(f, precision, name, times, k);
    } else {
      SteadyFilled(f, precision, name, k);
    }
    hide InterpolateAt, ForwardFillAt;
    var out := CompressPrmonOutput(f, precision, false).value;
    assert out.index == times;
    assert out.columns[name] == Fill(times, Sparse(f.columns[name], Mask(f, precision, name), u), name in CHANGING);
  }

  /** A metric keeps this position itself: a changing one by its filter, a steady one if it changes. */
  predicate KeepsItself(f: Frame, name: string, eps: real, p: nat)
    requires ValidFrame(f) && name in f.columns && p < |f.index|
  {
    if name in CHANGING then IsKept(DropTest(Series(f, name), eps), |f.index|, p) else ChangesAt(f.columns[name], p)
  }

  lemma MaskKeeps(f: Frame, precision: real, name: string, eps: real, p: nat)
    requires ValidFrame(f) && name in Known(f) && p < |f.index|
    requires name in CHANGING ==> IsThreshold(Series(f, name), precision, eps)
    ensures |Mask(f, precision, name)| == |f.index|
    ensures Mask(f, precision, name)[p] <==> KeepsItself(f, name, eps, p)
  {
    hide IsKept, TestOf, ChangesAt, IsThreshold, DropTest;
    if name in CHANGING { TestIs(f, precision, name, eps); }
  }

  /** The table with its gaps: each row shows a metric's measurement exactly if the metric keeps
      that position itself, and every position that it keeps has a row. */
  lemma SkippedTable(f: Frame, precision: real, name: string, eps: real)
    requires ValidFrame(f) && |f.index| > 2 && name in Known(f)
    requires name in CHANGING ==> IsThreshold(Series(f, name), precision, eps)
    ensures var u, out := Union(f, precision), CompressPrmonOutput(f, precision, true);
            && out.Success? && |out.value.index| == |u| && out.value.columns.Keys == Known(f)
            && |out.value.columns[name]| == |u|
            && (forall k :: 0 <= k < |u| ==>
                 out.value.index[k] == f.index[u[k]] &&
                 out.value.columns[name][k] ==
                 if KeepsItself(f, name, eps, u[k]) then Some(f.columns[name][u[k]]) else None)
            && forall p: nat :: p < |f.index| && KeepsItself(f, name, eps, p) ==> p in u
  {
    hide Mask, IsKept, TestOf, ChangesAt, KeepsItself, Fill, InUnion, IsThreshold;
    var u := Union(f, precision);
    MaskCovered(f, precision, name);
    forall p: nat | p < |f.index| ensures Mask(f, precision, name)[p] <==> KeepsItself(f, name, eps, p) {
      MaskKeeps(f, precision, name, eps, p);
    }
    hide Union;
    var out := CompressPrmonOutput(f, precision, true).value;
    assert out.index == UnionTimes(f, u);
    assert out.columns[name] == Sparse(f.columns[name], Mask(f, precision, name), u);
  }

  /** A frame of at most two rows comes back as it is, columns that are no metrics included. */
  lemma ShortFrameUnchanged(f: Frame, precision: real, skip: bool)
    requires ValidFrame(f) && |f.index| <= 2
    ensures var out := CompressPrmonOutput(f, precision, skip);
            && out.Success? && out.value.index == f.index && out.value.columns.Keys == f.columns.Keys
            && forall name :: name in f.columns ==>
                 |out.value.columns[name]| == |f.index| &&
                 forall i :: 0 <= i < |f.index| ==> out.value.columns[name][i] == Some(f.columns[name][i])
  {
  }

  /** There is nothing to concatenate exactly for a longer frame without any metric. */
  lemma FailsIff(f: Frame, precision: real, skip: bool)
    requires ValidFrame(f)
    ensures CompressPrmonOutput(f, precision, skip).Failure? <==>
            |f.index| > 2 && forall name :: name in f.columns ==> name !in CHANGING && name !in STEADY
  {
    hide CHANGING, STEADY, Mask, Fill, Union, UnionTimes, Sparse;
    forall name ensures name in Known(f) <==> name in f.columns && (name in CHANGING || name in STEADY) {
      KnownIff(f, name);
    }
    hide Known;
    if Known(f) != {} {
      var name :| name in Known(f);
    }
  }

  /** A position has a row exactly if some metric keeps it. */
  lemma IndexIff(f: Frame, precision: real, p: nat)
    requires ValidFrame(f) && p < |f.index|
    ensures p in Union(f, precision) <==>
            exists name, eps ::
              name in Known(f) && (name in CHANGING ==> IsThreshold(Series(f, name), precision, eps)) &&
              KeepsItself(f, name, eps, p)
  {
    hide CHANGING, STEADY, IsThreshold, KeepsItself, Threshold, IsKept, ChangesAt, TestOf;
    if p in Union(f, precision) {
      var name :| name in Known(f) && Mask(f, precision, name)[p];
      var eps := Threshold(Series(f, name), precision);
      ThresholdIsUnique(Series(f, name), precision, eps);
      MaskKeeps(f, precision, name, eps, p);
    }
    if name, eps :| name in Known(f) && (name in CHANGING ==> IsThreshold(Series(f, name), precision, eps)) &&
                    KeepsItself(f, name, eps, p)
    {
      MaskKeeps(f, precision, name, eps, p);
    }
  }

  /** The filled table seen by its reader. Against the original: an entry at a position the
      metric kept is off by at most 1/2, and by nothing if the measurement is an integer; any other
      entry is off by less than the number of positions to the next kept one times the threshold,
      plus 1/2. */
  lemma TableErrorBound(f: Frame, precision: real, name: string, k: nat, eps: real)
    requires ValidFrame(f) && |f.index| > 2 && name in Present(f, CHANGING) && k < |Union(f, precision)|
    requires IsThreshold(Series(f, name), precision, eps)
    ensures var s, j := Series(f, name), Union(f, precision)[k];
            var drop := DropTest(s, eps);
            var out := CompressPrmonOutput(f, precision, false);
            && out.Success? && name in out.value.columns && k < |out.value.columns[name]|
            && var entry := out.value.columns[name][k];
               entry.Some? &&
               if IsKept(drop, |s|, j)
               then Abs(entry.value - s[j].y) <= 0.5 && (s[j].y.Floor as real == s[j].y ==> entry.value == s[j].y)
               else Abs(entry.value - s[j].y) < eps * (NextKept(drop, |s|, j) - j) as real + 0.5
  {
    hide Round, Rebuilt, IsThreshold, CompressPrmonOutput, Union, IsKept, Abs;
    FilledTable(f, precision, name, k, eps);
    EntryBound(Series(f, name), eps, Union(f, precision)[k]);
  }

  /** What a row of the filled table shows of a metric, at the original position `j`. */
  function Entry(f: Frame, precision: real, name: string, j: nat): int
    requires ValidFrame(f) && name in f.columns && j < |f.index|
  {
    Round(if name in CHANGING then Rebuilt(Series(f, name), TestOf(f, precision, name), j)
          else f.columns[name][j])
  }

  lemma EntriesRise(f: Frame, precision: real, name: string, i: nat, j: nat)
    requires ValidFrame(f) && name in f.columns && i <= j < |f.index| && Rising(Series(f, name))
    ensures Entry(f, precision, name, i) <= Entry(f, precision, name, j)
  {
    hide Round, Rebuilt, TestOf;
    var s := Series(f, name);
    if name in CHANGING {
      RebuiltRises(s, TestOf(f, precision, name), i, j);
    } else {
      assert s[i].y <= s[j].y;
      RoundKeepsOrder(s[i].y, s[j].y);
    }
  }

  lemma TableShowsEntries(f: Frame, precision: real, name: string, k: nat)
    requires ValidFrame(f) && |f.index| > 2 && name in Known(f) && k < |Union(f, precision)|
    ensures var u, out := Union(f, precision), CompressPrmonOutput(f, precision, false);
            && out.Success? && name in out.value.columns && |out.value.columns[name]| == |u|
            && out.value.columns[name][k] == Some(Entry(f, precision, name, u[k]) as real)
  {
    hide Round, Rebuilt, TestOf, CompressPrmonOutput, IsThreshold, Threshold, DropTest;
    var eps := Threshold(Series(f, name), precision);
    ThresholdIsUnique(Series(f, name), precision, eps);
    TestIs(f, precision, name, eps);
    FilledTable(f, precision, name, k, eps);
  }

  lemma UnionRises(f: Frame, precision: real, k: nat, l: nat)
    requires ValidFrame(f) && k <= l < |Union(f, precision)|
    ensures Union(f, precision)[k] <= Union(f, precision)[l] < |f.index|
  {
  }

  /** A metric whose measurements never fall never falls in the table. */
  lemma TableKeepsOrder(f: Frame, precision: real, name: string, k: nat, l: nat)
    requires ValidFrame(f) && |f.index| > 2 && name in Known(f) && k <= l < |Union(f, precision)|
    requires Rising(Series(f, name))
    ensures var out := CompressPrmonOutput(f, precision, false);
            && out.Success? && name in out.value.columns && l < |out.value.columns[name]|
            && var col := out.value.columns[name];
               col[k].Some? && col[l].Some? && col[k].value <= col[l].value
  {
    hide Entry, CompressPrmonOutput, Union, Rising, CHANGING, STEADY;
    var u := Union(f, precision);
    TableShowsEntries(f, precision, name, k);
    TableShowsEntries(f, precision, name, l);
    UnionRises(f, precision, k, l);
    EntriesRise(f, precision, name, u[k], u[l]);
  }
}
