/** When the compressed series meets the documented rule: of any three neighbouring
    measurements the middle one is not consistent with the line between the outer two, and what
    was dropped is consistent with the line between its neighbours. */
module CompressorStability {
  import opened Compressor
  import opened CompressorBounds
  import opened CompressorScaling

  /** The compressed series. */
  function Compressed(s: seq<Point>, eps: real): seq<Point>
    requires TimeOrdered(s)
  {
    Select(s, Kept(DropTest(s, eps), |s|))
  }

  ghost predicate Rises(ps: seq<nat>) {
    forall i, j :: 0 <= i < j < |ps| ==> ps[i] < ps[j]
  }

  lemma IndexOrder(ps: seq<nat>, i: nat, j: nat)
    requires Rises(ps) && i < |ps| && j < |ps|
    ensures ps[i] < ps[j] <==> i < j
  {
  }

  /** A rising list that has `a` and `b` but nothing between them has them side by side. */
  lemma SideBySide(ps: seq<nat>, a: nat, b: nat, i: nat)
    requires Rises(ps) && a in ps && i < |ps| && ps[i] == b && a < b
    requires forall x: nat :: a < x < b ==> x !in ps
    ensures i > 0 && ps[i - 1] == a
  {
    var k :| 0 <= k < |ps| && ps[k] == a;
    IndexOrder(ps, k, i);
    IndexOrder(ps, k, i - 1);
    IndexOrder(ps, i - 1, i);
    assert ps[i - 1] in ps;
  }

  /** The neighbours of an output position are, in the original, the last one kept before it
      and the first one kept after it. */
  lemma OutputNeighbours(drop: Test, n: nat, i: nat)
    requires var ks := Kept(drop, n); 0 < i < |ks| - 1
    ensures var ks := Kept(drop, n);
            && 0 < ks[i] < n - 1 && IsKept(drop, n, ks[i])
            && ks[i - 1] == Anchor(drop, ks[i]) && ks[i + 1] == NextKept(drop, n, ks[i] + 1)
  {
    var ks := Kept(drop, n);
    assert ks[i] in ks && ks[i + 1] in ks;
    IndexOrder(ks, 0, i);
    IndexOrder(ks, i, i + 1);
    var b := ks[i];
    var a, c := Anchor(drop, b), NextKept(drop, n, b + 1);
    AnchorIsLastKept(drop, n, b);
    hide Anchor, NextKept, Kept;
    SideBySide(ks, a, b, i);
    var j :| 0 <= j < |ks| && ks[j] == c;
    SideBySide(ks, b, c, j);
    IndexOrder(ks, j - 1, i);
    IndexOrder(ks, i, j - 1);
  }

  lemma EndsKept(drop: Test, n: nat)
    requires n >= 2
    ensures var ks := Kept(drop, n); |ks| >= 2 && ks[0] == 0 && ks[|ks| - 1] == n - 1
  {
    var ks := Kept(drop, n);
    assert IsKept(drop, n, 0) && IsKept(drop, n, n - 1);
    var i :| 0 <= i < |ks| && ks[i] == 0;
    var j :| 0 <= j < |ks| && ks[j] == n - 1;
    hide Kept;
    assert ks[|ks| - 1] in ks;
    IndexOrder(ks, 0, i);
    IndexOrder(ks, j, |ks| - 1);
  }

  /** Every inner kept position is an inner position of the output. */
  lemma OutputIndex(drop: Test, n: nat, b: nat) returns (i: nat)
    requires 0 < b < n - 1 && IsKept(drop, n, b)
    ensures 0 < i < |Kept(drop, n)| - 1 && Kept(drop, n)[i] == b
  {
    var ks := Kept(drop, n);
    EndsKept(drop, n);
    assert b in ks;
    i :| 0 <= i < |ks| && ks[i] == b;
  }

  lemma SelectedInOrder(s: seq<Point>, ps: seq<nat>)
    requires TimeOrdered(s) && Rises(ps) && forall i :: 0 <= i < |ps| ==> ps[i] < |s|
    ensures TimeOrdered(Select(s, ps))
  {
  }

  lemma KeptRises(drop: Test, n: nat)
    ensures Rises(Kept(drop, n)) && forall i :: 0 <= i < |Kept(drop, n)| ==> Kept(drop, n)[i] < n
  {
  }

  /** `b` is kept, yet lies within `eps` of the line between its kept neighbours. */
  predicate Droppable(s: seq<Point>, drop: Test, eps: real, b: nat)
    requires TimeOrdered(s) && 0 < b < |s| - 1
  {
    IsKept(drop, |s|, b) && InterpDrop(s[Anchor(drop, b)], s[b], s[NextKept(drop, |s|, b + 1)], eps)
  }

  /** Three neighbours of the output pass the test if and only if the original says so. */
  lemma OutputTriple(s: seq<Point>, drop: Test, eps: real, i: nat)
    requires TimeOrdered(s) && var ks := Kept(drop, |s|); 0 < i < |ks| - 1
    ensures var ks := Kept(drop, |s|);
            && TimeOrdered(Select(s, ks)) && 0 < ks[i] < |s| - 1
            && (Flanked(DropTest(Select(s, ks), eps), i) <==> Droppable(s, drop, eps, ks[i]))
  {
    hide InterpDrop, Anchor, NextKept, IsKept, Kept;
    var ks := Kept(drop, |s|);
    KeptRises(drop, |s|);
    SelectedInOrder(s, ks);
    OutputNeighbours(drop, |s|, i);
  }

  /** The documented rule, for any three neighbours of a series. */
  ghost predicate MeetsRule(r: seq<Point>, eps: real)
    requires TimeOrdered(r)
  {
    forall i :: 0 < i < |r| - 1 ==> !Flanked(DropTest(r, eps), i)
  }

  ghost predicate NothingDroppable(s: seq<Point>, drop: Test, eps: real)
    requires TimeOrdered(s)
  {
    forall b: nat :: 0 < b < |s| - 1 ==> !Droppable(s, drop, eps, b)
  }

  /** The output of a pass meets the rule for a threshold exactly if no kept inner position
      of the original is within it of the line between its kept neighbours. */
  lemma OutputRule(s: seq<Point>, drop: Test, eps: real)
    requires TimeOrdered(s)
    ensures var r := Select(s, Kept(drop, |s|));
            TimeOrdered(r) && (MeetsRule(r, eps) <==> NothingDroppable(s, drop, eps))
  {
    hide Kept, DropTest, Droppable, IsKept, Flanked;
    var ks := Kept(drop, |s|);
    KeptRises(drop, |s|);
    SelectedInOrder(s, ks);
    var r := Select(s, ks);
    if MeetsRule(r, eps) {
      forall b: nat | 0 < b < |s| - 1 ensures !Droppable(s, drop, eps, b) {
        if Droppable(s, drop, eps, b) {
          DroppableIsKept(s, drop, eps, b);
          var i := OutputIndex(drop, |s|, b);
          OutputTriple(s, drop, eps, i);
        }
      }
    }
    if NothingDroppable(s, drop, eps) {
      forall i | 0 < i < |r| - 1 ensures !Flanked(DropTest(r, eps), i) {
        OutputTriple(s, drop, eps, i);
      }
    }
  }

  lemma DroppableIsKept(s: seq<Point>, drop: Test, eps: real, b: nat)
    requires TimeOrdered(s) && 0 < b < |s| - 1 && Droppable(s, drop, eps, b)
    ensures IsKept(drop, |s|, b)
  {
  }

  /** A kept position whose successor was kept too was judged against that very successor. */
  lemma KeptBesideKept(s: seq<Point>, eps: real, b: nat)
    requires TimeOrdered(s) && 0 < b < |s| - 1
    ensures Droppable(s, DropTest(s, eps), eps, b) ==> !IsKept(DropTest(s, eps), |s|, b + 1)
  {
  }

  /** When the compressed series meets the documented rule: exactly if no kept position
      whose original successor was dropped is consistent with the line from the position kept
      before it to the next one kept after it. */
  lemma MeetsRuleIff(s: seq<Point>, eps: real)
    requires TimeOrdered(s)
    ensures TimeOrdered(Compressed(s, eps))
    ensures var drop := DropTest(s, eps);
            MeetsRule(Compressed(s, eps), eps) <==>
            forall b: nat :: 0 < b < |s| - 1 && IsKept(drop, |s|, b) && !IsKept(drop, |s|, b + 1) ==>
              !InterpDrop(s[Anchor(drop, b)], s[b], s[NextKept(drop, |s|, b + 1)], eps)
  {
    hide DropTest, InterpDrop, Anchor, NextKept, IsKept, Kept, MeetsRule;
    var drop := DropTest(s, eps);
    OutputRule(s, drop, eps);
    forall b: nat | 0 < b < |s| - 1 ensures Droppable(s, drop, eps, b) ==> !IsKept(drop, |s|, b + 1) {
      KeptBesideKept(s, eps, b);
    }
    DroppableMeans(s, drop, eps);
  }

  lemma DroppableMeans(s: seq<Point>, drop: Test, eps: real)
    requires TimeOrdered(s)
    requires forall b: nat :: 0 < b < |s| - 1 && Droppable(s, drop, eps, b) ==> !IsKept(drop, |s|, b + 1)
    ensures NothingDroppable(s, drop, eps) <==>
            forall b: nat :: 0 < b < |s| - 1 && IsKept(drop, |s|, b) && !IsKept(drop, |s|, b + 1) ==>
              !InterpDrop(s[Anchor(drop, b)], s[b], s[NextKept(drop, |s|, b + 1)], eps)
  {
    hide InterpDrop, Anchor, NextKept, IsKept;
    if NothingDroppable(s, drop, eps) {
      forall b: nat | 0 < b < |s| - 1 && IsKept(drop, |s|, b) && !IsKept(drop, |s|, b + 1)
        ensures !InterpDrop(s[Anchor(drop, b)], s[b], s[NextKept(drop, |s|, b + 1)], eps)
      {
        assert !Droppable(s, drop, eps, b);
      }
    }
  }

  // Compressing twice.

  lemma {:induction false} AllKeptPrefix(drop: Test, n: nat, b: nat)
    requires b <= n
    ensures |KeptBelow(drop, n, b)| <= b
    ensures |KeptBelow(drop, n, b)| == b <==> forall i: nat :: i < b ==> IsKept(drop, n, i)
    ensures |KeptBelow(drop, n, b)| == b ==> forall i :: 0 <= i < b ==> KeptBelow(drop, n, b)[i] == i
  {
    hide IsKept;
    if b > 0 {
      AllKeptPrefix(drop, n, b - 1);
    }
  }

  /** A pass with any threshold changes nothing exactly if its input meets the rule for it. */
  lemma UnchangedIffRule(r: seq<Point>, eps: real)
    requires TimeOrdered(r)
    ensures Compressed(r, eps) == r <==> MeetsRule(r, eps)
  {
    var drop := DropTest(r, eps);
    hide DropTest, IsKept, KeptBelow;
    KeptWholeIffSettled(drop, |r|);
    AllKeptPrefix(drop, |r|, |r|);
    if |Kept(drop, |r|)| == |r| {
      assert Compressed(r, eps) == r;
    } else {
      assert |Compressed(r, eps)| != |r|;
    }
  }

  /** Compressing a compressed series again, at any threshold and in particular at the same
      one, changes nothing exactly if no kept inner position of the original lies within that
      threshold of the line between its kept neighbours. */
  lemma SecondPassIdleIff(s: seq<Point>, eps: real, eps': real)
    requires TimeOrdered(s)
    ensures TimeOrdered(Compressed(s, eps))
    ensures Compressed(Compressed(s, eps), eps') == Compressed(s, eps) <==>
            NothingDroppable(s, DropTest(s, eps), eps')
  {
    hide Kept, Select, DropTest, MeetsRule, NothingDroppable;
    var drop := DropTest(s, eps);
    OutputRule(s, drop, eps');
    var r := Compressed(s, eps);
    UnchangedIffRule(r, eps');
  }

  lemma CompressedEnds(s: seq<Point>, eps: real)
    requires TimeOrdered(s) && |s| >= 2
    ensures |Compressed(s, eps)| >= 2
    ensures forall i :: 0 <= i < |Compressed(s, eps)| ==> Compressed(s, eps)[i] in s
  {
    EndsKept(DropTest(s, eps), |s|);
  }

  lemma ScaleOrder(x: real, y: real, p: real)
    requires x <= y && p >= 0.0
    ensures x * p <= y * p
  {
  }

  /** The script computes its threshold anew from what is left, which is never more. */
  lemma ThresholdShrinks(s: seq<Point>, eps: real, precision: real)
    requires TimeOrdered(s) && |s| >= 2 && precision >= 0.0
    ensures var r := Compressed(s, eps); |r| >= 2 && Threshold(r, precision) <= Threshold(s, precision)
  {
    hide Compressed, MinY, MaxY;
    var r := Compressed(s, eps);
    CompressedEnds(s, eps);
    RangeShrinks(r, s);
    ScaleOrder(MaxY(r) - MinY(r), MaxY(s) - MinY(s), precision);
  }

  lemma ValueInRange(p: Point, s: seq<Point>)
    requires p in s
    ensures MinY(s) <= p.y <= MaxY(s)
  {
    hide MinY, MaxY;
    var i :| 0 <= i < |s| && s[i] == p;
    InRange(s, i);
  }

  lemma RangeShrinks(r: seq<Point>, s: seq<Point>)
    requires r != [] && s != [] && forall i :: 0 <= i < |r| ==> r[i] in s
    ensures MaxY(r) - MinY(r) <= MaxY(s) - MinY(s)
  {
    hide MinY, MaxY;
    var lo, hi := Extremes(r);
    ValueInRange(r[lo], s);
    ValueInRange(r[hi], s);
  }

  lemma RuleForLess(r: seq<Point>, eps: real, eps': real)
    requires TimeOrdered(r) && eps' <= eps && MeetsRule(r, eps)
    ensures MeetsRule(r, eps')
  {
    hide Line;
    forall i | 0 < i < |r| - 1 ensures !Flanked(DropTest(r, eps'), i) {
      assert !Flanked(DropTest(r, eps), i);
    }
  }

  /** If the reduced series of a metric meets the documented rule, reducing it again, with the
      same precision and a threshold computed anew from it, changes nothing. */
  lemma RuleMakesIdempotent(s: seq<Point>, precision: real)
    requires TimeOrdered(s) && |s| >= 2 && precision >= 0.0
    ensures var eps := Threshold(s, precision);
            var r := Compressed(s, eps);
            r != [] && TimeOrdered(r) && (MeetsRule(r, eps) ==> Compressed(r, Threshold(r, precision)) == r)
  {
    hide Compressed, Threshold, MeetsRule;
    var eps := Threshold(s, precision);
    var r := Compressed(s, eps);
    MeetsRuleIff(s, eps);
    ThresholdShrinks(s, eps, precision);
    if MeetsRule(r, eps) {
      RuleForLess(r, eps, Threshold(r, precision));
      UnchangedIffRule(r, Threshold(r, precision));
    }
  }

  // Conditions on the input alone.

  /** Looking further ahead never brings a point nearer to the line. */
  ghost predicate FartherIsNoNearer(s: seq<Point>, eps: real)
    requires TimeOrdered(s)
  {
    forall a, b, c :: 0 <= a < b < c < |s| && InterpDrop(s[a], s[b], s[c], eps) ==>
      InterpDrop(s[a], s[b], s[b + 1], eps)
  }

  lemma NoNearerMeetsRule(s: seq<Point>, eps: real)
    requires TimeOrdered(s) && FartherIsNoNearer(s, eps)
    ensures TimeOrdered(Compressed(s, eps)) && MeetsRule(Compressed(s, eps), eps)
  {
    hide InterpDrop, MeetsRule, NextKept, Kept, Select;
    MeetsRuleIff(s, eps);
  }

  /** No point is above a line between two others around it, or none is below one. */
  ghost predicate BendsOneWay(s: seq<Point>, up: bool)
    requires TimeOrdered(s)
  {
    forall a, b, c :: 0 <= a < b < c < |s| ==> OnSide(Line(s[a], s[c], s[b].t), s[b].y, up)
  }

  predicate OnSide(line: real, y: real, up: bool) {
    if up then y <= line else line <= y
  }

  lemma SlopeOrder(u: real, v: real, near: real, far: real)
    requires near > 0.0 && far > 0.0 && u * far <= v * far
    ensures u * near <= v * near
  {
    var d := v - u;
    assert d * far >= 0.0;
    assert d >= 0.0;
    assert d * near >= 0.0;
  }

  /** If `m` is not above the line from `a` to `c`, the line to `m` runs no higher. */
  lemma NearerLine(a: Point, m: Point, c: Point, t: real, up: bool)
    requires a.t < t < m.t < c.t && OnSide(Line(a, c, m.t), m.y, up)
    ensures OnSide(Line(a, c, t), Line(a, m, t), up)
  {
    var u, v := (m.y - a.y) / (m.t - a.t), (c.y - a.y) / (c.t - a.t);
    var near, far := t - a.t, m.t - a.t;
    DivideCancels(m.y - a.y, far);
    assert m.y == a.y + u * far && Line(a, c, m.t) == a.y + v * far;
    assert Line(a, m, t) == a.y + u * near && Line(a, c, t) == a.y + v * near;
    hide Line;
    if up {
      SlopeOrder(u, v, near, far);
    } else {
      SlopeOrder(v, u, near, far);
    }
  }

  /** A series that bends one way only, like one whose rate never falls or never rises, is
      compressed to one that meets the documented rule. */
  lemma OneWayMeetsRule(s: seq<Point>, eps: real, up: bool)
    requires TimeOrdered(s) && BendsOneWay(s, up)
    ensures TimeOrdered(Compressed(s, eps)) && MeetsRule(Compressed(s, eps), eps)
  {
    hide Line, MeetsRule, Compressed;
    forall a, b, c | 0 <= a < b < c < |s| && InterpDrop(s[a], s[b], s[c], eps)
      ensures InterpDrop(s[a], s[b], s[b + 1], eps)
    {
      if b + 1 < c {
        assert OnSide(Line(s[a], s[b + 1], s[b].t), s[b].y, up);
        NearerLine(s[a], s[b + 1], s[c], s[b].t, up);
      }
    }
    NoNearerMeetsRule(s, eps);
  }

  // What was dropped.

  /** A dropped position is rebuilt on the line between its kept neighbours within `eps`. */
  ghost predicate RebuiltWithin(s: seq<Point>, eps: real, j: nat)
    requires TimeOrdered(s) && j < |s| && !IsKept(DropTest(s, eps), |s|, j)
  {
    var drop := DropTest(s, eps);
    RebuildError(s, Anchor(drop, j), j, NextKept(drop, |s|, j)) < eps
  }

  /** Next to a kept successor the test itself was the one against the kept neighbours. */
  lemma DroppedBesideKept(s: seq<Point>, eps: real, j: nat)
    requires TimeOrdered(s) && j + 1 < |s|
    requires !IsKept(DropTest(s, eps), |s|, j) && IsKept(DropTest(s, eps), |s|, j + 1)
    ensures RebuiltWithin(s, eps, j)
  {
    var drop := DropTest(s, eps);
    assert NextKept(drop, |s|, j) == j + 1;
    TestIsError(s, eps, Anchor(drop, j), j);
  }

  /** Every dropped measurement is within the threshold of the compressed series exactly if those
      are that were dropped together with their successor. */
  lemma DroppedWithinIff(s: seq<Point>, eps: real)
    requires TimeOrdered(s)
    ensures var drop := DropTest(s, eps);
            (forall j: nat :: j < |s| && !IsKept(drop, |s|, j) ==> RebuiltWithin(s, eps, j)) <==>
            (forall j: nat :: j + 1 < |s| && !IsKept(drop, |s|, j) && !IsKept(drop, |s|, j + 1) ==>
               RebuiltWithin(s, eps, j))
  {
    hide RebuiltWithin, DropTest;
    var drop := DropTest(s, eps);
    if forall j: nat :: j + 1 < |s| && !IsKept(drop, |s|, j) && !IsKept(drop, |s|, j + 1) ==> RebuiltWithin(s, eps, j) {
      forall j: nat | j < |s| && !IsKept(drop, |s|, j) ensures RebuiltWithin(s, eps, j) {
        if IsKept(drop, |s|, j + 1) { DroppedBesideKept(s, eps, j); }
      }
    }
  }

  /** Looking further ahead never takes a point out of the threshold. */
  ghost predicate FartherIsNoFarther(s: seq<Point>, eps: real)
    requires TimeOrdered(s)
  {
    forall a, b, c :: 0 <= a < b < c < |s| && RebuildError(s, a, b, b + 1) < eps ==> RebuildError(s, a, b, c) < eps
  }

  /** A condition on the input alone under which everything dropped is within the threshold. */
  lemma NoFartherDroppedWithin(s: seq<Point>, eps: real, j: nat)
    requires TimeOrdered(s) && FartherIsNoFarther(s, eps)
    requires j < |s| && !IsKept(DropTest(s, eps), |s|, j)
    ensures RebuiltWithin(s, eps, j)
  {
    hide RebuildError, DropTest;
    var drop := DropTest(s, eps);
    DroppedRun(drop, |s|, j);
    TestIsError(s, eps, Anchor(drop, j), j);
  }
}
