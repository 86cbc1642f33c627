/** `wallmon`: the start time of the job becomes the offset of the uptime metric. */
module Wallclock {
  import opened Wrappers
  import opened MonitoredValue

  /** One polling cycle: the monitored processes, the first one's start time in clock ticks
      and the uptime in whole seconds, where they could be read. */
  datatype Update = Update(pids: seq<nat>, start: Option<U64>, uptime: Option<U64>)

  datatype Clock = Clock(gotMotherStarttime: bool, wtime: Reading)

  const STOPPED := Clock(false, Fresh(true, 0))

  function Next(c: Clock, ticks: nat, u: Update): Clock
    requires ticks > 0
  {
    if !c.gotMotherStarttime && u.pids != [] then
      if u.start.None? then c
      else Push(Clock(true, c.wtime.(offset := u.start.value / ticks)), u)
    else Push(c, u)
  }

  function Push(c: Clock, u: Update): Clock {
    if u.uptime.None? then c else c.(wtime := After(c.wtime, u.uptime.value))
  }

  class Wallmon {
    const ticks: nat
    const wtime: Value
    var gotMotherStarttime: bool

    function Now(): Clock
      reads this, wtime
    {
      Clock(gotMotherStarttime, wtime.Read())
    }

    constructor (ticks: nat)
      ensures this.ticks == ticks && fresh(wtime) && Now() == STOPPED
    {
      this.ticks := ticks;
      wtime := new Value(true, 0);
      gotMotherStarttime := false;
    }

    method UpdateStats(u: Update)
      requires ticks > 0
      modifies this, wtime
      ensures Now() == Next(old(Now()), ticks, u)
    {
      if !gotMotherStarttime && |u.pids| > 0 {
        if u.start.None? {
          return;
        } else {
          gotMotherStarttime := true;
          var _ := wtime.SetOffset(u.start.value / ticks);
        }
      }
      if u.uptime.None? { return; }
      var _ := wtime.SetValue(u.uptime.value);
    }

    /** Never zero, so that averages can be divided by it. */
    function GetWallclockT(): (t: U64)
      reads this, wtime
      ensures t > 0 && (Now().wtime.value > 0 ==> t == Now().wtime.value) && (Now().wtime.value == 0 ==> t == 1)
    {
      if wtime.Read().value > 0 then wtime.Read().value else 1
    }
  }

  // Whole runs.

  function Run(ticks: nat, us: seq<Update>): Clock
    requires ticks > 0
  {
    if us == [] then STOPPED else Next(Run(ticks, us[..|us| - 1]), ticks, us[|us| - 1])
  }

  /** The offset, once set, stays. */
  lemma {:induction false} OffsetIsSetOnce(ticks: nat, us: seq<Update>, k: nat)
    requires ticks > 0 && k <= |us| && Run(ticks, us[..k]).gotMotherStarttime
    ensures Run(ticks, us).gotMotherStarttime
    ensures Run(ticks, us).wtime.offset == Run(ticks, us[..k]).wtime.offset
  {
    if k == |us| {
      assert us[..k] == us;
    } else {
      var n := |us| - 1;
      assert us[..n][..k] == us[..k];
      OffsetIsSetOnce(ticks, us[..n], k);
    }
  }

  /** A cycle that records an uptime although no process, hence no start time, is known. */
  predicate Early(u: Update) {
    u.pids == [] && u.uptime.Some? && u.uptime.value > 0
  }

  ghost predicate Untouched(ticks: nat, us: seq<Update>, k: nat)
    requires ticks > 0 && k <= |us|
  {
    var c := Run(ticks, us[..k]);
    !c.gotMotherStarttime ==> c.wtime == Fresh(true, 0)
  }

  /** Some update before `k` has processes and a start time that could be read. */
  predicate Known(us: seq<Update>, k: nat)
    requires k <= |us|
  {
    exists j :: 0 <= j < k && us[j].pids != [] && us[j].start.Some?
  }

  lemma {:induction false} StartedIffKnown(ticks: nat, us: seq<Update>, k: nat)
    requires ticks > 0 && k <= |us|
    ensures Run(ticks, us[..k]).gotMotherStarttime <==> Known(us, k)
  {
    if k > 0 {
      StartedIffKnown(ticks, us, k - 1);
      assert us[..k][..k - 1] == us[..k - 1];
    }
  }

  /** An early cycle while the start time is unknown. */
  predicate EarlyAt(us: seq<Update>, k: nat)
    requires k < |us|
  {
    Early(us[k]) && !Known(us, k)
  }

  lemma TouchedByEarly(c: Clock, ticks: nat, u: Update)
    requires ticks > 0 && !c.gotMotherStarttime && c.wtime == Fresh(true, 0)
    ensures var c' := Next(c, ticks, u);
            !c'.gotMotherStarttime ==> (c'.wtime == Fresh(true, 0) <==> !Early(u))
    ensures Early(u) ==> !Next(c, ticks, u).gotMotherStarttime
  {
  }

  lemma {:induction false} UntouchedUntilEarly(ticks: nat, us: seq<Update>, k: nat)
    requires ticks > 0 && k <= |us| && forall j :: 0 <= j < k ==> !EarlyAt(us, j)
    ensures Untouched(ticks, us, k)
  {
    if k > 0 {
      UntouchedUntilEarly(ticks, us, k - 1);
      assert us[..k][..k - 1] == us[..k - 1];
      assert !EarlyAt(us, k - 1);
      StartedIffKnown(ticks, us, k - 1);
      var c := Run(ticks, us[..k - 1]);
      if !c.gotMotherStarttime {
        TouchedByEarly(c, ticks, us[k - 1]);
      }
    }
  }

  /** The offset is set before any value exactly if no cycle records an uptime with an empty
      process list while the start time is still unknown. */
  lemma OffsetFirstIffNeverEarly(ticks: nat, us: seq<Update>)
    requires ticks > 0
    ensures (forall k :: 0 <= k <= |us| ==> Untouched(ticks, us, k)) <==>
            (forall k :: 0 <= k < |us| ==> !EarlyAt(us, k))
  {
    if forall k :: 0 <= k < |us| ==> !EarlyAt(us, k) {
      forall k | 0 <= k <= |us| ensures Untouched(ticks, us, k) {
        UntouchedUntilEarly(ticks, us, k);
      }
    }
    if k :| 0 <= k < |us| && EarlyAt(us, k) {
      StartedIffKnown(ticks, us, k);
      if Untouched(ticks, us, k) {
        TouchedByEarly(Run(ticks, us[..k]), ticks, us[k]);
        assert us[..k + 1][..k] == us[..k];
        assert !Untouched(ticks, us, k + 1);
      }
    }
  }

  /** Otherwise the clock can stick: after one early cycle at uptime 1000, a job started at
      second 990 shows 1000 seconds at uptime 1005, and no reading up to 1989 changes that. A
      cycle can be early only where `pstree` lists the processes, as the walk over the `children`
      files always lists the mother. */
  lemma EarlyCycleSticks(uptime: U64)
    requires uptime < 1990
    ensures var us := [Update([], None, Some(1000)), Update([7], Some(99000), Some(1005)),
                       Update([7], None, Some(uptime))];
            Run(100, us).wtime.value == 1000 && Run(100, us).wtime.offset == 990
  {
    var us := [Update([], None, Some(1000)), Update([7], Some(99000), Some(1005)), Update([7], None, Some(uptime))];
    assert us[..2] == [us[0], us[1]] && us[..2][..1] == [us[0]] && us[..2][..1][..0] == [];
    assert Run(100, []) == STOPPED;
    assert Run(100, us[..2][..1]) == Clock(false, Fresh(true, 0).(value := 1000, peak := 1000));
    assert Run(100, us[..2]) == Clock(true, Fresh(true, 990).(value := 1000, peak := 1000));
  }

  /** The uptimes recorded since the start time is known. */
  function Recorded(us: seq<Update>): seq<U64>
  {
    if us == [] then []
    else
      var n := |us| - 1;
      Recorded(us[..n]) + if Known(us, n + 1) && us[n].uptime.Some? then [us[n].uptime.value] else []
  }

  lemma {:induction false} NothingRecorded(us: seq<Update>)
    requires !Known(us, |us|)
    ensures Recorded(us) == []
  {
    if us != [] {
      NothingRecorded(us[..|us| - 1]);
    }
  }

  /** The first update with processes and a readable start time. */
  predicate StartsAt(us: seq<Update>, j: nat) {
    j < |us| && us[j].pids != [] && us[j].start.Some? && !Known(us, j)
  }

  /** The offset is the start time that was read then, in whole seconds. */
  lemma {:induction false} OffsetIsStart(ticks: nat, us: seq<Update>, j: nat)
    requires ticks > 0 && StartsAt(us, j)
    ensures Run(ticks, us).gotMotherStarttime
    ensures Run(ticks, us).wtime.offset == us[j].start.value / ticks
  {
    var n := |us| - 1;
    var past := us[..n];
    if j < n {
      KnownIn(us, n, j);
      OffsetIsStart(ticks, past, j);
    } else {
      StartedIffKnown(ticks, us, n);
    }
  }

  lemma {:induction false} SomeStart(us: seq<Update>, k: nat) returns (j: nat)
    requires k <= |us| && Known(us, k)
    ensures j < k && StartsAt(us, j)
  {
    if Known(us, k - 1) {
      j := SomeStart(us, k - 1);
    } else {
      j := k - 1;
    }
  }

  /** Every run either has a first start time or none is known: the two cases below are all. */
  lemma KnownIffStarts(us: seq<Update>)
    ensures Known(us, |us|) <==> exists j :: StartsAt(us, j)
  {
    if Known(us, |us|) {
      var j := SomeStart(us, |us|);
    }
  }

  /** The uptimes recorded with an empty process list while no start time was known. */
  function EarlyOnes(us: seq<Update>): seq<U64> {
    if us == [] then []
    else
      var n := |us| - 1;
      EarlyOnes(us[..n]) +
      if !Known(us, n) && us[n].pids == [] && us[n].uptime.Some? then [us[n].uptime.value] else []
  }

  lemma KnownBefore(us: seq<Update>)
    requires us != []
    ensures Known(us[..|us| - 1], |us| - 1) == Known(us, |us| - 1)
    ensures Known(us, |us|) <==> Known(us, |us| - 1) || (us[|us| - 1].pids != [] && us[|us| - 1].start.Some?)
  {
    var n := |us| - 1;
    assert forall j :: 0 <= j < n ==> us[..n][j] == us[j];
    if j :| 0 <= j < n && us[j].pids != [] && us[j].start.Some? {
      assert us[..n][j].pids != [] && us[..n][j].start.Some?;
    }
  }

  /** Until a start time is known the clock shows the largest early uptime. */
  lemma {:induction false} ClockShowsEarly(ticks: nat, us: seq<Update>)
    requires ticks > 0 && !Known(us, |us|)
    ensures Run(ticks, us) == Clock(false, HighWater(EarlyOnes(us), 0))
  {
    hide HighWater;
    if us == [] {
      NothingHigh();
    } else {
      var n := |us| - 1;
      KnownBefore(us);
      hide Known;
      ClockShowsEarly(ticks, us[..n]);
      if us[n].pids == [] && us[n].uptime.Some? {
        HighWaterOne(EarlyOnes(us[..n]), us[n].uptime.value, 0);
      } else {
        assert EarlyOnes(us[..n]) + [] == EarlyOnes(us[..n]);
      }
    }
  }

  lemma NothingHigh()
    ensures HighWater([], 0) == Fresh(true, 0)
  {
  }

  /** Once a start time is known nothing is early any more. */
  lemma EarlyOver(us: seq<Update>)
    requires us != [] && Known(us, |us|)
    ensures EarlyOnes(us) == EarlyOnes(us[..|us| - 1])
  {
    KnownBefore(us);
    assert EarlyOnes(us[..|us| - 1]) + [] == EarlyOnes(us[..|us| - 1]);
  }

  lemma AboveOneMore(vs: seq<U64>, v: U64, offset: U64)
    ensures Above(vs + [v], offset) == if v >= offset then Above(vs, offset) + [v - offset] else Above(vs, offset)
  {
    assert (vs + [v])[..|vs|] == vs;
  }

  /** The first update that has a start time: early uptimes stay, and the offset is set. */
  lemma StartStep(ticks: nat, us: seq<Update>, start: U64)
    requires ticks > 0 && us != [] && StartsAt(us, |us| - 1) && start == us[|us| - 1].start.value / ticks
    ensures Run(ticks, us) == Clock(true, HighWater(EarlyOnes(us) + Above(Recorded(us), start), start))
  {
    var n := |us| - 1;
    var past, u := us[..n], us[n];
    KnownBefore(us);
    EarlyOver(us);
    ClockShowsEarly(ticks, past);
    NothingRecorded(past);
    var early := EarlyOnes(past);
    assert Recorded(us) == if u.uptime.Some? then [u.uptime.value] else [];
    assert Run(ticks, us) == Push(Clock(true, HighWater(early, start)), u);
    assert early + Above([], start) == early;
    RecordStep(early, [], u, start);
  }

  /** One more uptime, or none, on top of early and recorded ones. */
  lemma RecordStep(early: seq<U64>, vs: seq<U64>, u: Update, start: U64)
    ensures var more := if u.uptime.Some? then [u.uptime.value] else [];
            Push(Clock(true, HighWater(early + Above(vs, start), start)), u) ==
            Clock(true, HighWater(early + Above(vs + more, start), start))
  {
    hide HighWater;
    if u.uptime.Some? {
      var v, xs := u.uptime.value, early + Above(vs, start);
      AboveOneMore(vs, v, start);
      HighWaterOne(xs, v, start);
      assert v >= start ==> xs + [v - start] == early + (Above(vs, start) + [v - start]);
    } else {
      assert vs + [] == vs;
    }
  }

  lemma {:induction false} ClockShowsAll(ticks: nat, us: seq<Update>, j: nat, start: U64)
    requires ticks > 0 && StartsAt(us, j) && start == us[j].start.value / ticks
    ensures Run(ticks, us) == Clock(true, HighWater(EarlyOnes(us) + Above(Recorded(us), start), start))
  {
    var n := |us| - 1;
    if j == n {
      StartStep(ticks, us, start);
    } else {
      var past, u := us[..n], us[n];
      KnownIn(us, n, j);
      assert Known(us, n) && Known(us, |us|);
      EarlyOver(us);
      ClockShowsAll(ticks, past, j, start);
      hide HighWater, Above, EarlyOnes;
      RecordStep(EarlyOnes(past), Recorded(past), u, start);
      assert Recorded(past) + [] == Recorded(past);
    }
  }

  lemma {:induction false} MaxOfBoth(xs: seq<U64>, ys: seq<U64>)
    ensures Max(xs + ys) == if Max(ys) > Max(xs) then Max(ys) else Max(xs)
  {
    if ys == [] {
      assert xs + ys == xs;
    } else {
      var n := |ys| - 1;
      MaxOfBoth(xs, ys[..n]);
      assert xs + ys == (xs + ys[..n]) + [ys[n]] && ys == ys[..n] + [ys[n]];
      Snoc(xs + ys[..n], ys[n]);
      Snoc(ys[..n], ys[n]);
    }
  }

  lemma {:induction false} EarlyOnesAreZero(us: seq<Update>)
    requires forall k :: 0 <= k < |us| ==> !EarlyAt(us, k)
    ensures Max(EarlyOnes(us)) == 0
  {
    if us != [] {
      var n := |us| - 1;
      forall k | 0 <= k < n ensures !EarlyAt(us[..n], k) {
        assert !EarlyAt(us, k) && (Known(us[..n], k) <==> Known(us, k)) by { KnownIn(us, n, k); }
      }
      EarlyOnesAreZero(us[..n]);
      assert !EarlyAt(us, n);
      if us[n].uptime.Some? { Snoc(EarlyOnes(us[..n]), us[n].uptime.value); }
      assert EarlyOnes(us[..n]) + [] == EarlyOnes(us[..n]);
    }
  }

  lemma KnownIn(us: seq<Update>, n: nat, k: nat)
    requires k <= n <= |us|
    ensures Known(us[..n], k) <==> Known(us, k)
  {
    assert forall j :: 0 <= j < k ==> us[..n][j] == us[j];
    if j :| 0 <= j < k && us[j].pids != [] && us[j].start.Some? {
      assert us[..n][j].pids != [] && us[..n][j].start.Some?;
    }
  }

  /** In any run whose start time was read, the clock shows the largest uptime recorded since, less
      that start time, unless an early uptime was larger still; it shows the elapsed time exactly if
      none was. Without an early cycle none is. */
  lemma ClockShowsElapsed(ticks: nat, us: seq<Update>, j: nat)
    requires ticks > 0 && StartsAt(us, j)
    ensures var start := us[j].start.value / ticks;
            var early, elapsed := Max(EarlyOnes(us)), Max(Above(Recorded(us), start));
            var shown := if elapsed > early then elapsed else early;
            && Run(ticks, us) == Clock(true, Reading(true, 0, shown, shown, 0, start))
            && (Run(ticks, us) == Clock(true, HighWater(Above(Recorded(us), start), start)) <==> early <= elapsed)
            && ((forall k :: 0 <= k < |us| ==> !EarlyAt(us, k)) ==> early == 0)
  {
    var start := us[j].start.value / ticks;
    ClockShowsAll(ticks, us, j, start);
    MaxOfBoth(EarlyOnes(us), Above(Recorded(us), start));
    if forall k :: 0 <= k < |us| ==> !EarlyAt(us, k) {
      EarlyOnesAreZero(us);
    }
    hide Max, EarlyOnes, Above, Recorded, Run;
  }

  /** Before that it shows the largest early uptime, without an early cycle nothing. */
  lemma ClockShowsNothing(ticks: nat, us: seq<Update>)
    requires ticks > 0 && !Known(us, |us|)
    ensures Run(ticks, us) == Clock(false, HighWater(EarlyOnes(us), 0))
    ensures Run(ticks, us) == STOPPED <==> Max(EarlyOnes(us)) == 0
    ensures (forall k :: 0 <= k < |us| ==> !EarlyAt(us, k)) ==> Max(EarlyOnes(us)) == 0
  {
    ClockShowsEarly(ticks, us);
    if forall k :: 0 <= k < |us| ==> !EarlyAt(us, k) {
      EarlyOnesAreZero(us);
    }
  }
}
