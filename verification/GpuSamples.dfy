/** Which utilization samples NVML polls count. All devices share one last seen time, so what a
    poll reads depends on everything that any device delivered before. */
module GpuSamples {
  import opened MonitoredValue
  import opened GpuMonitor
  import opened GpuNvml
  import opened Strings

  /** A run of the monitor: nothing yet, or a run followed by one more poll. */
  datatype Run = Started | Then(past: Run, pids: seq<U32>, gpus: seq<Gpu>)

  /** The last seen time after a run. */
  function MarkOf(run: Run): U64 {
    match run
    case Started => 0
    case Then(past, _, gpus) => Mark(MarkOf(past), AskAll(gpus, MarkOf(past)))
  }

  /** What a device answered in the latest poll. */
  function Answered(run: Run, k: nat): Device
    requires run.Then? && k < |run.gpus|
  {
    Ask(run.gpus[k], MarkOf(run.past))
  }

  // The inputs alone.

  function HeldBy(g: Gpu): seq<UtilSample> {
    if g.Gpu? then Got(g.held) else []
  }

  ghost predicate Holds(g: Gpu, t: U64) {
    exists i :: 0 <= i < |HeldBy(g)| && HeldBy(g)[i].timeStamp == t
  }

  ghost predicate SomeHolds(gpus: seq<Gpu>, t: U64) {
    exists k :: 0 <= k < |gpus| && Holds(gpus[k], t)
  }

  /** In some poll a device whose utilization query succeeded held a sample of that time. */
  ghost predicate Offered(run: Run, t: U64) {
    match run
    case Started => false
    case Then(past, _, gpus) => Offered(past, t) || SomeHolds(gpus, t)
  }

  /** Later than everything that any device offered. */
  ghost predicate IsNew(run: Run, t: U64) {
    t > 0 && forall u: U64 :: Offered(run, u) ==> u < t
  }

  // What a query delivers.

  /** A sample newer than `since` is delivered, at the place that the older ones leave to it. */
  lemma {:induction false} NewerAt(samples: seq<UtilSample>, since: U64, i: nat)
    requires i < |samples| && samples[i].timeStamp > since
    ensures var p := |Newer(samples[..i], since)|;
            && p < |Newer(samples, since)| && Newer(samples, since)[p] == samples[i]
            && Newer(samples, since)[..p] == Newer(samples[..i], since)
  {
    var n := |samples| - 1;
    if i == n {
      assert samples[..n] == samples[..i];
    } else {
      NewerAt(samples[..n], since, i);
      assert samples[..n][..i] == samples[..i];
    }
  }

  /** What is delivered was held, and is newer than asked for. */
  lemma {:induction false} NewerFrom(samples: seq<UtilSample>, since: U64, p: nat) returns (i: nat)
    requires p < |Newer(samples, since)|
    ensures i < |samples| && samples[i] == Newer(samples, since)[p] && samples[i].timeStamp > since
    ensures |Newer(samples[..i], since)| == p
  {
    var n := |samples| - 1;
    if p < |Newer(samples[..n], since)| {
      i := NewerFrom(samples[..n], since, p);
      assert samples[..n][..i] == samples[..i];
    } else {
      i := n;
    }
  }

  lemma AnswerIsNewer(g: Gpu, since: U64)
    ensures Got(if g.Gpu? then Ask(g, since).util else NotFound) == Newer(HeldBy(g), since)
    ensures Ask(g, since).Device? <==> g.Gpu?
  {
  }

  lemma DeliveredIff(g: Gpu, since: U64, t: U64)
    ensures Delivered(Ask(g, since), t) <==> Holds(g, t) && t > since
  {
    hide Newer, Ask;
    AnswerIsNewer(g, since);
    var held := HeldBy(g);
    if Delivered(Ask(g, since), t) {
      var p :| 0 <= p < |Newer(held, since)| && Newer(held, since)[p].timeStamp == t;
      var i := NewerFrom(held, since, p);
    }
    if Holds(g, t) && t > since {
      var i :| 0 <= i < |held| && held[i].timeStamp == t;
      NewerAt(held, since, i);
      HeldMeansGpu(g, i);
    }
  }

  lemma HeldMeansGpu(g: Gpu, i: nat)
    requires i < |HeldBy(g)|
    ensures g.Gpu? && g.held.Samples?
  {
  }

  lemma ReportedIff(gpus: seq<Gpu>, since: U64, t: U64)
    ensures Reported(AskAll(gpus, since), t) <==> t > since && SomeHolds(gpus, t)
  {
    hide Delivered, Holds, Ask;
    var ds := AskAll(gpus, since);
    forall k | 0 <= k < |gpus| ensures Delivered(ds[k], t) <==> Holds(gpus[k], t) && t > since {
      DeliveredIff(gpus[k], since, t);
    }
  }

  // The last seen time.

  /** The last seen time is the latest time that any device ever offered, or 0: it does not
      depend on which samples the polls asked for, counted or skipped. */
  lemma {:induction false} MarkIsLatestOffered(run: Run)
    ensures forall t: U64 :: Offered(run, t) ==> t <= MarkOf(run)
    ensures MarkOf(run) == 0 || Offered(run, MarkOf(run))
  {
    hide Mark, SomeHolds, Reported, AskAll;
    if run.Then? {
      var past := MarkOf(run.past);
      MarkIsLatestOffered(run.past);
      MarkIsHighest(past, AskAll(run.gpus, past));
      forall t: U64 | Offered(run, t) ensures t <= MarkOf(run) {
        ReportedIff(run.gpus, past, t);
        if !SomeHolds(run.gpus, t) { assert Offered(run.past, t); }
      }
      ReportedIff(run.gpus, past, MarkOf(run));
    }
  }

  lemma NewIff(run: Run, t: U64)
    ensures IsNew(run, t) <==> t > MarkOf(run)
  {
    hide Offered, MarkOf;
    MarkIsLatestOffered(run);
  }

  // Reading.

  /** The latest poll got this sample from device `k`. */
  ghost predicate Reads(run: Run, k: nat, x: UtilSample) {
    run.Then? && k < |run.gpus| && Answered(run, k).Device? && x in Got(Answered(run, k).util)
  }

  ghost predicate EverRead(run: Run, k: nat, x: UtilSample) {
    run.Then? && (Reads(run, k, x) || EverRead(run.past, k, x))
  }

  /** A poll reads a sample exactly if its device holds it and it is later than everything any
      device offered before. */
  lemma ReadIff(run: Run, k: nat, x: UtilSample)
    requires run.Then? && k < |run.gpus|
    ensures Reads(run, k, x) <==> x in HeldBy(run.gpus[k]) && IsNew(run.past, x.timeStamp)
  {
    hide Newer, IsNew;
    var g, since := run.gpus[k], MarkOf(run.past);
    var held := HeldBy(g);
    AnswerIsNewer(g, since);
    NewIff(run.past, x.timeStamp);
    hide Ask, MarkOf;
    if Reads(run, k, x) {
      var p :| 0 <= p < |Newer(held, since)| && Newer(held, since)[p] == x;
      var i := NewerFrom(held, since, p);
    }
    if x in held && x.timeStamp > since {
      var i :| 0 <= i < |held| && held[i] == x;
      NewerAt(held, since, i);
      HeldMeansGpu(g, i);
    }
  }

  lemma ReadIsOffered(run: Run, k: nat, x: UtilSample)
    requires Reads(run, k, x)
    ensures Offered(run, x.timeStamp)
  {
    hide IsNew, Answered;
    ReadIff(run, k, x);
    var held := HeldBy(run.gpus[k]);
    var i :| 0 <= i < |held| && held[i] == x;
    assert Holds(run.gpus[k], x.timeStamp) && SomeHolds(run.gpus, x.timeStamp);
  }

  lemma {:induction false} EverReadIsOffered(run: Run, k: nat, x: UtilSample)
    requires EverRead(run, k, x)
    ensures Offered(run, x.timeStamp)
  {
    hide Reads, Holds;
    if Reads(run, k, x) {
      ReadIsOffered(run, k, x);
    } else {
      EverReadIsOffered(run.past, k, x);
    }
  }

  /** No sample is read by two polls; in fact what a poll reads from any device is later than
      everything ever read from any other. */
  lemma NoSampleReadTwice(run: Run, j: nat, x: UtilSample, k: nat, y: UtilSample)
    requires Reads(run, k, y) && EverRead(run.past, j, x)
    ensures x.timeStamp < y.timeStamp
  {
    hide Offered, EverRead;
    ReadIff(run, k, y);
    EverReadIsOffered(run.past, j, x);
  }

  // Counting.

  /** The first entry of a monitored process. */
  predicate CountedAt(pids: seq<U32>, ps: seq<U32>, i: nat)
    requires i < |ps|
  {
    ps[i] in pids && ps[i] !in ps[..i]
  }

  function SumCounted(pids: seq<U32>, ps: seq<U32>, xs: seq<nat>): nat
    requires |ps| == |xs|
  {
    if ps == [] then 0
    else
      var n := |ps| - 1;
      SumCounted(pids, ps[..n], xs[..n]) + if CountedAt(pids, ps, n) then xs[n] else 0
  }

  lemma {:induction false} RepeatAddsNothing(pids: seq<U32>, ps: seq<U32>, xs: seq<nat>, p: U32, x: nat)
    requires |ps| == |xs| && p in ps
    ensures SumFirst(pids, ps + [p], xs + [x]) == SumFirst(pids, ps, xs)
  {
    if pids != [] {
      var n := |pids| - 1;
      RepeatAddsNothing(pids[..n], ps, xs, p, x);
      FirstAfterOneMore(ps, p, pids[n]);
      IndexWithin(ps, pids[n]);
    }
  }

  /** The total of a device is the sum over exactly the counted entries. */
  lemma {:induction false} TotalIsCounted(pids: seq<U32>, ps: seq<U32>, xs: seq<nat>)
    requires |ps| == |xs| && Distinct(pids)
    ensures SumFirst(pids, ps, xs) == SumCounted(pids, ps, xs)
    decreases |ps|
  {
    if ps == [] {
      NoEntries(pids);
    } else {
      var n := |ps| - 1;
      assert ps == ps[..n] + [ps[n]] && xs == xs[..n] + [xs[n]];
      TotalIsCounted(pids, ps[..n], xs[..n]);
      hide SumFirst;
      if ps[n] in ps[..n] {
        RepeatAddsNothing(pids, ps[..n], xs[..n], ps[n], xs[n]);
      } else {
        OneMoreEntry(pids, ps[..n], xs[..n], ps[n], xs[n]);
      }
    }
  }

  /** The latest poll counts the sample that device `k` holds at place `i`: the device can be
      used, delivers the sample, and the sample is the one taken for its process. */
  ghost predicate Counted(run: Run, k: nat, i: nat) {
    && run.Then? && k < |run.gpus| && i < |HeldBy(run.gpus[k])|
    && var held, d := HeldBy(run.gpus[k]), Answered(run, k);
       var place := |Newer(held[..i], MarkOf(run.past))|;
       && Usable(d) && held[i].timeStamp > MarkOf(run.past)
       && place < |Got(d.util)| && Got(d.util)[place] == held[i]
       && CountedAt(run.pids, UtilPids(Got(d.util)), place)
  }

  lemma {:induction false} NoneNewer(samples: seq<UtilSample>, since: U64, pid: U32)
    ensures pid in UtilPids(Newer(samples, since)) <==>
            exists j :: 0 <= j < |samples| && samples[j].pid == pid && samples[j].timeStamp > since
  {
    var newer := Newer(samples, since);
    if pid in UtilPids(newer) {
      var p :| 0 <= p < |newer| && newer[p].pid == pid;
      var j := NewerFrom(samples, since, p);
    }
    if j :| 0 <= j < |samples| && samples[j].pid == pid && samples[j].timeStamp > since {
      NewerAt(samples, since, j);
      assert UtilPids(newer)[|Newer(samples[..j], since)|] == pid;
    }
  }

  lemma UtilPrefix(util: seq<UtilSample>, p: nat)
    requires p <= |util|
    ensures UtilPids(util)[..p] == UtilPids(util[..p])
  {
  }

  /** No sample of the same process before place `i` is delivered along with it. */
  ghost predicate FirstOfItsProcess(run: Run, k: nat, i: nat)
    requires run.Then? && k < |run.gpus| && i < |HeldBy(run.gpus[k])|
  {
    var held := HeldBy(run.gpus[k]);
    forall j :: 0 <= j < i && held[j].pid == held[i].pid ==> !IsNew(run.past, held[j].timeStamp)
  }

  /** A poll counts a sample exactly if its process is monitored, the memory query of its device
      succeeds, it is later than everything any device offered in an earlier poll, and no
      sample before it on its device that is later too belongs to its process. */
  lemma CountedIff(run: Run, k: nat, i: nat)
    requires run.Then? && k < |run.gpus| && i < |HeldBy(run.gpus[k])|
    ensures var g := run.gpus[k];
            var x := HeldBy(g)[i];
            Counted(run, k, i) <==>
            x.pid in run.pids && !g.memory.Failed? && IsNew(run.past, x.timeStamp) && FirstOfItsProcess(run, k, i)
  {
    var g, since := run.gpus[k], MarkOf(run.past);
    var held := HeldBy(g);
    var x := held[i];
    HeldMeansGpu(g, i);
    AnswerIsNewer(g, since);
    NewIff(run.past, x.timeStamp);
    hide IsNew, MarkOf;
    if x.timeStamp > since {
      NewerAt(held, since, i);
      NoneNewer(held[..i], since, x.pid);
      UtilPrefix(Newer(held, since), |Newer(held[..i], since)|);
      FirstMeans(run, k, i);
    }
  }

  lemma FirstMeans(run: Run, k: nat, i: nat)
    requires run.Then? && k < |run.gpus| && i < |HeldBy(run.gpus[k])|
    ensures var held := HeldBy(run.gpus[k]);
            FirstOfItsProcess(run, k, i) <==>
            !exists j :: 0 <= j < i && held[..i][j].pid == held[i].pid && held[..i][j].timeStamp > MarkOf(run.past)
  {
    hide IsNew, MarkOf;
    var held := HeldBy(run.gpus[k]);
    forall j | 0 <= j < i ensures IsNew(run.past, held[j].timeStamp) <==> held[j].timeStamp > MarkOf(run.past) {
      NewIff(run.past, held[j].timeStamp);
    }
    assert forall j :: 0 <= j < i ==> held[..i][j] == held[j];
    if FirstOfItsProcess(run, k, i) {
      forall j | 0 <= j < i && held[..i][j].pid == held[i].pid ensures held[..i][j].timeStamp <= MarkOf(run.past) {
        assert held[j].pid == held[i].pid;
      }
    }
  }

  /** What a sample adds to a percentage metric. */
  function AmountOf(m: Metric, x: UtilSample): nat {
    if m.Gpusmpct? then x.smUtil else x.memUtil
  }

  /** The amounts of the counted samples among the first `n` that device `k` holds. */
  ghost function CountedSum(run: Run, m: Metric, k: nat, n: nat): nat
    requires run.Then? && k < |run.gpus| && n <= |HeldBy(run.gpus[k])|
  {
    if n == 0 then 0
    else CountedSum(run, m, k, n - 1) + if Counted(run, k, n - 1) then AmountOf(m, HeldBy(run.gpus[k])[n - 1]) else 0
  }

  /** The amounts of all counted samples of the first `n` devices. */
  ghost function AllCounted(run: Run, m: Metric, n: nat): nat
    requires run.Then? && n <= |run.gpus|
  {
    if n == 0 then 0
    else AllCounted(run, m, n - 1) + CountedSum(run, m, n - 1, |HeldBy(run.gpus[n - 1])|)
  }

  lemma CountedLocally(run: Run, k: nat, n: nat)
    requires run.Then? && k < |run.gpus| && n < |HeldBy(run.gpus[k])| && Usable(Answered(run, k))
    ensures var held, since := HeldBy(run.gpus[k]), MarkOf(run.past);
            Counted(run, k, n) <==>
            held[n].timeStamp > since && held[n].pid in run.pids &&
            held[n].pid !in UtilPids(Newer(held[..n], since))
  {
    var g, since := run.gpus[k], MarkOf(run.past);
    var held := HeldBy(g);
    HeldMeansGpu(g, n);
    AnswerIsNewer(g, since);
    if held[n].timeStamp > since {
      NewerAt(held, since, n);
      UtilPrefix(Newer(held, since), |Newer(held[..n], since)|);
    }
  }

  lemma AddEntry(pids: seq<U32>, m: Metric, util: seq<UtilSample>, x: UtilSample)
    ensures SumCounted(pids, UtilPids(util + [x]), Amounts(m, util + [x])) ==
            SumCounted(pids, UtilPids(util), Amounts(m, util)) +
            if x.pid in pids && x.pid !in UtilPids(util) then AmountOf(m, x) else 0
  {
    var ps, xs := UtilPids(util + [x]), Amounts(m, util + [x]);
    assert ps == UtilPids(util) + [x.pid] && xs == Amounts(m, util) + [AmountOf(m, x)];
    assert ps[..|util|] == UtilPids(util) && xs[..|util|] == Amounts(m, util);
  }

  lemma NewerOneMore(samples: seq<UtilSample>, since: U64, n: nat)
    requires n < |samples|
    ensures Newer(samples[..n + 1], since) ==
            Newer(samples[..n], since) + if samples[n].timeStamp > since then [samples[n]] else []
  {
    assert samples[..n + 1][..n] == samples[..n];
  }

  /** The counted amounts among what a device delivers of its first `n` samples. */
  function DeliveredSum(run: Run, m: Metric, k: nat, n: nat): nat
    requires run.Then? && k < |run.gpus| && n <= |HeldBy(run.gpus[k])|
  {
    var newer := Newer(HeldBy(run.gpus[k])[..n], MarkOf(run.past));
    SumCounted(run.pids, UtilPids(newer), Amounts(m, newer))
  }

  lemma DeliveredOneMore(run: Run, m: Metric, k: nat, n: nat)
    requires run.Then? && k < |run.gpus| && n < |HeldBy(run.gpus[k])| && Usable(Answered(run, k))
    ensures DeliveredSum(run, m, k, n + 1) ==
            DeliveredSum(run, m, k, n) + if Counted(run, k, n) then AmountOf(m, HeldBy(run.gpus[k])[n]) else 0
  {
    var held, since := HeldBy(run.gpus[k]), MarkOf(run.past);
    var newer, x := Newer(held[..n], since), held[n];
    CountedLocally(run, k, n);
    NewerOneMore(held, since, n);
    hide Newer, SumCounted, Counted, MarkOf, Usable, Answered, AmountOf, UtilPids, Amounts, HeldBy;
    if x.timeStamp > since {
      AddEntry(run.pids, m, newer, x);
    } else {
      assert newer + [] == newer;
    }
  }

  lemma {:induction false} HeldSum(run: Run, m: Metric, k: nat, n: nat)
    requires run.Then? && k < |run.gpus| && n <= |HeldBy(run.gpus[k])| && Usable(Answered(run, k))
    ensures DeliveredSum(run, m, k, n) == CountedSum(run, m, k, n)
  {
    if n > 0 {
      hide DeliveredSum, Counted, MarkOf, Usable, Answered, AmountOf, HeldBy;
      HeldSum(run, m, k, n - 1);
      DeliveredOneMore(run, m, k, n - 1);
    }
  }

  lemma {:induction false} NothingCounted(run: Run, m: Metric, k: nat, n: nat)
    requires run.Then? && k < |run.gpus| && n <= |HeldBy(run.gpus[k])| && !Usable(Answered(run, k))
    ensures CountedSum(run, m, k, n) == 0
  {
    if n > 0 {
      NothingCounted(run, m, k, n - 1);
    }
  }

  lemma DeviceCounted(run: Run, m: Metric, k: nat)
    requires run.Then? && k < |run.gpus| && Distinct(run.pids) && (m.Gpusmpct? || m.Gpumempct?)
    ensures var d := Answered(run, k);
            CountedSum(run, m, k, |HeldBy(run.gpus[k])|) ==
            if Usable(d) then DeviceSum(m, run.pids, Got(d.util), Got(d.memory)) else 0
  {
    var g, since, d := run.gpus[k], MarkOf(run.past), Answered(run, k);
    var held := HeldBy(g);
    if Usable(d) {
      AnswerIsNewer(g, since);
      HeldSum(run, m, k, |held|);
      assert held[..|held|] == held;
      hide Newer, SumFirst, SumCounted, CountedSum;
      TotalIsCounted(run.pids, UtilPids(Got(d.util)), Amounts(m, Got(d.util)));
    } else {
      NothingCounted(run, m, k, |held|);
    }
  }

  lemma {:induction false} DevicesCounted(run: Run, m: Metric, n: nat)
    requires run.Then? && n <= |run.gpus| && Distinct(run.pids) && (m.Gpusmpct? || m.Gpumempct?)
    ensures DevicesSum(m, run.pids, AskAll(run.gpus, MarkOf(run.past))[..n]) == AllCounted(run, m, n)
  {
    hide DeviceSum, CountedSum, Ask, MarkOf, Usable;
    var ds := AskAll(run.gpus, MarkOf(run.past));
    if n > 0 {
      DevicesCounted(run, m, n - 1);
      DeviceCounted(run, m, n - 1);
      assert ds[..n][..n - 1] == ds[..n - 1] && ds[..n][n - 1] == Answered(run, n - 1);
    }
  }

  /** What a poll pushes for a percentage metric is the sum over exactly the counted samples of all
      devices. */
  lemma PollPushesCounted(run: Run, m: Metric)
    requires run.Then? && Distinct(run.pids) && (m.Gpusmpct? || m.Gpumempct?)
    ensures DevicesSum(m, run.pids, AskAll(run.gpus, MarkOf(run.past))) == AllCounted(run, m, |run.gpus|)
  {
    hide DevicesSum, AllCounted;
    DevicesCounted(run, m, |run.gpus|);
    var ds := AskAll(run.gpus, MarkOf(run.past));
    assert ds[..|ds|] == ds;
  }

  /** Neither query of the device fails. */
  predicate AnswersBoth(g: Gpu) {
    g.Gpu? && !g.held.Failed? && !g.memory.Failed?
  }

  lemma UsableIff(g: Gpu, since: U64)
    ensures Usable(Ask(g, since)) <==> AnswersBoth(g)
    ensures g.Gpu? ==> Ask(g, since).Device? && Ask(g, since).memory == g.memory
  {
  }

  /** The memory, in whole kB, of the first `n` entries that are the first of a monitored process. */
  function EntriesSum(pids: seq<U32>, memory: seq<MemoryInfo>, n: nat): nat
    requires n <= |memory|
  {
    if n == 0 then 0
    else
      var e := memory[n - 1];
      EntriesSum(pids, memory, n - 1) +
      if e.pid in pids && forall j :: 0 <= j < n - 1 ==> memory[j].pid != e.pid then e.usedGpuMemory / 1024 else 0
  }

  lemma {:induction false} EntriesCounted(pids: seq<U32>, memory: seq<MemoryInfo>, n: nat)
    requires n <= |memory|
    ensures SumCounted(pids, MemoryPids(memory[..n]), Kilobytes(memory[..n])) == EntriesSum(pids, memory, n)
  {
    if n > 0 {
      EntriesCounted(pids, memory, n - 1);
      var ps, xs := MemoryPids(memory[..n]), Kilobytes(memory[..n]);
      assert ps[..n - 1] == MemoryPids(memory[..n - 1]) && xs[..n - 1] == Kilobytes(memory[..n - 1]);
      FirstOfAll(ps, n - 1);
      assert forall j :: 0 <= j < n ==> ps[j] == memory[j].pid;
    }
  }

  lemma FirstOfAll(ps: seq<U32>, i: nat)
    requires i < |ps|
    ensures ps[i] !in ps[..i] <==> forall j :: 0 <= j < i ==> ps[j] != ps[i]
  {
  }

  /** The memory of the first `n` devices, those that answer both queries. */
  function AllMemory(run: Run, n: nat): nat
    requires run.Then? && n <= |run.gpus|
  {
    if n == 0 then 0
    else
      var g := run.gpus[n - 1];
      AllMemory(run, n - 1) + if AnswersBoth(g) then EntriesSum(run.pids, Got(g.memory), |Got(g.memory)|) else 0
  }

  /** Device `k` answers both queries and has a counted sample or memory of a monitored process. */
  ghost predicate Active(run: Run, k: nat) {
    && run.Then? && k < |run.gpus| && AnswersBoth(run.gpus[k])
    && ((exists i :: Counted(run, k, i)) ||
        exists e :: e in Got(run.gpus[k].memory) && e.pid in run.pids)
  }

  /** The first delivered sample of a monitored process is counted. */
  lemma FirstIsCounted(run: Run, k: nat, pid: U32) returns (i: nat)
    requires run.Then? && k < |run.gpus| && Usable(Answered(run, k))
    requires pid in run.pids && pid in UtilPids(Got(Answered(run, k).util))
    ensures Counted(run, k, i)
  {
    var g, since := run.gpus[k], MarkOf(run.past);
    AnswerIsNewer(g, since);
    var newer := Newer(HeldBy(g), since);
    var p := IndexOf(UtilPids(newer), pid);
    IndexWithin(UtilPids(newer), pid);
    i := NewerFrom(HeldBy(g), since, p);
    HeldMeansGpu(g, i);
  }

  lemma MemoryOfMonitored(pids: seq<U32>, memory: seq<MemoryInfo>)
    ensures (exists pid :: pid in pids && pid in MemoryPids(memory)) <==> exists e :: e in memory && e.pid in pids
  {
    if pid :| pid in pids && pid in MemoryPids(memory) {
      var i :| 0 <= i < |memory| && MemoryPids(memory)[i] == pid;
      assert memory[i] in memory && memory[i].pid in pids;
    }
    if e :| e in memory && e.pid in pids {
      var i :| 0 <= i < |memory| && memory[i] == e;
      assert MemoryPids(memory)[i] == e.pid;
    }
  }

  lemma ActiveIff(run: Run, k: nat)
    requires run.Then? && k < |run.gpus| && Usable(Answered(run, k))
    ensures var d := Answered(run, k);
            Matched(run.pids, Got(d.util), Got(d.memory)) <==> Active(run, k)
  {
    var d := Answered(run, k);
    UsableIff(run.gpus[k], MarkOf(run.past));
    MemoryOfMonitored(run.pids, Got(d.memory));
    if pid :| pid in run.pids && pid in UtilPids(Got(d.util)) {
      var i := FirstIsCounted(run, k, pid);
    }
    if i: nat :| Counted(run, k, i) {
      assert i < |HeldBy(run.gpus[k])|;
      var place := |Newer(HeldBy(run.gpus[k])[..i], MarkOf(run.past))|;
      assert UtilPids(Got(d.util))[place] in run.pids;
    }
  }

  lemma {:induction false} MemoryCounted(run: Run, n: nat)
    requires run.Then? && n <= |run.gpus| && Distinct(run.pids)
    ensures DevicesSum(Gpufbmem, run.pids, AskAll(run.gpus, MarkOf(run.past))[..n]) == AllMemory(run, n)
  {
    hide Ask, MarkOf, SumFirst, SumCounted, EntriesSum, MemoryPids, Kilobytes, Usable;
    var ds := AskAll(run.gpus, MarkOf(run.past));
    if n > 0 {
      MemoryCounted(run, n - 1);
      var g, d := run.gpus[n - 1], Answered(run, n - 1);
      UsableIff(g, MarkOf(run.past));
      if g.Gpu? {
        var memory := Got(g.memory);
        KilobytesPerEntry(memory);
        TotalIsCounted(run.pids, MemoryPids(memory), Kilobytes(memory));
        EntriesCounted(run.pids, memory, |memory|);
        assert memory[..|memory|] == memory;
      }
      assert ds[..n][..n - 1] == ds[..n - 1] && ds[..n][n - 1] == d;
    }
  }

  lemma KilobytesPerEntry(memory: seq<MemoryInfo>)
    ensures |MemoryPids(memory)| == |Kilobytes(memory)| == |memory|
  {
  }

  ghost function ActiveDevices(run: Run, n: nat): set<nat> {
    set k: nat | k < n && Active(run, k)
  }

  lemma OneMoreActive(run: Run, n: nat)
    ensures |ActiveDevices(run, n + 1)| == |ActiveDevices(run, n)| + if Active(run, n) then 1 else 0
    ensures |ActiveDevices(run, 0)| == 0
  {
    hide Active;
    var now, past := ActiveDevices(run, n + 1), ActiveDevices(run, n);
    assert now == past + if Active(run, n) then {n} else {};
    assert ActiveDevices(run, 0) == {};
  }

  lemma {:induction false} DevicesActive(run: Run, n: nat)
    requires run.Then? && n <= |run.gpus|
    ensures DevicesSum(Ngpus, run.pids, AskAll(run.gpus, MarkOf(run.past))[..n]) == |ActiveDevices(run, n)|
  {
    hide Ask, MarkOf, Usable, Matched, ActiveDevices, Counted;
    var ds := AskAll(run.gpus, MarkOf(run.past));
    if n == 0 {
      OneMoreActive(run, 0);
    } else {
      DevicesActive(run, n - 1);
      OneMoreActive(run, n - 1);
      var d := Answered(run, n - 1);
      UsableIff(run.gpus[n - 1], MarkOf(run.past));
      if Usable(d) { ActiveIff(run, n - 1); }
      assert ds[..n][..n - 1] == ds[..n - 1] && ds[..n][n - 1] == d;
    }
  }

  /** The memory that a poll pushes is that of the first entry of each monitored process on the
      devices that answer both queries, and the GPU count is the number of such devices with a counted
      sample or memory of a monitored process. */
  lemma PollPushesMemoryAndGpus(run: Run)
    requires run.Then? && Distinct(run.pids)
    ensures var ds := AskAll(run.gpus, MarkOf(run.past));
            && DevicesSum(Gpufbmem, run.pids, ds) == AllMemory(run, |run.gpus|)
            && DevicesSum(Ngpus, run.pids, ds) == |ActiveDevices(run, |run.gpus|)|
  {
    hide DevicesSum, AllMemory, ActiveDevices;
    var ds := AskAll(run.gpus, MarkOf(run.past));
    MemoryCounted(run, |run.gpus|);
    DevicesActive(run, |run.gpus|);
    assert ds[..|ds|] == ds;
  }

  // Losing.

  ghost predicate Extends(run: Run, past: Run) {
    run == past || (run.Then? && Extends(run.past, past))
  }

  lemma {:induction false} StaysOffered(run: Run, past: Run, t: U64)
    requires Extends(run, past) && Offered(past, t)
    ensures Offered(run, t)
  {
    if run != past {
      StaysOffered(run.past, past, t);
    }
  }

  /** Once any device has offered something as late, no later poll reads or counts a sample: what
      was not counted by then is lost, and what was is not counted again. */
  lemma LostForGood(past: Run, t: U64, run: Run, k: nat, i: nat)
    requires Offered(past, t) && run.Then? && Extends(run.past, past)
    requires k < |run.gpus| && i < |HeldBy(run.gpus[k])| && HeldBy(run.gpus[k])[i].timeStamp <= t
    ensures !Counted(run, k, i) && !Reads(run, k, HeldBy(run.gpus[k])[i])
  {
    hide Counted, Reads, Offered, HeldBy;
    StaysOffered(run.past, past, t);
    CountedIff(run, k, i);
    ReadIff(run, k, HeldBy(run.gpus[k])[i]);
  }

  /** A device whose memory query fails loses the samples it delivers: this poll does not count
      them, and no later poll can. */
  lemma FailedMemoryQueryLosesSamples(run: Run, k: nat, i: nat, later: Run, j: nat, l: nat)
    requires run.Then? && k < |run.gpus| && i < |HeldBy(run.gpus[k])| && run.gpus[k].memory.Failed?
    requires later.Then? && Extends(later.past, run) && j < |later.gpus| && l < |HeldBy(later.gpus[j])|
    requires HeldBy(later.gpus[j])[l] == HeldBy(run.gpus[k])[i]
    ensures !Counted(run, k, i) && !Counted(later, j, l)
  {
    CountedIff(run, k, i);
    var x := HeldBy(run.gpus[k])[i];
    assert Holds(run.gpus[k], x.timeStamp) && SomeHolds(run.gpus, x.timeStamp);
    LostForGood(run, x.timeStamp, later, j, l);
  }

  lemma OnePollOffers(gpus: seq<Gpu>, x: UtilSample)
    requires gpus == [Gpu(Failed, NotFound), Gpu(Samples([x]), NotFound)]
    ensures forall pids, t: U64 :: Offered(Then(Started, pids, gpus), t) <==> t == x.timeStamp
  {
    assert HeldBy(gpus[0]) == [] && HeldBy(gpus[1]) == [x];
    assert HeldBy(gpus[1])[0] == x && Holds(gpus[1], x.timeStamp);
    forall t: U64 ensures SomeHolds(gpus, t) <==> t == x.timeStamp {
    }
  }

  /** So does a device whose utilization query fails once while another one answers: with the
      sample waiting on the first device, a sample of the second one that is as late moves the
      last seen time past it, although no memory query failed. */
  lemma OtherDeviceLosesSamples(waiting: UtilSample, other: UtilSample, pids: seq<U32>)
    requires 0 < waiting.timeStamp <= other.timeStamp && other.pid in pids && waiting.pid in pids
    ensures var first := Then(Started, pids, [Gpu(Failed, NotFound), Gpu(Samples([other]), NotFound)]);
            var second := Then(first, pids, [Gpu(Samples([waiting]), NotFound), Gpu(NotFound, NotFound)]);
            Counted(first, 1, 0) && MarkOf(first) == other.timeStamp && !Counted(second, 0, 0)
  {
    var gpus := [Gpu(Failed, NotFound), Gpu(Samples([other]), NotFound)];
    var first := Then(Started, pids, gpus);
    var second := Then(first, pids, [Gpu(Samples([waiting]), NotFound), Gpu(NotFound, NotFound)]);
    assert HeldBy(gpus[1]) == [other] && HeldBy(second.gpus[0]) == [waiting];
    OnePollOffers(gpus, other);
    hide Counted, MarkOf, SomeHolds;
    CountedIff(first, 1, 0);
    CountedIff(second, 0, 0);
    MarkIsLatestOffered(first);
  }
}
