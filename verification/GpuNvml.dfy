/** `nvidiamon` through NVML: samples of several devices matched against the monitored
    processes, and the time up to which samples have been seen. */
module GpuNvml {
  import opened MonitoredValue
  import opened GpuMonitor
  import opened Strings

  datatype UtilSample = UtilSample(pid: U32, timeStamp: U64, smUtil: U32, memUtil: U32)

  datatype MemoryInfo = MemoryInfo(pid: U32, usedGpuMemory: U64)

  /** A query delivers samples, finds none, or fails (a full buffer is a failure too). */
  datatype Reply<T> = Samples(samples: seq<T>) | NotFound | Failed

  /** The answers of one device to the two queries of a poll. */
  datatype Device = NoHandle | Device(util: Reply<UtilSample>, memory: Reply<MemoryInfo>)

  /** A device at the time of a poll, with the utilization samples it holds. */
  datatype Gpu = Gone | Gpu(held: Reply<UtilSample>, memory: Reply<MemoryInfo>)

  /** A query for utilization samples delivers those taken after `since`. */
  function Newer(samples: seq<UtilSample>, since: U64): seq<UtilSample> {
    if samples == [] then []
    else
      var n := |samples| - 1;
      Newer(samples[..n], since) + if samples[n].timeStamp > since then [samples[n]] else []
  }

  function Ask(g: Gpu, since: U64): Device {
    match g
    case Gone => NoHandle
    case Gpu(Samples(samples), memory) => Device(Samples(Newer(samples, since)), memory)
    case Gpu(held, memory) => Device(held, memory)
  }

  /** Every device is asked for samples after the same time. */
  function AskAll(gs: seq<Gpu>, since: U64): (ds: seq<Device>)
    ensures |ds| == |gs| && forall k :: 0 <= k < |gs| ==> ds[k] == Ask(gs[k], since)
  {
    seq(|gs|, k requires 0 <= k < |gs| => Ask(gs[k], since))
  }

  function Got<T>(r: Reply<T>): seq<T> {
    if r.Samples? then r.samples else []
  }

  /** Both queries of the device succeeded, so its samples are matched. */
  predicate Usable(d: Device) {
    d.Device? && !d.util.Failed? && !d.memory.Failed?
  }

  // Matching processes.

  /** The amounts of the first entry of each listed process. */
  function SumFirst(pids: seq<U32>, ps: seq<U32>, xs: seq<nat>): nat
    requires |ps| == |xs|
  {
    if pids == [] then 0
    else
      var k := IndexOf(ps, pids[|pids| - 1]);
      SumFirst(pids[..|pids| - 1], ps, xs) + if k < |ps| then xs[k] else 0
  }

  /** The amounts of all entries of listed processes. */
  function SumMatching(pids: seq<U32>, ps: seq<U32>, xs: seq<nat>): nat
    requires |ps| == |xs|
  {
    if ps == [] then 0
    else
      var n := |ps| - 1;
      SumMatching(pids, ps[..n], xs[..n]) + if ps[n] in pids then xs[n] else 0
  }

  ghost predicate Distinct(ps: seq<U32>) {
    forall i, j :: 0 <= i < j < |ps| ==> ps[i] != ps[j]
  }

  lemma FirstAfterOneMore(ps: seq<U32>, p: U32, pid: U32)
    ensures IndexOf(ps + [p], pid) == if pid in ps then IndexOf(ps, pid) else if pid == p then |ps| else |ps| + 1
  {
    var k := IndexOf(ps, pid);
    var all := ps + [p];
    if k == |ps| {
      assert ps[..k] == ps;
      assert all[..|ps|] == ps;
      IndexOfFirst(all, pid, if pid == p then |ps| else |ps| + 1);
    } else {
      assert all[..k] == ps[..k] && ps[k] in ps;
      IndexOfFirst(all, pid, k);
    }
  }

  lemma {:induction false} OneMoreEntry(pids: seq<U32>, ps: seq<U32>, xs: seq<nat>, p: U32, x: nat)
    requires |ps| == |xs| && Distinct(pids) && p !in ps
    ensures SumFirst(pids, ps + [p], xs + [x]) == SumFirst(pids, ps, xs) + if p in pids then x else 0
  {
    if pids != [] {
      var n := |pids| - 1;
      assert pids == pids[..n] + [pids[n]];
      OneMoreEntry(pids[..n], ps, xs, p, x);
      FirstAfterOneMore(ps, p, pids[n]);
      if pids[n] == p {
        assert p !in pids[..n];
      }
    }
  }

  /** With no process twice on either side, taking the first sample of each process loses
      nothing: the sum runs over all samples of monitored processes, in any order of processes. */
  lemma {:induction false} FirstMatchesAreAll(pids: seq<U32>, ps: seq<U32>, xs: seq<nat>)
    requires |ps| == |xs| && Distinct(pids) && Distinct(ps)
    ensures SumFirst(pids, ps, xs) == SumMatching(pids, ps, xs)
    decreases |ps|
  {
    if ps == [] {
      NoEntries(pids);
    } else {
      var n := |ps| - 1;
      assert ps == ps[..n] + [ps[n]] && xs == xs[..n] + [xs[n]];
      FirstMatchesAreAll(pids, ps[..n], xs[..n]);
      OneMoreEntry(pids, ps[..n], xs[..n], ps[n], xs[n]);
    }
  }

  lemma {:induction false} NoEntries(pids: seq<U32>)
    ensures SumFirst(pids, [], []) == 0
  {
    if pids != [] {
      NoEntries(pids[..|pids| - 1]);
    }
  }

  // One device.

  function UtilPids(util: seq<UtilSample>): seq<U32> {
    seq(|util|, i requires 0 <= i < |util| => util[i].pid)
  }

  function MemoryPids(memory: seq<MemoryInfo>): seq<U32> {
    seq(|memory|, i requires 0 <= i < |memory| => memory[i].pid)
  }

  function Amounts(m: Metric, util: seq<UtilSample>): seq<nat> {
    seq(|util|, i requires 0 <= i < |util| => if m.Gpusmpct? then util[i].smUtil else util[i].memUtil)
  }

  /** Bytes to whole kB, sample by sample. */
  function Kilobytes(memory: seq<MemoryInfo>): seq<nat> {
    seq(|memory|, i requires 0 <= i < |memory| => memory[i].usedGpuMemory / 1024)
  }

  function DeviceSum(m: Metric, pids: seq<U32>, util: seq<UtilSample>, memory: seq<MemoryInfo>): nat {
    match m
    case Ngpus => if Matched(pids, util, memory) then 1 else 0
    case Gpufbmem => SumFirst(pids, MemoryPids(memory), Kilobytes(memory))
    case _ => SumFirst(pids, UtilPids(util), Amounts(m, util))
  }

  // All devices.

  function DevicesSum(m: Metric, pids: seq<U32>, ds: seq<Device>): nat {
    if ds == [] then 0
    else
      var d := ds[|ds| - 1];
      DevicesSum(m, pids, ds[..|ds| - 1]) + if Usable(d) then DeviceSum(m, pids, Got(d.util), Got(d.memory)) else 0
  }

  function Latest(mark: U64, util: seq<UtilSample>): U64 {
    if util == [] then mark
    else Larger(Latest(mark, util[..|util| - 1]), util[|util| - 1].timeStamp)
  }

  /** The high-water mark after a poll: it moves as soon as the utilization query succeeds. */
  function Mark(mark: U64, ds: seq<Device>): U64 {
    if ds == [] then mark
    else
      var d := ds[|ds| - 1];
      var m := Mark(mark, ds[..|ds| - 1]);
      if d.Device? && !d.util.Failed? then Latest(m, Got(d.util)) else m
  }

  class NvmlMonitor {
    const ngpus: Value
    const gpusmpct: Value
    const gpumempct: Value
    const gpufbmem: Value
    var lastSeenTimestamp: U64

    ghost predicate Valid() {
      ngpus != gpusmpct && ngpus != gpumempct && ngpus != gpufbmem &&
      gpusmpct != gpumempct && gpusmpct != gpufbmem && gpumempct != gpufbmem
    }

    constructor ()
      ensures Valid() && lastSeenTimestamp == 0
      ensures ngpus.Read() == gpusmpct.Read() == gpumempct.Read() == gpufbmem.Read() == Fresh(false, 0)
    {
      ngpus := new Value(false, 0);
      gpusmpct := new Value(false, 0);
      gpumempct := new Value(false, 0);
      gpufbmem := new Value(false, 0);
      lastSeenTimestamp := 0;
    }

    /** Asks one device for what is newer than the last seen time; `newest` is the mark so far. */
    method QueryDeviceSamples(g: Gpu, newest: U64) returns (ok: bool, mark: U64, d: Device)
      requires g.Gpu?
      ensures d == Ask(g, lastSeenTimestamp) && ok == Usable(d)
      ensures mark == if !d.util.Failed? then Latest(newest, Got(d.util)) else newest
    {
      d, mark := Ask(g, lastSeenTimestamp), newest;
      if d.util.Failed? { return false, mark, d; }
      var util := Got(d.util);
      for i := 0 to |util|
        invariant mark == Latest(newest, util[..i])
      {
        assert util[..i + 1][..i] == util[..i];
        if util[i].timeStamp > mark { mark := util[i].timeStamp; }
      }
      assert util[..|util|] == util;
      ok := !d.memory.Failed?;
    }

    /** The position of the first sample of a process. */
    method FirstUtil(util: seq<UtilSample>, pid: U32) returns (i: nat)
      ensures i == IndexOf(UtilPids(util), pid)
    {
      i := 0;
      while i < |util| && util[i].pid != pid
        invariant i <= |util| && pid !in UtilPids(util)[..i]
      {
        i := i + 1;
      }
      IndexOfFirst(UtilPids(util), pid, i);
    }

    method FirstMemory(memory: seq<MemoryInfo>, pid: U32) returns (i: nat)
      ensures i == IndexOf(MemoryPids(memory), pid)
    {
      i := 0;
      while i < |memory| && memory[i].pid != pid
        invariant i <= |memory| && pid !in MemoryPids(memory)[..i]
      {
        i := i + 1;
      }
      IndexOfFirst(MemoryPids(memory), pid, i);
    }

    /** Adds the first utilization and the first memory entry of each process to the totals. */
    method AccumulateProcessStats(pids: seq<U32>, util: seq<UtilSample>, memory: seq<MemoryInfo>, t0: Sums)
      returns (gpuIsActive: bool, t: Sums)
      ensures gpuIsActive <==> Matched(pids, util, memory)
      ensures t == AddDevice(t0, pids, util, memory)
    {
      gpuIsActive, t := false, t0;
      NobodyAdded(t0, util, memory);
      hide IndexOf, AddDevice, Matched;
      for k := 0 to |pids|
        invariant gpuIsActive <==> Matched(pids[..k], util, memory)
        invariant t == AddDevice(t0, pids[..k], util, memory)
      {
        assert pids[..k + 1] == pids[..k] + [pids[k]];
        ProcessAdded(t0, pids[..k], pids[k], util, memory);
        var i := FirstUtil(util, pids[k]);
        if i < |util| {
          t := t.(sm := (t.sm + util[i].smUtil) % TWO64, mem := (t.mem + util[i].memUtil) % TWO64);
          gpuIsActive := true;
        }
        var j := FirstMemory(memory, pids[k]);
        if j < |memory| {
          t := t.(fb := (t.fb + memory[j].usedGpuMemory / 1024) % TWO64);
          gpuIsActive := true;
        }
      }
      assert pids[..|pids|] == pids;
    }

    /** The loop over the devices: how many are active, the totals, and the newest time seen. */
    method PollDevices(pids: seq<U32>, gs: seq<Gpu>) returns (activeGpus: U32, t: Sums, mark: U64)
      ensures var ds := AskAll(gs, lastSeenTimestamp);
              && mark == Mark(lastSeenTimestamp, ds)
              && activeGpus == DevicesSum(Ngpus, pids, ds) % TWO32
              && SumsOf(t, pids, ds)
    {
      hide DeviceSum, Latest, Matched, AddDevice;
      activeGpus, t, mark := 0, Sums(0, 0, 0), lastSeenTimestamp;
      ghost var ds := AskAll(gs, lastSeenTimestamp);
      for k := 0 to |gs|
        invariant mark == Mark(lastSeenTimestamp, ds[..k])
        invariant activeGpus == DevicesSum(Ngpus, pids, ds[..k]) % TWO32
        invariant SumsOf(t, pids, ds[..k])
      {
        assert ds[..k + 1][..k] == ds[..k];
        if gs[k].Gone? { continue; }
        var ok, d;
        ok, mark, d := QueryDeviceSamples(gs[k], mark);
        if !ok { continue; }
        DeviceAdded(t, pids, ds[..k], d);
        assert ds[..k] + [d] == ds[..k + 1];
        var used;
        used, t := AccumulateProcessStats(pids, Got(d.util), Got(d.memory), t);
        ActiveCounts(pids, Got(d.util), Got(d.memory));
        if used {
          Wrap32(DevicesSum(Ngpus, pids, ds[..k]));
          activeGpus := (activeGpus + 1) % TWO32;
        }
      }
      assert ds[..|ds|] == ds;
    }

    /** `update_stats_nvml`: the totals over the usable devices, pushed once. */
    method UpdateStats(pids: seq<U32>, gs: seq<Gpu>)
      requires Valid()
      modifies this, ngpus, gpusmpct, gpumempct, gpufbmem
      ensures Valid()
      ensures var ds := AskAll(gs, old(lastSeenTimestamp));
              && lastSeenTimestamp == Mark(old(lastSeenTimestamp), ds)
              && ngpus.Read() == After(old(ngpus.Read()), DevicesSum(Ngpus, pids, ds) % TWO32)
              && gpusmpct.Read() == After(old(gpusmpct.Read()), DevicesSum(Gpusmpct, pids, ds) % TWO64)
              && gpumempct.Read() == After(old(gpumempct.Read()), DevicesSum(Gpumempct, pids, ds) % TWO64)
              && gpufbmem.Read() == After(old(gpufbmem.Read()), DevicesSum(Gpufbmem, pids, ds) % TWO64)
    {
      hide After, DevicesSum, Mark, AskAll;
      var activeGpus, t, mark := PollDevices(pids, gs);
      lastSeenTimestamp := mark;
      var _ := ngpus.SetValue(activeGpus);
      var _ := gpusmpct.SetValue(t.sm);
      var _ := gpumempct.SetValue(t.mem);
      var _ := gpufbmem.SetValue(t.fb);
    }
  }

  /** The running totals of a poll, in 64-bit arithmetic. */
  datatype Sums = Sums(sm: U64, mem: U64, fb: U64)

  function AddDevice(t: Sums, pids: seq<U32>, util: seq<UtilSample>, memory: seq<MemoryInfo>): Sums {
    Sums((t.sm + DeviceSum(Gpusmpct, pids, util, memory)) % TWO64,
         (t.mem + DeviceSum(Gpumempct, pids, util, memory)) % TWO64,
         (t.fb + DeviceSum(Gpufbmem, pids, util, memory)) % TWO64)
  }

  predicate Matched(pids: seq<U32>, util: seq<UtilSample>, memory: seq<MemoryInfo>) {
    exists pid :: pid in pids && (pid in UtilPids(util) || pid in MemoryPids(memory))
  }

  lemma NobodyAdded(t: Sums, util: seq<UtilSample>, memory: seq<MemoryInfo>)
    ensures AddDevice(t, [], util, memory) == t && !Matched([], util, memory)
  {
  }

  lemma IndexWithin(ps: seq<U32>, pid: U32)
    ensures IndexOf(ps, pid) < |ps| <==> pid in ps
  {
    if IndexOf(ps, pid) == |ps| {
      assert ps[..|ps|] == ps;
    }
  }

  lemma SumOneMore(pids: seq<U32>, pid: U32, ps: seq<U32>, xs: seq<nat>)
    requires |ps| == |xs|
    ensures var k := IndexOf(ps, pid);
            SumFirst(pids + [pid], ps, xs) == SumFirst(pids, ps, xs) + if k < |ps| then xs[k] else 0
  {
    assert (pids + [pid])[..|pids|] == pids;
  }

  lemma MatchedOneMore(pids: seq<U32>, pid: U32, util: seq<UtilSample>, memory: seq<MemoryInfo>)
    ensures Matched(pids + [pid], util, memory) <==>
            Matched(pids, util, memory) || pid in UtilPids(util) || pid in MemoryPids(memory)
  {
    if Matched(pids, util, memory) {
      var p :| p in pids && (p in UtilPids(util) || p in MemoryPids(memory));
      assert p in pids + [pid];
    }
    assert pid in pids + [pid];
  }

  lemma ProcessAdded(t: Sums, pids: seq<U32>, pid: U32, util: seq<UtilSample>, memory: seq<MemoryInfo>)
    ensures var i, j := IndexOf(UtilPids(util), pid), IndexOf(MemoryPids(memory), pid);
            var t', t'' := AddDevice(t, pids, util, memory), AddDevice(t, pids + [pid], util, memory);
            && t''.sm == (if i < |util| then (t'.sm + util[i].smUtil) % TWO64 else t'.sm)
            && t''.mem == (if i < |util| then (t'.mem + util[i].memUtil) % TWO64 else t'.mem)
            && t''.fb == (if j < |memory| then (t'.fb + memory[j].usedGpuMemory / 1024) % TWO64 else t'.fb)
            && (Matched(pids + [pid], util, memory) <==> Matched(pids, util, memory) || i < |util| || j < |memory|)
  {
    hide IndexOf, SumFirst, Matched;
    var i, j := IndexOf(UtilPids(util), pid), IndexOf(MemoryPids(memory), pid);
    SumOneMore(pids, pid, UtilPids(util), Amounts(Gpusmpct, util));
    SumOneMore(pids, pid, UtilPids(util), Amounts(Gpumempct, util));
    SumOneMore(pids, pid, MemoryPids(memory), Kilobytes(memory));
    IndexWithin(UtilPids(util), pid);
    IndexWithin(MemoryPids(memory), pid);
    MatchedOneMore(pids, pid, util, memory);
    if i < |util| {
      ModAdd(t.sm + DeviceSum(Gpusmpct, pids, util, memory), util[i].smUtil);
      ModAdd(t.mem + DeviceSum(Gpumempct, pids, util, memory), util[i].memUtil);
    }
    if j < |memory| {
      ModAdd(t.fb + DeviceSum(Gpufbmem, pids, util, memory), memory[j].usedGpuMemory / 1024);
    }
  }

  ghost predicate SumsOf(t: Sums, pids: seq<U32>, ds: seq<Device>) {
    && t.sm == DevicesSum(Gpusmpct, pids, ds) % TWO64
    && t.mem == DevicesSum(Gpumempct, pids, ds) % TWO64
    && t.fb == DevicesSum(Gpufbmem, pids, ds) % TWO64
  }

  lemma DeviceAdded(t: Sums, pids: seq<U32>, ds: seq<Device>, d: Device)
    requires SumsOf(t, pids, ds) && Usable(d)
    ensures SumsOf(AddDevice(t, pids, Got(d.util), Got(d.memory)), pids, ds + [d])
  {
    hide DeviceSum;
    assert (ds + [d])[..|ds|] == ds;
    ModAdd(DevicesSum(Gpusmpct, pids, ds), DeviceSum(Gpusmpct, pids, Got(d.util), Got(d.memory)));
    ModAdd(DevicesSum(Gpumempct, pids, ds), DeviceSum(Gpumempct, pids, Got(d.util), Got(d.memory)));
    ModAdd(DevicesSum(Gpufbmem, pids, ds), DeviceSum(Gpufbmem, pids, Got(d.util), Got(d.memory)));
  }

  lemma ActiveCounts(pids: seq<U32>, util: seq<UtilSample>, memory: seq<MemoryInfo>)
    ensures DeviceSum(Ngpus, pids, util, memory) == if Matched(pids, util, memory) then 1 else 0
  {
  }

  lemma Wrap32(n: nat)
    ensures (n % TWO32 + 1) % TWO32 == (n + 1) % TWO32
  {
  }

  // The high-water mark.

  lemma {:induction false} LatestIsHighest(mark: U64, util: seq<UtilSample>)
    ensures mark <= Latest(mark, util)
    ensures forall i :: 0 <= i < |util| ==> util[i].timeStamp <= Latest(mark, util)
    ensures Latest(mark, util) == mark || exists i :: 0 <= i < |util| && util[i].timeStamp == Latest(mark, util)
  {
    if util != [] {
      var n := |util| - 1;
      LatestIsHighest(mark, util[..n]);
      assert forall i :: 0 <= i < n ==> util[..n][i] == util[i];
    }
  }

  /** The device delivered a sample of that time. */
  ghost predicate Delivered(d: Device, t: U64) {
    d.Device? && exists i :: 0 <= i < |Got(d.util)| && Got(d.util)[i].timeStamp == t
  }

  ghost predicate Reported(ds: seq<Device>, t: U64) {
    exists k :: 0 <= k < |ds| && Delivered(ds[k], t)
  }

  lemma ReportedOneMore(before: seq<Device>, d: Device)
    ensures forall t: U64 :: Reported(before + [d], t) <==> Reported(before, t) || Delivered(d, t)
  {
    hide Delivered;
    var ds := before + [d];
    assert ds[|before|] == d && forall k :: 0 <= k < |before| ==> ds[k] == before[k];
    forall t: U64 ensures Reported(ds, t) <==> Reported(before, t) || Delivered(d, t) {
      if k :| 0 <= k < |before| && Delivered(before[k], t) {
        assert Delivered(ds[k], t);
      }
    }
  }

  /** The mark never goes back, covers every utilization sample the poll got, and is one of
      their times unless nothing newer came. */
  lemma {:induction false} MarkIsHighest(mark: U64, ds: seq<Device>)
    ensures mark <= Mark(mark, ds)
    ensures forall t: U64 :: Reported(ds, t) ==> t <= Mark(mark, ds)
    ensures Mark(mark, ds) == mark || Reported(ds, Mark(mark, ds))
  {
    if ds != [] {
      var n := |ds| - 1;
      var before, d := ds[..n], ds[n];
      var m := Mark(mark, before);
      MarkIsHighest(mark, before);
      if d.Device? { LatestIsHighest(m, Got(d.util)); }
      hide Latest, Mark;
      assert forall k :: 0 <= k < n ==> before[k] == ds[k];
      assert forall t: U64 :: Reported(ds, t) <==> Reported(before, t) || Delivered(d, t) by {
        ReportedOneMore(before, d);
        assert ds == before + [d];
      }
      MarkStep(mark, ds);
    }
  }

  lemma MarkStep(mark: U64, ds: seq<Device>)
    requires ds != []
    ensures var d, m := ds[|ds| - 1], Mark(mark, ds[..|ds| - 1]);
            Mark(mark, ds) == if d.Device? && !d.util.Failed? then Latest(m, Got(d.util)) else m
  {
  }
}
