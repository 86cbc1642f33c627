/** `cpumon`: one polling cycle over the processes of the job, and whole runs of cycles. */
module CpuMonitor {
  import opened Wrappers
  import opened MonitoredValue
  import opened Locality

  type NodeId = n: nat | n < 0x8000_0000

  /** Clock ticks from a process's stat file. */
  datatype CpuTimes = CpuTimes(utime: nat, stime: nat, cutime: nat, cstime: nat)

  datatype Thread = Thread(tid: int, cpu: int)

  datatype PageToken = PageToken(node: NodeId, pages: U64)

  /** What one cycle reads about one process: its times unless the stat file is too short,
      the CPU each thread last ran on (-1 if unknown), and its `N<node>=<pages>` tokens. */
  datatype Sample = Sample(times: Option<CpuTimes>, threads: seq<Thread>, pages: seq<PageToken>)

  // What a cycle adds up to.

  function UserTicks(c: seq<Sample>): nat {
    if c == [] then 0
    else UserTicks(c[..|c| - 1]) + var t := c[|c| - 1].times; if t.Some? then t.value.utime + t.value.cutime else 0
  }

  function SystemTicks(c: seq<Sample>): nat {
    if c == [] then 0
    else SystemTicks(c[..|c| - 1]) + var t := c[|c| - 1].times; if t.Some? then t.value.stime + t.value.cstime else 0
  }

  lemma TicksOfOne(s: Sample)
    ensures UserTicks([]) == SystemTicks([]) == 0
    ensures UserTicks([s]) == match s.times case None => 0 case Some(t) => t.utime + t.cutime
    ensures SystemTicks([s]) == match s.times case None => 0 case Some(t) => t.stime + t.cstime
  {
    assert [s][..0] == [];
  }

  lemma {:induction false} TicksAppend(c: seq<Sample>, more: seq<Sample>)
    ensures UserTicks(c + more) == UserTicks(c) + UserTicks(more)
    ensures SystemTicks(c + more) == SystemTicks(c) + SystemTicks(more)
  {
    if more == [] {
      assert c + more == c;
    } else {
      var n := |more| - 1;
      assert (c + more)[..|c| + n] == c + more[..n];
      TicksAppend(c, more[..n]);
    }
  }

  lemma TicksReplaced(c: seq<Sample>, p: nat, s: Sample)
    requires p < |c|
    ensures UserTicks(c[p := s]) + UserTicks([c[p]]) == UserTicks(c) + UserTicks([s])
    ensures SystemTicks(c[p := s]) + SystemTicks([c[p]]) == SystemTicks(c) + SystemTicks([s])
  {
    var before, after := c[..p], c[p + 1..];
    assert c == before + [c[p]] + after && c[p := s] == before + [s] + after;
    hide UserTicks, SystemTicks;
    TicksAppend(before + [c[p]], after);
    TicksAppend(before + [s], after);
    TicksAppend(before, [c[p]]);
    TicksAppend(before, [s]);
  }

  /** What is summed: raising a process's own user time by `user`, its children's by `childUser` and
      so on raises the user ticks by exactly the first two and the system ticks by the others. */
  lemma TicksRise(c: seq<Sample>, p: nat, user: nat, system: nat, childUser: nat, childSystem: nat)
    requires p < |c| && c[p].times.Some?
    ensures var t := c[p].times.value;
            var raised := CpuTimes(t.utime + user, t.stime + system, t.cutime + childUser, t.cstime + childSystem);
            var c' := c[p := c[p].(times := Some(raised))];
            && UserTicks(c') == UserTicks(c) + user + childUser
            && SystemTicks(c') == SystemTicks(c) + system + childSystem
  {
    hide UserTicks, SystemTicks;
    var t := c[p].times.value;
    var raised := CpuTimes(t.utime + user, t.stime + system, t.cutime + childUser, t.cstime + childSystem);
    var s := c[p].(times := Some(raised));
    TicksReplaced(c, p, s);
    TicksOfOne(s);
    TicksOfOne(c[p]);
  }

  /** A process whose stat file is too short adds nothing. */
  lemma UnreadableAddsNothing(c: seq<Sample>, p: nat)
    requires p < |c| && c[p].times == None
    ensures UserTicks(c) == UserTicks(c[..p] + c[p + 1..]) && SystemTicks(c) == SystemTicks(c[..p] + c[p + 1..])
  {
    hide UserTicks, SystemTicks;
    var before, after := c[..p], c[p + 1..];
    assert c == before + [c[p]] + after;
    TicksOfOne(c[p]);
    TicksAppend(before + [c[p]], after);
    TicksAppend(before, [c[p]]);
    TicksAppend(before, after);
  }

  /** The threads whose CPU is known, with its node. */
  function Placed(cpuToNode: map<int, NodeId>, ts: seq<Thread>): seq<Seen> {
    if ts == [] then []
    else
      var t := ts[|ts| - 1];
      Placed(cpuToNode, ts[..|ts| - 1]) +
      if t.cpu >= 0 && t.cpu in cpuToNode then [Seen(t.tid, cpuToNode[t.cpu])] else []
  }

  function PlacedAll(cpuToNode: map<int, NodeId>, c: seq<Sample>): seq<Seen> {
    if c == [] then [] else PlacedAll(cpuToNode, c[..|c| - 1]) + Placed(cpuToNode, c[|c| - 1].threads)
  }

  /** A thread with a CPU that is known and in the table is seen on its node, any other is not. */
  lemma OnePlaced(cpuToNode: map<int, NodeId>, t: Thread)
    ensures Placed(cpuToNode, [t]) ==
            if t.cpu >= 0 && t.cpu in cpuToNode then [Seen(t.tid, cpuToNode[t.cpu])] else []
  {
    assert [t][..0] == [];
  }

  lemma PlacedLast(cpuToNode: map<int, NodeId>, ts: seq<Thread>, t: Thread)
    ensures Placed(cpuToNode, ts + [t]) == Placed(cpuToNode, ts) + Placed(cpuToNode, [t])
  {
    assert (ts + [t])[..|ts|] == ts;
    OnePlaced(cpuToNode, t);
  }

  /** Threads are placed one after the other, and so are processes. */
  lemma {:induction false} PlacedAppend(cpuToNode: map<int, NodeId>, ts: seq<Thread>, more: seq<Thread>)
    ensures Placed(cpuToNode, ts + more) == Placed(cpuToNode, ts) + Placed(cpuToNode, more)
  {
    if more == [] {
      assert ts + more == ts;
    } else {
      hide Placed;
      var n := |more| - 1;
      var front, last := more[..n], more[n];
      assert more == front + [last];
      assert ts + more == (ts + front) + [last];
      PlacedAppend(cpuToNode, ts, front);
      PlacedLast(cpuToNode, front, last);
      PlacedLast(cpuToNode, ts + front, last);
    }
  }

  lemma {:induction false} PlacedAllAppend(cpuToNode: map<int, NodeId>, c: seq<Sample>, more: seq<Sample>)
    ensures PlacedAll(cpuToNode, c + more) == PlacedAll(cpuToNode, c) + PlacedAll(cpuToNode, more)
    ensures forall s :: PlacedAll(cpuToNode, [s]) == Placed(cpuToNode, s.threads)
  {
    hide Placed;
    forall s ensures PlacedAll(cpuToNode, [s]) == Placed(cpuToNode, s.threads) {
      assert [s][..0] == [];
    }
    if more == [] {
      assert c + more == c;
    } else {
      var n := |more| - 1;
      assert (c + more)[..|c| + n] == c + more[..n];
      PlacedAllAppend(cpuToNode, c, more[..n]);
    }
  }

  lemma NothingPlaced(cpuToNode: map<int, NodeId>, c: Compute)
    ensures Placed(cpuToNode, []) == [] && TrackAll(c, []) == c
  {
  }

  lemma PlacedOneMore(cpuToNode: map<int, NodeId>, ts: seq<Thread>, k: nat)
    requires k < |ts|
    ensures var t, past := ts[k], Placed(cpuToNode, ts[..k]);
            Placed(cpuToNode, ts[..k + 1]) ==
            if t.cpu >= 0 && t.cpu in cpuToNode then past + [Seen(t.tid, cpuToNode[t.cpu])] else past
  {
    assert ts[..k + 1][..k] == ts[..k];
  }

  function AddPages(m: map<nat, U64>, t: PageToken): map<nat, U64> {
    m[t.node := ((if t.node in m then m[t.node] else 0) + t.pages) % TWO64]
  }

  function AddAllPages(m: map<nat, U64>, ts: seq<PageToken>): map<nat, U64> {
    if ts == [] then m else AddPages(AddAllPages(m, ts[..|ts| - 1]), ts[|ts| - 1])
  }

  function NodePages(c: seq<Sample>): map<nat, U64> {
    if c == [] then map[] else AddAllPages(NodePages(c[..|c| - 1]), c[|c| - 1].pages)
  }

  /** All the page tokens of the cycle. */
  function Tokens(c: seq<Sample>): seq<PageToken> {
    if c == [] then [] else Tokens(c[..|c| - 1]) + c[|c| - 1].pages
  }

  function PagesOn(ts: seq<PageToken>, node: nat): nat {
    if ts == [] then 0
    else PagesOn(ts[..|ts| - 1], node) + if ts[|ts| - 1].node == node then ts[|ts| - 1].pages else 0
  }

  lemma {:induction false} AddAllAppend(m: map<nat, U64>, ts: seq<PageToken>, us: seq<PageToken>)
    ensures AddAllPages(m, ts + us) == AddAllPages(AddAllPages(m, ts), us)
  {
    if us == [] {
      assert ts + us == ts;
    } else {
      var n := |us| - 1;
      assert (ts + us)[..|ts| + n] == ts + us[..n];
      AddAllAppend(m, ts, us[..n]);
    }
  }

  lemma {:induction false} NodePagesFlat(c: seq<Sample>)
    ensures NodePages(c) == AddAllPages(map[], Tokens(c))
  {
    if c != [] {
      var n := |c| - 1;
      NodePagesFlat(c[..n]);
      AddAllAppend(map[], Tokens(c[..n]), c[n].pages);
    }
  }

  lemma {:induction false} PagesSummed(ts: seq<PageToken>, node: nat)
    ensures var m := AddAllPages(map[], ts);
            && (node in m <==> exists t :: t in ts && t.node == node)
            && (node in m ==> m[node] == PagesOn(ts, node) % TWO64)
            && (node !in m ==> PagesOn(ts, node) == 0)
  {
    if ts != [] {
      var n := |ts| - 1;
      PagesSummed(ts[..n], node);
      ModAdd(PagesOn(ts[..n], node), ts[n].pages);
      assert ts == ts[..n] + [ts[n]];
    }
  }

  /** The page count of a node is the sum over all processes and mappings, modulo 2^64,
      and a node is listed exactly if some token names it. */
  lemma NodePagesAreTotals(c: seq<Sample>, node: nat)
    ensures var m := NodePages(c);
            && (node in m <==> exists t :: t in Tokens(c) && t.node == node)
            && (node in m ==> m[node] == PagesOn(Tokens(c), node) % TWO64)
  {
    NodePagesFlat(c);
    PagesSummed(Tokens(c), node);
  }

  // The state of the monitor.

  datatype CpuState = CpuState(compute: Compute, memory: Memory, utime: Reading, stime: Reading,
                               nodesUsed: Reading, moves: Reading, memNodesUsed: Reading, memMoves: Reading)

  function Start(): CpuState {
    CpuState(NOTHING_SEEN, Memory({}, -1, 0), Fresh(true, 0), Fresh(true, 0), Fresh(true, 0), Fresh(true, 0),
             Fresh(true, 0), Fresh(true, 0))
  }

  function NextMemory(m: Memory, pages: map<nat, U64>, order: seq<nat>): Memory
    requires Enumerates(order, pages)
  {
    if pages == map[] then m
    else Dominate(m.(nodes := m.nodes + pages.Keys), Scan(pages, order).node)
  }

  /** A 64-bit tick total in whole seconds. */
  function Seconds(total: nat, ticks: nat): U64
    requires ticks > 0
  {
    total % TWO64 / ticks
  }

  /** As many whole seconds as fit. */
  lemma SecondsFit(total: nat, ticks: nat)
    requires ticks > 0 && total < TWO64
    ensures Seconds(total, ticks) * ticks <= total < (Seconds(total, ticks) + 1) * ticks
  {
    var q, r := total / ticks, total % ticks;
    assert total % TWO64 == total;
    assert total == ticks * q + r && 0 <= r < ticks;
  }

  /** One cycle: observe, then push every total into its metric. */
  function Next(st: CpuState, cpuToNode: map<int, NodeId>, ticks: nat, c: seq<Sample>, order: seq<nat>): CpuState
    requires ticks > 0 && Enumerates(order, NodePages(c))
  {
    var compute := TrackAll(st.compute, PlacedAll(cpuToNode, c));
    var memory := NextMemory(st.memory, NodePages(c), order);
    CpuState(compute, memory,
             After(st.utime, Seconds(UserTicks(c), ticks)),
             After(st.stime, Seconds(SystemTicks(c), ticks)),
             After(st.nodesUsed, |compute.nodes| % TWO64),
             After(st.moves, compute.migrations),
             After(st.memNodesUsed, |memory.nodes| % TWO64),
             After(st.memMoves, memory.migrations))
  }

  function Visited(order: seq<nat>, k: nat): set<nat>
    requires k <= |order|
  {
    set i | 0 <= i < k :: order[i]
  }

  lemma VisitedNone(order: seq<nat>)
    ensures Visited(order, 0) == {}
  {
  }

  lemma VisitedOneMore(order: seq<nat>, k: nat)
    requires k < |order|
    ensures Visited(order, k + 1) == Visited(order, k) + {order[k]}
  {
  }

  lemma VisitedAll(order: seq<nat>, pages: map<nat, U64>)
    requires Enumerates(order, pages)
    ensures Visited(order, |order|) == pages.Keys
  {
    forall x | x in pages.Keys ensures x in Visited(order, |order|) {
      assert x in order;
    }
  }

  class Monitor {
    const ticks: nat
    const utime: Value
    const stime: Value
    const nodesUsed: Value
    const moves: Value
    const memNodesUsed: Value
    const memMoves: Value
    var cpuToNode: map<int, NodeId>
    var nodesSeen: set<nat>
    var lastSeenNode: map<int, nat>
    var numaMigrations: U64
    var memNodesSeen: set<nat>
    var lastDominantMemNode: int
    var numaMemMigrations: U64

    ghost predicate Valid() {
      ticks > 0 &&
      utime != stime && utime != nodesUsed && utime != moves && utime != memNodesUsed && utime != memMoves &&
      stime != nodesUsed && stime != moves && stime != memNodesUsed && stime != memMoves &&
      nodesUsed != moves && nodesUsed != memNodesUsed && nodesUsed != memMoves &&
      moves != memNodesUsed && moves != memMoves && memNodesUsed != memMoves
    }

    function Now(): CpuState
      reads this, utime, stime, nodesUsed, moves, memNodesUsed, memMoves
    {
      CpuState(Compute(nodesSeen, lastSeenNode, numaMigrations),
               Memory(memNodesSeen, lastDominantMemNode, numaMemMigrations),
               utime.Read(), stime.Read(), nodesUsed.Read(), moves.Read(), memNodesUsed.Read(), memMoves.Read())
    }

    constructor (ticks: nat, cpuToNode: map<int, NodeId>)
      requires ticks > 0
      ensures Valid() && this.ticks == ticks && this.cpuToNode == cpuToNode
      ensures Now() == Start()
    {
      this.ticks := ticks;
      this.cpuToNode := cpuToNode;
      utime := new Value(true, 0);
      stime := new Value(true, 0);
      nodesUsed := new Value(true, 0);
      moves := new Value(true, 0);
      memNodesUsed := new Value(true, 0);
      memMoves := new Value(true, 0);
      nodesSeen, lastSeenNode, numaMigrations := {}, map[], 0;
      memNodesSeen, lastDominantMemNode, numaMemMigrations := {}, -1, 0;
    }

    /** The sums over the stat files, in 64-bit arithmetic. */
    method SumTicks(c: seq<Sample>) returns (user: U64, system: U64)
      ensures user == UserTicks(c) % TWO64 && system == SystemTicks(c) % TWO64
    {
      user, system := 0, 0;
      for k := 0 to |c|
        invariant user == UserTicks(c[..k]) % TWO64 && system == SystemTicks(c[..k]) % TWO64
      {
        assert c[..k + 1][..k] == c[..k];
        if c[k].times.Some? {
          var t := c[k].times.value;
          ModAdd(UserTicks(c[..k]), t.utime + t.cutime);
          ModAdd(SystemTicks(c[..k]), t.stime + t.cstime);
          user := (user + (t.utime + t.cutime)) % TWO64;
          system := (system + (t.stime + t.cstime)) % TWO64;
        }
      }
      assert c[..|c|] == c;
    }

    /** The threads of one process. */
    method TrackProcess(ts: seq<Thread>)
      modifies this`nodesSeen, this`lastSeenNode, this`numaMigrations
      ensures Compute(nodesSeen, lastSeenNode, numaMigrations) ==
              TrackAll(Compute(old(nodesSeen), old(lastSeenNode), old(numaMigrations)), Placed(cpuToNode, ts))
    {
      ghost var start := Compute(nodesSeen, lastSeenNode, numaMigrations);
      hide Placed, TrackAll;
      NothingPlaced(cpuToNode, start);
      for k := 0 to |ts|
        invariant Compute(nodesSeen, lastSeenNode, numaMigrations) == TrackAll(start, Placed(cpuToNode, ts[..k]))
      {
        var tid, cpu := ts[k].tid, ts[k].cpu;
        ghost var placed := Placed(cpuToNode, ts[..k]);
        PlacedOneMore(cpuToNode, ts, k);
        if cpu < 0 || cpu !in cpuToNode { continue; }
        var node := cpuToNode[cpu];
        nodesSeen := nodesSeen + {node};
        if tid in lastSeenNode && lastSeenNode[tid] != node {
          numaMigrations := (numaMigrations + 1) % TWO64;
        }
        lastSeenNode := lastSeenNode[tid := node];
        TrackOneMore(start, placed, Seen(tid, node));
      }
      assert ts[..|ts|] == ts;
    }

    method TrackThreads(c: seq<Sample>)
      modifies this`nodesSeen, this`lastSeenNode, this`numaMigrations
      ensures Compute(nodesSeen, lastSeenNode, numaMigrations) ==
              TrackAll(Compute(old(nodesSeen), old(lastSeenNode), old(numaMigrations)), PlacedAll(cpuToNode, c))
    {
      ghost var start := Compute(nodesSeen, lastSeenNode, numaMigrations);
      for p := 0 to |c|
        invariant Compute(nodesSeen, lastSeenNode, numaMigrations) == TrackAll(start, PlacedAll(cpuToNode, c[..p]))
      {
        TrackProcess(c[p].threads);
        assert c[..p + 1][..p] == c[..p];
        TrackAppend(start, PlacedAll(cpuToNode, c[..p]), Placed(cpuToNode, c[p].threads));
      }
      assert c[..|c|] == c;
    }

    method CollectPages(c: seq<Sample>) returns (pages: map<nat, U64>)
      ensures pages == NodePages(c)
    {
      pages := map[];
      for p := 0 to |c|
        invariant pages == NodePages(c[..p])
      {
        var ts := c[p].pages;
        ghost var before := pages;
        for k := 0 to |ts|
          invariant pages == AddAllPages(before, ts[..k])
        {
          assert ts[..k + 1][..k] == ts[..k];
          pages := AddPages(pages, ts[k]);
        }
        assert ts[..|ts|] == ts && c[..p + 1][..p] == c[..p];
      }
      assert c[..|c|] == c;
    }

    /** Visits the pages in the given order, whatever the map's iteration order is. */
    method TrackDominant(pages: map<nat, U64>, order: seq<nat>)
      requires Enumerates(order, pages)
      modifies this`memNodesSeen, this`lastDominantMemNode, this`numaMemMigrations
      ensures Memory(memNodesSeen, lastDominantMemNode, numaMemMigrations) ==
              NextMemory(Memory(old(memNodesSeen), old(lastDominantMemNode), old(numaMemMigrations)), pages, order)
    {
      hide Visited;
      if pages == map[] { return; }
      var dominantNode: int, dominantPages: U64 := -1, 0;
      VisitedNone(order);
      for k := 0 to |order|
        invariant Scan(pages, order[..k]) == Lead(dominantNode, dominantPages)
        invariant memNodesSeen == old(memNodesSeen) + Visited(order, k)
        invariant lastDominantMemNode == old(lastDominantMemNode) && numaMemMigrations == old(numaMemMigrations)
      {
        assert order[..k + 1][..k] == order[..k] && order[k] in order;
        VisitedOneMore(order, k);
        memNodesSeen := memNodesSeen + {order[k]};
        if pages[order[k]] > dominantPages {
          dominantPages := pages[order[k]];
          dominantNode := order[k];
        }
      }
      assert order[..|order|] == order;
      VisitedAll(order, pages);
      if lastDominantMemNode != -1 && dominantNode != lastDominantMemNode {
        numaMemMigrations := (numaMemMigrations + 1) % TWO64;
      }
      lastDominantMemNode := dominantNode;
    }

    /** `update_stats`. */
    method UpdateStats(c: seq<Sample>, order: seq<nat>)
      requires Valid() && Enumerates(order, NodePages(c))
      modifies this, utime, stime, nodesUsed, moves, memNodesUsed, memMoves
      ensures Valid() && cpuToNode == old(cpuToNode)
      ensures Now() == Next(old(Now()), cpuToNode, ticks, c, order)
    {
      var user, system := SumTicks(c);
      var _ := utime.SetValue(user / ticks);
      var _ := stime.SetValue(system / ticks);
      TrackThreads(c);
      var _ := nodesUsed.SetValue(|nodesSeen| % TWO64);
      var _ := moves.SetValue(numaMigrations);
      var pages := CollectPages(c);
      TrackDominant(pages, order);
      var _ := memNodesUsed.SetValue(|memNodesSeen| % TWO64);
      var _ := memMoves.SetValue(numaMemMigrations);
    }
  }

  // Whole runs.

  /** A run of the monitor: nothing yet, or a run followed by one more cycle, with the
      order in which its page map was visited. */
  datatype Run = Started | Then(past: Run, samples: seq<Sample>, order: seq<nat>)

  ghost predicate Possible(run: Run) {
    run.Then? ==> Possible(run.past) && Enumerates(run.order, NodePages(run.samples))
  }

  function Outcome(cpuToNode: map<int, NodeId>, ticks: nat, run: Run): CpuState
    requires ticks > 0 && Possible(run)
  {
    match run
    case Started => Start()
    case Then(past, c, order) => Next(Outcome(cpuToNode, ticks, past), cpuToNode, ticks, c, order)
  }

  /** Everything the threads of the job were seen doing. */
  function History(cpuToNode: map<int, NodeId>, run: Run): seq<Seen> {
    match run
    case Started => []
    case Then(past, c, _) => History(cpuToNode, past) + PlacedAll(cpuToNode, c)
  }

  /** The dominant node of a cycle, if it listed any pages. */
  function Dominant(c: seq<Sample>, order: seq<nat>): (ds: seq<int>)
    requires Enumerates(order, NodePages(c))
    ensures |ds| <= 1
  {
    if NodePages(c) == map[] then [] else [Scan(NodePages(c), order).node]
  }

  function Dominants(run: Run): seq<int>
    requires Possible(run)
  {
    match run
    case Started => []
    case Then(past, c, order) => Dominants(past) + Dominant(c, order)
  }

  function MemoryNodes(run: Run): set<nat> {
    match run
    case Started => {}
    case Then(past, c, _) => MemoryNodes(past) + NodePages(c).Keys
  }

  /** The total CPU seconds of each cycle. */
  function UserSeconds(ticks: nat, run: Run): seq<U64>
    requires ticks > 0
  {
    match run
    case Started => []
    case Then(past, c, _) => UserSeconds(ticks, past) + [Seconds(UserTicks(c), ticks)]
  }

  function SystemSeconds(ticks: nat, run: Run): seq<U64>
    requires ticks > 0
  {
    match run
    case Started => []
    case Then(past, c, _) => SystemSeconds(ticks, past) + [Seconds(SystemTicks(c), ticks)]
  }

  lemma {:induction false} HistoryTracked(cpuToNode: map<int, NodeId>, ticks: nat, run: Run)
    requires ticks > 0 && Possible(run)
    ensures Outcome(cpuToNode, ticks, run).compute == TrackAll(NOTHING_SEEN, History(cpuToNode, run))
  {
    if run.Then? {
      HistoryTracked(cpuToNode, ticks, run.past);
      TrackAppend(NOTHING_SEEN, History(cpuToNode, run.past), PlacedAll(cpuToNode, run.samples));
    }
  }

  const NO_MEMORY := Memory({}, -1, 0)

  lemma MemoryStep(m: Memory, ds: seq<int>, nodes: set<nat>, c: seq<Sample>, order: seq<nat>)
    requires Enumerates(order, NodePages(c)) && m == DominateAll(NO_MEMORY, ds).(nodes := nodes)
    ensures NextMemory(m, NodePages(c), order) ==
            DominateAll(NO_MEMORY, ds + Dominant(c, order)).(nodes := nodes + NodePages(c).Keys)
  {
    var pages := NodePages(c);
    hide NodePages, Scan;
    if pages == map[] {
      assert ds + [] == ds && nodes + pages.Keys == nodes;
    } else {
      DominateOneMore(NO_MEMORY, ds, Scan(pages, order).node);
    }
  }

  lemma {:induction false} MemoryTracked(cpuToNode: map<int, NodeId>, ticks: nat, run: Run)
    requires ticks > 0 && Possible(run)
    ensures Outcome(cpuToNode, ticks, run).memory == DominateAll(NO_MEMORY, Dominants(run)).(nodes := MemoryNodes(run))
  {
    hide NodePages, NextMemory, TrackAll, After, Enumerates, Dominant;
    if run.Then? {
      MemoryTracked(cpuToNode, ticks, run.past);
      var past := Outcome(cpuToNode, ticks, run.past).memory;
      MemoryStep(past, Dominants(run.past), MemoryNodes(run.past), run.samples, run.order);
    }
  }

  lemma {:induction false} TimesPushed(cpuToNode: map<int, NodeId>, ticks: nat, run: Run)
    requires ticks > 0 && Possible(run)
    ensures var st := Outcome(cpuToNode, ticks, run);
            && st.utime == AfterAll(Fresh(true, 0), UserSeconds(ticks, run))
            && st.stime == AfterAll(Fresh(true, 0), SystemSeconds(ticks, run))
  {
    hide After, NodePages, NextMemory, TrackAll, UserTicks, SystemTicks, Enumerates;
    if run.Then? {
      TimesPushed(cpuToNode, ticks, run.past);
      AfterOneMore(Fresh(true, 0), UserSeconds(ticks, run.past), Seconds(UserTicks(run.samples), ticks));
      AfterOneMore(Fresh(true, 0), SystemSeconds(ticks, run.past), Seconds(SystemTicks(run.samples), ticks));
    }
  }

  /** CPU times report the largest total of any cycle so far: a cycle that lost a finished
      process, and so adds up to less, is rejected and changes nothing. */
  lemma TimesAreRunningMaxima(cpuToNode: map<int, NodeId>, ticks: nat, run: Run)
    requires ticks > 0 && Possible(run)
    ensures var st := Outcome(cpuToNode, ticks, run);
            st.utime == HighWater(UserSeconds(ticks, run), 0) && st.stime == HighWater(SystemSeconds(ticks, run), 0)
  {
    var us, ss := UserSeconds(ticks, run), SystemSeconds(ticks, run);
    TimesPushed(cpuToNode, ticks, run);
    MonotonicClosedForm(0, us);
    MonotonicClosedForm(0, ss);
    AboveZero(us);
    AboveZero(ss);
  }

  // The node counts are counts of `int` values, so they fit in 64 bits.

  lemma {:induction false} CardinalityBound(s: set<nat>, hi: nat)
    requires forall x :: x in s ==> x < hi
    ensures |s| <= hi
  {
    if hi == 0 {
      assert s == {};
    } else {
      CardinalityBound(s - {hi - 1}, hi - 1);
    }
  }

  lemma {:induction false} PlacedNodes(cpuToNode: map<int, NodeId>, ts: seq<Thread>)
    ensures forall o :: o in Placed(cpuToNode, ts) ==> o.node < 0x8000_0000
  {
    if ts != [] {
      PlacedNodes(cpuToNode, ts[..|ts| - 1]);
    }
  }

  lemma {:induction false} PlacedAllNodes(cpuToNode: map<int, NodeId>, c: seq<Sample>)
    ensures forall o :: o in PlacedAll(cpuToNode, c) ==> o.node < 0x8000_0000
  {
    if c != [] {
      PlacedAllNodes(cpuToNode, c[..|c| - 1]);
      PlacedNodes(cpuToNode, c[|c| - 1].threads);
    }
  }

  lemma {:induction false} NodesFit(cpuToNode: map<int, NodeId>, run: Run)
    ensures forall o :: o in History(cpuToNode, run) ==> o.node < 0x8000_0000
    ensures forall x :: x in MemoryNodes(run) ==> x < 0x8000_0000
  {
    if run.Then? {
      NodesFit(cpuToNode, run.past);
      PlacedAllNodes(cpuToNode, run.samples);
      forall x | x in NodePages(run.samples) ensures x < 0x8000_0000 {
        NodePagesAreTotals(run.samples, x);
      }
    }
  }

  lemma NodeCountsFit(cpuToNode: map<int, NodeId>, run: Run)
    ensures |Nodes(History(cpuToNode, run))| < TWO64 && |MemoryNodes(run)| < TWO64
  {
    var os := History(cpuToNode, run);
    NodesFit(cpuToNode, run);
    forall x | x in Nodes(os) ensures x < 0x8000_0000 {
      var k :| 0 <= k < |os| && os[k].node == x;
      assert os[k] in os;
    }
    CardinalityBound(Nodes(os), 0x8000_0000);
    CardinalityBound(MemoryNodes(run), 0x8000_0000);
  }

  // The NUMA metrics report the counters themselves.

  /** The reading of a metric that took every value pushed to it, the last being `v`. */
  function Showing(v: U64): Reading {
    Fresh(true, 0).(value := v, peak := v)
  }

  /** A value pushed to a metric that shows no more than it is taken. */
  lemma Pushed(v: U64, v': U64)
    requires v <= v'
    ensures After(Showing(v), v') == Showing(v')
  {
  }

  lemma SubsetSize(s: set<nat>, t: set<nat>)
    requires s <= t
    ensures |s| <= |t|
  {
    assert t == s + (t - s);
  }

  lemma NodesMonotone(os: seq<Seen>, more: seq<Seen>)
    ensures |Nodes(os)| <= |Nodes(os + more)|
  {
    forall x | x in Nodes(os) ensures x in Nodes(os + more) {
      var k :| 0 <= k < |os| && os[k].node == x;
      assert (os + more)[k].node == x;
    }
    SubsetSize(Nodes(os), Nodes(os + more));
  }

  /** What the metrics push after a run, from the observations alone. */
  datatype Counters = Counters(nodes: nat, moves: nat, memNodes: nat, memMoves: nat)

  ghost function Totals(cpuToNode: map<int, NodeId>, run: Run): Counters
    requires Possible(run)
  {
    var seen := History(cpuToNode, run);
    Counters(|Nodes(seen)|, Moves(seen), |MemoryNodes(run)|, Departures(Dominants(run)))
  }

  /** Each cycle pushes these totals, in 64-bit arithmetic ... */
  lemma TotalsPushed(cpuToNode: map<int, NodeId>, ticks: nat, run: Run)
    requires ticks > 0 && Possible(run) && run.Then?
    ensures var t, st := Totals(cpuToNode, run), Outcome(cpuToNode, ticks, run);
            var past := Outcome(cpuToNode, ticks, run.past);
            && st.nodesUsed == After(past.nodesUsed, t.nodes % TWO64)
            && st.moves == After(past.moves, t.moves % TWO64)
            && st.memNodesUsed == After(past.memNodesUsed, t.memNodes % TWO64)
            && st.memMoves == After(past.memMoves, t.memMoves % TWO64)
  {
    HistoryTracked(cpuToNode, ticks, run);
    MemoryTracked(cpuToNode, ticks, run);
    TrackingCounts(History(cpuToNode, run));
    DominanceCounts(Dominants(run));
    hide Nodes, Moves, Departures, After, NodePages, TrackAll, DominateAll, NextMemory, Enumerates;
    hide History, Dominants, MemoryNodes;
  }

  /** ... and none of them ever falls. */
  lemma TotalsGrow(cpuToNode: map<int, NodeId>, run: Run)
    requires Possible(run) && run.Then?
    ensures var t, t' := Totals(cpuToNode, run.past), Totals(cpuToNode, run);
            t.nodes <= t'.nodes && t.moves <= t'.moves && t.memNodes <= t'.memNodes && t.memMoves <= t'.memMoves
  {
    hide Nodes, Moves, Departures, NodePages, Dominant, Enumerates, PlacedAll;
    NodesMonotone(History(cpuToNode, run.past), PlacedAll(cpuToNode, run.samples));
    MovesMonotone(History(cpuToNode, run.past), PlacedAll(cpuToNode, run.samples));
    SubsetSize(MemoryNodes(run.past), MemoryNodes(run));
    DeparturesMonotone(Dominants(run.past), Dominant(run.samples, run.order));
  }

  /** The four NUMA metrics show the totals: the node counts always, the migration counts
      until they reach 2^64. */
  ghost predicate Reports(st: CpuState, t: Counters) {
    && t.nodes < TWO64 && st.nodesUsed == Showing(t.nodes)
    && t.memNodes < TWO64 && st.memNodesUsed == Showing(t.memNodes)
    && (t.moves < TWO64 ==> st.moves == Showing(t.moves))
    && (t.memMoves < TWO64 ==> st.memMoves == Showing(t.memMoves))
  }

  lemma ReportsStep(past: CpuState, st: CpuState, t: Counters, t': Counters)
    requires Reports(past, t) && t'.nodes < TWO64 && t'.memNodes < TWO64
    requires t.nodes <= t'.nodes && t.moves <= t'.moves && t.memNodes <= t'.memNodes && t.memMoves <= t'.memMoves
    requires st.nodesUsed == After(past.nodesUsed, t'.nodes % TWO64) && st.moves == After(past.moves, t'.moves % TWO64)
    requires st.memNodesUsed == After(past.memNodesUsed, t'.memNodes % TWO64)
    requires st.memMoves == After(past.memMoves, t'.memMoves % TWO64)
    ensures Reports(st, t')
  {
    hide After, Showing;
    Pushed(t.nodes, t'.nodes);
    Pushed(t.memNodes, t'.memNodes);
    if t'.moves < TWO64 { Pushed(t.moves, t'.moves); }
    if t'.memMoves < TWO64 { Pushed(t.memMoves, t'.memMoves); }
  }

  /** After any run the NUMA metrics report the totals: nothing pushed to the node counts is
      ever rejected, and nothing pushed to the migration counts is, until 2^64 migrations. */
  lemma {:induction false} NumaMetricsReported(cpuToNode: map<int, NodeId>, ticks: nat, run: Run)
    requires ticks > 0 && Possible(run)
    ensures Reports(Outcome(cpuToNode, ticks, run), Totals(cpuToNode, run))
  {
    NodeCountsFit(cpuToNode, run);
    assert Totals(cpuToNode, run).nodes < TWO64 && Totals(cpuToNode, run).memNodes < TWO64;
    if run.Then? {
      hide Totals, Reports, After;
      NumaMetricsReported(cpuToNode, ticks, run.past);
      TotalsPushed(cpuToNode, ticks, run);
      TotalsGrow(cpuToNode, run);
      ReportsStep(Outcome(cpuToNode, ticks, run.past), Outcome(cpuToNode, ticks, run),
                  Totals(cpuToNode, run.past), Totals(cpuToNode, run));
    } else {
      NothingYet(cpuToNode);
    }
  }

  lemma NothingYet(cpuToNode: map<int, NodeId>)
    ensures Totals(cpuToNode, Started) == Counters(0, 0, 0, 0) && Showing(0) == Fresh(true, 0)
  {
    NothingMoves();
  }

  // The order in which page maps are visited.

  /** Two runs that read the same, and may differ in the orders only. */
  predicate SameSamples(run: Run, run': Run) {
    match (run, run')
    case (Started, Started) => true
    case (Then(past, c, _), Then(past', c', _)) => c == c' && SameSamples(past, past')
    case _ => false
  }

  /** In every cycle that lists pages a single node has the most, or none has any. */
  ghost predicate Unambiguous(run: Run) {
    run.Then? ==> Unambiguous(run.past) && ClearCycle(NodePages(run.samples))
  }

  ghost predicate ClearCycle(pages: map<nat, U64>) {
    pages == map[] || exists k :: IsMost(pages, k) && (pages[k] == 0 || forall j :: IsMost(pages, j) ==> j == k)
  }

  lemma ClearStep(m: Memory, pages: map<nat, U64>, order: seq<nat>, order': seq<nat>)
    requires Enumerates(order, pages) && Enumerates(order', pages) && ClearCycle(pages)
    ensures NextMemory(m, pages, order) == NextMemory(m, pages, order')
  {
    hide Scan, Enumerates;
    if pages != map[] {
      var k :| IsMost(pages, k) && (pages[k] == 0 || forall j :: IsMost(pages, j) ==> j == k);
      DominantAnyOrder(pages, k);
    }
  }

  /** Then no order matters: the whole state, with every metric, is the same after any run over
      the same samples. */
  lemma {:induction false} OrdersDoNotMatter(cpuToNode: map<int, NodeId>, ticks: nat, run: Run, run': Run)
    requires ticks > 0 && Possible(run) && Possible(run') && SameSamples(run, run') && Unambiguous(run)
    ensures Outcome(cpuToNode, ticks, run) == Outcome(cpuToNode, ticks, run')
  {
    hide NodePages, NextMemory, TrackAll, After, Enumerates, ClearCycle, UserTicks, SystemTicks;
    if run.Then? {
      OrdersDoNotMatter(cpuToNode, ticks, run.past, run'.past);
      ClearStep(Outcome(cpuToNode, ticks, run.past).memory, NodePages(run.samples), run.order, run'.order);
    }
  }

  /** The two runs are in the same state now and were after every earlier cycle. */
  ghost predicate Agree(cpuToNode: map<int, NodeId>, ticks: nat, run: Run, run': Run)
    requires ticks > 0 && Possible(run) && Possible(run')
  {
    && Outcome(cpuToNode, ticks, run) == Outcome(cpuToNode, ticks, run')
    && (run.Then? && run'.Then? ==> Agree(cpuToNode, ticks, run.past, run'.past))
  }

  /** Whatever the orders, runs over these samples agree. */
  ghost predicate OrderFree(cpuToNode: map<int, NodeId>, ticks: nat, run: Run)
    requires ticks > 0
  {
    forall r, r' :: Possible(r) && Possible(r') && SameSamples(run, r) && SameSamples(run, r') ==>
      Agree(cpuToNode, ticks, r, r')
  }

  lemma {:induction false} SameSamplesShared(run: Run, r: Run, r': Run)
    requires SameSamples(run, r) && SameSamples(run, r')
    ensures SameSamples(r, r') && (Unambiguous(run) ==> Unambiguous(r))
  {
    hide ClearCycle, NodePages;
    if run.Then? {
      SameSamplesShared(run.past, r.past, r'.past);
    }
  }

  lemma {:induction false} ClearRunsAgree(cpuToNode: map<int, NodeId>, ticks: nat, r: Run, r': Run)
    requires ticks > 0 && Possible(r) && Possible(r') && SameSamples(r, r') && Unambiguous(r)
    ensures Agree(cpuToNode, ticks, r, r')
  {
    hide Outcome, NodePages, Enumerates, ClearCycle;
    OrdersDoNotMatter(cpuToNode, ticks, r, r');
    if r.Then? {
      ClearRunsAgree(cpuToNode, ticks, r.past, r'.past);
    }
  }

  lemma SomeMost(pages: map<nat, U64>) returns (k: nat)
    requires pages != map[]
    ensures IsMost(pages, k)
  {
    var order := Listing(pages.Keys);
    ScanFindsMost(pages, order);
    var lead := Scan(pages, order);
    assert forall j :: j in pages ==> j in order;
    if lead.pages > 0 {
      k := lead.node;
    } else {
      k :| k in pages;
    }
  }

  lemma OrderFreePast(cpuToNode: map<int, NodeId>, ticks: nat, run: Run)
    requires ticks > 0 && Possible(run) && run.Then? && OrderFree(cpuToNode, ticks, run)
    ensures OrderFree(cpuToNode, ticks, run.past)
  {
    hide Outcome, NodePages, Enumerates;
    forall r, r' | Possible(r) && Possible(r') && SameSamples(run.past, r) && SameSamples(run.past, r')
      ensures Agree(cpuToNode, ticks, r, r')
    {
      var s, s' := Then(r, run.samples, run.order), Then(r', run.samples, run.order);
      assert Possible(s) && Possible(s') && SameSamples(run, s) && SameSamples(run, s');
      assert Agree(cpuToNode, ticks, s, s');
    }
  }

  lemma {:induction false} SameAsItself(run: Run)
    ensures SameSamples(run, run)
  {
    if run.Then? {
      SameAsItself(run.past);
    }
  }

  lemma OrderFreeScan(cpuToNode: map<int, NodeId>, ticks: nat, run: Run, o: seq<nat>, o': seq<nat>)
    requires ticks > 0 && Possible(run) && run.Then? && OrderFree(cpuToNode, ticks, run)
    requires NodePages(run.samples) != map[]
    requires Enumerates(o, NodePages(run.samples)) && Enumerates(o', NodePages(run.samples))
    ensures Scan(NodePages(run.samples), o).node == Scan(NodePages(run.samples), o').node
  {
    hide Outcome, NodePages, Scan, Enumerates;
    SameAsItself(run.past);
    var s, s' := Then(run.past, run.samples, o), Then(run.past, run.samples, o');
    assert SameSamples(run, s) && SameSamples(run, s');
    assert Agree(cpuToNode, ticks, s, s');
    DominantIsScan(cpuToNode, ticks, s);
    DominantIsScan(cpuToNode, ticks, s');
  }

  lemma ScansAgree(pages: map<nat, U64>, k: nat)
    requires IsMost(pages, k)
    requires forall o, o' :: Enumerates(o, pages) && Enumerates(o', pages) ==>
               Scan(pages, o).node == Scan(pages, o').node
    ensures ClearCycle(pages)
  {
    hide Scan, Enumerates;
    DominantAnyOrder(pages, k);
  }

  lemma OrderFreeCycle(cpuToNode: map<int, NodeId>, ticks: nat, run: Run)
    requires ticks > 0 && Possible(run) && run.Then? && OrderFree(cpuToNode, ticks, run)
    ensures ClearCycle(NodePages(run.samples))
  {
    hide Scan, NodePages, OrderFree;
    var pages := NodePages(run.samples);
    if pages != map[] {
      var k := SomeMost(pages);
      forall o, o' | Enumerates(o, pages) && Enumerates(o', pages) ensures Scan(pages, o).node == Scan(pages, o').node {
        OrderFreeScan(cpuToNode, ticks, run, o, o');
      }
      hide Enumerates, IsMost, ClearCycle;
      ScansAgree(pages, k);
    }
  }

  lemma DominantIsScan(cpuToNode: map<int, NodeId>, ticks: nat, run: Run)
    requires ticks > 0 && Possible(run) && run.Then? && NodePages(run.samples) != map[]
    ensures Outcome(cpuToNode, ticks, run).memory.dominant == Scan(NodePages(run.samples), run.order).node
  {
    hide NodePages, Scan, TrackAll, After, UserTicks, SystemTicks, Enumerates;
  }

  /** No order of visiting matters at any time of a run over these samples exactly if in every cycle
      that lists pages a single node has the most, or none has any. */
  lemma {:induction false} OrderFreeIff(cpuToNode: map<int, NodeId>, ticks: nat, run: Run)
    requires ticks > 0 && Possible(run)
    ensures OrderFree(cpuToNode, ticks, run) <==> Unambiguous(run)
  {
    hide Outcome, NodePages, Enumerates, ClearCycle, Agree;
    if Unambiguous(run) {
      forall r, r' | Possible(r) && Possible(r') && SameSamples(run, r) && SameSamples(run, r')
        ensures Agree(cpuToNode, ticks, r, r')
      {
        SameSamplesShared(run, r, r');
        ClearRunsAgree(cpuToNode, ticks, r, r');
      }
    }
    if OrderFree(cpuToNode, ticks, run) && run.Then? {
      OrderFreePast(cpuToNode, ticks, run);
      OrderFreeIff(cpuToNode, ticks, run.past);
      OrderFreeCycle(cpuToNode, ticks, run);
    }
  }

  // What the reported counters have to do with each other.

  /** Below 2^64 migrations, no more nodes are reported than migrations and threads together. */
  lemma ReportedNodesNeedMoves(cpuToNode: map<int, NodeId>, ticks: nat, run: Run)
    requires ticks > 0 && Possible(run) && Moves(History(cpuToNode, run)) < TWO64
    ensures var st := Outcome(cpuToNode, ticks, run);
            st.nodesUsed.value <= st.moves.value + |st.compute.last|
  {
    var seen := History(cpuToNode, run);
    NumaMetricsReported(cpuToNode, ticks, run);
    HistoryTracked(cpuToNode, ticks, run);
    TrackingCounts(seen);
    NodesNeedMoves(seen);
    hide Nodes, Moves, Threads, History, Outcome, TrackAll, Departures, Dominants, MemoryNodes;
    assert Outcome(cpuToNode, ticks, run).compute.last.Keys == Threads(seen);
  }

  /** Every cycle that lists pages has a node with some. */
  ghost predicate AlwaysPages(run: Run) {
    run.Then? ==> AlwaysPages(run.past) && SomePages(NodePages(run.samples))
  }

  ghost predicate SomePages(pages: map<nat, U64>) {
    pages == map[] || exists k :: k in pages && pages[k] > 0
  }

  lemma SomePagesIff(c: seq<Sample>, order: seq<nat>)
    requires Enumerates(order, NodePages(c))
    ensures SomePages(NodePages(c)) <==> -1 !in Dominant(c, order)
  {
    var pages := NodePages(c);
    ScanFindsMost(pages, order);
    hide NodePages, Scan;
    if k :| k in pages && pages[k] > 0 {
      assert k in order;
    }
  }

  lemma {:induction false} AlwaysPagesIff(run: Run)
    requires Possible(run)
    ensures AlwaysPages(run) <==> -1 !in Dominants(run)
  {
    hide NodePages, Dominant, Enumerates, SomePages;
    if run.Then? {
      AlwaysPagesIff(run.past);
      SomePagesIff(run.samples, run.order);
    }
  }

  /** Below 2^64 the reported memory migrations are all adjacent changes of the dominant node exactly
      if no node dominates right after a cycle where none did; so they are if every cycle that
      lists pages has a node with some. */
  lemma MemoryMovesAreChanges(cpuToNode: map<int, NodeId>, ticks: nat, run: Run)
    requires ticks > 0 && Possible(run) && Departures(Dominants(run)) < TWO64
    ensures var ds, shown := Dominants(run), Outcome(cpuToNode, ticks, run).memMoves.value;
            && (shown == Changes(ds) <==> forall k :: 0 < k < |ds| && ds[k - 1] == -1 ==> ds[k] == -1)
            && (AlwaysPages(run) ==> shown == Changes(ds))
  {
    var ds := Dominants(run);
    hide Nodes, Moves, History, Outcome, Departures, Dominants, MemoryNodes, Changes, AlwaysPages;
    assert Outcome(cpuToNode, ticks, run).memMoves.value == Departures(ds) by {
      NumaMetricsReported(cpuToNode, ticks, run);
    }
    DeparturesAreChanges(ds);
    if AlwaysPages(run) {
      AlwaysPagesIff(run);
      assert forall k :: 0 <= k < |ds| ==> ds[k] in ds;
    }
  }
}
