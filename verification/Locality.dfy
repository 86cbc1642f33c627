/** The bookkeeping behind the NUMA metrics: which nodes threads ran on and how often they
    moved, which memory node dominates and how often that changed. */
module Locality {
  import opened MonitoredValue

  // Compute locality.

  /** A thread seen running on a node. */
  datatype Seen = Seen(tid: int, node: nat)

  datatype Compute = Compute(nodes: set<nat>, last: map<int, nat>, migrations: U64)

  const NOTHING_SEEN := Compute({}, map[], 0)

  function Track(c: Compute, o: Seen): Compute {
    Compute(c.nodes + {o.node}, c.last[o.tid := o.node],
            if o.tid in c.last && c.last[o.tid] != o.node then (c.migrations + 1) % TWO64 else c.migrations)
  }

  function TrackAll(c: Compute, os: seq<Seen>): Compute {
    if os == [] then c else Track(TrackAll(c, os[..|os| - 1]), os[|os| - 1])
  }

  lemma {:induction false} TrackAppend(c: Compute, os: seq<Seen>, more: seq<Seen>)
    ensures TrackAll(c, os + more) == TrackAll(TrackAll(c, os), more)
  {
    if more == [] {
      assert os + more == os;
    } else {
      var n := |more| - 1;
      assert (os + more)[..|os| + n] == os + more[..n];
      TrackAppend(c, os, more[..n]);
    }
  }

  lemma TrackOneMore(c: Compute, os: seq<Seen>, o: Seen)
    ensures TrackAll(c, os + [o]) == Track(TrackAll(c, os), o)
  {
    assert (os + [o])[..|os|] == os;
  }

  // What the observations themselves say.

  function Nodes(os: seq<Seen>): set<nat> {
    set k | 0 <= k < |os| :: os[k].node
  }

  function Threads(os: seq<Seen>): set<int> {
    set k | 0 <= k < |os| :: os[k].tid
  }

  /** The nodes one thread was seen on, in order. */
  function NodesOf(os: seq<Seen>, tid: int): seq<int> {
    if os == [] then []
    else NodesOf(os[..|os| - 1], tid) + if os[|os| - 1].tid == tid then [os[|os| - 1].node] else []
  }

  /** The number of adjacent changes. */
  function Changes(s: seq<int>): nat {
    if |s| < 2 then 0 else Changes(s[..|s| - 1]) + if s[|s| - 2] != s[|s| - 1] then 1 else 0
  }

  ghost function SumOver<T>(ts: set<T>, f: T -> nat): nat {
    if ts == {} then 0 else var t :| t in ts; f(t) + SumOver(ts - {t}, f)
  }

  /** The changes of node summed over all threads seen. */
  ghost function Moves(os: seq<Seen>): nat {
    SumOver(Threads(os), t => Changes(NodesOf(os, t)))
  }

  lemma {:induction false} SumPick<T>(ts: set<T>, f: T -> nat, t: T)
    requires t in ts
    ensures SumOver(ts, f) == f(t) + SumOver(ts - {t}, f)
    decreases |ts|
  {
    var u :| u in ts && SumOver(ts, f) == f(u) + SumOver(ts - {u}, f);
    if u != t {
      SumPick(ts - {u}, f, t);
      assert ts - {u} - {t} == ts - {t} - {u};
      SumPick(ts - {t}, f, u);
    }
  }

  lemma {:induction false} SumSame<T>(ts: set<T>, f: T -> nat, g: T -> nat)
    requires forall t :: t in ts ==> f(t) == g(t)
    ensures SumOver(ts, f) == SumOver(ts, g)
    decreases |ts|
  {
    if ts != {} {
      var t :| t in ts;
      SumPick(ts, f, t);
      SumPick(ts, g, t);
      SumSame(ts - {t}, f, g);
    }
  }

  lemma SeenAppend(os: seq<Seen>, o: Seen)
    ensures Threads(os + [o]) == Threads(os) + {o.tid}
    ensures Nodes(os + [o]) == Nodes(os) + {o.node}
  {
    var os' := os + [o];
    assert forall k :: 0 <= k < |os| ==> os'[k] == os[k];
    assert os'[|os|] == o;
    forall t | t in Threads(os) ensures t in Threads(os') {
      var k :| 0 <= k < |os| && os[k].tid == t;
      assert os'[k].tid == t;
    }
    forall x | x in Nodes(os) ensures x in Nodes(os') {
      var k :| 0 <= k < |os| && os[k].node == x;
      assert os'[k].node == x;
    }
  }

  lemma {:induction false} SeenThreads(os: seq<Seen>, tid: int)
    ensures tid in Threads(os) <==> NodesOf(os, tid) != []
  {
    if os != [] {
      var n := |os| - 1;
      SeenThreads(os[..n], tid);
      assert os == os[..n] + [os[n]];
      SeenAppend(os[..n], os[n]);
    }
  }

  lemma NodesAppend(os: seq<Seen>, o: Seen, u: int)
    ensures NodesOf(os + [o], u) == NodesOf(os, u) + if u == o.tid then [o.node] else []
  {
    assert (os + [o])[..|os|] == os;
  }

  lemma ChangesAppend(ns: seq<int>, x: int)
    ensures Changes(ns + [x]) == (if ns == [] then 0 else Changes(ns)) + if ns != [] && ns[|ns| - 1] != x then 1 else 0
    ensures Changes([]) == 0
  {
    assert (ns + [x])[..|ns|] == ns;
  }

  /** One more observation adds a change for its own thread only. */
  lemma MovesGrow(os: seq<Seen>, o: Seen)
    ensures Moves(os + [o]) == Moves(os) +
            var ns := NodesOf(os, o.tid); if ns != [] && ns[|ns| - 1] != o.node then 1 else 0
  {
    hide NodesOf, Changes, Threads;
    var os', t, ns := os + [o], o.tid, NodesOf(os, o.tid);
    var f: int -> nat, g: int -> nat := u => Changes(NodesOf(os, u)), u => Changes(NodesOf(os', u));
    SeenAppend(os, o);
    SeenThreads(os, t);
    forall u ensures NodesOf(os', u) == if u == t then NodesOf(os, u) + [o.node] else NodesOf(os, u) {
      NodesAppend(os, o, u);
    }
    ChangesAppend(ns, o.node);
    var rest := Threads(os) - {t};
    assert Threads(os') - {t} == rest;
    SumPick(Threads(os'), g, t);
    SumSame(rest, f, g);
    if t in Threads(os) {
      SumPick(Threads(os), f, t);
    } else {
      assert Threads(os) == rest;
    }
  }

  lemma {:induction false} MovesMonotone(os: seq<Seen>, more: seq<Seen>)
    ensures Moves(os) <= Moves(os + more)
  {
    if more == [] {
      assert os + more == os;
    } else {
      var n := |more| - 1;
      MovesMonotone(os, more[..n]);
      MovesGrow(os + more[..n], more[n]);
      assert os + more == (os + more[..n]) + [more[n]];
    }
  }

  /** The counters say what the observations say: the nodes seen, each thread's last node,
      and the changes summed over threads, modulo 2^64. */
  ghost predicate Counts(c: Compute, os: seq<Seen>) {
    && c.nodes == Nodes(os)
    && c.last.Keys == Threads(os)
    && (forall t :: t in c.last ==> var ns := NodesOf(os, t); ns != [] && c.last[t] == ns[|ns| - 1])
    && c.migrations == Moves(os) % TWO64
  }

  lemma CountsStep(c: Compute, os: seq<Seen>, o: Seen)
    requires Counts(c, os)
    ensures Counts(Track(c, o), os + [o])
  {
    hide NodesOf, Nodes, Threads, Moves;
    MovesGrow(os, o);
    SeenThreads(os, o.tid);
    SeenAppend(os, o);
    ModAdd(Moves(os), 1);
    forall t ensures NodesOf(os + [o], t) == NodesOf(os, t) + if t == o.tid then [o.node] else [] {
      NodesAppend(os, o, t);
    }
  }

  lemma {:induction false} TrackingCounts(os: seq<Seen>)
    ensures Counts(TrackAll(NOTHING_SEEN, os), os)
  {
    if os != [] {
      var n := |os| - 1;
      TrackingCounts(os[..n]);
      CountsStep(TrackAll(NOTHING_SEEN, os[..n]), os[..n], os[n]);
      hide Counts, Track;
      assert os == os[..n] + [os[n]];
    }
  }

  /** A node can only turn up with a new thread or by a move. */
  lemma {:induction false} NodesNeedMoves(os: seq<Seen>)
    ensures |Nodes(os)| <= Moves(os) + |Threads(os)|
  {
    hide Nodes, Threads, Moves, NodesOf;
    if os == [] {
      NothingMoves();
    } else {
      var n := |os| - 1;
      var before, o := os[..n], os[n];
      assert os == before + [o];
      NodesNeedMoves(before);
      MovesGrow(before, o);
      SeenThreads(before, o.tid);
      SeenAppend(before, o);
      LastNodeSeen(before, o.tid);
    }
  }

  lemma NothingMoves()
    ensures Nodes([]) == {} && Threads([]) == {} && Moves([]) == 0
  {
    assert Threads([]) == {};
  }

  lemma {:induction false} LastNodeSeen(os: seq<Seen>, tid: int)
    ensures var ns := NodesOf(os, tid); ns != [] ==> ns[|ns| - 1] in Nodes(os)
  {
    if os != [] {
      var n := |os| - 1;
      LastNodeSeen(os[..n], tid);
      assert os == os[..n] + [os[n]];
      SeenAppend(os[..n], os[n]);
    }
  }

  // Memory locality.

  /** The dominant node so far and its pages; -1 stands for none. */
  datatype Lead = Lead(node: int, pages: U64)

  function Scan(pages: map<nat, U64>, order: seq<nat>): Lead
    requires forall k :: k in order ==> k in pages
  {
    if order == [] then Lead(-1, 0)
    else
      var lead, k := Scan(pages, order[..|order| - 1]), order[|order| - 1];
      if pages[k] > lead.pages then Lead(k, pages[k]) else lead
  }

  /** An order in which the entries of the map may be visited. */
  ghost predicate Enumerates(order: seq<nat>, pages: map<nat, U64>) {
    (forall k :: k in order <==> k in pages) && forall i, j :: 0 <= i < j < |order| ==> order[i] != order[j]
  }

  ghost predicate IsMost(pages: map<nat, U64>, k: nat) {
    k in pages && forall j :: j in pages ==> pages[j] <= pages[k]
  }

  /** The scan ends with the largest count, at the first node visited that has it. */
  lemma {:induction false} ScanFindsMost(pages: map<nat, U64>, order: seq<nat>)
    requires forall k :: k in order ==> k in pages
    ensures var lead := Scan(pages, order);
            && (forall k :: k in order ==> pages[k] <= lead.pages)
            && (lead.node == -1 <==> lead.pages == 0)
            && (lead.pages > 0 ==> exists i ::
                  0 <= i < |order| && order[i] == lead.node && pages[order[i]] == lead.pages &&
                  forall j :: 0 <= j < i ==> pages[order[j]] < lead.pages)
  {
    if order != [] {
      var n := |order| - 1;
      ScanFindsMost(pages, order[..n]);
      assert order == order[..n] + [order[n]];
      var lead, lead' := Scan(pages, order[..n]), Scan(pages, order);
      if lead' != lead {
        assert forall j :: 0 <= j < n ==> order[j] in order[..n] && pages[order[j]] < lead'.pages;
        assert order[n] == lead'.node;
      } else if lead.pages > 0 {
        var i :| 0 <= i < n && order[..n][i] == lead.node && pages[order[..n][i]] == lead.pages &&
                 forall j :: 0 <= j < i ==> pages[order[..n][j]] < lead.pages;
        assert order[i] == lead'.node && forall j :: 0 <= j < i ==> order[..n][j] == order[j];
      }
    }
  }

  ghost function Listing(keys: set<nat>): (order: seq<nat>)
    ensures forall k :: k in order <==> k in keys
    ensures forall i, j :: 0 <= i < j < |order| ==> order[i] != order[j]
  {
    if keys == {} then [] else var k :| k in keys; [k] + Listing(keys - {k})
  }

  /** The largest count is found in every order. */
  lemma MostPagesAnyOrder(pages: map<nat, U64>, order: seq<nat>, k: nat)
    requires Enumerates(order, pages) && IsMost(pages, k)
    ensures Scan(pages, order).pages == pages[k]
    ensures pages[k] == 0 ==> Scan(pages, order).node == -1
    ensures pages[k] > 0 ==> Scan(pages, order).node >= 0 && IsMost(pages, Scan(pages, order).node)
    ensures pages[k] > 0 && order != [] && order[0] == k ==> Scan(pages, order).node == k
  {
    ScanFindsMost(pages, order);
    assert k in order;
  }

  /** The dominant node does not depend on the visiting order exactly if all counts are zero
      or a single node has the largest. */
  lemma DominantAnyOrder(pages: map<nat, U64>, k: nat)
    requires IsMost(pages, k)
    ensures (forall o, o' :: Enumerates(o, pages) && Enumerates(o', pages) ==>
               Scan(pages, o).node == Scan(pages, o').node)
            <==> pages[k] == 0 || forall j :: IsMost(pages, j) ==> j == k
  {
    forall o | Enumerates(o, pages)
      ensures pages[k] == 0 ==> Scan(pages, o).node == -1
      ensures pages[k] > 0 ==> Scan(pages, o).node >= 0 && IsMost(pages, Scan(pages, o).node)
    {
      MostPagesAnyOrder(pages, o, k);
    }
    if pages[k] > 0 && exists j :: IsMost(pages, j) && j != k {
      var j :| IsMost(pages, j) && j != k;
      var o := StartingAt(pages, k);
      var o' := StartingAt(pages, j);
      MostPagesAnyOrder(pages, o, k);
      MostPagesAnyOrder(pages, o', j);
      assert Scan(pages, o).node != Scan(pages, o').node;
    }
  }

  lemma StartingAt(pages: map<nat, U64>, k: nat) returns (order: seq<nat>)
    requires k in pages
    ensures Enumerates(order, pages) && order != [] && order[0] == k
  {
    var more := Listing(pages.Keys - {k});
    order := [k] + more;
  }

  /** What the dominant node of one more cycle does to the counter. */
  datatype Memory = Memory(nodes: set<nat>, dominant: int, migrations: U64)

  function Dominate(m: Memory, d: int): Memory {
    m.(dominant := d,
       migrations := if m.dominant != -1 && d != m.dominant then (m.migrations + 1) % TWO64 else m.migrations)
  }

  function DominateAll(m: Memory, ds: seq<int>): Memory {
    if ds == [] then m else Dominate(DominateAll(m, ds[..|ds| - 1]), ds[|ds| - 1])
  }

  lemma DominateOneMore(m: Memory, ds: seq<int>, d: int)
    ensures DominateAll(m, ds + [d]) == Dominate(DominateAll(m, ds), d)
  {
    assert (ds + [d])[..|ds|] == ds;
  }

  /** Adjacent changes, except away from cycles without a dominant node. */
  function Departures(ds: seq<int>): nat {
    if |ds| < 2 then 0
    else Departures(ds[..|ds| - 1]) + if ds[|ds| - 2] != -1 && ds[|ds| - 2] != ds[|ds| - 1] then 1 else 0
  }

  lemma DeparturesMonotone(ds: seq<int>, more: seq<int>)
    requires |more| <= 1
    ensures Departures(ds) <= Departures(ds + more)
  {
    if more == [] {
      assert ds + more == ds;
    } else {
      assert (ds + more)[..|ds|] == ds;
    }
  }

  lemma {:induction false} DominanceCounts(ds: seq<int>)
    ensures var m := DominateAll(Memory({}, -1, 0), ds);
            && m.dominant == (if ds == [] then -1 else ds[|ds| - 1])
            && m.migrations == Departures(ds) % TWO64
  {
    if ds != [] {
      var n := |ds| - 1;
      DominanceCounts(ds[..n]);
      ModAdd(Departures(ds[..n]), 1);
    }
  }

  /** Exactly the adjacent changes count if and only if no dominant node ever follows a cycle
      that had none; this holds if every cycle with pages has a positive maximum. */
  lemma {:induction false} DeparturesAreChanges(ds: seq<int>)
    ensures Departures(ds) <= Changes(ds)
    ensures Departures(ds) == Changes(ds) <==> forall k :: 0 < k < |ds| && ds[k - 1] == -1 ==> ds[k] == -1
  {
    if |ds| >= 2 {
      var n := |ds| - 1;
      DeparturesAreChanges(ds[..n]);
    }
  }
}
