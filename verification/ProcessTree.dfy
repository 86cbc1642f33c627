/** `offspring_pids`: a queue walk without a visited set, its result level by level, and
    when it ends. */
module ProcessTree {

  type Pid = nat

  /** What the `children` files list; a process that is gone lists nobody. */
  type Children = map<Pid, seq<Pid>>

  function Kids(t: Children, p: Pid): seq<Pid> {
    if p in t then t[p] else []
  }

  function KidsOf(t: Children, ps: seq<Pid>): seq<Pid> {
    if ps == [] then [] else KidsOf(t, ps[..|ps| - 1]) + Kids(t, ps[|ps| - 1])
  }

  /** The processes k generations below the mother. */
  function Level(t: Children, mother: Pid, k: nat): seq<Pid> {
    if k == 0 then [mother] else KidsOf(t, Level(t, mother, k - 1))
  }

  /** All generations above the k-th, in order. */
  function Above(t: Children, mother: Pid, k: nat): seq<Pid> {
    if k == 0 then [] else Above(t, mother, k - 1) + Level(t, mother, k - 1)
  }

  lemma {:induction false} EmptyStaysEmpty(t: Children, mother: Pid, h: nat, k: nat)
    requires Level(t, mother, h) == [] && h <= k
    ensures Level(t, mother, k) == [] && Above(t, mother, k) == Above(t, mother, h)
  {
    if h < k {
      EmptyStaysEmpty(t, mother, h, k - 1);
    }
  }

  /** Where the walk is: the first `done` of generation k are listed, the queue holds the
      rest of that generation and then the children of the listed ones. */
  ghost predicate At(t: Children, mother: Pid, k: nat, done: seq<Pid>, todo: seq<Pid>, list: seq<Pid>,
                     queue: seq<Pid>)
  {
    Level(t, mother, k) == done + todo && list == Above(t, mother, k) + done && queue == todo + KidsOf(t, done)
  }

  lemma NextLevel(t: Children, mother: Pid, k: nat, done: seq<Pid>, list: seq<Pid>, queue: seq<Pid>)
    requires At(t, mother, k, done, [], list, queue)
    ensures At(t, mother, k + 1, [], Level(t, mother, k + 1), list, queue)
  {
    assert done + [] == done;
  }

  lemma ListOne(t: Children, mother: Pid, k: nat, done: seq<Pid>, todo: seq<Pid>, list: seq<Pid>, queue: seq<Pid>)
    requires At(t, mother, k, done, todo, list, queue) && todo != []
    ensures queue != [] && queue[0] == todo[0]
    ensures At(t, mother, k, done + [todo[0]], todo[1..], list + [queue[0]], (queue + Kids(t, queue[0]))[1..])
  {
    hide Level, Above, Kids;
    var kids := Kids(t, queue[0]);
    assert (done + [todo[0]])[..|done|] == done;
    assert KidsOf(t, done + [todo[0]]) == KidsOf(t, done) + kids;
    hide KidsOf;
    assert queue[1..] == todo[1..] + KidsOf(t, done);
    assert (queue + kids)[1..] == todo[1..] + (KidsOf(t, done) + kids);
    assert (done + [todo[0]]) + todo[1..] == done + todo;
  }

  lemma QueueEmpty(t: Children, mother: Pid, k: nat, done: seq<Pid>, todo: seq<Pid>, list: seq<Pid>, h: nat)
    requires At(t, mother, k, done, todo, list, []) && Level(t, mother, h) == []
    ensures list == Above(t, mother, h)
  {
    NextLevel(t, mother, k, done, list, []);
    if k + 1 <= h {
      EmptyStaysEmpty(t, mother, k + 1, h);
    } else {
      EmptyStaysEmpty(t, mother, h, k + 1);
    }
  }

  /** Where the head of the queue stands: in this generation or first in the next. */
  lemma Head(t: Children, mother: Pid, h: nat, k: nat, done: seq<Pid>, todo: seq<Pid>, list: seq<Pid>, queue: seq<Pid>)
    returns (k': nat, done': seq<Pid>, todo': seq<Pid>)
    requires At(t, mother, k, done, todo, list, queue) && queue != [] && Level(t, mother, h) == []
    ensures At(t, mother, k', done', todo', list, queue) && todo' != [] && k' < h
    ensures if todo == [] then k' == k + 1 else k' == k && todo' == todo
  {
    k', done', todo' := k, done, todo;
    if todo == [] {
      NextLevel(t, mother, k, done, list, queue);
      k', done', todo' := k + 1, [], Level(t, mother, k + 1);
    }
    if k' >= h {
      EmptyStaysEmpty(t, mother, h, k');
    }
  }

  // The queue, turn by turn.

  datatype Walk = Walk(list: seq<Pid>, queue: seq<Pid>)

  /** One turn of the loop: the head of the queue is listed, and its children are queued. */
  function Turn(t: Children, w: Walk): Walk
    requires w.queue != []
  {
    Walk(w.list + [w.queue[0]], (w.queue + Kids(t, w.queue[0]))[1..])
  }

  /** The walk after `n` turns, whether or not it ever ends. */
  function WalkAfter(t: Children, mother: Pid, n: nat): Walk {
    if n == 0 then Walk([], [mother])
    else var w := WalkAfter(t, mother, n - 1); if w.queue == [] then w else Turn(t, w)
  }

  lemma {:induction false} WalkIsAt(t: Children, mother: Pid, n: nat)
    returns (k: nat, done: seq<Pid>, todo: seq<Pid>)
    ensures var w := WalkAfter(t, mother, n);
            At(t, mother, k, done, todo, w.list, w.queue) && (w.queue != [] ==> |w.list| == n)
  {
    if n == 0 {
      k, done, todo := 0, [], [mother];
    } else {
      k, done, todo := WalkIsAt(t, mother, n - 1);
      var w := WalkAfter(t, mother, n - 1);
      if w.queue != [] {
        if todo == [] {
          NextLevel(t, mother, k, done, w.list, w.queue);
          k, done, todo := k + 1, [], Level(t, mother, k + 1);
        }
        hide At, Level, Above, KidsOf, Kids;
        ListOne(t, mother, k, done, todo, w.list, w.queue);
        done, todo := done + [todo[0]], todo[1..];
      }
    }
  }

  lemma ListedInTime(t: Children, mother: Pid, h: nat, k: nat, done: seq<Pid>, todo: seq<Pid>, list: seq<Pid>,
                     queue: seq<Pid>)
    requires At(t, mother, k, done, todo, list, queue) && todo != [] && k < h
    ensures |list| < |Above(t, mother, h)|
  {
    AboveGrows(t, mother, k + 1, h);
    assert |Above(t, mother, k + 1)| == |Above(t, mother, k)| + |Level(t, mother, k)|;
  }

  /** While somebody is queued, fewer turns are over than there are processes above an empty
      generation ... */
  lemma StillWalking(t: Children, mother: Pid, h: nat, n: nat)
    requires Level(t, mother, h) == [] && WalkAfter(t, mother, n).queue != []
    ensures n < |Above(t, mother, h)|
  {
    hide At, Level, Above;
    var w := WalkAfter(t, mother, n);
    var k, done, todo := WalkIsAt(t, mother, n);
    k, done, todo := Head(t, mother, h, k, done, todo, w.list, w.queue);
    ListedInTime(t, mother, h, k, done, todo, w.list, w.queue);
  }

  /** ... and when nobody is, all of them are listed, generation by generation. */
  lemma WalkOver(t: Children, mother: Pid, h: nat, n: nat)
    requires Level(t, mother, h) == [] && WalkAfter(t, mother, n).queue == []
    ensures WalkAfter(t, mother, n).list == Above(t, mother, h)
  {
    hide At, Level, Above, WalkAfter;
    var w := WalkAfter(t, mother, n);
    var k, done, todo := WalkIsAt(t, mother, n);
    QueueEmpty(t, mother, k, done, todo, w.list, h);
  }

  lemma NobodyQueued(t: Children, mother: Pid, k: nat, done: seq<Pid>, todo: seq<Pid>, list: seq<Pid>)
    requires At(t, mother, k, done, todo, list, [])
    ensures Level(t, mother, k + 1) == []
  {
    assert todo == [] && KidsOf(t, done) == [];
    assert done + [] == done;
  }

  /** The walk ends exactly if some generation is empty: if none is, every number of turns leaves
      somebody in the queue. */
  lemma WalkEndsIff(t: Children, mother: Pid)
    ensures (exists n :: WalkAfter(t, mother, n).queue == []) <==> (exists h :: Level(t, mother, h) == [])
  {
    hide At, Level, Above, WalkAfter;
    if n :| WalkAfter(t, mother, n).queue == [] {
      var k, done, todo := WalkIsAt(t, mother, n);
      NobodyQueued(t, mother, k, done, todo, WalkAfter(t, mother, n).list);
    }
    if h :| Level(t, mother, h) == [] {
      var n := |Above(t, mother, h)|;
      if WalkAfter(t, mother, n).queue != [] {
        StillWalking(t, mother, h, n);
      }
    }
  }

  /** `offspring_pids`. If some generation is empty, it ends and lists the generations above it
      one after the other. */
  method OffspringPids(t: Children, mother: Pid, ghost h: nat) returns (pidList: seq<Pid>)
    requires Level(t, mother, h) == []
    ensures pidList == Above(t, mother, h)
  {
    hide Level, Above, Kids;
    pidList := [];
    var unprocessed := [mother];
    ghost var turns: nat := 0;
    while |unprocessed| > 0
      invariant Walk(pidList, unprocessed) == WalkAfter(t, mother, turns)
      decreases |Above(t, mother, h)| - turns
    {
      StillWalking(t, mother, h, turns);
      ghost var queue := unprocessed;
      var listed := Kids(t, unprocessed[0]);
      var n := 0;
      while n < |listed|
        invariant n <= |listed| && unprocessed == queue + listed[..n]
      {
        assert listed[..n + 1] == listed[..n] + [listed[n]];
        unprocessed := unprocessed + [listed[n]];
        n := n + 1;
      }
      assert listed[..n] == listed;
      pidList := pidList + [unprocessed[0]];
      unprocessed := unprocessed[1..];
      turns := turns + 1;
    }
    WalkOver(t, mother, h, turns);
  }

  // Generations and paths.

  /** The file of `p` lists `x`. */
  predicate Lists(t: Children, p: Pid, x: Pid) {
    p in t && x in t[p]
  }

  /** A chain of processes, each listed as a child in the file of the one before. */
  ghost predicate IsPath(t: Children, path: seq<Pid>) {
    path != [] && forall i :: 0 <= i < |path| - 1 ==> Lists(t, path[i], path[i + 1])
  }

  ghost predicate PathTo(t: Children, mother: Pid, p: Pid, path: seq<Pid>) {
    IsPath(t, path) && path[0] == mother && path[|path| - 1] == p
  }

  lemma {:induction false} KidsOfMember(t: Children, ps: seq<Pid>, x: Pid)
    ensures x in KidsOf(t, ps) <==> exists p :: p in ps && x in Kids(t, p)
  {
    if ps != [] {
      var n := |ps| - 1;
      KidsOfMember(t, ps[..n], x);
      assert ps == ps[..n] + [ps[n]];
    }
  }

  lemma {:induction false} PathInLevel(t: Children, mother: Pid, p: Pid, path: seq<Pid>)
    requires PathTo(t, mother, p, path)
    ensures p in Level(t, mother, |path| - 1)
    decreases |path|
  {
    var n := |path| - 1;
    if n > 0 {
      PathInLevel(t, mother, path[n - 1], path[..n]);
      assert Lists(t, path[n - 1], path[(n - 1) + 1]);
      KidsOfMember(t, Level(t, mother, n - 1), p);
    }
  }

  lemma ParentIn(t: Children, mother: Pid, k: nat, x: Pid) returns (p: Pid)
    requires k > 0 && x in Level(t, mother, k)
    ensures p in Level(t, mother, k - 1) && x in Kids(t, p)
  {
    KidsOfMember(t, Level(t, mother, k - 1), x);
    p :| p in Level(t, mother, k - 1) && x in Kids(t, p);
  }

  lemma LongerPath(t: Children, mother: Pid, q: Pid, p: Pid, path: seq<Pid>)
    requires PathTo(t, mother, q, path) && p in Kids(t, q)
    ensures PathTo(t, mother, p, path + [p])
  {
  }

  lemma {:induction false} LevelHasPath(t: Children, mother: Pid, k: nat, p: Pid) returns (path: seq<Pid>)
    requires p in Level(t, mother, k)
    ensures PathTo(t, mother, p, path) && |path| == k + 1
  {
    if k == 0 {
      path := [mother];
    } else {
      hide Level, Kids, PathTo;
      var q := ParentIn(t, mother, k, p);
      var more := LevelHasPath(t, mother, k - 1, q);
      path := more + [p];
      LongerPath(t, mother, q, p, more);
    }
  }

  ghost predicate PathsWithin(t: Children, mother: Pid, h: nat) {
    forall path :: IsPath(t, path) && path[0] == mother ==> |path| <= h
  }

  /** A generation is empty, and so by `WalkEndsIff` the walk ends, exactly if the chains below the
      mother are bounded; a process that is its own descendant keeps it going for ever. */
  lemma EndsIffPathsBounded(t: Children, mother: Pid, h: nat)
    ensures Level(t, mother, h) == [] <==> PathsWithin(t, mother, h)
  {
    if Level(t, mother, h) == [] {
      forall path | IsPath(t, path) && path[0] == mother ensures |path| <= h {
        PathInLevel(t, mother, path[|path| - 1], path);
        if |path| > h {
          EmptyStaysEmpty(t, mother, h, |path| - 1);
        }
      }
    } else {
      var path := LevelHasPath(t, mother, h, Level(t, mother, h)[0]);
    }
  }

  /** When the walk ends: the queue becomes empty at some time exactly if the chains below the
      mother are bounded. */
  lemma WalkEndsIffPathsBounded(t: Children, mother: Pid)
    ensures (exists n :: WalkAfter(t, mother, n).queue == []) <==> (exists h :: PathsWithin(t, mother, h))
  {
    hide WalkAfter, Level, PathsWithin;
    WalkEndsIff(t, mother);
    if h :| Level(t, mother, h) == [] {
      EndsIffPathsBounded(t, mother, h);
    }
    if h :| PathsWithin(t, mother, h) {
      EndsIffPathsBounded(t, mother, h);
    }
  }

  // Process trees.

  ghost predicate Distinct(ps: seq<Pid>) {
    forall i, j :: 0 <= i < j < |ps| ==> ps[i] != ps[j]
  }

  /** The mother, or a process below her. */
  ghost predicate Descends(t: Children, mother: Pid, p: Pid) {
    exists path :: PathTo(t, mother, p, path)
  }

  /** Among the mother and the processes below her nobody is listed twice, neither by one process
      nor by two, and nobody lists the mother. What other processes list does not matter. */
  ghost predicate IsTree(t: Children, mother: Pid) {
    && (forall p :: Descends(t, mother, p) && p in t ==> Distinct(t[p]) && mother !in t[p])
    && forall p, q, x ::
         Descends(t, mother, p) && Descends(t, mother, q) && Lists(t, p, x) && Lists(t, q, x) ==> p == q
  }

  lemma LevelDescends(t: Children, mother: Pid, k: nat, p: Pid)
    requires p in Level(t, mother, k)
    ensures Descends(t, mother, p)
  {
    hide PathTo, Level;
    var path := LevelHasPath(t, mother, k, p);
  }

  function Everyone(t: Children, mother: Pid): set<Pid> {
    {mother} + set p, x | p in t && x in t[p] :: x
  }

  lemma {:induction false} KidsDistinct(t: Children, mother: Pid, ps: seq<Pid>)
    requires IsTree(t, mother) && Distinct(ps) && forall p :: p in ps ==> Descends(t, mother, p)
    ensures Distinct(KidsOf(t, ps)) && mother !in KidsOf(t, ps)
    ensures forall x :: x in KidsOf(t, ps) ==> x in Everyone(t, mother)
  {
    if ps != [] {
      var n := |ps| - 1;
      var before, last := KidsOf(t, ps[..n]), Kids(t, ps[n]);
      KidsDistinct(t, mother, ps[..n]);
      assert ps[n] in ps;
      KidsAreListed(t, ps[n]);
      forall x | x in before ensures x !in last {
        KidsOfMember(t, ps[..n], x);
        var p :| p in ps[..n] && x in Kids(t, p);
        if x in last { SameParent(t, mother, p, ps[n], x); }
      }
      DistinctJoin(before, last);
    }
  }

  lemma DistinctJoin(ps: seq<Pid>, qs: seq<Pid>)
    requires Distinct(ps) && Distinct(qs) && forall x :: x in ps ==> x !in qs
    ensures Distinct(ps + qs)
  {
    var all := ps + qs;
    forall i, j | 0 <= i < j < |all| ensures all[i] != all[j] {
      if i < |ps| <= j {
        assert all[i] in ps && all[j] in qs;
      }
    }
  }

  lemma {:induction false} LevelDistinct(t: Children, mother: Pid, k: nat)
    requires IsTree(t, mother)
    ensures Distinct(Level(t, mother, k)) && (k > 0 ==> mother !in Level(t, mother, k))
    ensures forall x :: x in Level(t, mother, k) ==> x in Everyone(t, mother)
  {
    if k > 0 {
      LevelDistinct(t, mother, k - 1);
      forall p | p in Level(t, mother, k - 1) ensures Descends(t, mother, p) {
        LevelDescends(t, mother, k - 1, p);
      }
      KidsDistinct(t, mother, Level(t, mother, k - 1));
    }
  }

  /** In a tree nobody is in two generations. */
  lemma {:induction false} OneGeneration(t: Children, mother: Pid, j: nat, k: nat, x: Pid)
    requires IsTree(t, mother) && x in Level(t, mother, j) && x in Level(t, mother, k)
    ensures j == k
    decreases j
  {
    hide Level, IsTree, Kids;
    MotherOnlyFirst(t, mother, j, x);
    MotherOnlyFirst(t, mother, k, x);
    if j > 0 && k > 0 {
      var p := ParentIn(t, mother, j, x);
      var q := ParentIn(t, mother, k, x);
      LevelDescends(t, mother, j - 1, p);
      LevelDescends(t, mother, k - 1, q);
      SameParent(t, mother, p, q, x);
      OneGeneration(t, mother, j - 1, k - 1, p);
    }
  }

  lemma MotherOnlyFirst(t: Children, mother: Pid, k: nat, x: Pid)
    requires IsTree(t, mother) && x in Level(t, mother, k)
    ensures x == mother <==> k == 0
  {
    LevelDistinct(t, mother, k);
  }

  lemma SameParent(t: Children, mother: Pid, p: Pid, q: Pid, x: Pid)
    requires IsTree(t, mother) && Descends(t, mother, p) && Descends(t, mother, q)
    requires x in Kids(t, p) && x in Kids(t, q)
    ensures p == q
  {
    assert Lists(t, p, x) && Lists(t, q, x);
  }

  ghost predicate InLevel(t: Children, mother: Pid, k: nat, x: Pid) {
    x in Level(t, mother, k)
  }

  lemma {:induction false} AboveMember(t: Children, mother: Pid, h: nat, x: Pid)
    ensures x in Above(t, mother, h) <==> exists k: nat :: k < h && InLevel(t, mother, k, x)
  {
    if h > 0 {
      AboveMember(t, mother, h - 1, x);
      assert x in Above(t, mother, h) <==> x in Above(t, mother, h - 1) || InLevel(t, mother, h - 1, x);
      hide Above, InLevel;
    }
  }

  lemma {:induction false} AboveDistinct(t: Children, mother: Pid, h: nat)
    requires IsTree(t, mother)
    ensures Distinct(Above(t, mother, h))
    ensures forall x :: x in Above(t, mother, h) ==> x in Everyone(t, mother)
  {
    if h > 0 {
      assert Above(t, mother, h) == Above(t, mother, h - 1) + Level(t, mother, h - 1);
      hide Above, Level, Distinct, IsTree, Everyone;
      AboveDistinct(t, mother, h - 1);
      LevelDistinct(t, mother, h - 1);
      GenerationsApart(t, mother, h - 1);
      DistinctJoin(Above(t, mother, h - 1), Level(t, mother, h - 1));
    }
  }

  lemma GenerationsApart(t: Children, mother: Pid, h: nat)
    requires IsTree(t, mother)
    ensures forall x :: x in Above(t, mother, h) ==> x !in Level(t, mother, h)
  {
    hide Above, Level, IsTree;
    var above, level := Above(t, mother, h), Level(t, mother, h);
    forall x | x in above ensures x !in level {
      AboveMember(t, mother, h, x);
      var k: nat :| k < h && InLevel(t, mother, k, x);
      if x in level {
        OneGeneration(t, mother, k, h, x);
      }
    }
  }

  lemma {:induction false} DistinctSize(ps: seq<Pid>, s: set<Pid>)
    requires Distinct(ps) && forall x :: x in ps ==> x in s
    ensures |ps| <= |s|
  {
    if ps != [] {
      var n := |ps| - 1;
      forall x | x in ps[..n] ensures x in s - {ps[n]} {
        assert x in ps;
      }
      assert ps[n] in ps && ps[n] in s;
      DistinctSize(ps[..n], s - {ps[n]});
      assert |s - {ps[n]}| == |s| - 1;
    }
  }

  lemma {:induction false} GenerationsFill(t: Children, mother: Pid, h: nat)
    requires Level(t, mother, h) != []
    ensures |Above(t, mother, h)| >= h
  {
    if h > 0 {
      if Level(t, mother, h - 1) == [] {
        EmptyStaysEmpty(t, mother, h - 1, h);
      }
      GenerationsFill(t, mother, h - 1);
    }
  }

  /** On a process tree the walk always ends, within as many generations as there are processes. */
  lemma TreeWalkEnds(t: Children, mother: Pid)
    requires IsTree(t, mother)
    ensures Level(t, mother, |Everyone(t, mother)|) == []
  {
    var h := |Everyone(t, mother)|;
    if Level(t, mother, h) != [] {
      GenerationsFill(t, mother, h + 1 - 1);
      AboveDistinct(t, mother, h + 1);
      DistinctSize(Above(t, mother, h + 1), Everyone(t, mother));
    }
  }

  lemma {:induction false} LevelOfIndex(t: Children, mother: Pid, h: nat, i: nat) returns (k: nat)
    requires i < |Above(t, mother, h)|
    ensures k < h && |Above(t, mother, k)| <= i < |Above(t, mother, k + 1)|
    ensures Above(t, mother, h)[i] in Level(t, mother, k)
  {
    if i < |Above(t, mother, h - 1)| {
      k := LevelOfIndex(t, mother, h - 1, i);
    } else {
      k := h - 1;
    }
  }

  lemma {:induction false} AboveGrows(t: Children, mother: Pid, j: nat, k: nat)
    requires j <= k
    ensures |Above(t, mother, j)| <= |Above(t, mother, k)|
  {
    if j < k {
      AboveGrows(t, mother, j, k - 1);
    }
  }

  lemma IndexFollowsLevel(t: Children, mother: Pid, h: nat, i: nat, j: nat, a: nat, b: nat)
    requires IsTree(t, mother) && i < |Above(t, mother, h)| && j < |Above(t, mother, h)|
    requires Above(t, mother, h)[i] in Level(t, mother, a) && Above(t, mother, h)[j] in Level(t, mother, b)
    ensures i <= j ==> a <= b
  {
    var k := LevelOfIndex(t, mother, h, i);
    var m := LevelOfIndex(t, mother, h, j);
    OneGeneration(t, mother, k, a, Above(t, mother, h)[i]);
    OneGeneration(t, mother, m, b, Above(t, mother, h)[j]);
    if m < k {
      AboveGrows(t, mother, m + 1, k);
    }
  }

  /** What the walk of a tree lists: the mother first, every reachable process exactly once,
      depths never decreasing, and every parent before its children. */
  lemma TreeWalk(t: Children, mother: Pid, h: nat)
    requires IsTree(t, mother) && Level(t, mother, h) == []
    ensures var list := Above(t, mother, h);
            && list != [] && list[0] == mother && Distinct(list)
            && ListsReachable(t, mother, list) && DepthsRise(t, mother, list) && ParentsFirst(t, list)
  {
    AboveDistinct(t, mother, h);
    MotherFirst(t, mother, h);
    hide ListsReachable, DepthsRise, ParentsFirst, Distinct, IsTree, Above;
    ListedReachable(t, mother, h);
    ListedByDepth(t, mother, h);
    ListedParentsFirst(t, mother, h);
  }

  lemma {:induction false} KidsOfAppend(t: Children, ps: seq<Pid>, qs: seq<Pid>)
    ensures KidsOf(t, ps + qs) == KidsOf(t, ps) + KidsOf(t, qs)
  {
    hide Kids;
    if qs == [] {
      assert ps + qs == ps;
    } else {
      var n := |qs| - 1;
      assert (ps + qs)[..|ps| + n] == ps + qs[..n];
      KidsOfAppend(t, ps, qs[..n]);
    }
  }

  /** The generations are the mother followed by everybody's children. */
  lemma {:induction false} ListedOrChild(t: Children, mother: Pid, k: nat)
    ensures Above(t, mother, k) + Level(t, mother, k) == [mother] + KidsOf(t, Above(t, mother, k))
  {
    if k > 0 {
      var above, level := Above(t, mother, k - 1), Level(t, mother, k - 1);
      ListedOrChild(t, mother, k - 1);
      KidsOfAppend(t, above, level);
      assert Above(t, mother, k) == above + level && Level(t, mother, k) == KidsOf(t, level);
    } else {
      assert KidsOf(t, []) == [];
    }
  }

  lemma {:induction false} KidsOnce(t: Children, ps: seq<Pid>, i: nat, j: nat)
    requires Distinct(KidsOf(t, ps)) && i < |ps| && j < |ps|
    ensures Distinct(Kids(t, ps[i]))
    ensures forall x :: x in Kids(t, ps[i]) ==> x in KidsOf(t, ps)
    ensures i != j ==> forall x :: x in Kids(t, ps[i]) ==> x !in Kids(t, ps[j])
  {
    var n := |ps| - 1;
    var before, last := KidsOf(t, ps[..n]), Kids(t, ps[n]);
    PartsDistinct(before, last);
    forall x | x in Kids(t, ps[i]) ensures x in before + last {
      if i < n { KidsOnce(t, ps[..n], i, i); }
    }
    if i < n { KidsOnce(t, ps[..n], i, if j < n then j else i); }
    if j < n { KidsOnce(t, ps[..n], j, j); }
  }

  lemma PartsDistinct(ps: seq<Pid>, qs: seq<Pid>)
    requires Distinct(ps + qs)
    ensures Distinct(ps) && Distinct(qs) && forall x :: x in ps ==> x !in qs
  {
    var all := ps + qs;
    assert forall i :: 0 <= i < |ps| ==> all[i] == ps[i];
    assert forall j :: 0 <= j < |qs| ==> all[|ps| + j] == qs[j];
  }

  lemma KidsAreListed(t: Children, p: Pid)
    ensures Kids(t, p) == if p in t then t[p] else []
    ensures forall x :: x in Kids(t, p) <==> Lists(t, p, x)
  {
  }

  lemma {:induction false} KidsInside(t: Children, ps: seq<Pid>, i: nat) returns (o: nat)
    requires i < |ps|
    ensures o + |Kids(t, ps[i])| <= |KidsOf(t, ps)|
    ensures KidsOf(t, ps)[o..o + |Kids(t, ps[i])|] == Kids(t, ps[i])
  {
    hide Kids;
    var n := |ps| - 1;
    var before, last := KidsOf(t, ps[..n]), Kids(t, ps[n]);
    if i < n {
      o := KidsInside(t, ps[..n], i);
      assert (before + last)[o..o + |Kids(t, ps[i])|] == before[o..o + |Kids(t, ps[i])|];
    } else {
      o := |before|;
      assert (before + last)[o..] == last;
    }
  }

  /** The children of a process that is listed are listed one after the other, in the order of its
      `children` file. */
  lemma ChildrenInOrder(t: Children, mother: Pid, h: nat, p: Pid) returns (o: nat)
    requires Level(t, mother, h) == [] && p in Above(t, mother, h) && p in t
    ensures var list := Above(t, mother, h); o + |t[p]| <= |list| && list[o..o + |t[p]|] == t[p]
  {
    var list := Above(t, mother, h);
    var i :| 0 <= i < |list| && list[i] == p;
    ListedOrChild(t, mother, h);
    assert list + [] == list;
    KidsAreListed(t, p);
    hide Above, Level, KidsOf, Kids;
    o := KidsInside(t, list, i);
    o := o + 1;
    assert list == [mother] + KidsOf(t, list);
  }

  /** If the walk ends, it lists nobody twice exactly if the mother and the processes below her
      form a tree. */
  lemma ListedOnceIff(t: Children, mother: Pid, h: nat)
    requires Level(t, mother, h) == []
    ensures Distinct(Above(t, mother, h)) <==> IsTree(t, mother)
  {
    var list := Above(t, mother, h);
    if IsTree(t, mother) {
      AboveDistinct(t, mother, h);
    }
    if Distinct(list) {
      ListedReachable(t, mother, h);
      ListedOrChild(t, mother, h);
      assert list + [] == list;
      PartsDistinct([mother], KidsOf(t, list));
      assert mother in [mother];
      hide Above, Level, KidsOf, Kids, Descends;
      forall p | Descends(t, mother, p) && p in t ensures Distinct(t[p]) && mother !in t[p] {
        var i :| 0 <= i < |list| && list[i] == p;
        KidsOnce(t, list, i, i);
        KidsAreListed(t, p);
      }
      forall p, q, x | Descends(t, mother, p) && Descends(t, mother, q) && Lists(t, p, x) && Lists(t, q, x)
        ensures p == q
      {
        var i :| 0 <= i < |list| && list[i] == p;
        var j :| 0 <= j < |list| && list[j] == q;
        KidsOnce(t, list, i, j);
        KidsAreListed(t, p);
        KidsAreListed(t, q);
      }
    }
  }

  lemma ListedReachable(t: Children, mother: Pid, h: nat)
    requires Level(t, mother, h) == []
    ensures ListsReachable(t, mother, Above(t, mother, h))
  {
    hide PathTo, Level, Above;
    var list := Above(t, mother, h);
    forall p ensures p in list <==> Descends(t, mother, p) {
      ListedIffReachable(t, mother, h, p);
    }
  }

  lemma ListedByDepth(t: Children, mother: Pid, h: nat)
    requires IsTree(t, mother)
    ensures DepthsRise(t, mother, Above(t, mother, h))
  {
    hide PathTo, IsTree, Above;
    var list := Above(t, mother, h);
    forall i, j, path, path' |
      0 <= i <= j < |list| && PathTo(t, mother, list[i], path) && PathTo(t, mother, list[j], path')
      ensures |path| <= |path'|
    {
      DepthsInOrder(t, mother, h, i, j, path, path');
    }
  }

  lemma ListedParentsFirst(t: Children, mother: Pid, h: nat)
    requires IsTree(t, mother)
    ensures ParentsFirst(t, Above(t, mother, h))
  {
    hide IsTree, Above;
    var list := Above(t, mother, h);
    forall i, j | 0 <= i < |list| && 0 <= j < |list| && Lists(t, list[i], list[j]) ensures i < j {
      ParentFirst(t, mother, h, i, j);
    }
  }

  ghost predicate ListsReachable(t: Children, mother: Pid, list: seq<Pid>) {
    forall p :: p in list <==> Descends(t, mother, p)
  }

  ghost predicate DepthsRise(t: Children, mother: Pid, list: seq<Pid>) {
    forall i, j, path, path' ::
      0 <= i <= j < |list| && PathTo(t, mother, list[i], path) && PathTo(t, mother, list[j], path') ==>
        |path| <= |path'|
  }

  ghost predicate ParentsFirst(t: Children, list: seq<Pid>) {
    forall i, j :: 0 <= i < |list| && 0 <= j < |list| && Lists(t, list[i], list[j]) ==> i < j
  }

  lemma DepthsInOrder(t: Children, mother: Pid, h: nat, i: nat, j: nat, path: seq<Pid>, path': seq<Pid>)
    requires IsTree(t, mother) && i <= j < |Above(t, mother, h)|
    requires PathTo(t, mother, Above(t, mother, h)[i], path) && PathTo(t, mother, Above(t, mother, h)[j], path')
    ensures |path| <= |path'|
  {
    PathInLevel(t, mother, Above(t, mother, h)[i], path);
    PathInLevel(t, mother, Above(t, mother, h)[j], path');
    IndexFollowsLevel(t, mother, h, i, j, |path| - 1, |path'| - 1);
  }

  lemma {:induction false} MotherFirst(t: Children, mother: Pid, h: nat)
    requires Level(t, mother, h) == [] || h > 0
    ensures Above(t, mother, h) != [] && Above(t, mother, h)[0] == mother
  {
    if h > 1 {
      MotherFirst(t, mother, h - 1);
    } else {
      assert Above(t, mother, 0) == [];
    }
  }

  lemma ListedIffReachable(t: Children, mother: Pid, h: nat, p: Pid)
    requires Level(t, mother, h) == []
    ensures p in Above(t, mother, h) <==> Descends(t, mother, p)
  {
    AboveMember(t, mother, h, p);
    if p in Above(t, mother, h) {
      var k: nat :| k < h && InLevel(t, mother, k, p);
      var path := LevelHasPath(t, mother, k, p);
      assert PathTo(t, mother, p, path);
    }
    if path :| PathTo(t, mother, p, path) {
      PathInLevel(t, mother, p, path);
      if |path| - 1 >= h {
        EmptyStaysEmpty(t, mother, h, |path| - 1);
      }
      assert InLevel(t, mother, |path| - 1, p);
    }
  }

  lemma ChildBelow(t: Children, mother: Pid, k: nat, p: Pid, x: Pid)
    requires p in Level(t, mother, k) && x in Kids(t, p)
    ensures x in Level(t, mother, k + 1)
  {
    KidsOfMember(t, Level(t, mother, k), x);
  }

  lemma ParentFirst(t: Children, mother: Pid, h: nat, i: nat, j: nat)
    requires IsTree(t, mother)
    requires i < |Above(t, mother, h)| && j < |Above(t, mother, h)|
    requires Above(t, mother, h)[j] in Kids(t, Above(t, mother, h)[i])
    ensures i < j
  {
    hide Above, IsTree, Kids;
    var list := Above(t, mother, h);
    var k := LevelOfIndex(t, mother, h, i);
    ChildBelow(t, mother, k, list[i], list[j]);
    hide Level;
    IndexFollowsLevel(t, mother, h, j, i, k + 1, k);
  }
}
