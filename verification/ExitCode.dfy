/** The monitoring loop and the kernel as a step machine: when the loop ends and with which
    exit code. */
module ExitCode {

  type Pid = nat

  /** How a child ended. */
  datatype Status = Exited(code: nat) | Signaled(signal: nat)

  /** A wait status is non-zero, and is an exit, exactly for these; only they set the code. */
  predicate Fails(s: Status) {
    s.Exited? && s.code != 0
  }

  /** What the wrapped command's own ending should make the monitor return. */
  function ExitValue(s: Status): nat {
    if s.Exited? then s.code else 0
  }

  datatype Reaped = Reaped(pid: Pid, status: Status)

  /** The code of the last failing child in a series of reaped ones, or 0. */
  function LastFailure(log: seq<Reaped>): nat {
    if log == [] then 0
    else if Fails(log[|log| - 1].status) then log[|log| - 1].status.code
    else LastFailure(log[..|log| - 1])
  }

  /** What `waitpid(-1, WNOHANG)` can answer: nothing to reap, or a child that ended. */
  datatype Answer = Nothing | Child(reaped: Reaped)

  /** The children that a call of `reap_children` gets: all before the first `Nothing`. */
  function Collected(answers: seq<Answer>): seq<Reaped> {
    if answers == [] || answers[0].Nothing? then [] else [answers[0].reaped] + Collected(answers[1..])
  }

  /** The first `n` answers were the children in `log`, and more answers are to come. */
  ghost predicate Reaping(answers: seq<Answer>, n: nat, log: seq<Reaped>) {
    n < |answers| && Nothing in answers[n..] && Collected(answers) == log + Collected(answers[n..])
  }

  lemma ReapingStarts(answers: seq<Answer>)
    requires Nothing in answers
    ensures Reaping(answers, 0, [])
  {
    assert answers[0..] == answers;
  }

  lemma ReapingOne(answers: seq<Answer>, n: nat, log: seq<Reaped>)
    requires Reaping(answers, n, log) && answers[n].Child?
    ensures Reaping(answers, n + 1, log + [answers[n].reaped])
  {
    var rest := answers[n + 1..];
    assert answers[n..] == [answers[n]] + rest;
    assert log + ([answers[n].reaped] + Collected(rest)) == (log + [answers[n].reaped]) + Collected(rest);
  }

  lemma LastFailureOf(log: seq<Reaped>, r: Reaped)
    ensures LastFailure(log + [r]) == if Fails(r.status) then r.status.code else LastFailure(log)
  {
    assert (log + [r])[..|log|] == log;
  }

  /** `reap_children`, given the answers it gets. */
  method ReapChildren(answers: seq<Answer>) returns (returnCode: nat)
    requires Nothing in answers
    ensures returnCode == LastFailure(Collected(answers))
  {
    returnCode := 0;
    var n := 0;
    ghost var log := [];
    ReapingStarts(answers);
    hide LastFailure, Collected;
    while answers[n].Child?
      invariant Reaping(answers, n, log) && returnCode == LastFailure(log)
      decreases |answers| - n
    {
      var reaped := answers[n].reaped;
      ReapingOne(answers, n, log);
      LastFailureOf(log, reaped);
      log := log + [reaped];
      if reaped.status.Exited? && reaped.status.code != 0 {
        returnCode := reaped.status.code;
      }
      n := n + 1;
    }
    assert Collected(answers[n..]) == [] by { NothingCollected(answers[n..]); }
    assert log + [] == log;
  }

  /** They are the first answers, and the next one is the first `Nothing`. */
  lemma {:induction false} CollectedAre(answers: seq<Answer>)
    requires Nothing in answers
    ensures |Collected(answers)| < |answers| && answers[|Collected(answers)|] == Nothing
    ensures forall i :: 0 <= i < |Collected(answers)| ==> answers[i] == Child(Collected(answers)[i])
  {
    if answers[0].Child? {
      CollectedAre(answers[1..]);
    }
  }

  lemma NothingCollected(answers: seq<Answer>)
    requires answers != [] && answers[0].Nothing?
    ensures Collected(answers) == []
  {
  }

  // The system.

  datatype Process = Running | Zombie(status: Status)

  /** Where the monitor is: about to test the loop condition, sampling, reaping, or out. */
  datatype Place = Test | Sample | Reap | Done

  /** `children` are the monitor's own unreaped children; `log` is what the current or the
      latest call of the reaper collected; `code` is that call's running result. */
  datatype State = State(children: map<Pid, Process>, sigusr1: bool, place: Place, returnCode: nat, code: nat,
                         log: seq<Reaped>)

  predicate Init(s: State, mother: Pid) {
    s == State(map[mother := Running], false, Test, 0, 0, [])
  }

  // Steps of the kernel and of other processes.

  predicate Ends(s: State, s': State, p: Pid, status: Status) {
    p in s.children && s.children[p].Running? && s' == s.(children := s.children[p := Zombie(status)])
  }

  /** A further child appears; process numbers are not used again. */
  predicate Spawns(s: State, s': State, p: Pid, mother: Pid) {
    p !in s.children && p != mother && s' == s.(children := s.children[p := Running])
  }

  ghost predicate SpawnStep(s: State, s': State, mother: Pid) {
    exists p :: Spawns(s, s', p, mother)
  }

  predicate Signals(s: State, s': State) {
    s' == s.(sigusr1 := true)
  }

  ghost predicate EnvironmentStep(s: State, s': State, mother: Pid) {
    (exists p, status :: Ends(s, s', p, status)) || SpawnStep(s, s', mother) || Signals(s, s')
  }

  // Steps of the monitor.

  /** `kill(mpid, 0)` succeeds for a running child and for one that was not reaped yet. */
  predicate Tests(s: State, s': State, mother: Pid) {
    s.place.Test? && s' == s.(place := if mother in s.children && !s.sigusr1 then Sample else Done)
  }

  predicate Samples(s: State, s': State) {
    s.place.Sample? && s' == s.(place := Reap, code := 0, log := [])
  }

  predicate ReapsOne(s: State, s': State, p: Pid) {
    s.place.Reap? && p in s.children && s.children[p].Zombie? &&
    var status := s.children[p].status;
    s' == s.(children := s.children - {p}, log := s.log + [Reaped(p, status)],
             code := if Fails(status) then status.code else s.code)
  }

  predicate ReapingEnds(s: State, s': State) {
    s.place.Reap? && (forall p :: p in s.children ==> s.children[p].Running?) &&
    s' == s.(place := Test, returnCode := s.code)
  }

  ghost predicate MonitorStep(s: State, s': State, mother: Pid) {
    Tests(s, s', mother) || Samples(s, s') || (exists p :: ReapsOne(s, s', p)) || ReapingEnds(s, s')
  }

  ghost predicate Next(s: State, s': State, mother: Pid) {
    EnvironmentStep(s, s', mother) || MonitorStep(s, s', mother)
  }

  /** Any interleaving of the two. */
  ghost predicate IsRun(run: seq<State>, mother: Pid) {
    run != [] && Init(run[0], mother) && forall k :: 0 <= k < |run| - 1 ==> Next(run[k], run[k + 1], mother)
  }

  // Safety.

  predicate InLog(log: seq<Reaped>, p: Pid) {
    exists k :: 0 <= k < |log| && log[k].pid == p
  }

  ghost predicate Inv(s: State, mother: Pid) {
    && (s.place.Reap? ==> s.code == LastFailure(s.log))
    && (s.place.Test? || s.place.Done? ==> s.returnCode == LastFailure(s.log))
    && (mother !in s.children ==> !s.place.Sample? && InLog(s.log, mother))
    && (s.place.Done? ==> s.sigusr1 || mother !in s.children)
  }

  lemma LogGrows(log: seq<Reaped>, r: Reaped)
    ensures forall p :: InLog(log + [r], p) <==> InLog(log, p) || r.pid == p
  {
    var log' := log + [r];
    assert log'[..|log|] == log && log'[|log|] == r;
    forall p ensures InLog(log', p) <==> InLog(log, p) || r.pid == p {
      if InLog(log, p) {
        var k :| 0 <= k < |log| && log[k].pid == p;
        assert log'[k].pid == p;
      }
    }
  }

  lemma InvStep(s: State, s': State, mother: Pid)
    requires Inv(s, mother) && Next(s, s', mother)
    ensures Inv(s', mother)
  {
    if p :| ReapsOne(s, s', p) {
      LastFailureOf(s.log, Reaped(p, s.children[p].status));
      LogGrows(s.log, Reaped(p, s.children[p].status));
    }
  }

  lemma {:induction false} InvHolds(run: seq<State>, mother: Pid, k: nat)
    requires IsRun(run, mother) && k < |run|
    ensures Inv(run[k], mother)
  {
    if k > 0 {
      InvHolds(run, mother, k - 1);
      InvStep(run[k - 1], run[k - 1 + 1], mother);
    }
  }

  /** The loop is left only after SIGUSR1 or once the wrapped process has been reaped, and what
      it returns is the last failure in the latest call of the reaper, however often the
      return code was overwritten before. */
  lemma ExitIsSafe(run: seq<State>, mother: Pid, k: nat)
    requires IsRun(run, mother) && k < |run| && run[k].place.Done?
    ensures run[k].returnCode == LastFailure(run[k].log)
    ensures run[k].sigusr1 || mother !in run[k].children
    ensures mother !in run[k].children ==> InLog(run[k].log, mother)
  {
    InvHolds(run, mother, k);
  }

  lemma {:induction false} LastFailureZero(log: seq<Reaped>)
    ensures LastFailure(log) == 0 <==> forall k :: 0 <= k < |log| ==> !Fails(log[k].status)
  {
    if log != [] {
      var n := |log| - 1;
      LastFailureZero(log[..n]);
      assert forall k :: 0 <= k < n ==> log[..n][k] == log[k];
    }
  }

  lemma {:induction false} LastFailureSplit(log: seq<Reaped>, m: nat)
    requires m < |log|
    ensures LastFailure(log) ==
            if LastFailure(log[m + 1..]) != 0 then LastFailure(log[m + 1..])
            else if Fails(log[m].status) then log[m].status.code
            else LastFailure(log[..m])
  {
    var n := |log| - 1;
    if m < n {
      LastFailureSplit(log[..n], m);
      assert log[..n][..m] == log[..m] && log[..n][m] == log[m];
      assert log[m + 1..][..n - m - 1] == log[..n][m + 1..] && log[m + 1..][n - m - 1] == log[n];
    } else {
      assert log[m + 1..] == [];
    }
  }

  /** No child reaped in the same call hides how the one at `m` ended: after a failure of its
      own nobody fails with another code, and otherwise nobody fails at all. */
  ghost predicate NotHidden(log: seq<Reaped>, m: nat)
    requires m < |log|
  {
    if Fails(log[m].status) then LastFailure(log[m + 1..]) in {0, log[m].status.code}
    else forall k :: 0 <= k < |log| ==> !Fails(log[k].status)
  }

  lemma ReportsOneIff(log: seq<Reaped>, m: nat)
    requires m < |log|
    ensures LastFailure(log) == ExitValue(log[m].status) <==> NotHidden(log, m)
  {
    LastFailureSplit(log, m);
    LastFailureZero(log);
  }

  /** When the loop is left, the wrapped process's own exit status is returned (0 if a signal
      killed it) exactly if no other child of the latest call of the reaper hides it. Without
      SIGUSR1 that call did reap it. */
  lemma OwnCodeIff(run: seq<State>, mother: Pid, k: nat)
    requires IsRun(run, mother) && k < |run| && run[k].place.Done?
    ensures var log := run[k].log;
            && (!run[k].sigusr1 ==> InLog(log, mother))
            && forall m: nat :: m < |log| && log[m].pid == mother ==>
                 (run[k].returnCode == ExitValue(log[m].status) <==> NotHidden(log, m))
  {
    ExitIsSafe(run, mother, k);
    hide NotHidden, LastFailure, IsRun;
    var log := run[k].log;
    forall m: nat | m < |log| && log[m].pid == mother
      ensures run[k].returnCode == ExitValue(log[m].status) <==> NotHidden(log, m)
    {
      ReportsOneIff(log, m);
    }
  }

  /** The wrapped process is reaped once. */
  ghost predicate MotherOnce(s: State, mother: Pid) {
    && (mother in s.children ==> !InLog(s.log, mother))
    && forall i, j :: 0 <= i < |s.log| && 0 <= j < |s.log| && s.log[i].pid == mother == s.log[j].pid ==> i == j
  }

  lemma OnceStep(s: State, s': State, mother: Pid)
    requires MotherOnce(s, mother) && Next(s, s', mother)
    ensures MotherOnce(s', mother)
  {
    hide LastFailure;
    if p :| ReapsOne(s, s', p) {
      LogGrows(s.log, Reaped(p, s.children[p].status));
      assert forall i :: 0 <= i < |s.log| && s.log[i].pid == mother ==> InLog(s.log, mother);
    }
  }

  lemma {:induction false} OnceHolds(run: seq<State>, mother: Pid, k: nat)
    requires IsRun(run, mother) && k < |run|
    ensures MotherOnce(run[k], mother)
  {
    if k > 0 {
      OnceHolds(run, mother, k - 1);
      OnceStep(run[k - 1], run[k - 1 + 1], mother);
    }
  }

  /** In particular it is returned if every other child of that call succeeded. */
  lemma SuccessHidesNothing(run: seq<State>, mother: Pid, k: nat)
    requires IsRun(run, mother) && k < |run| && run[k].place.Done? && !run[k].sigusr1
    requires forall j :: 0 <= j < |run[k].log| && run[k].log[j].pid != mother ==> !Fails(run[k].log[j].status)
    ensures exists m :: 0 <= m < |run[k].log| && run[k].log[m].pid == mother &&
                        run[k].returnCode == ExitValue(run[k].log[m].status)
  {
    var log := run[k].log;
    OwnCodeIff(run, mother, k);
    OnceHolds(run, mother, k);
    var m :| 0 <= m < |log| && log[m].pid == mother;
    LastFailureZero(log[m + 1..]);
  }

  /** If the wrapped process was the only one that call collected, its own exit status is
      returned, or 0 if a signal killed it. */
  lemma OnlyChildIsReported(run: seq<State>, mother: Pid, k: nat)
    requires IsRun(run, mother) && k < |run| && run[k].place.Done? && !run[k].sigusr1 && |run[k].log| == 1
    ensures run[k].log[0].pid == mother && run[k].returnCode == ExitValue(run[k].log[0].status)
  {
    ExitIsSafe(run, mother, k);
    SuccessHidesNothing(run, mother, k);
  }

  ghost predicate Unspawned(run: seq<State>, mother: Pid) {
    forall k :: 0 <= k < |run| - 1 ==> !SpawnStep(run[k], run[k + 1], mother)
  }

  ghost predicate OnlyMother(s: State, mother: Pid) {
    s.children.Keys <= {mother} && (mother in s.children ==> s.place.Reap? ==> s.log == []) &&
    (mother !in s.children ==> |s.log| == 1)
  }

  lemma {:induction false} NoOthers(run: seq<State>, mother: Pid, k: nat)
    requires IsRun(run, mother) && Unspawned(run, mother) && k < |run|
    ensures OnlyMother(run[k], mother)
  {
    if k > 0 {
      var s, s' := run[k - 1], run[k - 1 + 1];
      NoOthers(run, mother, k - 1);
      InvHolds(run, mother, k - 1);
      assert Next(s, s', mother) && !SpawnStep(s, s', mother);
      hide SpawnStep, LastFailure;
    }
  }

  /** With no other child, every run without SIGUSR1 that ends returns the wrapped process's
      exit status, or 0 if a signal killed it. */
  lemma SingleChildExitCode(run: seq<State>, mother: Pid, k: nat)
    requires IsRun(run, mother) && Unspawned(run, mother) && k < |run| && run[k].place.Done? && !run[k].sigusr1
    ensures |run[k].log| == 1 && run[k].log[0].pid == mother
    ensures run[k].returnCode == ExitValue(run[k].log[0].status)
  {
    NoOthers(run, mother, k);
    ExitIsSafe(run, mother, k);
    OnlyChildIsReported(run, mother, k);
  }

  /** Another child reaped in the same call can take the place of the wrapped process's code:
      3 is the wrapped process's exit status, 5 is returned. */
  lemma OtherChildCanOverride() returns (run: seq<State>)
    ensures IsRun(run, 1) && run[|run| - 1].place.Done? && !run[|run| - 1].sigusr1
    ensures Reaped(1, Exited(3)) in run[|run| - 1].log && run[|run| - 1].returnCode == 5
  {
    var s0 := State(map[1 := Running], false, Test, 0, 0, []);
    var s1 := s0.(children := s0.children[2 := Running]);
    var s2 := s1.(children := s1.children[1 := Zombie(Exited(3))]);
    var s3 := s2.(children := s2.children[2 := Zombie(Exited(5))]);
    var s4 := s3.(place := Sample);
    var s5 := s4.(place := Reap, code := 0, log := []);
    var s6 := s5.(children := s5.children - {1}, log := s5.log + [Reaped(1, Exited(3))], code := 3);
    var s7 := s6.(children := s6.children - {2}, log := s6.log + [Reaped(2, Exited(5))], code := 5);
    var s8 := s7.(place := Test, returnCode := 5);
    var s9 := s8.(place := Done);
    assert Spawns(s0, s1, 2, 1) && Ends(s1, s2, 1, Exited(3)) && Ends(s2, s3, 2, Exited(5));
    assert Tests(s3, s4, 1) && Samples(s4, s5);
    assert ReapsOne(s5, s6, 1) && ReapsOne(s6, s7, 2) && ReapingEnds(s7, s8) && Tests(s8, s9, 1);
    hide Spawns, Ends, Tests, Samples, ReapsOne, ReapingEnds;
    run := [s0, s1, s2, s3, s4, s5, s6, s7, s8, s9];
    assert s9.log[0] == Reaped(1, Exited(3));
  }

  // Progress.

  /** How many monitor steps are left at most, once the wrapped process has ended. */
  function Rank(s: State, mother: Pid): nat {
    match s.place
    case Done => 0
    case Test => if mother in s.children then 4 + |s.children| else 1
    case Sample => 3 + |s.children|
    case Reap => 2 + |s.children|
  }

  lemma MonitorCanMove(s: State, mother: Pid)
    requires !s.place.Done?
    ensures exists s' :: MonitorStep(s, s', mother)
  {
    var next := s.(place := if mother in s.children && !s.sigusr1 then Sample else Done);
    if s.place.Sample? {
      next := s.(place := Reap, code := 0, log := []);
    } else if s.place.Reap? {
      if p :| p in s.children && s.children[p].Zombie? {
        var status := s.children[p].status;
        next := s.(children := s.children - {p}, log := s.log + [Reaped(p, status)],
                   code := if Fails(status) then status.code else s.code);
        assert ReapsOne(s, next, p);
      } else {
        next := s.(place := Test, returnCode := s.code);
      }
    }
    assert MonitorStep(s, next, mother);
  }

  /** Once the wrapped process has ended, every step of the monitor brings it nearer to the
      end: it leaves the loop by itself unless further children keep ending. */
  lemma EveryStepIsProgress(s: State, s': State, mother: Pid)
    requires Inv(s, mother) && MonitorStep(s, s', mother)
    requires mother in s.children ==> s.children[mother].Zombie?
    ensures Rank(s', mother) < Rank(s, mother)
    ensures mother in s'.children ==> s'.children[mother].Zombie?
  {
    if p :| ReapsOne(s, s', p) {
      assert s'.children.Keys == s.children.Keys - {p};
      assert |s'.children.Keys| == |s.children.Keys| - 1;
    }
  }

  /** How many of the steps from `i` to `k` were the monitor's. */
  ghost function MonitorSteps(run: seq<State>, mother: Pid, i: nat, k: nat): nat
    requires i <= k < |run|
    decreases k
  {
    if i == k then 0
    else MonitorSteps(run, mother, i, k - 1) + if MonitorStep(run[k - 1], run[k], mother) then 1 else 0
  }

  ghost predicate Ended(s: State, mother: Pid) {
    mother in s.children ==> s.children[mother].Zombie?
  }

  /** The kernel brings the end no farther away unless it adds a child. */
  lemma KernelDoesNotDelay(s: State, s': State, mother: Pid)
    requires EnvironmentStep(s, s', mother) && !SpawnStep(s, s', mother) && Ended(s, mother)
    ensures Rank(s', mother) <= Rank(s, mother) && Ended(s', mother)
  {
    if p, status :| Ends(s, s', p, status) {
      assert s'.children.Keys == s.children.Keys;
      assert |s'.children.Keys| == |s.children.Keys|;
    }
  }

  lemma {:induction false} RankFalls(run: seq<State>, mother: Pid, i: nat, k: nat)
    requires IsRun(run, mother) && Unspawned(run, mother) && i <= k < |run| && Ended(run[i], mother)
    ensures Ended(run[k], mother)
    ensures MonitorSteps(run, mother, i, k) + Rank(run[k], mother) <= Rank(run[i], mother)
    decreases k
  {
    hide MonitorStep, EnvironmentStep, SpawnStep, Rank, Inv;
    if i < k {
      var s, s' := run[k - 1], run[k - 1 + 1];
      RankFalls(run, mother, i, k - 1);
      InvHolds(run, mother, k - 1);
      assert Next(s, s', mother) && !SpawnStep(s, s', mother);
      if MonitorStep(s, s', mother) {
        EveryStepIsProgress(s, s', mother);
      } else {
        KernelDoesNotDelay(s, s', mother);
      }
    }
  }

  lemma RankBounds(s: State, mother: Pid)
    ensures Rank(s, mother) <= 4 + |s.children|
    ensures Rank(s, mother) == 0 <==> s.place.Done?
  {
  }

  /** Without further children, a run whose wrapped process has ended takes at most as many
      more monitor steps as there are children, and four; once it took them all, the loop is left. */
  lemma LoopIsLeft(run: seq<State>, mother: Pid, i: nat, k: nat)
    requires IsRun(run, mother) && Unspawned(run, mother) && i <= k < |run| && Ended(run[i], mother)
    ensures MonitorSteps(run, mother, i, k) <= Rank(run[i], mother) <= 4 + |run[i].children|
    ensures MonitorSteps(run, mother, i, k) == Rank(run[i], mother) ==> run[k].place.Done?
  {
    RankFalls(run, mother, i, k);
    RankBounds(run[i], mother);
    RankBounds(run[k], mother);
  }

  // SIGUSR1.

  /** SIGUSR1 is never forgotten, and once it was received a monitor that is not about to sample will
      not sample again. */
  lemma SignalStep(s: State, s': State, mother: Pid)
    requires Next(s, s', mother) && s.sigusr1
    ensures s'.sigusr1 && (!s.place.Sample? ==> !s'.place.Sample?)
    ensures Tests(s, s', mother) ==> s'.place.Done?
  {
    hide LastFailure;
  }

  lemma {:induction false} SignalStays(run: seq<State>, mother: Pid, i: nat, k: nat)
    requires IsRun(run, mother) && i <= k < |run| && run[i].sigusr1
    ensures run[k].sigusr1 && (!run[i].place.Sample? ==> !run[k].place.Sample?)
    decreases k
  {
    if i < k {
      SignalStays(run, mother, i, k - 1);
      SignalStep(run[k - 1], run[k - 1 + 1], mother);
    }
  }

  /** After SIGUSR1 the next test of the loop condition leaves the loop, and at most one sample, that
      which was due, is still taken. */
  lemma SignalEndsLoop(run: seq<State>, mother: Pid, i: nat, j: nat, k: nat)
    requires IsRun(run, mother) && i <= j < k < |run| - 1 && run[i].sigusr1
    ensures Tests(run[j], run[j + 1], mother) ==> run[j + 1].place.Done?
    ensures Samples(run[j], run[j + 1]) ==> !Samples(run[k], run[k + 1])
  {
    SignalStays(run, mother, i, j);
    SignalStep(run[j], run[j + 1], mother);
    SignalStays(run, mother, j + 1, k);
  }
}
