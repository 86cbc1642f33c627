/** `nvidiamon`: one poll through `nvidia-smi`, which pushes its running totals after every
    line, and one through NVML, which pushes once. */
module GpuMonitor {
  import opened MonitoredValue

  const TWO32: nat := 0x1_0000_0000

  type U32 = n: nat | n < TWO32

  // nvidia-smi.

  /** A line of output: a comment or one that does not parse, or a process on a GPU with its
      SM and memory percentages and its frame buffer use in MB. */
  datatype Line = Skipped | Good(gpu: U32, pid: int, sm: U32, mem: U32, fb: U32)

  datatype Metric = Ngpus | Gpusmpct | Gpumempct | Gpufbmem

  /** What one matching line adds to a summed metric; the change from MB to kB is done in
      32-bit arithmetic. */
  function Amount(m: Metric, line: Line): nat
    requires line.Good?
  {
    match m
    case Ngpus => 0
    case Gpusmpct => line.sm
    case Gpumempct => line.mem
    case Gpufbmem => line.fb * 1024 % TWO32
  }

  /** The conversion is exact below 4 TB, and only there. */
  lemma FrameBufferExact(line: Line)
    requires line.Good?
    ensures Amount(Gpufbmem, line) == line.fb * 1024 <==> line.fb < 0x40_0000
  {
  }

  function Count(pids: seq<int>, pid: int): nat {
    if pids == [] then 0 else Count(pids[..|pids| - 1], pid) + if pids[|pids| - 1] == pid then 1 else 0
  }

  /** The GPUs with a line of a monitored process. */
  function ActiveGpus(pids: seq<int>, lines: seq<Line>): set<nat> {
    if lines == [] then {}
    else
      var line := lines[|lines| - 1];
      ActiveGpus(pids, lines[..|lines| - 1]) + if line.Good? && line.pid in pids then {line.gpu} else {}
  }

  function Summed(m: Metric, pids: seq<int>, lines: seq<Line>): nat {
    if lines == [] then 0
    else
      var line := lines[|lines| - 1];
      Summed(m, pids, lines[..|lines| - 1]) + if line.Good? then Count(pids, line.pid) * Amount(m, line) else 0
  }

  function Total(m: Metric, pids: seq<int>, lines: seq<Line>): nat {
    if m.Ngpus? then |ActiveGpus(pids, lines)| else Summed(m, pids, lines)
  }

  /** The values pushed for a metric: the running total after each good line. */
  function Pushes(m: Metric, pids: seq<int>, lines: seq<Line>): seq<U64> {
    if lines == [] then []
    else
      Pushes(m, pids, lines[..|lines| - 1]) +
      if lines[|lines| - 1].Good? then [Total(m, pids, lines) % TWO64] else []
  }

  class SmiMonitor {
    const ngpus: Value
    const gpusmpct: Value
    const gpumempct: Value
    const gpufbmem: Value

    ghost predicate Valid() {
      ngpus != gpusmpct && ngpus != gpumempct && ngpus != gpufbmem &&
      gpusmpct != gpumempct && gpusmpct != gpufbmem && gpumempct != gpufbmem
    }

    constructor ()
      ensures Valid() && fresh({ngpus, gpusmpct, gpumempct, gpufbmem})
      ensures ngpus.Read() == gpusmpct.Read() == gpumempct.Read() == gpufbmem.Read() == Fresh(false, 0)
    {
      ngpus := new Value(false, 0);
      gpusmpct := new Value(false, 0);
      gpumempct := new Value(false, 0);
      gpufbmem := new Value(false, 0);
    }

    /** Adds one good line to the poll's totals, once for each time its process is listed. */
    method AddLine(pids: seq<int>, t0: Tally, line: Line) returns (t: Tally)
      requires line.Good?
      ensures t == AddMatches(t0, line, Count(pids, line.pid))
    {
      t := t0;
      for k := 0 to |pids|
        invariant t == AddMatches(t0, line, Count(pids[..k], line.pid))
      {
        assert pids[..k + 1][..k] == pids[..k];
        if pids[k] == line.pid {
          ghost var past := t;
          t := t.(sm := (t.sm + line.sm) % TWO64, mem := (t.mem + line.mem) % TWO64,
                  fb := (t.fb + line.fb * 1024 % TWO32) % TWO64);
          if line.gpu !in t.active {
            t := t.(gpus := (t.gpus + 1) % TWO64, active := t.active + {line.gpu});
          }
          assert t.active == past.active + {line.gpu};
          assert t == AddMatch(past, line);
        }
      }
      assert pids[..|pids|] == pids;
    }

    /** `update_stats_smi`: every metric takes its running total after every good line. */
    method UpdateStats(pids: seq<int>, lines: seq<Line>)
      requires Valid()
      modifies ngpus, gpusmpct, gpumempct, gpufbmem
      ensures ngpus.Read() == AfterAll(old(ngpus.Read()), Pushes(Ngpus, pids, lines))
      ensures gpusmpct.Read() == AfterAll(old(gpusmpct.Read()), Pushes(Gpusmpct, pids, lines))
      ensures gpumempct.Read() == AfterAll(old(gpumempct.Read()), Pushes(Gpumempct, pids, lines))
      ensures gpufbmem.Read() == AfterAll(old(gpufbmem.Read()), Pushes(Gpufbmem, pids, lines))
    {
      hide Total, ActiveGpus, After, AddMatches;
      var t := Tally({}, 0, 0, 0, 0);
      NoLines(pids);
      for k := 0 to |lines|
        invariant Totals(t, pids, lines[..k])
        invariant ngpus.Read() == AfterAll(old(ngpus.Read()), Pushes(Ngpus, pids, lines[..k]))
        invariant gpusmpct.Read() == AfterAll(old(gpusmpct.Read()), Pushes(Gpusmpct, pids, lines[..k]))
        invariant gpumempct.Read() == AfterAll(old(gpumempct.Read()), Pushes(Gpumempct, pids, lines[..k]))
        invariant gpufbmem.Read() == AfterAll(old(gpufbmem.Read()), Pushes(Gpufbmem, pids, lines[..k]))
      {
        var line := lines[k];
        ghost var before := lines[..k];
        assert lines[..k + 1] == before + [line];
        if line.Skipped? {
          SkippedLine(t, pids, before);
          continue;
        }
        LineAdded(t, pids, before, line);
        GoodLine(old(ngpus.Read()), Ngpus, pids, before, line);
        GoodLine(old(gpusmpct.Read()), Gpusmpct, pids, before, line);
        GoodLine(old(gpumempct.Read()), Gpumempct, pids, before, line);
        GoodLine(old(gpufbmem.Read()), Gpufbmem, pids, before, line);
        t := AddLine(pids, t, line);
        var _ := ngpus.SetValue(t.gpus);
        var _ := gpusmpct.SetValue(t.sm);
        var _ := gpumempct.SetValue(t.mem);
        var _ := gpufbmem.SetValue(t.fb);
      }
      assert lines[..|lines|] == lines;
    }
  }

  /** The poll's totals so far and the GPUs already counted. */
  datatype Tally = Tally(active: set<nat>, gpus: U64, sm: U64, mem: U64, fb: U64)

  function AddMatch(t: Tally, line: Line): Tally
    requires line.Good?
  {
    Tally(t.active + {line.gpu}, if line.gpu in t.active then t.gpus else (t.gpus + 1) % TWO64,
          (t.sm + Amount(Gpusmpct, line)) % TWO64, (t.mem + Amount(Gpumempct, line)) % TWO64,
          (t.fb + Amount(Gpufbmem, line)) % TWO64)
  }

  function AddMatches(t: Tally, line: Line, n: nat): Tally
    requires line.Good?
  {
    if n == 0 then t else AddMatch(AddMatches(t, line, n - 1), line)
  }

  /** The totals are those of the lines so far, modulo 2^64. */
  ghost predicate Totals(t: Tally, pids: seq<int>, lines: seq<Line>) {
    && t.active == ActiveGpus(pids, lines)
    && t.gpus == Total(Ngpus, pids, lines) % TWO64
    && t.sm == Total(Gpusmpct, pids, lines) % TWO64
    && t.mem == Total(Gpumempct, pids, lines) % TWO64
    && t.fb == Total(Gpufbmem, pids, lines) % TWO64
  }

  lemma OneMore(total: nat, x: nat, count: nat, amount: nat)
    requires x == (total + count * amount) % TWO64
    ensures (x + amount) % TWO64 == (total + (count + 1) * amount) % TWO64
  {
    ModAdd(total + count * amount, amount);
    assert (count + 1) * amount == count * amount + amount;
  }

  function SumIn(t: Tally, m: Metric): U64 {
    match m
    case Ngpus => t.gpus
    case Gpusmpct => t.sm
    case Gpumempct => t.mem
    case Gpufbmem => t.fb
  }

  lemma {:induction false} MatchesSum(t: Tally, line: Line, n: nat, m: Metric, total: nat)
    requires line.Good? && !m.Ngpus? && SumIn(t, m) == total % TWO64
    ensures SumIn(AddMatches(t, line, n), m) == (total + n * Amount(m, line)) % TWO64
  {
    if n > 0 {
      MatchesSum(t, line, n - 1, m, total);
      OneMore(total, SumIn(AddMatches(t, line, n - 1), m), n - 1, Amount(m, line));
    }
  }

  lemma {:induction false} MatchesGpus(t: Tally, line: Line, n: nat)
    requires line.Good? && t.gpus == |t.active| % TWO64
    ensures var t' := AddMatches(t, line, n);
            t'.active == t.active + (if n > 0 then {line.gpu} else {}) && t'.gpus == |t'.active| % TWO64
  {
    if n > 0 {
      var past := AddMatches(t, line, n - 1);
      MatchesGpus(t, line, n - 1);
      ModAdd(|past.active|, 1);
    }
  }

  lemma {:induction false} CountPositive(pids: seq<int>, pid: int)
    ensures Count(pids, pid) > 0 <==> pid in pids
  {
    if pids != [] {
      CountPositive(pids[..|pids| - 1], pid);
      assert pids == pids[..|pids| - 1] + [pids[|pids| - 1]];
    }
  }

  lemma TotalStep(m: Metric, pids: seq<int>, before: seq<Line>, line: Line)
    requires line.Good?
    ensures var lines := before + [line];
            && ActiveGpus(pids, lines) == ActiveGpus(pids, before) + (if line.pid in pids then {line.gpu} else {})
            && Summed(m, pids, lines) == Summed(m, pids, before) + Count(pids, line.pid) * Amount(m, line)
  {
    assert (before + [line])[..|before|] == before;
  }

  lemma LineAdded(t: Tally, pids: seq<int>, before: seq<Line>, line: Line)
    requires line.Good? && Totals(t, pids, before)
    ensures Totals(AddMatches(t, line, Count(pids, line.pid)), pids, before + [line])
  {
    hide Amount, Count, ActiveGpus, Summed, AddMatches;
    CountPositive(pids, line.pid);
    TotalStep(Gpusmpct, pids, before, line);
    TotalStep(Gpumempct, pids, before, line);
    TotalStep(Gpufbmem, pids, before, line);
    var n := Count(pids, line.pid);
    MatchesGpus(t, line, n);
    MatchesSum(t, line, n, Gpusmpct, Summed(Gpusmpct, pids, before));
    MatchesSum(t, line, n, Gpumempct, Summed(Gpumempct, pids, before));
    MatchesSum(t, line, n, Gpufbmem, Summed(Gpufbmem, pids, before));
  }

  lemma NoLines(pids: seq<int>)
    ensures Totals(Tally({}, 0, 0, 0, 0), pids, [])
  {
  }

  lemma SkippedLine(t: Tally, pids: seq<int>, before: seq<Line>)
    ensures Totals(t, pids, before + [Skipped]) <==> Totals(t, pids, before)
    ensures forall m :: Total(m, pids, before + [Skipped]) == Total(m, pids, before)
    ensures forall m :: Pushes(m, pids, before + [Skipped]) == Pushes(m, pids, before)
  {
    assert (before + [Skipped])[..|before|] == before;
  }

  lemma GoodLine(r: Reading, m: Metric, pids: seq<int>, before: seq<Line>, line: Line)
    requires line.Good?
    ensures AfterAll(r, Pushes(m, pids, before + [line])) ==
            After(AfterAll(r, Pushes(m, pids, before)), Total(m, pids, before + [line]) % TWO64)
  {
    assert (before + [line])[..|before|] == before;
    AfterOneMore(r, Pushes(m, pids, before), Total(m, pids, before + [line]) % TWO64);
  }

  lemma TotalGrows(m: Metric, pids: seq<int>, before: seq<Line>, line: Line)
    requires line.Good?
    ensures Total(m, pids, before) <= Total(m, pids, before + [line])
  {
    TotalStep(m, pids, before, line);
    hide ActiveGpus, Summed, Count, Amount;
    var a := ActiveGpus(pids, before);
    var b := a + if line.pid in pids then {line.gpu} else {};
    assert b == a + (b - a);
  }

  function GoodLines(lines: seq<Line>): nat {
    if lines == [] then 0 else GoodLines(lines[..|lines| - 1]) + if lines[|lines| - 1].Good? then 1 else 0
  }

  function Larger(a: U64, b: U64): U64 {
    if b > a then b else a
  }

  /** What a metric shows after a poll that pushed `good` running totals, the last being `total`
      and all together `sum`. */
  ghost predicate Shows(r': Reading, r: Reading, total: U64, good: nat, sum: nat) {
    if good == 0 then r' == r
    else r'.value == total && r'.peak == Larger(r.peak, total) && r'.offset == 0 && !r'.monotonic &&
         r'.iterations == (r.iterations + good) % TWO64 && r'.sum == (r.sum + sum) % TWO64
  }

  lemma ShowsMore(r'': Reading, r: Reading, total: U64, total': U64, good: nat, sum: nat)
    requires !r.monotonic && r.offset == 0 && total <= total'
    requires Shows(r'', r, total, good, sum) && (good == 0 ==> sum == 0)
    ensures Shows(After(r'', total'), r, total', good + 1, sum + total')
  {
    ModAdd(r.iterations + good, 1);
    ModAdd(r.sum + sum, total');
  }

  lemma LastLine(r: Reading, m: Metric, pids: seq<int>, before: seq<Line>, line: Line)
    ensures var lines := before + [line];
            && Total(m, pids, before) <= Total(m, pids, lines)
            && GoodLines(lines) == GoodLines(before) + (if line.Good? then 1 else 0)
            && (line.Skipped? ==> Total(m, pids, lines) == Total(m, pids, before))
            && Pushes(m, pids, lines) ==
               Pushes(m, pids, before) + (if line.Good? then [Total(m, pids, lines) % TWO64] else [])
            && AfterAll(r, Pushes(m, pids, lines)) ==
               var past := AfterAll(r, Pushes(m, pids, before));
               if line.Good? then After(past, Total(m, pids, lines) % TWO64) else past
  {
    assert (before + [line])[..|before|] == before;
    if line.Good? {
      TotalGrows(m, pids, before, line);
      GoodLine(r, m, pids, before, line);
    } else {
      SkippedLine(Tally({}, 0, 0, 0, 0), pids, before);
    }
  }

  /** After a poll with a readable line the current value of a metric is the full total, and the
      peak is the larger of the old peak and that total, although every prefix was pushed too;
      after a poll without one, the values of the poll before stay. The number of measurements
      grows by the number of readable lines, not by one, and the sum by all running totals. */
  lemma {:induction false} PollShowsTotal(r: Reading, m: Metric, pids: seq<int>, lines: seq<Line>)
    requires !r.monotonic && r.offset == 0 && Total(m, pids, lines) < TWO64
    ensures var pushes := Pushes(m, pids, lines);
            && |pushes| == GoodLines(lines)
            && Shows(AfterAll(r, pushes), r, Total(m, pids, lines), GoodLines(lines), Sum(pushes))
    decreases |lines|
  {
    hide Total, After, Shows, Sum;
    if lines == [] {
      NothingShown(r, Total(m, pids, lines));
    } else {
      var n := |lines| - 1;
      var before, line := lines[..n], lines[n];
      assert lines == before + [line];
      hide Pushes, AfterAll, GoodLines;
      LastLine(r, m, pids, before, line);
      PollShowsTotal(r, m, pids, before);
      var past, total := Pushes(m, pids, before), Total(m, pids, lines);
      if line.Good? {
        Snoc(past, total);
        if past == [] { SumOfNone(); }
        ShowsMore(AfterAll(r, past), r, Total(m, pids, before), total, GoodLines(before), Sum(past));
      } else {
        assert past + [] == past;
      }
    }
  }

  lemma SumOfNone()
    ensures Sum([]) == 0
  {
  }

  ghost predicate AllAtMost(vs: seq<U64>, hi: nat) {
    forall i :: 0 <= i < |vs| ==> vs[i] <= hi
  }

  ghost predicate AllEqual(vs: seq<U64>, v: nat) {
    forall i :: 0 <= i < |vs| ==> vs[i] == v
  }

  lemma AllOneMore(vs: seq<U64>, v: U64, hi: nat)
    ensures AllAtMost(vs + [v], hi) <==> AllAtMost(vs, hi) && v <= hi
    ensures AllEqual(vs + [v], hi) <==> AllEqual(vs, hi) && v == hi
  {
    var all := vs + [v];
    assert all[|vs|] == v && forall i :: 0 <= i < |vs| ==> all[i] == vs[i];
  }

  lemma {:induction false} SumAtMost(vs: seq<U64>, hi: nat)
    requires AllAtMost(vs, hi)
    ensures Sum(vs) <= hi * |vs|
    ensures Sum(vs) == hi * |vs| <==> AllEqual(vs, hi)
  {
    if vs != [] {
      var n := |vs| - 1;
      assert vs == vs[..n] + [vs[n]];
      AllOneMore(vs[..n], vs[n], hi);
      hide AllAtMost, AllEqual;
      SumAtMost(vs[..n], hi);
      NextMultiple(hi, n);
    }
  }

  /** After every readable line the running total was `total`. */
  ghost predicate TotalThroughout(m: Metric, pids: seq<int>, lines: seq<Line>, total: nat) {
    forall k :: 0 <= k < |lines| && lines[k].Good? ==> Total(m, pids, lines[..k + 1]) == total
  }

  lemma ThroughoutOneMore(m: Metric, pids: seq<int>, before: seq<Line>, line: Line, total: nat)
    ensures TotalThroughout(m, pids, before + [line], total) <==>
            TotalThroughout(m, pids, before, total) &&
            (line.Good? ==> Total(m, pids, before + [line]) == total)
  {
    hide Total;
    var lines := before + [line];
    assert lines[|before|] == line && lines[..|before| + 1] == lines;
    assert forall k :: 0 <= k < |before| ==> lines[k] == before[k] && lines[..k + 1] == before[..k + 1];
  }

  lemma NothingPushed(m: Metric, pids: seq<int>, total: nat, hi: nat)
    ensures AllAtMost(Pushes(m, pids, []), hi) && AllEqual(Pushes(m, pids, []), total)
    ensures TotalThroughout(m, pids, [], total)
  {
  }

  lemma PushOneMore(m: Metric, pids: seq<int>, before: seq<Line>, line: Line, hi: nat)
    requires Total(m, pids, before + [line]) < TWO64
    ensures var lines, pushes, past := before + [line], Pushes(m, pids, before + [line]), Pushes(m, pids, before);
            && (AllAtMost(pushes, hi) <==> AllAtMost(past, hi) && (line.Good? ==> Total(m, pids, lines) <= hi))
            && (AllEqual(pushes, hi) <==> AllEqual(past, hi) && (line.Good? ==> Total(m, pids, lines) == hi))
  {
    hide Total, AllAtMost, AllEqual, After, AfterAll;
    LastLine(Fresh(false, 0), m, pids, before, line);
    hide Pushes, GoodLines;
    var past, now := Pushes(m, pids, before), Total(m, pids, before + [line]);
    if line.Good? {
      AllOneMore(past, now, hi);
    } else {
      assert past + [] == past;
    }
  }

  lemma {:induction false} PushesAtMost(m: Metric, pids: seq<int>, lines: seq<Line>, hi: nat)
    requires Total(m, pids, lines) < TWO64 && Total(m, pids, lines) <= hi
    ensures AllAtMost(Pushes(m, pids, lines), hi)
    decreases |lines|
  {
    hide Total, AllAtMost, AllEqual, Pushes, GoodLines, After, AfterAll;
    if lines == [] {
      NothingPushed(m, pids, 0, hi);
    } else {
      var n := |lines| - 1;
      assert lines == lines[..n] + [lines[n]];
      LastLine(Fresh(false, 0), m, pids, lines[..n], lines[n]);
      PushesAtMost(m, pids, lines[..n], hi);
      PushOneMore(m, pids, lines[..n], lines[n], hi);
    }
  }

  lemma {:induction false} PushesEqual(m: Metric, pids: seq<int>, lines: seq<Line>, total: nat)
    requires Total(m, pids, lines) < TWO64
    ensures AllEqual(Pushes(m, pids, lines), total) <==> TotalThroughout(m, pids, lines, total)
    decreases |lines|
  {
    hide Total, AllAtMost, AllEqual, Pushes, GoodLines, After, AfterAll, TotalThroughout;
    if lines == [] {
      NothingPushed(m, pids, total, 0);
    } else {
      var n := |lines| - 1;
      assert lines == lines[..n] + [lines[n]];
      LastLine(Fresh(false, 0), m, pids, lines[..n], lines[n]);
      PushesEqual(m, pids, lines[..n], total);
      PushOneMore(m, pids, lines[..n], lines[n], total);
      ThroughoutOneMore(m, pids, lines[..n], lines[n], total);
    }
  }

  lemma QuotientIs(x: nat, n: nat, hi: nat)
    requires n > 0
    ensures x as real / n as real == hi as real <==> x == hi * n
    ensures x <= hi * n ==> x as real / n as real <= hi as real
  {
    var q := x as real / n as real;
    assert q * n as real == x as real;
    RealProduct(hi, n);
    if x <= hi * n { QuotientBetween(x, n, 0, hi); }
  }

  /** The average of a first poll is never above its total, and is the total exactly if the
      running total was that after every readable line and the sum of all of them fits in 64 bits. */
  lemma AverageIsTotalIff(m: Metric, pids: seq<int>, lines: seq<Line>)
    requires Total(m, pids, lines) < TWO64 && 0 < GoodLines(lines) < TWO64
    ensures var pushes, total := Pushes(m, pids, lines), Total(m, pids, lines);
            var average := Average(AfterAll(Fresh(false, 0), pushes));
            && average <= total as real
            && (average == total as real <==> TotalThroughout(m, pids, lines, total) && Sum(pushes) < TWO64)
  {
    hide Total, Shows, Pushes, GoodLines, TotalThroughout, AllEqual;
    var pushes, total := Pushes(m, pids, lines), Total(m, pids, lines);
    PollShowsTotal(Fresh(false, 0), m, pids, lines);
    PushesAtMost(m, pids, lines, total);
    PushesEqual(m, pids, lines, total);
    AboveZero(pushes);
    SumAtMost(pushes, total);
    AverageIsWrapped(0, pushes);
    hide Sum, AfterAll, Above, Max, Average, AllAtMost;
    WrappedIs(Sum(pushes), |pushes|, total);
  }

  lemma WrappedIs(s: nat, n: nat, hi: nat)
    requires n > 0 && s <= hi * n
    ensures var q := (s % TWO64) as real / n as real;
            q <= hi as real && (q == hi as real <==> s == hi * n && s < TWO64)
  {
    var w := s % TWO64;
    assert w <= s && (w == s <==> s < TWO64);
    QuotientIs(w, n, hi);
  }

  lemma ListedOnce(pid: int)
    ensures Count([pid], pid) == 1
  {
    assert [pid][..0] == [];
    assert Count([], pid) == 0;
  }

  lemma NothingSummed(m: Metric, pids: seq<int>)
    ensures Summed(m, pids, []) == 0 && Pushes(m, pids, []) == []
  {
  }

  lemma OneLine(line: Line)
    requires line.Good?
    ensures Summed(Gpusmpct, [line.pid], [line]) == line.sm && Pushes(Gpusmpct, [line.pid], [line]) == [line.sm]
  {
    hide Summed, Pushes, Count, AfterAll, After, ActiveGpus;
    assert [] + [line] == [line];
    ListedOnce(line.pid);
    NothingSummed(Gpusmpct, [line.pid]);
    TotalStep(Gpusmpct, [line.pid], [], line);
    LastLine(Fresh(false, 0), Gpusmpct, [line.pid], [], line);
  }

  lemma TwoLines(one: Line, two: Line)
    requires one.Good? && two.Good? && one.pid == two.pid
    ensures var pids, lines := [one.pid], [one, two];
            && Total(Gpusmpct, pids, lines) == one.sm + two.sm
            && Pushes(Gpusmpct, pids, lines) == [one.sm, one.sm + two.sm]
  {
    hide Summed, Pushes, Count, AfterAll, After, ActiveGpus;
    assert [one] + [two] == [one, two];
    ListedOnce(one.pid);
    OneLine(one);
    TotalStep(Gpusmpct, [one.pid], [one], two);
    LastLine(Fresh(false, 0), Gpusmpct, [one.pid], [one], two);
  }

  /** Two lines with 10 and 20 per cent: the poll's total is 30, its average 20. */
  lemma AverageCountsLines()
    ensures var lines := [Good(0, 7, 10, 0, 0), Good(1, 7, 20, 0, 0)];
            && Total(Gpusmpct, [7], lines) == 30
            && Average(AfterAll(Fresh(false, 0), Pushes(Gpusmpct, [7], lines))) == 20.0
  {
    TwoLines(Good(0, 7, 10, 0, 0), Good(1, 7, 20, 0, 0));
    hide Total, Pushes;
    assert [10, 30][..1] == [10] && [10][..0] == [];
    assert AfterAll(Fresh(false, 0), [10]) == After(Fresh(false, 0), 10);
  }

  lemma NothingShown(r: Reading, total: U64)
    ensures Shows(r, r, total, 0, Sum([]))
  {
  }

  /** A process's line counts as often as the process is listed. */
  lemma {:induction false} CountIs(pids: seq<int>, pid: int)
    ensures Count(pids, pid) == multiset(pids)[pid]
  {
    if pids != [] {
      var n := |pids| - 1;
      CountIs(pids[..n], pid);
      assert pids == pids[..n] + [pids[n]];
    }
  }

  /** What one line adds, field by field. */
  lemma LineTotals(pids: seq<int>, line: Line)
    requires line.Good?
    ensures Total(Gpusmpct, pids, [line]) == multiset(pids)[line.pid] * line.sm
    ensures Total(Gpumempct, pids, [line]) == multiset(pids)[line.pid] * line.mem
    ensures Total(Gpufbmem, pids, [line]) == multiset(pids)[line.pid] * (line.fb * 1024 % TWO32)
  {
    hide Summed, ActiveGpus, Count;
    assert [] + [line] == [line];
    CountIs(pids, line.pid);
    NothingSummed(Gpusmpct, pids);
    NothingSummed(Gpumempct, pids);
    NothingSummed(Gpufbmem, pids);
    TotalStep(Gpusmpct, pids, [], line);
    TotalStep(Gpumempct, pids, [], line);
    TotalStep(Gpufbmem, pids, [], line);
  }

  /** Totals of lines add up. */
  lemma {:induction false} TotalsAdd(m: Metric, pids: seq<int>, lines: seq<Line>, more: seq<Line>)
    requires m != Ngpus
    ensures Total(m, pids, lines + more) == Total(m, pids, lines) + Total(m, pids, more)
  {
    hide Amount, Count;
    if more == [] {
      assert lines + more == lines;
    } else {
      var n := |more| - 1;
      assert (lines + more)[..|lines| + n] == lines + more[..n];
      TotalsAdd(m, pids, lines, more[..n]);
    }
  }

  // Which GPUs and lines count.

  /** The GPU count is the number of different GPU indices with a line of a monitored process. */
  lemma {:induction false} ActiveGpusAre(pids: seq<int>, lines: seq<Line>, gpu: nat)
    ensures gpu in ActiveGpus(pids, lines) <==>
            exists k :: 0 <= k < |lines| && lines[k].Good? && lines[k].gpu == gpu && lines[k].pid in pids
    decreases |lines|
  {
    if lines != [] {
      var n := |lines| - 1;
      ActiveGpusAre(pids, lines[..n], gpu);
      if k :| 0 <= k < n && lines[k].Good? && lines[k].gpu == gpu && lines[k].pid in pids {
        assert lines[..n][k] == lines[k];
      }
    }
  }

  /** The walk of the process tree lists nobody twice, so each line counts once or not at all. */
  lemma {:induction false} CountsOnce(pids: seq<int>, pid: int)
    requires forall i, j :: 0 <= i < j < |pids| ==> pids[i] != pids[j]
    ensures Count(pids, pid) == if pid in pids then 1 else 0
  {
    if pids != [] {
      var n := |pids| - 1;
      CountsOnce(pids[..n], pid);
      assert pids == pids[..n] + [pids[n]];
      if pid == pids[n] {
        assert pid !in pids[..n];
      }
    }
  }

  // Several polls.

  datatype Poll = Poll(pids: seq<int>, lines: seq<Line>)

  function AfterPolls(r: Reading, m: Metric, polls: seq<Poll>): Reading {
    if polls == [] then r
    else
      var last := polls[|polls| - 1];
      AfterAll(AfterPolls(r, m, polls[..|polls| - 1]), Pushes(m, last.pids, last.lines))
  }

  /** The running totals after all readable lines of all polls. */
  function AllPushes(m: Metric, polls: seq<Poll>): seq<U64> {
    if polls == [] then []
    else
      var last := polls[|polls| - 1];
      AllPushes(m, polls[..|polls| - 1]) + Pushes(m, last.pids, last.lines)
  }

  function ReadableLines(polls: seq<Poll>): nat {
    if polls == [] then 0 else ReadableLines(polls[..|polls| - 1]) + GoodLines(polls[|polls| - 1].lines)
  }

  lemma {:induction false} AfterAllAppend(r: Reading, vs: seq<U64>, more: seq<U64>)
    ensures AfterAll(r, vs + more) == AfterAll(AfterAll(r, vs), more)
  {
    hide After;
    if more == [] {
      assert vs + more == vs;
    } else {
      var n := |more| - 1;
      assert (vs + more)[..|vs| + n] == vs + more[..n];
      AfterAllAppend(r, vs, more[..n]);
    }
  }

  lemma {:induction false} PushCount(m: Metric, pids: seq<int>, lines: seq<Line>)
    ensures |Pushes(m, pids, lines)| == GoodLines(lines)
  {
    hide Total;
    if lines != [] {
      PushCount(m, pids, lines[..|lines| - 1]);
    }
  }

  lemma {:induction false} PollsPush(r: Reading, m: Metric, polls: seq<Poll>)
    ensures AfterPolls(r, m, polls) == AfterAll(r, AllPushes(m, polls))
    ensures |AllPushes(m, polls)| == ReadableLines(polls)
  {
    hide AfterAll, Pushes, GoodLines;
    if polls != [] {
      var n := |polls| - 1;
      PollsPush(r, m, polls[..n]);
      AfterAllAppend(r, AllPushes(m, polls[..n]), Pushes(m, polls[n].pids, polls[n].lines));
      PushCount(m, polls[n].pids, polls[n].lines);
    } else {
      NoneAfter(r);
    }
  }

  lemma NoneAfter(r: Reading)
    ensures AfterAll(r, []) == r
  {
  }

  /** After any number of polls the average is the sum of all running totals over the number of
      readable lines, however these are spread over the polls, exactly while that sum fits in
      64 bits. */
  lemma AverageOverPolls(m: Metric, polls: seq<Poll>)
    requires 0 < ReadableLines(polls) < TWO64
    ensures Average(AfterPolls(Fresh(false, 0), m, polls)) ==
            Sum(AllPushes(m, polls)) as real / ReadableLines(polls) as real
            <==> Sum(AllPushes(m, polls)) < TWO64
  {
    hide AllPushes, ReadableLines, AfterPolls, Sum;
    var pushes := AllPushes(m, polls);
    PollsPush(Fresh(false, 0), m, polls);
    AboveZero(pushes);
    AverageExactIffNoOverflow(0, pushes);
  }
}
