/** One monitored quantity: its value, peak, sum and number of measurements. */
module MonitoredValue {

  const TWO64: nat := 0x1_0000_0000_0000_0000

  /** The arithmetic of `unsigned long long`. */
  type U64 = n: nat | n < TWO64

  /** The state of a monitored value, as its accessors report it. */
  datatype Reading = Reading(monotonic: bool, iterations: U64, value: U64, peak: U64, sum: U64, offset: U64)

  function Fresh(monotonic: bool, offset: U64): Reading {
    Reading(monotonic, 0, 0, 0, 0, offset)
  }

  /** Whether `set_value` takes the raw measurement `v`. */
  predicate Accepts(r: Reading, v: U64) {
    v >= r.offset && (r.monotonic ==> v - r.offset >= r.value)
  }

  /** The effect of `set_value`. */
  function After(r: Reading, v: U64): Reading {
    if !Accepts(r, v) then r
    else
      var x := v - r.offset;
      if r.monotonic then r.(value := x, peak := x)
      else r.(value := x, peak := if x > r.peak then x else r.peak,
              sum := (r.sum + x) % TWO64, iterations := (r.iterations + 1) % TWO64)
  }

  class Value {
    const monotonic: bool
    var iterations: U64
    var value: U64
    var maxValue: U64
    var summedValue: U64
    var offset: U64

    function Read(): Reading
      reads this
    {
      Reading(monotonic, iterations, value, maxValue, summedValue, offset)
    }

    constructor (mono: bool, offset: U64)
      ensures Read() == Fresh(mono, offset)
    {
      monotonic := mono;
      iterations, value, maxValue, summedValue := 0, 0, 0, 0;
      this.offset := offset;
    }

    /** Returns 1 for a rejected measurement, 0 otherwise. */
    method SetValue(newValue: U64) returns (code: int)
      modifies this
      ensures Read() == After(old(Read()), newValue)
      ensures code == if Accepts(old(Read()), newValue) then 0 else 1
    {
      if newValue < offset { return 1; }
      var x := newValue - offset;
      if monotonic {
        if x < value { return 1; }
        value := x;
        maxValue := x;
      } else {
        value := x;
        if value > maxValue { maxValue := value; }
        summedValue := (summedValue + value) % TWO64;
        iterations := (iterations + 1) % TWO64;
      }
      code := 0;
    }

    /** Sets the offset whatever happened before, and returns 1 if measurements were counted. */
    method SetOffset(newOffset: U64) returns (code: int)
      modifies this`offset
      ensures Read() == old(Read()).(offset := newOffset)
      ensures code == if iterations > 0 then 1 else 0
    {
      offset := newOffset;
      code := if iterations > 0 then 1 else 0;
    }

    function GetSummedValue(): (s: U64)
      reads this
      ensures s == if monotonic then 0 else Read().sum
    {
      if !monotonic then summedValue else 0
    }

    function GetAverageValue(): (a: real)
      reads this
      ensures a == Average(Read())
    {
      if !monotonic && iterations > 0 then summedValue as real / iterations as real else 0.0
    }
  }

  function Average(r: Reading): real {
    if !r.monotonic && r.iterations > 0 then r.sum as real / r.iterations as real else 0.0
  }

  // Whole runs.

  function AfterAll(r: Reading, vs: seq<U64>): Reading {
    if vs == [] then r else After(AfterAll(r, vs[..|vs| - 1]), vs[|vs| - 1])
  }

  /** The measurements not below the offset, with the offset taken off. */
  function Above(vs: seq<U64>, offset: U64): (xs: seq<U64>) {
    if vs == [] then []
    else Above(vs[..|vs| - 1], offset) + if vs[|vs| - 1] >= offset then [vs[|vs| - 1] - offset] else []
  }

  function Max(xs: seq<U64>): U64 {
    if xs == [] then 0 else var m := Max(xs[..|xs| - 1]); if xs[|xs| - 1] > m then xs[|xs| - 1] else m
  }

  function Sum(xs: seq<U64>): nat {
    if xs == [] then 0 else Sum(xs[..|xs| - 1]) + xs[|xs| - 1]
  }

  lemma {:induction false} MaxIsGreatest(xs: seq<U64>)
    ensures forall x :: x in xs ==> x <= Max(xs)
    ensures xs != [] ==> Max(xs) in xs
  {
    if xs != [] {
      var n := |xs| - 1;
      MaxIsGreatest(xs[..n]);
      forall x | x in xs ensures x <= Max(xs) {
        if x != xs[n] { assert x in xs[..n]; }
      }
    }
  }

  lemma Snoc(xs: seq<U64>, x: U64)
    ensures Max(xs + [x]) == if x > Max(xs) then x else Max(xs)
    ensures Sum(xs + [x]) == Sum(xs) + x
  {
    assert (xs + [x])[..|xs|] == xs;
  }

  lemma ModAdd(a: nat, x: nat)
    ensures (a % TWO64 + x) % TWO64 == (a + x) % TWO64
  {
    var q, s := a / TWO64, a % TWO64 + x;
    assert a + x == TWO64 * (q + s / TWO64) + s % TWO64;
  }

  /** The measurements that are not below the offset, less the offset, in order. */
  lemma {:induction false} AboveAppend(vs: seq<U64>, more: seq<U64>, offset: U64)
    ensures Above(vs + more, offset) == Above(vs, offset) + Above(more, offset)
  {
    if more == [] {
      assert vs + more == vs;
    } else {
      var n := |more| - 1;
      assert (vs + more)[..|vs| + n] == vs + more[..n];
      AboveAppend(vs, more[..n], offset);
    }
  }

  lemma AboveOne(v: U64, offset: U64)
    ensures Above([v], offset) == if v >= offset then [v - offset] else []
  {
    assert [v][..0] == [];
  }

  /** When a measurement is taken, over a whole run: a non-monotonic value takes what is not below the
      offset, a monotonic one what also is not below any measurement before it. */
  lemma AcceptedIff(offset: U64, vs: seq<U64>, v: U64)
    ensures Accepts(AfterAll(Fresh(false, offset), vs), v) <==> v >= offset
    ensures Accepts(AfterAll(Fresh(true, offset), vs), v) <==>
            v >= offset && forall x :: x in Above(vs, offset) ==> x <= v - offset
  {
    FreeClosedForm(offset, vs);
    MonotonicClosedForm(offset, vs);
    MaxIsGreatest(Above(vs, offset));
  }

  /** A monotonic value always shows the largest measurement so far, and never sums. */
  lemma {:induction false} MonotonicClosedForm(offset: U64, vs: seq<U64>)
    ensures AfterAll(Fresh(true, offset), vs) == HighWater(Above(vs, offset), offset)
  {
    if vs != [] {
      var n := |vs| - 1;
      MonotonicClosedForm(offset, vs[..n]);
      var xs, v := Above(vs[..n], offset), vs[n];
      hide HighWater;
      assert Above(vs, offset) == if v >= offset then xs + [v - offset] else xs;
      HighWaterOne(xs, v, offset);
    }
  }

  lemma {:induction false} AboveZero(vs: seq<U64>)
    ensures Above(vs, 0) == vs
  {
    if vs != [] {
      AboveZero(vs[..|vs| - 1]);
    }
  }

  lemma AfterOneMore(r: Reading, vs: seq<U64>, v: U64)
    ensures AfterAll(r, vs + [v]) == After(AfterAll(r, vs), v)
  {
    assert (vs + [v])[..|vs|] == vs;
  }

  function HighWater(xs: seq<U64>, offset: U64): Reading {
    Reading(true, 0, Max(xs), Max(xs), 0, offset)
  }

  lemma HighWaterOne(xs: seq<U64>, v: U64, offset: U64)
    ensures After(HighWater(xs, offset), v) == HighWater(if v >= offset then xs + [v - offset] else xs, offset)
  {
    if v >= offset {
      Snoc(xs, v - offset);
    }
  }

  /** A non-monotonic value holds the last, the largest, the sum and the number of the
      measurements not below its offset, the last two modulo 2^64. */
  lemma {:induction false} FreeClosedForm(offset: U64, vs: seq<U64>)
    ensures AfterAll(Fresh(false, offset), vs) == Tally(Above(vs, offset), offset)
  {
    hide Tally;
    if vs == [] {
      TallyNone(offset);
    } else {
      var n := |vs| - 1;
      FreeClosedForm(offset, vs[..n]);
      var xs, v := Above(vs[..n], offset), vs[n];
      assert Above(vs, offset) == if v >= offset then xs + [v - offset] else xs;
      TallyOne(xs, v, offset);
    }
  }

  function Tally(xs: seq<U64>, offset: U64): Reading {
    Reading(false, |xs| % TWO64, if xs == [] then 0 else xs[|xs| - 1], Max(xs), Sum(xs) % TWO64, offset)
  }

  lemma TallyNone(offset: U64)
    ensures Tally([], offset) == Fresh(false, offset)
  {
  }

  lemma TallyOne(xs: seq<U64>, v: U64, offset: U64)
    ensures After(Tally(xs, offset), v) == Tally(if v >= offset then xs + [v - offset] else xs, offset)
  {
    if v >= offset {
      Snoc(xs, v - offset);
      ModAdd(Sum(xs), v - offset);
      ModAdd(|xs|, 1);
    }
  }

  lemma NextMultiple(x: nat, n: nat)
    ensures x * (n + 1) == x * n + x
  {
  }

  lemma {:induction false} SumBetween(xs: seq<U64>, lo: nat, hi: nat)
    requires forall x :: x in xs ==> lo <= x <= hi
    ensures lo * |xs| <= Sum(xs) <= hi * |xs|
  {
    if xs != [] {
      var n := |xs| - 1;
      assert forall x :: x in xs[..n] ==> x in xs;
      SumBetween(xs[..n], lo, hi);
      assert xs[n] in xs;
      NextMultiple(lo, n);
      NextMultiple(hi, n);
    }
  }

  lemma RealQuotient(s: real, n: real, lo: real, hi: real)
    requires n > 0.0 && lo * n <= s <= hi * n
    ensures lo <= s / n <= hi
  {
    var q := s / n;
    assert q * n == s;
    assert (q - lo) * n >= 0.0 && (hi - q) * n >= 0.0;
  }

  lemma RealProduct(x: nat, n: nat)
    ensures (x * n) as real == x as real * n as real
  {
  }

  lemma QuotientBetween(s: nat, n: nat, lo: nat, hi: nat)
    requires n > 0 && lo * n <= s <= hi * n
    ensures lo as real <= s as real / n as real <= hi as real
  {
    RealProduct(lo, n);
    RealProduct(hi, n);
    var low, high := lo * n, hi * n;
    assert low as real <= s as real <= high as real;
    RealQuotient(s as real, n as real, lo as real, hi as real);
  }

  /** While the sum fits in 64 bits the average is the mean of the measurements, and lies
      between any bounds they respect; it is never above the peak. */
  lemma AverageIsMean(offset: U64, vs: seq<U64>, lo: nat, hi: nat)
    requires var xs := Above(vs, offset); 0 < |xs| < TWO64 && Sum(xs) < TWO64 && forall x :: x in xs ==> lo <= x <= hi
    ensures var r, xs := AfterAll(Fresh(false, offset), vs), Above(vs, offset);
            && Average(r) == Sum(xs) as real / |xs| as real
            && lo as real <= Average(r) <= hi as real
            && Average(r) <= r.peak as real
  {
    var xs := Above(vs, offset);
    hide Max, Sum, Above, AfterAll, Average;
    AverageIsWrapped(offset, vs);
    AverageAtMostPeak(offset, vs);
    FitsUnwrapped(Sum(xs));
    MeanBetween(xs, lo, hi);
  }

  lemma FitsUnwrapped(s: nat)
    requires s < TWO64
    ensures s % TWO64 == s
  {
  }

  lemma WrappedBetween(s: nat, n: nat, hi: nat)
    requires n > 0 && s <= hi * n
    ensures 0.0 <= (s % TWO64) as real / n as real <= hi as real
  {
    var w := s % TWO64;
    assert w <= s;
    assert 0 * n == 0;
    QuotientBetween(w, n, 0, hi);
  }

  /** The average is the 64-bit sum over the number of measurements. */
  lemma AverageIsWrapped(offset: U64, vs: seq<U64>)
    requires 0 < |Above(vs, offset)| < TWO64
    ensures var r, xs := AfterAll(Fresh(false, offset), vs), Above(vs, offset);
            Average(r) == (Sum(xs) % TWO64) as real / |xs| as real && r.peak == Max(xs)
  {
    FreeClosedForm(offset, vs);
    hide AfterAll, Above, Sum, Max;
  }

  /** The average is never above the peak, whether or not the sum wraps around: for every run of
      fewer than 2^64 measurements, none included. */
  lemma AverageAtMostPeak(offset: U64, vs: seq<U64>)
    requires |Above(vs, offset)| < TWO64
    ensures var r := AfterAll(Fresh(false, offset), vs);
            0.0 <= Average(r) <= r.peak as real
  {
    var xs := Above(vs, offset);
    if xs == [] {
      FreeClosedForm(offset, vs);
    } else {
      AverageIsWrapped(offset, vs);
      MaxIsGreatest(xs);
      hide AfterAll, Above, Sum, Max, Average;
      SumBetween(xs, 0, Max(xs));
      WrappedBetween(Sum(xs), |xs|, Max(xs));
    }
  }

  lemma MeanBetween(xs: seq<U64>, lo: nat, hi: nat)
    requires xs != [] && forall x :: x in xs ==> lo <= x <= hi
    ensures lo as real <= Sum(xs) as real / |xs| as real <= hi as real
  {
    SumBetween(xs, lo, hi);
    QuotientBetween(Sum(xs), |xs|, lo, hi);
  }

  /** The average is the mean of the measurements exactly if their sum fits in 64 bits. */
  lemma AverageExactIffNoOverflow(offset: U64, vs: seq<U64>)
    requires 0 < |Above(vs, offset)| < TWO64
    ensures var xs := Above(vs, offset);
            Average(AfterAll(Fresh(false, offset), vs)) == Sum(xs) as real / |xs| as real <==> Sum(xs) < TWO64
  {
    var xs := Above(vs, offset);
    FreeClosedForm(offset, vs);
    hide Max, Sum, Above, AfterAll;
    SameQuotient((Sum(xs) % TWO64) as real, Sum(xs) as real, |xs| as real);
  }

  lemma SameQuotient(x: real, y: real, n: real)
    requires n > 0.0
    ensures x / n == y / n <==> x == y
  {
    assert x / n * n == x && y / n * n == y;
  }
}
