/** How averages are cut for the report, and how they compare with the reported peak. */
module Averages {
  import opened MonitoredValue

  const AVG_PRECISION := 1000

  /** The integer part alone above the precision, otherwise also three decimal places. */
  function Reported(x: real): real
    requires x >= 0.0
  {
    var integer := x.Floor;
    var fraction := x - integer as real;
    if integer > AVG_PRECISION || fraction == 0.0 then integer as real
    else integer as real + (fraction * AVG_PRECISION as real).Floor as real / AVG_PRECISION as real
  }

  predicate IsInteger(x: real) {
    x.Floor as real == x
  }

  /** The values a report can show: integers, and up to 1000.999 also thousandths. */
  predicate Reportable(v: real) {
    v >= 0.0 && (IsInteger(v) || (v < 1001.0 && IsInteger(v * 1000.0)))
  }

  lemma FloorIsGreatest(x: real, n: int)
    requires n as real <= x
    ensures n <= x.Floor
  {
  }

  lemma Thousandths(integer: int, fraction: real)
    requires 0.0 <= fraction < 1.0
    ensures var r := integer as real + (fraction * 1000.0).Floor as real / 1000.0;
            r * 1000.0 == (integer * 1000 + (fraction * 1000.0).Floor) as real
            && integer as real <= r <= integer as real + fraction && integer as real + fraction - r < 0.001
  {
    var k := (fraction * 1000.0).Floor;
    assert 0.0 <= k as real <= fraction * 1000.0 < k as real + 1.0;
  }

  lemma ReportIsReportable(x: real)
    requires x >= 0.0
    ensures Reportable(Reported(x)) && Reported(x) <= x
  {
    var integer := x.Floor;
    var k := ((x - integer as real) * 1000.0).Floor;
    Thousandths(integer, x - integer as real);
    assert Reported(x) == integer as real || Reported(x) == integer as real + k as real / 1000.0;
    assert IsInteger(integer as real) && IsInteger((integer * 1000 + k) as real);
  }

  lemma NoGreaterThousandth(x: real, v: real)
    requires 0.0 <= v <= x && IsInteger(v * 1000.0)
    ensures v <= x.Floor as real + ((x - x.Floor as real) * 1000.0).Floor as real / 1000.0
  {
    var integer := x.Floor;
    var fraction := x - integer as real;
    Thousandths(integer, fraction);
    FloorIsGreatest(fraction * 1000.0, (v * 1000.0).Floor - integer * 1000);
  }

  /** The report shows the greatest reportable value that is not above the average. */
  lemma GreatestReportable(x: real)
    requires x >= 0.0
    ensures Reportable(Reported(x)) && Reported(x) <= x
    ensures forall v :: Reportable(v) && v <= x ==> v <= Reported(x)
  {
    ReportIsReportable(x);
    forall v | Reportable(v) && v <= x ensures v <= Reported(x) {
      if IsInteger(v) {
        FloorIsGreatest(x, v.Floor);
        assert Reported(x) >= x.Floor as real by { Thousandths(x.Floor, x - x.Floor as real); }
      } else if x.Floor > AVG_PRECISION {
        assert v < 1001.0 <= x.Floor as real;
      } else {
        NoGreaterThousandth(x, v);
      }
    }
  }

  /** Cutting twice is cutting once, and it keeps the order of averages. */
  lemma CutIsMonotoneAndIdempotent(x: real, y: real)
    requires 0.0 <= x <= y
    ensures Reported(x) <= Reported(y)
    ensures Reported(Reported(x)) == Reported(x)
  {
    hide Reported;
    GreatestReportable(x);
    GreatestReportable(y);
    GreatestReportable(Reported(x));
  }

  /** Less than a thousandth is lost up to an integer part of 1000, less than one above it. */
  lemma CutLosesLittle(x: real)
    requires x >= 0.0
    ensures 0.0 <= x - Reported(x) < if x.Floor <= AVG_PRECISION then 0.001 else 1.0
  {
    Thousandths(x.Floor, x - x.Floor as real);
  }

  /** No non-monotonic metric reports an average above its peak, even if its sum wraps around. */
  lemma AverageNotAbovePeak(offset: U64, vs: seq<U64>)
    requires |Above(vs, offset)| < TWO64
    ensures var r := AfterAll(Fresh(false, offset), vs);
            Average(r) >= 0.0 && Reported(Average(r)) <= r.peak as real
  {
    AverageAtMostPeak(offset, vs);
    hide Reported, Average, AfterAll, Above;
    GreatestReportable(Average(AfterAll(Fresh(false, offset), vs)));
  }

  // I/O and network metrics are monotonic. Their average is a rate over the wall clock time.

  /** The product is taken in 64-bit arithmetic, and then divided as real numbers. */
  function Scaled(value: U64, ticks: nat): U64 {
    value * ticks % TWO64
  }

  function Rate(value: U64, ticks: nat, elapsed: U64): (r: real)
    requires elapsed > 0
    ensures r >= 0.0
  {
    Quotient(Scaled(value, ticks), elapsed)
  }

  function Quotient(x: nat, n: nat): (q: real)
    requires n > 0
    ensures q >= 0.0 && q * n as real == x as real
  {
    QuotientBetween(x, n, 0, x);
    x as real / n as real
  }

  /** The distance from an integer to the next value a report can show. */
  function Gap(v: nat): real {
    if v <= AVG_PRECISION then 0.001 else 1.0
  }

  lemma IntegersAreIntegers(x: real, n: int)
    requires x == n as real
    ensures IsInteger(x)
  {
  }

  lemma GapIsReportable(v: nat)
    ensures Reportable(v as real + Gap(v))
  {
    hide IsInteger;
    var next := v as real + Gap(v);
    if v <= AVG_PRECISION {
      assert next == v as real + 0.001 && v as real <= 1000.0;
      assert next * 1000.0 == v as real * 1000.0 + 1.0;
      IntegersAreIntegers(next * 1000.0, 1000 * v + 1);
    } else {
      IntegersAreIntegers(next, v + 1);
    }
  }

  lemma NoneInTheGap(v: nat, r: real)
    requires Reportable(r) && r > v as real
    ensures r >= v as real + Gap(v)
  {
    if IsInteger(r) {
      assert r.Floor >= v + 1;
    } else {
      assert v <= 1000;
      assert (r * 1000.0).Floor >= 1000 * v + 1;
    }
  }

  /** What is cut stays at or below an integer as long as the next reportable value is out of
      reach. */
  lemma CutAtMost(x: real, v: nat)
    requires x >= 0.0
    ensures Reported(x) <= v as real <==> x < v as real + Gap(v)
  {
    hide Reported, Reportable, Gap;
    GreatestReportable(x);
    GapIsReportable(v);
    GapPositive(v);
    if Reported(x) > v as real { NoneInTheGap(v, Reported(x)); }
  }

  lemma GapPositive(v: nat)
    ensures Gap(v) > 0.0
  {
  }

  lemma BelowQuotient(x: nat, n: nat, bound: real)
    requires n > 0
    ensures Quotient(x, n) < bound <==> x as real < bound * n as real
  {
    var q, d := Quotient(x, n), n as real;
    hide Quotient;
    if q < bound { assert (bound - q) * d > 0.0; }
    if q >= bound { assert (q - bound) * d >= 0.0; }
    assert (bound - q) * d == bound * d - x as real;
  }

  lemma GapTimes(w: nat, v: nat, n: nat)
    requires n > 0
    ensures w as real < (v as real + Gap(v)) * n as real <==>
            if v <= AVG_PRECISION then 1000 * w < (1000 * v + 1) * n else w < (v + 1) * n
  {
    if v <= AVG_PRECISION {
      RealProduct(1000 * v + 1, n);
      assert 1000.0 * ((v as real + 0.001) * n as real) == (1000 * v + 1) as real * n as real;
    } else {
      RealProduct(v + 1, n);
      assert v as real + 1.0 == (v + 1) as real;
    }
  }

  lemma ScaledAtMost(v: U64, ticks: nat, elapsed: nat)
    requires v == 0 || ticks <= elapsed
    ensures Scaled(v, ticks) <= v * elapsed
  {
    var p := v * ticks;
    assert p % TWO64 <= p;
    assert p <= v * elapsed;
  }

  /** When a monotonic metric reports a rate that is not above its peak: exactly if the scaled
      value, over the elapsed time, does not reach the next reportable value after the peak. That
      holds if nothing was measured, or at least as many seconds went by as there are ticks in one. */
  lemma RateNotAbovePeakIff(offset: U64, vs: seq<U64>, ticks: nat, elapsed: U64)
    requires elapsed > 0
    ensures var r := AfterAll(Fresh(true, offset), vs);
            var v, w := r.peak, Scaled(r.value, ticks);
            && r.value == v
            && (Reported(Rate(r.value, ticks, elapsed)) <= v as real <==>
                if v <= AVG_PRECISION then 1000 * w < (1000 * v + 1) * elapsed else w < (v + 1) * elapsed)
            && (v == 0 || ticks <= elapsed ==> Reported(Rate(r.value, ticks, elapsed)) <= v as real)
  {
    MonotonicClosedForm(offset, vs);
    var v := Max(Above(vs, offset));
    hide Above, AfterAll, Max, Reported, Scaled, Gap, Quotient;
    var w := Scaled(v, ticks);
    CutAtMost(Rate(v, ticks, elapsed), v);
    BelowQuotient(w, elapsed, v as real + Gap(v));
    GapTimes(w, v, elapsed);
    if v == 0 || ticks <= elapsed {
      ScaledAtMost(v, ticks, elapsed);
      assert 1000 * w <= 1000 * v * elapsed && (1000 * v + 1) * elapsed == 1000 * v * elapsed + elapsed;
      assert (v + 1) * elapsed == v * elapsed + elapsed;
    }
  }

  /** The scaled value over seconds is the value per second only if scaling left it as it was. */
  lemma RateIsPerSecondIff(value: U64, ticks: nat, elapsed: U64)
    requires elapsed > 0
    ensures Rate(value, ticks, elapsed) == value as real / elapsed as real <==> Scaled(value, ticks) == value
    ensures value * ticks < TWO64 ==>
              Scaled(value, ticks) == value * ticks && (Scaled(value, ticks) == value <==> value == 0 || ticks == 1)
  {
    SameQuotient(Scaled(value, ticks) as real, value as real, elapsed as real);
    if value * ticks < TWO64 {
      assert Scaled(value, ticks) == value * ticks;
      if value * ticks == value && value != 0 {
        assert value * (ticks - 1) == 0;
      }
    }
  }

  /** With 100 ticks a second, 1000 bytes after 10 seconds are reported as 10000 per second. */
  lemma RateCanExceedPeak()
    ensures var r := AfterAll(Fresh(true, 0), [1000]);
            r.peak == 1000 && Reported(Rate(r.value, 100, 10)) == 10000.0
  {
    AfterOneMore(Fresh(true, 0), [], 1000);
    assert [] + [1000] == [1000];
    assert Rate(1000, 100, 10) == 10000.0;
  }
}
