/**
  The time units a stopwatch can report in, and the duration conversion
  between them.

  Every unit has a period that is a power of ten seconds, so a unit is
  described by the decimal exponent of its period. Converting a count from
  one unit to another follows std::chrono::duration_cast (section
  [time.duration.cast] of ISO C++): towards a finer unit the count is
  multiplied exactly, towards a coarser unit it is divided and the remainder
  is discarded, truncating toward zero.
 */
module Chrono {

  const MinInt64: int := -0x8000_0000_0000_0000
  const MaxInt64: int := 0x7FFF_FFFF_FFFF_FFFF

  /** The range of int64_t, the type elapsed() returns. */
  type Int64 = x: int | MinInt64 <= x <= MaxInt64

  /** The four resolutions a stopwatch is instantiated at. */
  datatype Resolution = Nanoseconds | Microseconds | Milliseconds | Seconds

  /** The resolution of the default stopwatch: the highest one. */
  const DefaultResolution: Resolution := Nanoseconds

  function Abs(x: int): nat {
    if x < 0 then -x else x
  }

  function Pow10(n: nat): (p: nat)
    ensures p >= 1
  {
    if n == 0 then 1 else 10 * Pow10(n - 1)
  }

  lemma {:induction false} Pow10Add(a: nat, b: nat)
    ensures Pow10(a + b) == Pow10(a) * Pow10(b)
    decreases a
  {
    if a > 0 {
      Pow10Add(a - 1, b);
      assert Pow10(a + b) == 10 * Pow10(a - 1 + b);
    }
  }

  /** The period of one unit is 10^PeriodExponent(r) seconds. */
  function PeriodExponent(r: Resolution): int {
    match r
    case Nanoseconds => -9
    case Microseconds => -6
    case Milliseconds => -3
    case Seconds => 0
  }

  /** Length of one unit in nanoseconds, the steady clock's own tick. */
  function TicksPerUnit(r: Resolution): (k: nat)
    ensures k >= 1
    ensures r == Nanoseconds ==> k == 1
    ensures r == Microseconds ==> k == 1_000
    ensures r == Milliseconds ==> k == 1_000_000
    ensures r == Seconds ==> k == 1_000_000_000
  {
    assert Pow10(3) == 1_000 && Pow10(6) == 1_000_000 && Pow10(9) == 1_000_000_000;
    Pow10(PeriodExponent(r) + 9)
  }

  /** Number of units in one second: the reciprocal of the unit's frequency. */
  function UnitsPerSecond(r: Resolution): (n: nat)
    ensures n >= 1
    ensures r == Nanoseconds ==> n == 1_000_000_000
    ensures r == Microseconds ==> n == 1_000_000
    ensures r == Milliseconds ==> n == 1_000
    ensures r == Seconds ==> n == 1
  {
    assert Pow10(3) == 1_000 && Pow10(6) == 1_000_000 && Pow10(9) == 1_000_000_000;
    Pow10(-PeriodExponent(r))
  }

  /** A unit and its count per second make up exactly one second of ticks. */
  lemma UnitsPerSecondTimesTicks(r: Resolution)
    ensures UnitsPerSecond(r) * TicksPerUnit(r) == 1_000_000_000
  {
    Pow10Add(-PeriodExponent(r), PeriodExponent(r) + 9);
  }

  /** `coarse` is the same unit as `fine` or a coarser one. */
  predicate NoFinerThan(coarse: Resolution, fine: Resolution) {
    PeriodExponent(fine) <= PeriodExponent(coarse)
  }

  /** x * k grows with x when k is not negative. */
  lemma MulLe(x: int, y: int, k: int)
    requires k >= 0
    ensures x <= y ==> x * k <= y * k
  {
    if x <= y {
      assert y * k - x * k == (y - x) * k;
    }
  }

  /** x * k grows strictly with x when k is positive. */
  lemma MulLt(x: int, y: int, k: int)
    requires k > 0
    ensures x < y ==> x * k < y * k
  {
    if x < y {
      assert y * k - x * k == (y - x) * k;
    }
  }

  lemma Distrib(x: int, y: int, k: int)
    ensures (x + y) * k == x * k + y * k
  {
  }

  lemma Assoc(x: int, y: int, z: int)
    ensures (x * y) * z == x * (y * z)
  {
  }

  /** Multiplying by a positive factor keeps the sign and scales the magnitude. */
  lemma MulByPositive(a: int, k: int)
    requires k > 0
    ensures Abs(a * k) == Abs(a) * k
    ensures a > 0 <==> a * k > 0
    ensures a < 0 <==> a * k < 0
  {
    MulLt(0, a, k);
    MulLt(a, 0, k);
    if a < 0 {
      assert a * k == -(Abs(a) * k);
    }
  }

  lemma EuclidBounds(n: nat, d: int)
    requires d > 0
    ensures 0 <= n / d
    ensures (n / d) * d <= n < (n / d) * d + d
  {
    assert n == (n / d) * d + n % d;
  }

  /**
    Integer division truncating toward zero, as C++ `/` does: the quotient
    has the sign of the dividend and the largest magnitude whose multiple of
    the divisor does not exceed the dividend's magnitude.
   */
  function TruncDiv(a: int, d: int): (q: int)
    requires d > 0
    ensures a >= 0 ==> q >= 0
    ensures a <= 0 ==> q <= 0
    ensures Abs(q) * d <= Abs(a) < Abs(q) * d + d
  {
    var n := Abs(a);
    EuclidBounds(n, d);
    if a >= 0 then n / d else -(n / d)
  }

  /** Any quotient meeting the truncation bounds is the truncated quotient. */
  lemma TruncDivUnique(a: int, d: int, q: int)
    requires d > 0
    requires a > 0 ==> q >= 0
    requires a < 0 ==> q <= 0
    requires Abs(q) * d <= Abs(a) < Abs(q) * d + d
    ensures q == TruncDiv(a, d)
  {
    var t := TruncDiv(a, d);
    var x, y := Abs(q), Abs(t);
    MulLe(y + 1, x, d);
    MulLe(x + 1, y, d);
    Distrib(x, 1, d);
    Distrib(y, 1, d);
    assert x == y;
  }

  /** Truncating division is monotone in the dividend. */
  lemma TruncDivMonotone(a: int, b: int, d: int)
    requires d > 0
    requires a <= b
    ensures TruncDiv(a, d) <= TruncDiv(b, d)
  {
    if 0 <= a {
      NatDivMonotone(a, b, d);
    } else if b <= 0 {
      NatDivMonotone(-b, -a, d);
      assert TruncDiv(a, d) == -TruncDiv(-a, d);
      assert TruncDiv(b, d) == -TruncDiv(-b, d);
    }
  }

  lemma NatDivMonotone(m: int, n: int, d: int)
    requires d > 0
    requires 0 <= m <= n
    ensures TruncDiv(m, d) <= TruncDiv(n, d)
  {
    var p, q := TruncDiv(m, d), TruncDiv(n, d);
    MulLe(q + 1, p, d);
    Distrib(q, 1, d);
  }

  /** Scaling dividend and divisor by the same factor keeps the quotient. */
  lemma TruncDivCancel(a: int, b: int, k: int)
    requires b > 0 && k > 0
    ensures TruncDiv(a * k, b * k) == TruncDiv(a, b)
  {
    var q := TruncDiv(a, b);
    var x, n := Abs(q), Abs(a);
    MulByPositive(a, k);
    MulLe(x * b, n, k);
    MulLt(n, x * b + b, k);
    Assoc(x, b, k);
    Distrib(x * b, b, k);
    TruncDivUnique(a * k, b * k, q);
  }

  /** Dividing by m and then by n truncates like dividing by m * n. */
  lemma TruncDivNested(a: int, m: int, n: int)
    requires m > 0 && n > 0
    ensures TruncDiv(TruncDiv(a, m), n) == TruncDiv(a, m * n)
  {
    var q1 := TruncDiv(a, m);
    var q := TruncDiv(q1, n);
    var x1, x, na := Abs(q1), Abs(q), Abs(a);
    // lower bound: x * n <= x1, so x * n * m <= x1 * m <= |a|
    MulLe(x * n, x1, m);
    // upper bound: x1 + 1 <= x * n + n, so |a| < (x1 + 1) * m <= (x * n + n) * m
    MulLe(x1 + 1, x * n + n, m);
    Distrib(x1, 1, m);
    Distrib(x * n, n, m);
    Assoc(x, n, m);
    assert n * m == m * n;
    TruncDivUnique(a, m * n, q);
  }

  /**
    duration_cast of a count of `from` units to `to` units. The conversion
    factor is 10^(PeriodExponent(from) - PeriodExponent(to)): a whole factor
    multiplies, a fractional one divides with truncation toward zero.
   */
  function DurationCast(count: int, from: Resolution, to: Resolution): (r: int)
    ensures r == TruncDiv(count * TicksPerUnit(from), TicksPerUnit(to))
  {
    var e := PeriodExponent(from) - PeriodExponent(to);
    if e >= 0 then
      CastRefineExact(count, from, to);
      count * Pow10(e)
    else
      CastCoarsenTruncates(count, from, to);
      TruncDiv(count, Pow10(-e))
  }

  lemma CastRefineExact(count: int, from: Resolution, to: Resolution)
    requires NoFinerThan(from, to)
    ensures var e := PeriodExponent(from) - PeriodExponent(to);
      count * Pow10(e) == TruncDiv(count * TicksPerUnit(from), TicksPerUnit(to))
  {
    var e := PeriodExponent(from) - PeriodExponent(to);
    var p, k := Pow10(e), TicksPerUnit(to);
    Pow10Add(e, PeriodExponent(to) + 9);
    assert TicksPerUnit(from) == p * k;
    Assoc(count, p, k);
    TruncDivExact(count * p, k);
  }

  /** A multiple of the divisor divides without remainder. */
  lemma TruncDivExact(x: int, k: int)
    requires k > 0
    ensures TruncDiv(x * k, k) == x
  {
    MulByPositive(x, k);
    TruncDivUnique(x * k, k, x);
  }

  lemma CastCoarsenTruncates(count: int, from: Resolution, to: Resolution)
    requires PeriodExponent(from) < PeriodExponent(to)
    ensures var e := PeriodExponent(to) - PeriodExponent(from);
      TruncDiv(count, Pow10(e)) == TruncDiv(count * TicksPerUnit(from), TicksPerUnit(to))
  {
    var e := PeriodExponent(to) - PeriodExponent(from);
    Pow10Add(e, PeriodExponent(from) + 9);
    assert TicksPerUnit(to) == Pow10(e) * TicksPerUnit(from);
    TruncDivCancel(count, Pow10(e), TicksPerUnit(from));
  }

  /** Converting to a unit no finer than the source divides by the ratio of the periods. */
  lemma CastToCoarser(count: int, fine: Resolution, coarse: Resolution)
    requires NoFinerThan(coarse, fine)
    ensures DurationCast(count, fine, coarse)
      == TruncDiv(count, Pow10(PeriodExponent(coarse) - PeriodExponent(fine)))
  {
    if PeriodExponent(coarse) == PeriodExponent(fine) {
      assert coarse == fine;
      CastRefineExact(count, fine, coarse);
      TruncDivUnique(count, 1, count);
    } else {
      CastCoarsenTruncates(count, fine, coarse);
    }
  }

  /** Converting to a unit no coarser than the source multiplies by the ratio of the periods. */
  lemma CastToFiner(count: int, coarse: Resolution, fine: Resolution)
    requires NoFinerThan(coarse, fine)
    ensures DurationCast(count, coarse, fine)
      == count * Pow10(PeriodExponent(coarse) - PeriodExponent(fine))
  {
    CastRefineExact(count, coarse, fine);
  }

  /**
    Converting through an intermediate unit gives the direct result as long
    as the intermediate unit loses nothing the direct conversion keeps: it
    is no coarser than the source, or no coarser than the target.
   */
  lemma CastChain(count: int, a: Resolution, b: Resolution, c: Resolution)
    requires NoFinerThan(a, b) || NoFinerThan(c, b)
    ensures DurationCast(DurationCast(count, a, b), b, c) == DurationCast(count, a, c)
  {
    if NoFinerThan(a, b) {
      CastChainExactFirst(count, a, b, c);
    } else {
      CastChainCoarsening(count, a, b, c);
    }
  }

  lemma CastChainExactFirst(count: int, a: Resolution, b: Resolution, c: Resolution)
    requires NoFinerThan(a, b)
    ensures DurationCast(DurationCast(count, a, b), b, c) == DurationCast(count, a, c)
  {
    var e := PeriodExponent(a) - PeriodExponent(b);
    var mid := DurationCast(count, a, b);
    CastToFiner(count, a, b);
    Pow10Add(e, PeriodExponent(b) + 9);
    Assoc(count, Pow10(e), TicksPerUnit(b));
    assert mid * TicksPerUnit(b) == count * TicksPerUnit(a);
  }

  lemma CastChainCoarsening(count: int, a: Resolution, b: Resolution, c: Resolution)
    requires NoFinerThan(b, a) && NoFinerThan(c, b)
    ensures DurationCast(DurationCast(count, a, b), b, c) == DurationCast(count, a, c)
  {
    var e1 := PeriodExponent(b) - PeriodExponent(a);
    var e2 := PeriodExponent(c) - PeriodExponent(b);
    var mid := DurationCast(count, a, b);
    CastToCoarser(count, a, b);
    CastToCoarser(mid, b, c);
    CastToCoarser(count, a, c);
    Pow10Add(e1, e2);
    TruncDivNested(count, Pow10(e1), Pow10(e2));
  }

  /** Converting to a finer unit and back returns the original count. */
  lemma RefineRoundTrip(count: int, coarse: Resolution, fine: Resolution)
    requires NoFinerThan(coarse, fine)
    ensures DurationCast(DurationCast(count, coarse, fine), fine, coarse) == count
  {
    CastChainExactFirst(count, coarse, fine, coarse);
    CastToFiner(count, coarse, coarse);
  }

  /**
    Converting to a coarser unit and back moves the count toward zero by
    less than one coarse unit.
   */
  lemma CoarsenRoundTrip(count: int, fine: Resolution, coarse: Resolution)
    requires NoFinerThan(coarse, fine)
    ensures var back := DurationCast(DurationCast(count, fine, coarse), coarse, fine);
      && (count >= 0 ==> 0 <= back <= count)
      && (count <= 0 ==> count <= back <= 0)
      && Abs(count) - Abs(back) < Pow10(PeriodExponent(coarse) - PeriodExponent(fine))
  {
    var p := Pow10(PeriodExponent(coarse) - PeriodExponent(fine));
    var q := DurationCast(count, fine, coarse);
    CastToCoarser(count, fine, coarse);
    CastToFiner(q, coarse, fine);
    MulByPositive(q, p);
  }

  /** A conversion never turns a larger count into a smaller one. */
  lemma CastMonotone(c1: int, c2: int, from: Resolution, to: Resolution)
    requires c1 <= c2
    ensures DurationCast(c1, from, to) <= DurationCast(c2, from, to)
  {
    MulLe(c1, c2, TicksPerUnit(from));
    TruncDivMonotone(c1 * TicksPerUnit(from), c2 * TicksPerUnit(from), TicksPerUnit(to));
  }
}
