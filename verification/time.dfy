/** The exact time-span value type of the automation: a `Duration` holds a
    millisecond count together with six coarser projections of it, built by
    one factory per unit and compared on milliseconds alone. All arithmetic
    is on unbounded integers, as the source's `bigint` is. */
module Time {
  import opened Wrappers

  // ---------------------------------------------------------------------
  // Truncating division
  // ---------------------------------------------------------------------

  /** Quotient rounded toward zero, as `bigint` division is. Dafny's own `/`
      rounds toward negative infinity for a positive divisor, which would
      give -2 instead of -1 for -1500 / 1000. */
  function TruncDiv(a: int, d: int): (q: int)
    requires d > 0
    ensures a >= 0 ==> 0 <= q && q * d <= a < q * d + d
    ensures a < 0 ==> q <= 0 && q * d - d < a <= q * d
  {
    if a >= 0 then DivBounds(a, d); a / d
    else DivBounds(-a, d); -((-a) / d)
  }

  /** Euclidean division of a non-negative dividend leaves a remainder
      below the divisor. */
  lemma DivBounds(a: int, d: int)
    requires a >= 0 && d > 0
    ensures 0 <= a / d && (a / d) * d <= a < (a / d) * d + d
  {
    assert a == (a / d) * d + a % d;
  }

  /** A quotient and remainder that fit pin down Euclidean division. */
  lemma DivUnique(a: int, d: int, q: int, r: int)
    requires d > 0 && 0 <= r < d && a == q * d + r
    ensures a / d == q
  {
    var q', r' := a / d, a % d;
    assert (q - q') * d == r' - r;
    SmallMultiple(q - q', d);
  }

  /** The only multiple of `d` strictly between `-d` and `d` is zero. */
  lemma SmallMultiple(k: int, d: int)
    requires d > 0 && -d < k * d < d
    ensures k == 0
  {
    if k >= 1 {
      MulAtLeast(k, d);
    } else if k <= -1 {
      MulAtLeast(-k, d);
    }
  }

  lemma MulAtLeast(k: int, d: int)
    requires k >= 1 && d > 0
    ensures k * d >= d
  {
  }

  /** Truncating division is odd: negating the dividend negates the quotient. */
  lemma TruncDivNegate(a: int, d: int)
    requires d > 0
    ensures TruncDiv(-a, d) == -TruncDiv(a, d)
  {
    if a == 0 {
    } else if a > 0 {
    } else {
      assert -(-a) == a;
    }
  }

  /** Dividing twice by positive divisors, rounding toward zero each time,
      is dividing once by their product. */
  lemma TruncDivChain(a: int, b: int, c: int)
    requires b > 0 && c > 0
    ensures TruncDiv(TruncDiv(a, b), c) == TruncDiv(a, b * c)
  {
    if a >= 0 {
      NonNegDivChain(a, b, c);
    } else {
      NonNegDivChain(-a, b, c);
    }
  }

  lemma NonNegDivChain(a: int, b: int, c: int)
    requires a >= 0 && b > 0 && c > 0
    ensures a / b / c == a / (b * c)
  {
    var q1, r1 := a / b, a % b;
    var q2, r2 := q1 / c, q1 % c;
    ChainRemainder(a, b, c, q1, r1, q2, r2);
    DivUnique(a, b * c, q2, r2 * b + r1);
  }

  /** The remainders of two successive divisions combine into one. */
  lemma ChainRemainder(a: int, b: int, c: int, q1: int, r1: int, q2: int, r2: int)
    requires b > 0 && c > 0
    requires a == q1 * b + r1 && 0 <= r1 < b
    requires q1 == q2 * c + r2 && 0 <= r2 < c
    ensures a == q2 * (b * c) + (r2 * b + r1)
    ensures 0 <= r2 * b + r1 < b * c
  {
    assert (q2 * c + r2) * b == q2 * (b * c) + r2 * b;
    assert 0 <= r2 * b <= (c - 1) * b by { MulLe(r2, c - 1, b); }
    assert (c - 1) * b == b * c - b;
  }

  lemma MulLe(x: int, y: int, k: int)
    requires 0 <= x <= y && k > 0
    ensures 0 <= x * k <= y * k
  {
  }

  /** Multiplying by a positive factor and dividing it back out is exact. */
  lemma TruncDivCancel(x: int, k: int)
    requires k > 0
    ensures TruncDiv(x * k, k) == x
  {
    if x >= 0 {
      DivUnique(x * k, k, x, 0);
    } else {
      assert -(x * k) == (-x) * k;
      DivUnique((-x) * k, k, -x, 0);
    }
  }

  // ---------------------------------------------------------------------
  // Units
  // ---------------------------------------------------------------------

  const MsPerSecond: int := 1000
  const MsPerMinute: int := 1000 * 60
  const MsPerHour: int := 1000 * 60 * 60
  const MsPerDay: int := 1000 * 60 * 60 * 24
  const MsPerWeek: int := 1000 * 60 * 60 * 24 * 7
  /** A year is taken to be 365 days. */
  const MsPerYear: int := 1000 * 60 * 60 * 24 * 365

  // ---------------------------------------------------------------------
  // Durations
  // ---------------------------------------------------------------------

  /** A time span. `milliseconds` is the exact value; the other fields are
      the projections the factory that built it chose to store. */
  datatype Duration = Duration(
    milliseconds: int,
    seconds: int,
    minutes: int,
    hours: int,
    days: int,
    weeks: int,
    years: int)
  {
    predicate GreaterThan(other: Duration) {
      milliseconds > other.milliseconds
    }

    predicate LessThan(other: Duration) {
      milliseconds < other.milliseconds
    }

    predicate Equals(other: Duration) {
      milliseconds == other.milliseconds
    }
  }

  /** The reference projection: every coarser field is the millisecond count
      divided, rounding toward zero, by that unit's length in milliseconds. */
  ghost predicate Projects(d: Duration) {
    && d.seconds == TruncDiv(d.milliseconds, MsPerSecond)
    && d.minutes == TruncDiv(d.milliseconds, MsPerMinute)
    && d.hours == TruncDiv(d.milliseconds, MsPerHour)
    && d.days == TruncDiv(d.milliseconds, MsPerDay)
    && d.weeks == TruncDiv(d.milliseconds, MsPerWeek)
    && d.years == TruncDiv(d.milliseconds, MsPerYear)
  }

  /** Built by dividing step by step through the unit ladder. */
  function OfMilliseconds(ms: int): (r: Duration)
    ensures r.milliseconds == ms
    ensures Projects(r)
  {
    var s := TruncDiv(ms, 1000);
    var m := TruncDiv(s, 60);
    var h := TruncDiv(m, 60);
    var d := TruncDiv(h, 24);
    TruncDivChain(ms, 1000, 60);
    TruncDivChain(ms, 1000 * 60, 60);
    TruncDivChain(ms, 1000 * 60 * 60, 24);
    TruncDivChain(ms, 1000 * 60 * 60 * 24, 7);
    TruncDivChain(ms, 1000 * 60 * 60 * 24, 365);
    Duration(ms, s, m, h, d, TruncDiv(d, 7), TruncDiv(d, 365))
  }

  function OfSeconds(s: int): (r: Duration)
    ensures r.milliseconds == s * MsPerSecond && r.seconds == s
  {
    var m := TruncDiv(s, 60);
    var h := TruncDiv(m, 60);
    var d := TruncDiv(h, 24);
    Duration(s * 1000, s, m, h, d, TruncDiv(d, 7), TruncDiv(d, 365))
  }

  function OfMinutes(m: int): (r: Duration)
    ensures r.milliseconds == m * MsPerMinute && r.minutes == m
  {
    var h := TruncDiv(m, 60);
    var d := TruncDiv(h, 24);
    Duration(m * 1000 * 60, m * 60, m, h, d, TruncDiv(d, 7), TruncDiv(d, 365))
  }

  function OfHours(h: int): (r: Duration)
    ensures r.milliseconds == h * MsPerHour && r.hours == h
  {
    var d := TruncDiv(h, 24);
    Duration(h * 1000 * 60 * 60, h * 60 * 60, h * 60, h, d, TruncDiv(d, 7), TruncDiv(d, 365))
  }

  function OfDays(d: int): (r: Duration)
    ensures r.milliseconds == d * MsPerDay && r.days == d
  {
    Duration(d * 1000 * 60 * 60 * 24, d * 60 * 60 * 24, d * 60 * 24, d * 24, d,
             TruncDiv(d, 7), TruncDiv(d, 365))
  }

  /** Years are projected as 52 weeks each, not as 365 days. */
  function OfWeeks(w: int): (r: Duration)
    ensures r.milliseconds == w * MsPerWeek && r.weeks == w
  {
    Duration(w * 1000 * 60 * 60 * 24 * 7, w * 60 * 60 * 24 * 7, w * 60 * 24 * 7,
             w * 24 * 7, w * 7, w, TruncDiv(w, 52))
  }

  /** Weeks are projected as 52 per year, not as 365 days' worth. */
  function OfYears(y: int): (r: Duration)
    ensures r.milliseconds == y * MsPerYear && r.years == y
  {
    Duration(y * 1000 * 60 * 60 * 24 * 365, y * 60 * 60 * 24 * 365, y * 60 * 24 * 365,
             y * 24 * 365, y * 365, y * 52, y)
  }

  // ---------------------------------------------------------------------
  // Between two instants
  // ---------------------------------------------------------------------

  /** An argument of `between`: a date (its epoch milliseconds) or an ISO
      text, represented by the instant it parses to, or `None` when it does
      not parse (an invalid date). */
  datatype TimeArg = DateValue(epochMs: int) | IsoText(parsed: Option<int>)

  /** The instant an argument stands for: a date as it is, a text as
      `new Date(text)` parses it. */
  function Instant(t: TimeArg): Option<int>
  {
    match t
    case DateValue(ms) => Some(ms)
    case IsoText(p) => p
  }

  /** `between` as written: a text `end` is rebuilt from `start`, not parsed,
      so its own value is never consulted. An invalid instant makes the
      millisecond difference NaN, and converting that to a `bigint` throws;
      that is the `None` result. */
  function Between(start: TimeArg, end: TimeArg): (r: Option<Duration>)
    ensures r.Some? <==> Instant(start).Some?
    ensures r.Some? && end.DateValue? ==>
      r.value.milliseconds == end.epochMs - Instant(start).value
    ensures r.Some? && end.IsoText? ==> r.value.milliseconds == 0
    ensures r.Some? ==> Projects(r.value)
  {
    var s := Instant(start);
    var e := if end.IsoText? then s else Instant(end);
    if s.Some? && e.Some? then Some(OfMilliseconds(e.value - s.value)) else None
  }

  /** `between` as evidently intended: both arguments are read. */
  function BetweenIntended(start: TimeArg, end: TimeArg): (r: Option<Duration>)
    ensures r.Some? <==> Instant(start).Some? && Instant(end).Some?
    ensures r.Some? ==> r.value.milliseconds == Instant(end).value - Instant(start).value
    ensures r.Some? ==> Projects(r.value)
  {
    var s := Instant(start);
    var e := Instant(end);
    if s.Some? && e.Some? then Some(OfMilliseconds(e.value - s.value)) else None
  }

  // ---------------------------------------------------------------------
  // Properties
  // ---------------------------------------------------------------------

  /** The coarser fields of `OfMilliseconds` round toward zero: -1500 ms is
      -1 second (Euclidean division would say -2). */
  lemma NegativeRoundsTowardZero()
    ensures OfMilliseconds(-1500).seconds == -1
    ensures OfMilliseconds(-1500).minutes == 0
  {
  }

  /** Negating a millisecond count negates every projection. */
  lemma OfMillisecondsNegate(ms: int)
    ensures var a, b := OfMilliseconds(ms), OfMilliseconds(-ms);
      && b.milliseconds == -a.milliseconds
      && b.seconds == -a.seconds && b.minutes == -a.minutes
      && b.hours == -a.hours && b.days == -a.days
      && b.weeks == -a.weeks && b.years == -a.years
  {
    TruncDivNegate(ms, MsPerSecond);
    TruncDivNegate(ms, MsPerMinute);
    TruncDivNegate(ms, MsPerHour);
    TruncDivNegate(ms, MsPerDay);
    TruncDivNegate(ms, MsPerWeek);
    TruncDivNegate(ms, MsPerYear);
  }

  /** A Duration is fully determined by its milliseconds once it projects. */
  lemma ProjectsUnique(a: Duration, b: Duration)
    requires Projects(a) && Projects(b) && a.milliseconds == b.milliseconds
    ensures a == b
  {
  }

  lemma OfSecondsAgrees(s: int)
    ensures OfSeconds(s) == OfMilliseconds(s * MsPerSecond)
  {
    TruncDivCancel(s, 1000);
  }

  lemma OfMinutesAgrees(m: int)
    ensures OfMinutes(m) == OfMilliseconds(m * MsPerMinute)
  {
    TruncDivCancel(m * 60, 1000);
    TruncDivCancel(m, 60);
  }

  lemma OfHoursAgrees(h: int)
    ensures OfHours(h) == OfMilliseconds(h * MsPerHour)
  {
    TruncDivCancel(h * 60 * 60, 1000);
    TruncDivCancel(h * 60, 60);
    TruncDivCancel(h, 60);
  }

  lemma OfDaysAgrees(d: int)
    ensures OfDays(d) == OfMilliseconds(d * MsPerDay)
  {
    TruncDivCancel(d * 60 * 60 * 24, 1000);
    TruncDivCancel(d * 60 * 24, 60);
    TruncDivCancel(d * 24, 60);
    TruncDivCancel(d, 24);
  }

  /** `OfWeeks` agrees with `OfMilliseconds` on every field but `years`,
      which it takes as 52 weeks where `OfMilliseconds` takes 365 days. */
  lemma OfWeeksAgreesExceptYears(w: int)
    ensures OfWeeks(w).(years := 0) == OfMilliseconds(w * MsPerWeek).(years := 0)
    ensures OfWeeks(w).years == TruncDiv(w, 52)
    ensures OfMilliseconds(w * MsPerWeek).years == TruncDiv(w * 7, 365)
  {
    TruncDivCancel(w * 60 * 60 * 24 * 7, 1000);
    TruncDivCancel(w * 60 * 24 * 7, 60);
    TruncDivCancel(w * 24 * 7, 60);
    TruncDivCancel(w * 7, 24);
    TruncDivCancel(w, 7);
  }

  /** `OfYears` agrees with `OfMilliseconds` on every field but `weeks`,
      which it takes as 52 per year where `OfMilliseconds` divides 365 days
      by 7. */
  lemma OfYearsAgreesExceptWeeks(y: int)
    ensures OfYears(y).(weeks := 0) == OfMilliseconds(y * MsPerYear).(weeks := 0)
    ensures OfYears(y).weeks == y * 52
    ensures OfMilliseconds(y * MsPerYear).weeks == TruncDiv(y * 365, 7)
  {
    TruncDivCancel(y * 60 * 60 * 24 * 365, 1000);
    TruncDivCancel(y * 60 * 24 * 365, 60);
    TruncDivCancel(y * 24 * 365, 60);
    TruncDivCancel(y * 365, 24);
    TruncDivCancel(y, 365);
  }

  /** Fifty-two weeks is one year by `OfWeeks` but zero years by
      `OfMilliseconds` (364 days); seven years is 364 weeks by `OfYears` but
      365 weeks by `OfMilliseconds`. */
  lemma LossyProjectionWitnesses()
    ensures OfWeeks(52).years == 1
    ensures OfMilliseconds(OfWeeks(52).milliseconds).years == 0
    ensures OfYears(7).weeks == 364
    ensures OfMilliseconds(OfYears(7).milliseconds).weeks == 365
  {
  }

  /** Exactly one of the three comparisons holds, decided by milliseconds. */
  lemma Trichotomy(a: Duration, b: Duration)
    ensures a.LessThan(b) || a.Equals(b) || a.GreaterThan(b)
    ensures !(a.LessThan(b) && a.Equals(b))
    ensures !(a.LessThan(b) && a.GreaterThan(b))
    ensures !(a.Equals(b) && a.GreaterThan(b))
    ensures a.Equals(b) <==> a.milliseconds == b.milliseconds
  {
  }

  lemma ComparisonLaws(a: Duration, b: Duration)
    ensures a.LessThan(b) <==> b.GreaterThan(a)
    ensures !a.LessThan(a) && !a.GreaterThan(a)
    ensures a.Equals(a)
    ensures a.Equals(b) <==> b.Equals(a)
  {
  }

  /** Durations built from different units compare equal when their
      millisecond counts agree, whatever their other fields hold. */
  lemma UnitsCompareEqual(n: int)
    ensures OfWeeks(n).Equals(OfDays(7 * n))
    ensures OfDays(n).Equals(OfHours(24 * n))
    ensures OfHours(n).Equals(OfMinutes(60 * n))
    ensures OfMinutes(n).Equals(OfSeconds(60 * n))
    ensures OfSeconds(n).Equals(OfMilliseconds(1000 * n))
    ensures OfYears(n).Equals(OfDays(365 * n))
  {
  }

  /** Normalising a text argument to a date gives the instant it parses
      to, so a date and a text for the same instant are interchangeable as
      `start`; an unparsable text stands for no instant. */
  lemma InstantNormalises(t: int)
    ensures forall end :: Between(IsoText(Some(t)), end) == Between(DateValue(t), end)
    ensures Instant(IsoText(Some(t))) == Instant(DateValue(t)) == Some(t)
    ensures Instant(IsoText(None)).None?
    ensures forall end :: Between(IsoText(None), end).None?
  {
  }

  /** `between` of the same instant is the zero duration. */
  lemma BetweenSameInstant(t: int)
    ensures Between(DateValue(t), DateValue(t)) == Some(OfMilliseconds(0))
  {
  }

  /** With two date arguments, `between` as written is the intended one, and
      the difference may be negative. */
  lemma BetweenDatesAgree(start: int, end: int)
    ensures Between(DateValue(start), DateValue(end))
         == BetweenIntended(DateValue(start), DateValue(end))
    ensures Between(DateValue(start), DateValue(end)).Some?
    ensures Between(DateValue(start), DateValue(end)).value.milliseconds == end - start
  {
  }

  /** The defect: a text `end` is ignored, so a span of five milliseconds
      comes out as zero. */
  lemma BetweenTextEndIgnored()
    ensures Between(DateValue(0), IsoText(Some(5))) == Some(OfMilliseconds(0))
    ensures BetweenIntended(DateValue(0), IsoText(Some(5))) == Some(OfMilliseconds(5))
  {
  }

  /** The two durations of the shipped sweeps, in milliseconds. */
  lemma ShippedThresholds()
    ensures OfDays(2).milliseconds == 172800000
    ensures OfDays(7).milliseconds == 604800000
  {
  }
}
