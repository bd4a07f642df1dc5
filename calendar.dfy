/**
 * Calendar dates as day ordinals of the proleptic Gregorian calendar, the
 * representation behind Python's `datetime`: ordinal 1 is 0001-01-01, a
 * Monday, and `datetime.max` falls on ordinal 3652059 (9999-12-31).
 * Adding `timedelta(days = n)` to a date adds n to its ordinal.
 */
module Calendar {

  const MinYear := 1
  const MaxYear := 9999
  /** The ordinal of 9999-12-31, the last date `datetime` can represent. */
  const MaxOrdinal := 3652059
  /** `date.weekday()` numbers Monday 0 through Sunday 6. */
  const Sunday := 6

  /** The ordinal of January 1 of `year`. */
  function Jan1(year: int): int
  {
    365 * (year - 1) + (year - 1) / 4 - (year - 1) / 100 + (year - 1) / 400 + 1
  }

  predicate IsLeap(year: int)
  {
    year % 4 == 0 && (year % 100 != 0 || year % 400 == 0)
  }

  function DaysInYear(year: int): int
  {
    if IsLeap(year) then 366 else 365
  }

  /** `date.weekday()` of the date with ordinal `o`. */
  function Weekday(o: int): int
  {
    (o + 6) % 7
  }

  /** The date with ordinal `o` has `.year == year`. */
  predicate InYear(o: int, year: int)
  {
    Jan1(year) <= o < Jan1(year + 1)
  }

  /** Stepping the numerator by one moves the quotient by one exactly at multiples of d. */
  lemma QuotientStep(n: int, d: int)
    requires d == 4 || d == 100 || d == 400
    ensures (n + 1) / d - n / d == if (n + 1) % d == 0 then 1 else 0
  {
    if d == 4 {
      assert (n + 1) / 4 - n / 4 == if (n + 1) % 4 == 0 then 1 else 0;
    } else if d == 100 {
      assert (n + 1) / 100 - n / 100 == if (n + 1) % 100 == 0 then 1 else 0;
    } else {
      assert (n + 1) / 400 - n / 400 == if (n + 1) % 400 == 0 then 1 else 0;
    }
  }

  /** A multiple of 100 is a multiple of 4. */
  lemma CenturyIsLeapCandidate(year: int)
    requires year % 100 == 0
    ensures year % 4 == 0
  {
    var k := year / 100;
    assert year == 100 * k;
    assert year == 4 * (25 * k) + 0;
  }

  /** A multiple of 400 is a multiple of 100. */
  lemma QuadCenturyIsCentury(year: int)
    requires year % 400 == 0
    ensures year % 100 == 0
  {
    var k := year / 400;
    assert year == 400 * k;
    assert year == 100 * (4 * k) + 0;
  }

  /** Consecutive Januaries are a year apart: 366 days after a leap year, 365 otherwise. */
  lemma Jan1Step(year: int)
    ensures Jan1(year + 1) == Jan1(year) + DaysInYear(year)
  {
    var n := year - 1;
    QuotientStep(n, 4);
    QuotientStep(n, 100);
    QuotientStep(n, 400);
    if year % 400 == 0 {
      QuadCenturyIsCentury(year);
    }
    if year % 100 == 0 {
      CenturyIsLeapCandidate(year);
    }
    var d4, d100, d400 := (n + 1) / 4 - n / 4, (n + 1) / 100 - n / 100, (n + 1) / 400 - n / 400;
    assert Jan1(year + 1) - Jan1(year) == 365 + d4 - d100 + d400;
  }

  /** Later years start later. */
  lemma {:induction false} Jan1Monotone(a: int, b: int)
    requires a <= b
    ensures Jan1(a) + 365 * (b - a) <= Jan1(b)
    decreases b - a
  {
    if a < b {
      Jan1Monotone(a, b - 1);
      Jan1Step(b - 1);
    }
  }

  /** The year of a date is well defined: no ordinal lies in two years. */
  lemma YearIsUnique(o: int, y1: int, y2: int)
    requires InYear(o, y1) && InYear(o, y2)
    ensures y1 == y2
  {
    if y1 < y2 {
      Jan1Monotone(y1 + 1, y2);
    } else if y2 < y1 {
      Jan1Monotone(y2 + 1, y1);
    }
  }

  /** Ordinal 1 is Monday 0001-01-01 and MaxOrdinal is the day before year 10000. */
  lemma OrdinalAnchors()
    ensures Jan1(MinYear) == 1 && Weekday(1) == 0
    ensures MaxOrdinal == Jan1(MaxYear + 1) - 1
  {
  }

}
