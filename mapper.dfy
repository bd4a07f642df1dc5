/**
 * The calendar mapper, `generate_commit_dates_from_matrix`: turns the lit
 * cells of a grid into commit dates. Column x is week x and row y is day y
 * of the week, counted from the first Sunday of the target year; dates that
 * fall outside the year are dropped.
 */
module Mapper {
  import opened Wrappers
  import opened Calendar
  import Decimal

  /** The exceptions the mapper lets escape. */
  datatype Failure =
    | DateFormatMismatch  // `strptime` rejects a year that does not render as four digits
    | DateOverflow        // a commit date would lie beyond 9999-12-31

  /** What a call of the mapper does: return a list of dates, or raise. */
  datatype Outcome = Returned(dates: seq<int>) | Raised(failure: Failure)

  /** At most 52 weeks and 7 days are read from the grid. */
  const Weeks := 52
  const DaysPerWeek := 7

  /** `if grid[y][x]`: a cell is lit when it is non-zero. */
  predicate Lit(v: int)
  {
    v != 0
  }

  /** `min(52, len(grid[0]))`: the number of columns scanned. */
  function Width(grid: seq<seq<int>>): nat
    requires |grid| > 0
  {
    if |grid[0]| < Weeks then |grid[0]| else Weeks
  }

  /** `min(7, len(grid))`: the number of rows scanned. */
  function Height(grid: seq<seq<int>>): nat
  {
    if |grid| < DaysPerWeek then |grid| else DaysPerWeek
  }

  /** Every cell in the first w columns of the first h rows exists. */
  predicate Covers(grid: seq<seq<int>>, w: nat, h: nat)
  {
    h <= |grid| && forall y :: 0 <= y < h ==> w <= |grid[y]|
  }

  /** The grid can be scanned without an IndexError. */
  predicate Scannable(grid: seq<seq<int>>)
  {
    |grid| > 0 && Covers(grid, Width(grid), Height(grid))
  }

  /** `start_date + timedelta(weeks=x, days=y)`. */
  function CellDate(anchor: int, x: int, y: int): int
  {
    anchor + DaysPerWeek * x + y
  }

  /** The first Sunday on or after the date with ordinal `o`. */
  function SundayOnOrAfter(o: int): int
  {
    o + (Sunday - Weekday(o))
  }

  /** The first Sunday on or after January 1 of `year`: column 0, row 0 of the calendar. */
  function Anchor(year: int): int
  {
    SundayOnOrAfter(Jan1(year))
  }

  /** `int(year)` succeeds and `strptime` accepts the rendered year. */
  predicate YearAccepted(yearText: string)
  {
    var parsed := Decimal.ParseInt(yearText);
    parsed.Some? && Decimal.IsFourDigits(Decimal.FormatInt(parsed.value))
  }

  /** Dates, top to bottom, of the lit cells in rows [0, h) of column x that fall in `year`. */
  function ColumnDates(grid: seq<seq<int>>, anchor: int, year: int, x: nat, h: nat): seq<int>
    requires h <= |grid| && forall y :: 0 <= y < h ==> x < |grid[y]|
  {
    if h == 0 then []
    else
      var d := CellDate(anchor, x, h - 1);
      ColumnDates(grid, anchor, year, x, h - 1) + (if Lit(grid[h - 1][x]) && InYear(d, year) then [d] else [])
  }

  /** Dates of the lit in-year cells of columns [0, w), column by column. */
  function GridDates(grid: seq<seq<int>>, anchor: int, year: int, w: nat, h: nat): seq<int>
    requires Covers(grid, w, h)
  {
    if w == 0 then [] else GridDates(grid, anchor, year, w - 1, h) + ColumnDates(grid, anchor, year, w - 1, h)
  }

  /** Some lit cell among the first w columns and h rows maps past the last representable date. */
  predicate Overflows(grid: seq<seq<int>>, anchor: int, w: nat, h: nat)
    requires Covers(grid, w, h)
  {
    exists x, y :: 0 <= x < w && 0 <= y < h && Lit(grid[y][x]) && CellDate(anchor, x, y) > MaxOrdinal
  }

  /** What `generate_commit_dates_from_matrix(grid, yearText)` does. */
  function CommitDates(grid: seq<seq<int>>, yearText: string): Outcome
    requires YearAccepted(yearText) ==> Scannable(grid)
  {
    match Decimal.ParseInt(yearText)
    case None => Returned([])
    case Some(year) =>
      if !Decimal.IsFourDigits(Decimal.FormatInt(year)) then Raised(DateFormatMismatch)
      else
        var anchor, w, h := Anchor(year), Width(grid), Height(grid);
        if Overflows(grid, anchor, w, h) then Raised(DateOverflow)
        else Returned(GridDates(grid, anchor, year, w, h))
  }

  /** SundayOnOrAfter(o) is a Sunday, at most six days after o, with no Sunday before it from o on. */
  lemma FirstSunday(o: int)
    ensures Weekday(SundayOnOrAfter(o)) == Sunday
    ensures o <= SundayOnOrAfter(o) <= o + 6
    ensures forall k :: o <= k < SundayOnOrAfter(o) ==> Weekday(k) != Sunday
  {
    var r := Weekday(o);
    var q := (o + 6) / 7;
    assert o + 6 == 7 * q + r;
    forall k | o <= k < SundayOnOrAfter(o)
      ensures Weekday(k) != Sunday
    {
      assert k + 6 == 7 * q + (r + (k - o));
    }
  }

  /** The anchor is the first Sunday of the year, and it is at most January 7. */
  lemma AnchorIsFirstSunday(year: int)
    ensures Weekday(Anchor(year)) == Sunday
    ensures Jan1(year) <= Anchor(year) <= Jan1(year) + 6
    ensures forall o :: Jan1(year) <= o < Anchor(year) ==> Weekday(o) != Sunday
  {
    FirstSunday(Jan1(year));
  }

  /** The `while start_date.weekday() != 6` loop: step day by day from January 1 to a Sunday. */
  method FindAnchor(year: int) returns (anchor: int)
    requires MinYear <= year <= MaxYear
    ensures anchor == Anchor(year)
    ensures Weekday(anchor) == Sunday && Jan1(year) <= anchor <= Jan1(year) + 6
  {
    AnchorIsFirstSunday(year);
    anchor := Jan1(year);
    while Weekday(anchor) != Sunday
      invariant Jan1(year) <= anchor <= Anchor(year)
      decreases Anchor(year) - anchor
    {
      anchor := anchor + 1;
    }
  }

  /** The nested scan: visit columns, then rows within a column, keeping the lit cells whose date is in `year`. */
  method ScanGrid(grid: seq<seq<int>>, anchor: int, year: int, w: nat, h: nat) returns (result: Outcome)
    requires Covers(grid, w, h)
    ensures result == if Overflows(grid, anchor, w, h) then Raised(DateOverflow)
                      else Returned(GridDates(grid, anchor, year, w, h))
  {
    var dates := [];
    for x := 0 to w
      invariant dates == GridDates(grid, anchor, year, x, h)
      invariant !Overflows(grid, anchor, x, h)
    {
      for y := 0 to h
        invariant dates == GridDates(grid, anchor, year, x, h) + ColumnDates(grid, anchor, year, x, y)
        invariant forall y' :: 0 <= y' < y && Lit(grid[y'][x]) ==> CellDate(anchor, x, y') <= MaxOrdinal
      {
        if Lit(grid[y][x]) {
          var commitDate := CellDate(anchor, x, y);
          if commitDate > MaxOrdinal {
            assert Overflows(grid, anchor, w, h);
            return Raised(DateOverflow);
          }
          if InYear(commitDate, year) {
            dates := dates + [commitDate];
          }
        }
      }
    }
    return Returned(dates);
  }

  /** `generate_commit_dates_from_matrix`: parse the year, find the anchor, scan the grid. */
  method GenerateCommitDates(grid: seq<seq<int>>, yearText: string) returns (result: Outcome)
    requires YearAccepted(yearText) ==> Scannable(grid)
    ensures result == CommitDates(grid, yearText)
  {
    var parsed := Decimal.ParseInt(yearText);
    if parsed.None? {
      return Returned([]);
    }
    var year := parsed.value;
    if !Decimal.IsFourDigits(Decimal.FormatInt(year)) {
      return Raised(DateFormatMismatch);
    }
    Decimal.FourDigitsIff(year);
    var anchor := FindAnchor(year);
    result := ScanGrid(grid, anchor, year, Width(grid), Height(grid));
  }

  predicate StrictlyIncreasing(s: seq<int>)
  {
    forall i, j :: 0 <= i < j < |s| ==> s[i] < s[j]
  }

  /** Cell (x, y) is lit and maps to date d inside `year`. */
  predicate KeptAs(grid: seq<seq<int>>, anchor: int, year: int, x: nat, y: nat, d: int)
    requires y < |grid| && x < |grid[y]|
  {
    Lit(grid[y][x]) && d == CellDate(anchor, x, y) && InYear(d, year)
  }

  /** A date is kept from column x exactly when some lit row of that column maps to it inside the year. */
  lemma {:induction false} ColumnDatesMembership(grid: seq<seq<int>>, anchor: int, year: int, x: nat, h: nat, d: int)
    requires h <= |grid| && forall y :: 0 <= y < h ==> x < |grid[y]|
    ensures d in ColumnDates(grid, anchor, year, x, h) <==> exists y :: 0 <= y < h && KeptAs(grid, anchor, year, x, y, d)
  {
    if h > 0 {
      ColumnDatesMembership(grid, anchor, year, x, h - 1, d);
      if KeptAs(grid, anchor, year, x, h - 1, d) {
        assert d in ColumnDates(grid, anchor, year, x, h);
      } else {
        assert d in ColumnDates(grid, anchor, year, x, h) <==> d in ColumnDates(grid, anchor, year, x, h - 1);
        if exists y :: 0 <= y < h && KeptAs(grid, anchor, year, x, y, d) {
          var y :| 0 <= y < h && KeptAs(grid, anchor, year, x, y, d);
          assert y < h - 1;
        }
      }
    }
  }

  /** A date is in the scan result exactly when some lit cell maps to it inside the year. */
  lemma {:induction false} GridDatesMembership(grid: seq<seq<int>>, anchor: int, year: int, w: nat, h: nat, d: int)
    requires Covers(grid, w, h)
    ensures d in GridDates(grid, anchor, year, w, h) <==>
      exists x, y :: 0 <= x < w && 0 <= y < h && KeptAs(grid, anchor, year, x, y, d)
  {
    if w > 0 {
      var last := w - 1;
      GridDatesMembership(grid, anchor, year, last, h, d);
      ColumnDatesMembership(grid, anchor, year, last, h, d);
      var front, back := GridDates(grid, anchor, year, last, h), ColumnDates(grid, anchor, year, last, h);
      assert GridDates(grid, anchor, year, w, h) == front + back;
      if d in back {
        var y :| 0 <= y < h && KeptAs(grid, anchor, year, last, y, d);
        assert 0 <= last < w;
      }
      if exists x, y :: 0 <= x < w && 0 <= y < h && KeptAs(grid, anchor, year, x, y, d) {
        var x, y :| 0 <= x < w && 0 <= y < h && KeptAs(grid, anchor, year, x, y, d);
        if x == last {
          assert d in back;
        } else {
          assert d in front;
        }
      }
    }
  }

  /** The dates of column x increase down the column and lie in week x. */
  lemma {:induction false} ColumnDatesOrdered(grid: seq<seq<int>>, anchor: int, year: int, x: nat, h: nat)
    requires h <= |grid| && forall y :: 0 <= y < h ==> x < |grid[y]|
    ensures StrictlyIncreasing(ColumnDates(grid, anchor, year, x, h))
    ensures forall d :: d in ColumnDates(grid, anchor, year, x, h) ==>
      CellDate(anchor, x, 0) <= d < CellDate(anchor, x, h)
  {
    if h > 0 {
      ColumnDatesOrdered(grid, anchor, year, x, h - 1);
      var front := ColumnDates(grid, anchor, year, x, h - 1);
      var s := ColumnDates(grid, anchor, year, x, h);
      forall i, j | 0 <= i < j < |s|
        ensures s[i] < s[j]
      {
        if j >= |front| {
          assert s[i] in front;
        }
      }
    }
  }

  /** With at most seven rows, column-major order is date order. */
  lemma {:induction false} GridDatesOrdered(grid: seq<seq<int>>, anchor: int, year: int, w: nat, h: nat)
    requires Covers(grid, w, h) && h <= DaysPerWeek
    ensures StrictlyIncreasing(GridDates(grid, anchor, year, w, h))
    ensures forall d :: d in GridDates(grid, anchor, year, w, h) ==> anchor <= d < CellDate(anchor, w, 0)
  {
    if w > 0 {
      GridDatesOrdered(grid, anchor, year, w - 1, h);
      ColumnDatesOrdered(grid, anchor, year, w - 1, h);
      var front, back := GridDates(grid, anchor, year, w - 1, h), ColumnDates(grid, anchor, year, w - 1, h);
      var s := front + back;
      forall i, j | 0 <= i < j < |s|
        ensures s[i] < s[j]
      {
        if j < |front| {
        } else if i >= |front| {
          assert s[i] == back[i - |front|] && s[j] == back[j - |front|];
        } else {
          assert s[i] in front && s[j] in back;
        }
      }
    }
  }

  /** A value occurs once in a strictly increasing sequence that holds it. */
  lemma {:induction false} IncreasingHoldsOnce(s: seq<int>, d: int)
    requires StrictlyIncreasing(s) && d in s
    ensures multiset(s)[d] == 1
  {
    assert s == [s[0]] + s[1..];
    if s[0] == d {
      assert d !in s[1..];
    } else {
      IncreasingHoldsOnce(s[1..], d);
    }
  }

  /** Distinct cells of a week-by-day grid map to distinct dates. */
  lemma CellDateInjective(anchor: int, x: int, y: int, x': int, y': int)
    requires 0 <= y < DaysPerWeek && 0 <= y' < DaysPerWeek
    requires CellDate(anchor, x, y) == CellDate(anchor, x', y')
    ensures x == x' && y == y'
  {
  }

  /** Every cell of weeks 0 to 50 lands in the target year; only week 51 can spill into the next. */
  lemma OnlyLastWeekSpills(year: int, x: nat, y: nat)
    requires x < Weeks - 1 && y < DaysPerWeek
    ensures InYear(CellDate(Anchor(year), x, y), year)
  {
    AnchorIsFirstSunday(year);
    Jan1Step(year);
  }

  /** Week 51 does spill: 2024 starts on a Monday, so the Saturday of its week 51 is January 4, 2025. */
  lemma LastWeekCanSpill()
    ensures Anchor(2024) == Jan1(2024) + 6
    ensures CellDate(Anchor(2024), Weeks - 1, 6) == Jan1(2025) + 3
    ensures !InYear(CellDate(Anchor(2024), Weeks - 1, 6), 2024)
  {
    Jan1Step(2024);
  }

  /**
   * The scan result: strictly increasing dates, all in the year, exactly the
   * dates of the lit cells that fall in the year, each of them once.
   */
  lemma ScanResult(grid: seq<seq<int>>, anchor: int, year: int, w: nat, h: nat)
    requires Covers(grid, w, h) && h <= DaysPerWeek
    ensures var ds := GridDates(grid, anchor, year, w, h);
      && StrictlyIncreasing(ds)
      && (forall d :: d in ds ==> InYear(d, year))
      && (forall d :: d in ds <==> exists x, y :: 0 <= x < w && 0 <= y < h && KeptAs(grid, anchor, year, x, y, d))
      && (forall x, y :: 0 <= x < w && 0 <= y < h && KeptAs(grid, anchor, year, x, y, CellDate(anchor, x, y)) ==>
            multiset(ds)[CellDate(anchor, x, y)] == 1)
  {
    var ds := GridDates(grid, anchor, year, w, h);
    GridDatesOrdered(grid, anchor, year, w, h);
    forall d
      ensures d in ds <==> exists x, y :: 0 <= x < w && 0 <= y < h && KeptAs(grid, anchor, year, x, y, d)
    {
      GridDatesMembership(grid, anchor, year, w, h, d);
    }
    forall x, y | 0 <= x < w && 0 <= y < h && KeptAs(grid, anchor, year, x, y, CellDate(anchor, x, y))
      ensures multiset(ds)[CellDate(anchor, x, y)] == 1
    {
      IncreasingHoldsOnce(ds, CellDate(anchor, x, y));
    }
  }

  /** For an accepted year the mapper returns the scan result or raises DateOverflow, and the year is 1000 to 9999. */
  lemma MappedDates(grid: seq<seq<int>>, yearText: string, year: int)
    requires Scannable(grid) && Decimal.ParseInt(yearText) == Some(year) && YearAccepted(yearText)
    ensures 1000 <= year <= 9999
    ensures CommitDates(grid, yearText) ==
      if Overflows(grid, Anchor(year), Width(grid), Height(grid)) then Raised(DateOverflow)
      else Returned(GridDates(grid, Anchor(year), year, Width(grid), Height(grid)))
  {
    Decimal.FourDigitsIff(year);
  }

  /** A year that `int()` rejects gives an empty list; one `strptime` rejects raises. */
  lemma RejectedYears(grid: seq<seq<int>>, yearText: string)
    requires !YearAccepted(yearText)
    ensures Decimal.ParseInt(yearText).None? ==> CommitDates(grid, yearText) == Returned([])
    ensures Decimal.ParseInt(yearText).Some? ==> CommitDates(grid, yearText) == Raised(DateFormatMismatch)
    ensures Decimal.ParseInt(yearText).Some? ==> !(1000 <= Decimal.ParseInt(yearText).value <= 9999)
  {
    if Decimal.ParseInt(yearText).Some? {
      Decimal.FourDigitsIff(Decimal.ParseInt(yearText).value);
    }
  }

  /** A grid without lit cells yields no dates for an accepted year. */
  lemma BlankGridNoDates(grid: seq<seq<int>>, yearText: string)
    requires Scannable(grid) && YearAccepted(yearText)
    requires forall x, y :: 0 <= x < Width(grid) && 0 <= y < Height(grid) ==> !Lit(grid[y][x])
    ensures CommitDates(grid, yearText) == Returned([])
  {
    var year := Decimal.ParseInt(yearText).value;
    var ds := GridDates(grid, Anchor(year), year, Width(grid), Height(grid));
    if ds != [] {
      GridDatesMembership(grid, Anchor(year), year, Width(grid), Height(grid), ds[0]);
    }
  }
}
