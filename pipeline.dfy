/**
 * The hand-off from the rasteriser to the mapper: for any grid that
 * `create_text_matrix` produces and any year the mapper accepts, every lit
 * cell becomes exactly one commit date and nothing raises.
 */
module Pipeline {
  import opened Wrappers
  import opened Calendar
  import Decimal
  import opened Rasterizer
  import opened Mapper

  /** A rasterised grid is 7 x 52, so the mapper scans all of it. */
  lemma RasterGridShape(font: Font, text: string)
    requires FontWellFormed(font)
    ensures var grid := RasterGrid(font, text);
      Scannable(grid) && Width(grid) == Columns && Height(grid) == Rows
  {
  }

  /** Every lit cell of a rasterised grid maps to a date at most 334 days after January 1: the anchor is at most day 6, column at most 46, row at most 6. */
  lemma LitCellsEarly(font: Font, text: string, year: int, x: nat, y: nat)
    requires FontWellFormed(font) && x < Columns && y < Rows
    requires Lit(RasterCell(font, text, y, x))
    ensures Jan1(year) <= CellDate(Anchor(year), x, y) <= Jan1(year) + 334
    ensures InYear(CellDate(Anchor(year), x, y), year)
  {
    LitColumnsBound(font, text, y, x);
    AnchorIsFirstSunday(year);
    OnlyLastWeekSpills(year, x, y);
  }

  /** No lit cell of a rasterised grid lies past 9999-12-31, so `timedelta` never overflows. */
  lemma RasterGridNoOverflow(font: Font, text: string, year: int)
    requires FontWellFormed(font) && MinYear <= year <= MaxYear
    ensures !Overflows(RasterGrid(font, text), Anchor(year), Columns, Rows)
  {
    var grid := RasterGrid(font, text);
    OrdinalAnchors();
    Jan1Monotone(year + 1, MaxYear + 1);
    forall x, y | 0 <= x < Columns && 0 <= y < Rows && Lit(grid[y][x])
      ensures CellDate(Anchor(year), x, y) <= MaxOrdinal
    {
      LitCellsEarly(font, text, year, x, y);
    }
  }

  /** The scan of a rasterised grid holds the date of a cell exactly when the cell is lit. */
  lemma RasterDatesAreLitCells(font: Font, text: string, year: int)
    requires FontWellFormed(font)
    ensures var ds := GridDates(RasterGrid(font, text), Anchor(year), year, Columns, Rows);
      forall x, y :: 0 <= x < Columns && 0 <= y < Rows ==>
        (CellDate(Anchor(year), x, y) in ds <==> Lit(RasterCell(font, text, y, x)))
  {
    var grid := RasterGrid(font, text);
    var anchor := Anchor(year);
    var ds := GridDates(grid, anchor, year, Columns, Rows);
    forall x, y | 0 <= x < Columns && 0 <= y < Rows
      ensures CellDate(anchor, x, y) in ds <==> Lit(RasterCell(font, text, y, x))
    {
      var d := CellDate(anchor, x, y);
      GridDatesMembership(grid, anchor, year, Columns, Rows, d);
      if Lit(RasterCell(font, text, y, x)) {
        LitCellsEarly(font, text, year, x, y);
        assert KeptAs(grid, anchor, year, x, y, d);
      }
      if d in ds {
        var x', y' :| 0 <= x' < Columns && 0 <= y' < Rows && KeptAs(grid, anchor, year, x', y', d);
        CellDateInjective(anchor, x, y, x', y');
      }
    }
  }

  /**
   * For an accepted year, the dates of a rasterised text are returned (no
   * OverflowError, even in 9999), in increasing order, inside the year, and
   * are exactly the dates of its lit cells: no lit cell is dropped.
   */
  lemma NothingDropped(font: Font, text: string, yearText: string, year: int)
    requires FontWellFormed(font)
    requires Decimal.ParseInt(yearText) == Some(year) && YearAccepted(yearText)
    ensures CommitDates(RasterGrid(font, text), yearText).Returned?
    ensures var ds := CommitDates(RasterGrid(font, text), yearText).dates;
      && StrictlyIncreasing(ds)
      && (forall d :: d in ds ==> InYear(d, year))
      && (forall x, y :: 0 <= x < Columns && 0 <= y < Rows ==>
            (CellDate(Anchor(year), x, y) in ds <==> Lit(RasterCell(font, text, y, x))))
  {
    var grid := RasterGrid(font, text);
    RasterGridShape(font, text);
    MappedDates(grid, yearText, year);
    RasterGridNoOverflow(font, text, year);
    ScanResult(grid, Anchor(year), year, Columns, Rows);
    RasterDatesAreLitCells(font, text, year);
  }

  /** Empty text draws nothing, so an accepted year gets no dates. */
  lemma EmptyTextNoDates(font: Font, yearText: string)
    requires FontWellFormed(font) && YearAccepted(yearText)
    ensures CommitDates(RasterGrid(font, ""), yearText) == Returned([])
  {
    var grid := RasterGrid(font, "");
    RasterGridShape(font, "");
    BlankGridNoDates(grid, yearText);
  }
}
