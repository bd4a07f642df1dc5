# Contribution-graph text: rasteriser and calendar mapper

This project models the core of a tool that writes short text onto a hosted
contribution calendar. The core is two functions of `main.py`:

- `create_text_matrix` lays the characters of a text into a 7-row by
  52-column grid. It keeps at most `52 // 6 = 8` characters. Each one becomes
  a 7x5 glyph from the font table, followed by one blank column. A character
  the font lacks is drawn with the space glyph.
- `generate_commit_dates_from_matrix` turns the grid into commit dates. It
  reads the year with `int()`, finds the first Sunday of that year, and maps
  lit cell (row y, column x) to `anchor + 7*x + y` days. It keeps a date only
  if it falls in the target year.

Dates are day ordinals of the proleptic Gregorian calendar, as Python's
`datetime` counts them: ordinal 1 is Monday 0001-01-01 and `weekday()` is
`(o + 6) % 7`. `commit_date.year == year` is `InYear(o, year)`, meaning
`Jan1(year) <= o < Jan1(year + 1)`. `Calendar.YearIsUnique` proves that this
year is well defined.

Modules, one per component:

- `calendar.dfy` (`Calendar`): ordinals, January 1 of each year, weekdays, leap years.
- `decimal.dfy` (`Decimal`): `int(year)` as a decimal parser and `f"{year}"` as its inverse.
- `rasterizer.dfy` (`Rasterizer`): the grid as a fresh `array2<int>`, filled in place
  by `CreateTextMatrix` with the source's nested loops and moving cursor. It is
  proved equal cell by cell to the closed form `RasterCell`.
- `mapper.dfy` (`Mapper`): `FindAnchor` (the day-by-day Sunday search) and
  `ScanGrid` (the column-major scan). `GenerateCommitDates` is proved equal to
  the specification function `CommitDates`.
- `pipeline.dfy` (`Pipeline`): what happens when a rasterised grid is handed to the mapper.

The source does not catch every exception. The mapper's result is an
`Outcome`: either `Returned(dates)` or `Raised(failure)`.

- `DateFormatMismatch`: `strptime(f"{year}-01-01", "%Y-%m-%d")` at main.py:39
  sits outside the `try`. Its `%Y` needs exactly four digits, so any year
  outside 1000..9999 raises `ValueError`. The source's error message
  (main.py:36) speaks only of a non-numeric year; a numeric year outside
  1000..9999 instead escapes as the `ValueError` of main.py:39.
- `DateOverflow`: `start_date + timedelta(...)` raises `OverflowError` past
  9999-12-31 (ordinal 3652059). This is checked before the year test, so in
  year 9999 a lit cell late enough in week 51 raises.

## Model

| member | source | states |
|---|---|---|
| `Rasterizer.Truncate` | main.py:8-13 | The drawn text is a prefix of the input of length at most `52 // 6 = 8`. It is the whole input when the input is not longer than that. |
| `Rasterizer.GlyphOf` | main.py:18-21 | The glyph looked up for any character, including one missing from the font (which gets the space glyph), has 7 rows of at least 5 cells. |
| `Rasterizer.CreateTextMatrix` | main.py:7-30 | Returns a fresh 7x52 array. Every cell equals `RasterCell`: column x of the i-th drawn character's glyph at column `6*i + x` (x < 5), and 0 elsewhere. The cursor stays at `6*i` between characters, so the `col >= 52` break and the `col < 52` guard never cut a glyph. |
| `Rasterizer.DrawColumn` | main.py:25-26 | Column `col` of the grid takes column x of the glyph in all 7 rows. Every other cell keeps its value. |
| `Rasterizer.GlyphPlacement` | main.py:16-27 | For the i-th drawn character, `grid[y][6*i + x]` is row y, column x of its glyph, for x < 5 and y < 7. |
| `Rasterizer.MissingCharDrawnAsSpace` | main.py:18-21 | A character not in the font is drawn cell for cell as the space glyph. |
| `Rasterizer.BlankColumns` | main.py:28-29 | Each spacing column `6*i + 5`, and every column from `6*len(text)` to 51, stays 0. |
| `Rasterizer.LitColumnsBound` | main.py:22-29 | A non-zero cell lies in column 46 or earlier, so nothing is written past column 47. |
| `Rasterizer.OverlongTextCut` | main.py:10-13 | Text longer than 8 characters draws the same grid as its first 8 characters. |
| `Calendar.Jan1Step` | main.py:48 | Consecutive Januaries are 366 days apart after a leap year and 365 otherwise. |
| `Calendar.Jan1Monotone` | main.py:48 | January 1 of a later year comes at least 365 days per year later. |
| `Calendar.YearIsUnique` | main.py:48 | No ordinal lies in two years, so the `.year` test is the window `Jan1(year) <= o < Jan1(year + 1)`. |
| `Decimal.ParseInt` | main.py:33-37 | `int(year)` succeeds exactly when the text, without surrounding ASCII whitespace, is an optional sign followed by one or more ASCII digits; otherwise None, for which the mapper returns `[]`. A negative result comes only from a leading `-`. |
| `Decimal.FormatNat` | main.py:39 | The decimal rendering of a natural number is a non-empty string of digits with no leading zero. |
| `Decimal.ParseFormatRoundTrip` | main.py:33-39 | Parsing the rendering `f"{n}"` with `int()` gives back n, for every integer n. |
| `Decimal.FourDigitsIff` | main.py:39 | `f"{year}"` is exactly four digits, which `%Y` of `strptime` needs, if and only if 1000 <= year <= 9999. |
| `Mapper.AnchorIsFirstSunday` | main.py:39-41 | The anchor is a Sunday and lies between January 1 and January 7. No earlier day from January 1 on is a Sunday. |
| `Mapper.FindAnchor` | main.py:39-41 | The day-by-day loop from January 1 stops at `Anchor(year)`, a Sunday at most 6 steps later. |
| `Mapper.ScanGrid` | main.py:43-49 | The nested column-then-row scan raises `DateOverflow` exactly when some lit scanned cell maps past 9999-12-31. Otherwise it returns `GridDates`: the lit in-year cell dates in column-major order. |
| `Mapper.GenerateCommitDates` | main.py:32-57 | The method returns `CommitDates(grid, yearText)`. An unparsable year gives `[]`. A year that is not four digits raises `DateFormatMismatch`. Otherwise the result is the scan from the anchor. |
| `Mapper.RejectedYears` | main.py:33-39 | A year text `int()` rejects yields an empty list. A parsed year outside 1000..9999 raises `DateFormatMismatch`. |
| `Mapper.MappedDates` | main.py:39-49 | An accepted year lies in 1000..9999. The result is the scan from that year's first Sunday over `min(52, len(grid[0]))` columns and `min(7, len(grid))` rows, unless a lit cell overflows. |
| `Mapper.ColumnDatesMembership` | main.py:45-49 | A date is kept from column x if and only if some lit row y < h of that column maps to it and it falls in the year. |
| `Mapper.GridDatesMembership` | main.py:44-49 | A date is in the scan result if and only if some lit cell (x < w, y < h) maps to `anchor + 7*x + y` and that date falls in the year. |
| `Mapper.ColumnDatesOrdered` | main.py:45-47 | The dates kept from one column strictly increase and lie in that column's week. |
| `Mapper.GridDatesOrdered` | main.py:44-47 | With at most 7 rows, the column-major output is strictly increasing by date, and all of it lies in weeks 0 to w-1 after the anchor. |
| `Mapper.CellDateInjective` | main.py:47 | Two cells with rows below 7 that map to the same date are the same cell. |
| `Mapper.ScanResult` | main.py:43-49 | The scan result strictly increases and lies in the year. It holds exactly the dates of the lit in-year cells, each exactly once. |
| `Mapper.OnlyLastWeekSpills` | main.py:44-48 | Every cell of columns 0 to 50 maps into the target year. Only column 51 can be dropped. |
| `Mapper.LastWeekCanSpill` | main.py:48 | The year test does drop dates: in 2024 the anchor is January 7, and row 6 of column 51 falls on January 4, 2025. |
| `Mapper.BlankGridNoDates` | main.py:44-57 | A grid with no lit cell yields an empty list for an accepted year. |
| `Pipeline.RasterGridShape` | main.py:15 | A rasterised grid is 7x52, so the mapper scans all 52 columns and 7 rows of it without an index error. |
| `Pipeline.LitCellsEarly` | main.py:22-29 | Every lit cell of a rasterised grid maps to a date at most 334 days after January 1 (anchor day 6 + 7 x column 46 + row 6), inside the year. |
| `Pipeline.RasterGridNoOverflow` | main.py:47 | No lit cell of a rasterised grid maps past 9999-12-31, even in year 9999. |
| `Pipeline.RasterDatesAreLitCells` | main.py:44-49 | For a rasterised grid, a cell's date is in the scan result if and only if the cell is lit. |
| `Pipeline.NothingDropped` | main.py:44-49 | For a rasterised text and an accepted year, the mapper returns without raising. The dates strictly increase and lie in the year, and each cell's date is in the result if and only if the cell is lit: no lit cell is dropped. |
| `Pipeline.EmptyTextNoDates` | main.py:51-57 | Empty text gives an empty date list for every accepted year. |

## Left out

- `make_commits`, `create_github_repo`, `push_to_github` and `main` (main.py:59-153): file system work, `git` subprocesses, one HTTP request and interactive prompts. The only part of `main` kept is the hand-off from grid to mapper (`Pipeline`).
- The `print` warnings and diagnostics (main.py:11-12, 19, 36, 51-55), including the "grid contains active cells" check. They do not change any result.
- The contents of `data/font.py`. The font is a parameter: a map from characters to glyphs. It must hold `' '`, and every glyph must have 7 rows of at least 5 cells. In the source, a font without `' '` raises `KeyError` at main.py:21 when a missing character is drawn, and a drawn glyph with fewer than 7 rows or 5 columns raises `IndexError` at main.py:26. The model requires every glyph to be well formed, drawn or not.
- `Decimal.ParseInt` models `int()` for ASCII input only: surrounding ASCII whitespace (tab, line feed, vertical tab, form feed, carriage return, space), an optional sign and ASCII digits. It does not model underscores between digits (`"1_000"` parses in Python, not here), non-ASCII digits or non-ASCII whitespace.
- `Decimal.ParseInt` does not model the limit on the number of digits `int()` converts (4300 by default in recent CPython releases). Beyond it Python raises `ValueError`, so main.py:35-37 returns `[]`, while the model parses the number and the mapper raises `DateFormatMismatch`.
- `Mapper.GenerateCommitDates` requires the grid to be indexable whenever the year is accepted: `grid[0]` exists and every scanned row has at least `min(52, len(grid[0]))` cells. The source raises `IndexError` otherwise. Every grid `create_text_matrix` returns meets this (`Pipeline.RasterGridShape`).
- Time of day: `strptime` gives midnight dates and the scan adds whole days, so dates are modelled as day ordinals without a time.
