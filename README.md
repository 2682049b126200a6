# contribution-writer: font, rasteriser and date mapper

A Dafny model of the logic in `contribution_writer.py`. The program
"writes" a word into the GitHub contribution graph. It draws the word
with a 5x7 bitmap font into a grid of 7 rows (weekdays, Sunday first)
and 52 columns (weeks). It then turns every lit cell into the date that
cell stands for in a chosen year.

The model has seven modules:

- `Grid` (`grid.dfy`): `GRAPH_ROWS`, `GRAPH_COLS`, the grid shape and the
  cell sums: row by row as Python's `sum` does, and column by column.
- `Font` (`font.dfy`): the `FONT` table, written out as an association list
  in source order, and `FONT.get(ch, FONT[" "])`. The geometry of every
  glyph is proved about the literal table.
- `Raster` (`raster.dfy`): `render_word`. It covers the upper-casing, the
  column buffer that the `append`/`extend` loops grow, the offset, and the
  clipped copy into a blank grid. Each loop is a method proved against the
  functions `Buffer`, `Place` and `Render`. `Render` takes the font as a
  parameter; `RenderWord` fixes it to `FONT`.
- `RasterProps` (`raster_props.dfy`): what the rendered grid looks like,
  glyph by glyph. It covers the empty word, case, unknown characters,
  glyph columns, gaps, clipping and the "A" example.
- `Calendar` (`calendar.dfy`): dates as `date.toordinal()` day numbers, with
  0001-01-01 = 1. It defines `isoweekday` and `get_year_start`, including
  the exceptions that `datetime` raises.
- `DateMapper` (`date_mapper.dfy`): `bitmap_to_dates`. It states the count,
  the values and the order of the dates, and that `sorted` leaves them as
  they are.
- `Report` (`report.dfy`): the `lit` and `fits` values that `print_bitmap`
  computes, and the note it ends with.

The code never checks the glyph shape at run time. Here the 5x7 shape is
a proved fact about the constant table (`Font.FontTableIsFont`), not an
error path.

## Model

| member | source | states |
|---|---|---|
| Grid.Blank | contribution_writer.py:132 | the fresh bitmap has 7 rows of 52 cells, all 0 |
| Grid.RowSum | contribution_writer.py:162 | `sum(r)` of a row of 0/1 values lies between 0 and the row's length |
| Grid.GridSum | contribution_writer.py:162 | `sum(sum(r) for r in bitmap)` is never negative on a 0/1 bitmap |
| Grid.SumOrderSwap | contribution_writer.py:162 | summing a rectangular grid column by column gives the row-by-row `sum(sum(r) for r in bitmap)` |
| Grid.BinaryLitCells | contribution_writer.py:162 | on a 0/1 grid, the cell sum is the number of lit cells |
| Font.FontTableIsFont | contribution_writer.py:46-91 | every FONT entry is exactly 7 rows of exactly 5 characters, each '0' or '1', and the " " key exists |
| Font.SpaceGlyphBlank | contribution_writer.py:47 | FONT[" "] exists, is 5x7 and every character of it is '0' |
| Font.FontKeys | contribution_writer.py:46-91 | FONT has an entry for c exactly when c is a space, A-Z, 0-9 or one of `! ? . , - ' #` |
| Font.TableKeys | contribution_writer.py:46-91 | the keys of FONT, in order, are the space, A to Z, 0 to 9 and the seven marks |
| Font.SupportedCharsAre | contribution_writer.py:46-91 | that key string holds exactly the supported characters |
| Font.Lookup | contribution_writer.py:124 | a lookup in the table finds nothing exactly when no entry has the key, and what it finds is an entry of the table |
| Font.LookupFindsKeys | contribution_writer.py:124 | a dictionary lookup finds a glyph exactly for the table's keys |
| Font.LookupReturnsGlyph | contribution_writer.py:124 | in a table of 5x7 glyphs, a found glyph is 5x7 |
| Font.GlyphFor | contribution_writer.py:124 | `font.get(ch, font[" "])` is 5x7; it is the entry for ch when there is one, else the space's glyph |
| Font.GlyphForSupported | contribution_writer.py:124 | with FONT, a supported character gets its own entry |
| Font.GlyphForUnsupported | contribution_writer.py:124 | with FONT, an unsupported character gets the space's glyph |
| Font.AIsSecondEntry | contribution_writer.py:48 | FONT["A"] is the table's second entry |
| Font.RowsOfA | contribution_writer.py:48 | the rows of FONT["A"]: "01110", "10001", "10001", "11111", "10001", "10001", "10001" |
| Raster.Upper | contribution_writer.py:120 | `ch.upper()` on ASCII: a lower-case letter moves 32 code points down to its capital, every other character is kept, and the result is never a lower-case letter |
| Raster.UpperWord | contribution_writer.py:120 | `word.upper()` keeps the length and upper-cases character by character |
| Raster.UpperIdempotent | contribution_writer.py:120 | upper-casing an upper-cased word changes nothing |
| Raster.Bit | contribution_writer.py:129 | `int(b)` on a glyph character is 0 or 1, and 1 exactly for '1' |
| Raster.RowBits | contribution_writer.py:129 | a glyph row as ints is 5 wide, and each int is the bit of the character in its place |
| Raster.GlyphsOf | contribution_writer.py:123-124 | one 5x7 glyph per character, the one `FONT.get` gives |
| Raster.BufferRow | contribution_writer.py:123-129 | a buffer row for n glyphs is 6n - 1 ints wide (0 for no glyph), each 0 or 1 |
| Raster.Buffer | contribution_writer.py:121-131 | the buffer has 7 rows, all of the same width 6n - 1 |
| Raster.BufferRowAt | contribution_writer.py:123-129 | buffer column 6k + j (j < 5) is column j of glyph k as 0/1, and column 6k + 5 is 0 |
| Raster.BufferRowStep | contribution_writer.py:125-129 | one more glyph appends a 0 gap (unless it is the first) and then the glyph's row |
| Raster.Offset | contribution_writer.py:133 | the offset is never negative; uncentred it is 1; a centred buffer that fits lies inside the grid with equal margins, the left one at most one column narrower; a centred buffer that is too wide starts at column 0 |
| Raster.Place | contribution_writer.py:132-139 | copying a buffer at an offset into a blank bitmap gives 7 rows of 52 ints |
| Raster.PlaceCopies | contribution_writer.py:134-138 | grid cell (r, d) holds buffer cell (r, d - offset) when that column is inside the buffer, and 0 otherwise |
| Raster.Render | contribution_writer.py:114-141 | render_word returns 7 rows of 52 ints, each 0 or 1 |
| Raster.AppendGap | contribution_writer.py:125-127 | every buffer row gains one trailing 0 and nothing else changes |
| Raster.AppendGlyph | contribution_writer.py:128-129 | buffer row r gains row r of the glyph as ints and nothing else changes |
| Raster.BuildColumns | contribution_writer.py:121-129 | the loop builds exactly the buffer of the word's glyphs |
| Raster.CopyAtOffset | contribution_writer.py:132-139 | the copy puts buffer column c at grid column offset + c when that is inside [0, 52), and leaves the rest 0 |
| Raster.RenderWith | contribution_writer.py:114-141 | the body of render_word computes Render |
| Raster.RenderWord | contribution_writer.py:114-141 | render_word(word, center) with FONT computes Render(FONT, word, center) |
| RasterProps.RenderEmpty | contribution_writer.py:120-141 | the empty word renders as the all-zero grid |
| RasterProps.RenderIsPlacedBuffer | contribution_writer.py:120-139 | render_word copies the buffer of the upper-cased word's glyphs, 6n - 1 columns wide, at the offset for that width |
| RasterProps.GlyphOfUpper | contribution_writer.py:120-124 | the k-th glyph drawn is the font's glyph for the upper-cased k-th character |
| RasterProps.PlacedGlyphColumn | contribution_writer.py:123-139 | placed at an offset, column j of glyph k lands at grid column offset + 6k + j as its 0/1 value |
| RasterProps.RenderGlyphColumn | contribution_writer.py:123-139 | grid column offset + 6k + j (j < 5), when inside the grid, is column j of the k-th character's glyph |
| RasterProps.RenderBlankCell | contribution_writer.py:125-139 | cells left of the text, right of it, and in the gaps between glyphs are 0 |
| RasterProps.RenderClipsOnlyRight | contribution_writer.py:133-139 | the offset is at least 0; buffer column c lands at offset + c whenever that is below 52, so only columns past the right edge are lost, and a centred word that fits loses none |
| RasterProps.RenderSameGlyphs | contribution_writer.py:120-141 | words whose characters look up the same glyphs render alike |
| RasterProps.RenderCaseInsensitive | contribution_writer.py:120 | words equal up to ASCII case render alike |
| RasterProps.RenderMissingAsSpace | contribution_writer.py:124 | a character with no entry renders exactly like a space in its place |
| RasterProps.RenderUnsupportedAsSpace | contribution_writer.py:124 | with FONT, a character outside the supported set renders exactly like a space |
| RasterProps.RenderOneChar | contribution_writer.py:131-139 | a one-character word sits in columns 1-5 uncentred and in columns 23-27 centred; every other cell is 0 |
| RasterProps.GlyphOfA | contribution_writer.py:48 | FONT["A"] as 0/1 values |
| RasterProps.ABitsOfRow | contribution_writer.py:48 | a row of A, character by character, as 0/1 |
| RasterProps.RenderAExample | contribution_writer.py:114-141 | render_word("A", False) has the A glyph in columns 1-5 and render_word("A", True) in columns 23-27; all other cells are 0 |
| Calendar.DaysBeforeYear | contribution_writer.py:108 | the days before 1 January of year y count 365 or 366 for each earlier year |
| Calendar.DaysInMonth | contribution_writer.py:108 | a month has 28 to 31 days |
| Calendar.DaysBeforeMonth | contribution_writer.py:108 | no days come before January, and at most 335 before any month |
| Calendar.MonthsAddUp | contribution_writer.py:108 | the days before month m are the days before month m - 1 plus that month's length |
| Calendar.MonthsMakeYear | contribution_writer.py:108 | the twelve month lengths add up to the year's length |
| Calendar.MonthsBeforeYearEnd | contribution_writer.py:108 | every month ends within its year |
| Calendar.Ordinal | contribution_writer.py:108 | `date(y, m, d).toordinal()` for a day 1..31 lies after the earlier years and at most 366 days after them |
| Calendar.OrdinalWithinYear | contribution_writer.py:108 | a valid date of year y has a day number from 1 January of y up to, not including, 1 January of y + 1 |
| Calendar.Jan1 | contribution_writer.py:108 | `date(y, 1, 1).toordinal()` comes after 365 days per earlier year and at most 366 per earlier year |
| Calendar.Jan1IsFirstOrdinal | contribution_writer.py:108 | 1 January is the date of month 1, day 1 |
| Calendar.IsoWeekday | contribution_writer.py:110 | `isoweekday()` lies in 1..7 and agrees with the day number modulo 7 (0001-01-01 is a Monday) |
| Calendar.DaysSinceSunday | contribution_writer.py:110 | `isoweekday() % 7` lies in 0..6 and is 0 exactly on Sundays |
| Calendar.SundayOnOrBefore | contribution_writer.py:110-111 | `jan1 - timedelta(days=...)` is a Sunday at most six days before jan1 |
| Calendar.LastSundayOnOrBefore | contribution_writer.py:110-111 | no Sunday lies strictly between that Sunday and jan1 |
| Calendar.GetYearStart | contribution_writer.py:102-111 | a year outside 1..9999 raises (ValueError); year 1 steps before date.min (OverflowError); otherwise the result is the Sunday on or before 1 January |
| Calendar.YearStartIsSunday | contribution_writer.py:108-111 | for 2 <= year <= 9999 the start is a Sunday, no later than 1 January and at most six days earlier, and it is the last such Sunday |
| Calendar.FirstYearStartsOnMonday | contribution_writer.py:108-111 | 0001-01-01 is day 1, a Monday, so year 1 would start on day 0 |
| Calendar.LaterYearsStartLater | contribution_writer.py:108-111 | from year 2 on, 1 January is day 366 or later, so the step back stays a valid date |
| Calendar.NextJan1 | contribution_writer.py:108 | 1 January of the next year is one year length later |
| Calendar.LastDayOfYear | contribution_writer.py:108 | 31 December is the day before the next 1 January |
| Calendar.Jan1Monotone | contribution_writer.py:108 | a later year starts no earlier |
| Calendar.MaxDayIsLastDay | contribution_writer.py:108 | date.max, day 3652059, is 9999-12-31 |
| Calendar.GraphDaysInRange | contribution_writer.py:146-151 | every date of the 52 weeks from the start is a valid date: at least 1 and at most date.max |
| Calendar.YearStart2022 | contribution_writer.py:102-111 | 1 January 2022 is a Saturday, so get_year_start(2022) is 26 December 2021 |
| DateMapper.CellIndex | contribution_writer.py:148-151 | visiting cell number 7col + row is row `row` of column `col` |
| DateMapper.LitDays | contribution_writer.py:147-151 | after visiting n cells the loop holds at most n dates, each within [origin, origin + n) |
| DateMapper.LitCount | contribution_writer.py:147-151 | at most n of the first n cells visited are lit |
| DateMapper.ColumnLit | contribution_writer.py:149-151 | at most r of the first r rows of a week are lit |
| DateMapper.LitDaysInOrder | contribution_writer.py:146-152 | the collected dates rise strictly, lie in [origin, origin + n), and are exactly the dates of lit cells among the first n visited |
| DateMapper.LitDaysLength | contribution_writer.py:148-151 | one date is collected per lit cell visited |
| DateMapper.NextCell | contribution_writer.py:149-151 | visiting cell (row, col) appends origin + 7col + row exactly when the cell is lit |
| DateMapper.NextCellCount | contribution_writer.py:149-151 | visiting cell (row, col) adds one to the count exactly when it is lit |
| DateMapper.ColumnDates | contribution_writer.py:149-151 | within a week, the first r rows add as many dates as they hold lit cells |
| DateMapper.WeekDates | contribution_writer.py:148-151 | a whole week adds as many dates as its column holds lit cells |
| DateMapper.ColumnLitIsSum | contribution_writer.py:162 | counting a column's lit cells equals summing its 0/1 indicator values |
| DateMapper.ColumnsDates | contribution_writer.py:148-151 | the first col weeks add as many dates as they hold lit cells |
| DateMapper.DateCount | contribution_writer.py:144-152 | bitmap_to_dates returns exactly one date per lit cell |
| DateMapper.HeadIsLeast | contribution_writer.py:152 | the head of a sorted list is its least element |
| DateMapper.DropHead | contribution_writer.py:152 | a sorted list without its head is sorted and holds the other elements |
| DateMapper.SortedUnique | contribution_writer.py:152 | two sorted lists with the same elements are equal |
| DateMapper.SortedIsIdentity | contribution_writer.py:152 | `sorted(dates)` returns the loop's list unchanged, because that list is already strictly ascending |
| DateMapper.CollectWeek | contribution_writer.py:149-151 | the row loop appends the dates of the week's lit cells, Sunday first |
| DateMapper.CollectDates | contribution_writer.py:147-151 | the nested loop collects origin + 7col + row for every lit cell, column by column |
| DateMapper.BitmapToDates | contribution_writer.py:144-152 | bitmap_to_dates raises what get_year_start raises; otherwise it returns one date per lit cell, strictly ascending, and d is among them exactly when d is the date of a lit cell |
| DateMapper.CellHasDate | contribution_writer.py:148-151 | origin + 7col + row is among the dates exactly when cell (row, col) is lit |
| DateMapper.WeekdayOfCell | contribution_writer.py:151 | counting from a Sunday, the date of a cell in row r falls r days after Sunday |
| DateMapper.CellWeekday | contribution_writer.py:144-151 | with the origin get_year_start picks, every date in row r falls on weekday r (0 = Sunday) and is a valid date |
| Report.Fits | contribution_writer.py:163 | fits holds exactly when the word has at most 52 // 6 = 8 characters |
| Report.BitmapNote | contribution_writer.py:162-169 | print_bitmap warns, quoting the length, exactly when the word has more than 8 characters; otherwise it reports lit = the sum of all cells |
| Report.FitsIffUnclipped | contribution_writer.py:131-133 | for every word, fits holds exactly when the whole buffer lands inside the grid, centred or not |
| Report.LitIsDateCount | contribution_writer.py:162 | on a rendered bitmap, lit is the number of lit cells and the number of dates bitmap_to_dates returns |

## Left out

- Git and the filesystem are not modelled: `_run`, `make_commit`, and the commit loop and environment of `write_word`. They are subprocess calls and file I/O.
- `main` is not modelled. It is command-line parsing, exit checks and the one-year-per-word loop.
- The console drawing of `print_bitmap` is left out: the box characters and `print`. `Report.BitmapNote` keeps which of the two closing lines is printed and the numbers in it, not the text.
- Raster.Upper: upper-cases ASCII letters only. Python's `str.upper` also maps other Unicode letters, some of them to several characters (for example `'ß'` to `"SS"`), which would change the number of glyphs.
- Python's `datetime` objects are replaced by `toordinal()` day numbers. Only the range checks that `get_year_start` can hit are kept: `date(year, 1, 1)` and the step back before date.min.
- `sorted` is not modelled as a sorting routine. `BitmapToDates` returns the loop's list, and `DateMapper.SortedIsIdentity` proves that any ascending arrangement of those dates is that same list.
- The font is a parameter of `Raster.Render`, so that the lookup rules can be stated for any table. `render_word` itself always draws with `FONT`, as `Raster.RenderWord` does.
- Python's integer truth test `if bitmap[row][col]` is modelled as "not 0". Bitmaps are lists of ints, which is what `render_word` produces.
