# Salmon-run statistics scraper, modelled in Dafny

`stat.py` reads salmon-run counts from the chart scripts of a fishing-information site.
For each river it takes the text of the `Highcharts.Chart` script and does the following:

- It removes every newline, carriage return, tab and space.
- It cuts out the `series:[...]` block.
- It splits that block into one group per year.
- For every group that names a year, it reads the `data:[...]` block into a list of dates and a list of counts.

`main` then handles each (river, year) pair. It writes the two lists to `<river><year>.txt` as two comma-separated lines. When either list is empty, it prints a warning instead.

This project models that pipeline from the script text onwards. It has six modules:

- `Results`: `Option`, the two exceptions the pipeline can end in, and `Result`.
- `Strings`: `str.replace` by deletion (`Without`), `str.split`/`str.join` (`Split`, `Join`), `int()` of a digit string (`DecimalValue`), `str(n)` (`Decimal`) and zero padding (`Padded`).
- `Patterns`: the four fixed searches (stat.py:32, 38, 42, 59), in three shapes, with Python `re.search` semantics. Each has a regex-level predicate (`BracketAt`, `NameAt`, `DateUtcAt`), a leftmost scanner, and a proof that the scanner returns the groups of the leftmost match.
- `Calendar`: the `datetime.date` constructor and `str(date)`. The constructor range-checks its arguments, and converts them to C `int` first.
- `Extract`: `get_salmon_statistics` for one river. This covers flattening, the `series` block, `parse_year`, `parse_data` and the keying by year.
- `Store`: `list_to_string`, the file text written by `store_salmon_statistics`, and the write-or-warn choice in `main`. It also proves that the file text reads back as the series.

Modelling notes:

- **Date year.** A point's date uses the year of the group's `name:'YYYY'`. The first `Date.UTC` argument is matched but not used. This follows the code (`datetime.date(int(year), month, day)`, stat.py:48).
- **Date overflow.** CPython's `datetime.date` parses its three arguments as C `int`s. A value above 2147483647 raises `OverflowError`, not `ValueError`. `except ValueError` does not catch that, so it ends the whole extraction. The model returns `Failure(DateOverflow)` in that case. A date out of range only drops its point.
- **No `series` block.** A script without `series:[...]` makes `re.search(...).group(1)` fail on `None`. The model returns `Failure(MissingSeriesBlock)`.
- **Regular expressions.** The `.` in `Date.UTC` and in `(.*)` matches any character except a newline, which is Python's default. Flattening removes all newlines, so `(.*)` in the `series` pattern runs to the last `]` of the script (`SeriesBlockReachesLastBracket`).
- **Date validity.** Dates are kept as `Date` values together with the predicate `Valid`. `Valid` is the invariant of `datetime.date`: year 1..9999, and a day that exists in its month under Gregorian leap years. `Dated(series)` says every date of a series is valid. Extraction proves this, and writing requires it.

## Model

| member | source | states |
|---|---|---|
| Extract.Normalise | stat.py:58 | the flattened script is the script with exactly newline, carriage return, tab and space deleted, and it contains no newline |
| Extract.NormaliseByCharacter | stat.py:58 | flattening distributes over concatenation: a whitespace character vanishes and any other character stays in place |
| Extract.NormaliseIdempotent | stat.py:58 | flattening an already flattened script changes nothing |
| Strings.WithoutKeepsCounts | stat.py:58 | deleting a set of characters keeps every other character's number of occurrences |
| Strings.WithoutTwice | stat.py:58 | deleting one set of characters and then another is the same as deleting their union, so the four chained `replace` calls are one deletion |
| Patterns.Bracketed | stat.py:59 | `opener(.*)\]` search: `None` exactly when no index matches; otherwise the leftmost match, whose group is free of newlines, followed by `]`, and reaching the last `]` on that line |
| Patterns.BracketAtHits | stat.py:59 | the scanner's test at an index holds exactly when the regular expression matches there |
| Extract.SeriesBlockReachesLastBracket | stat.py:58-59 | on the flattened script the `series` group ends at the last `]` of the whole text |
| Patterns.ParseYear | stat.py:30-33 | `parse_year`: `None` exactly when no `name:'<digits>',` occurs; otherwise the non-empty digits of the leftmost occurrence |
| Patterns.NameAtHits | stat.py:32 | the scanner's test for `name:'([0-9]+)',` holds at an index exactly when the pattern matches there, and then it returns that match's digits |
| Patterns.MatchStamp | stat.py:42 | `Date.UTC` search: `None` exactly when nothing matches; otherwise the four digit groups of the leftmost match, with the last group greedy |
| Patterns.DateUtcAtHits | stat.py:42 | the `Date.UTC` scanner finds a match at an index with given groups exactly when the pattern matches there with those groups |
| Patterns.MatchStampLeftmost | stat.py:42 | a match at an index with no match before it is the one whose groups the search returns |
| Strings.Decimal | stat.py:73 | `str(n)` is a numeral without leading zeros that `int()` reads back as `n` |
| Calendar.Construct | stat.py:48 | `datetime.date(y, m, d)` overflows exactly when an argument exceeds the C `int` range, builds the date exactly when it is a valid Gregorian date, and otherwise raises `ValueError` |
| Extract.StampDate | stat.py:44-48 | a point's date takes its year from the group's name (the `Date.UTC` year is not used), its month is the zero-based month group plus one, so it is a real month exactly when the group is below 12, and its day is the day group |
| Extract.ReadElement | stat.py:42-51 | one element: no `Date.UTC` match gives no point; an overflowing date is the only failure; a point is produced exactly when the date `(name year, month + 1, day)` is valid, and it carries that date and the count group's value |
| Extract.ReadElementExample | stat.py:42-49 | the element `Date.UTC(2021,0,15),42` in a group named 2021 reads as 15 January 2021 with count 42: the month group counts from 0 |
| Extract.Gather | stat.py:41-51 | the loop over elements: equally many dates and counts, at most one per element; it succeeds whenever no element raises, and elements that give no point give an empty series (partners `GatherFails`, `GatherPoints`, `GatherConcat`) |
| Extract.GatherFails | stat.py:41-51 | the loop over elements fails exactly when some element raises, and then with the first such exception |
| Extract.GatherPoints | stat.py:41-49 | every point collected is the point read from some element |
| Extract.GatherConcat | stat.py:41-49 | collecting two runs of elements gives the two series concatenated, so points keep the elements' order |
| Extract.GatherOne | stat.py:41-51 | a single element contributes its point, nothing, or its exception |
| Extract.Collect | stat.py:41-51 | the collected dates and counts are equally long, at most one per element, all valid dates in the group's year; the loop fails exactly when some element's date overflows |
| Extract.CollectConcat | stat.py:41-49 | reading elements one after another concatenates their series, in order |
| Extract.ParseData | stat.py:35-52 | `parse_data`: with no `data:[...]` both lists are empty; otherwise equally long lists of valid dates in the given year, at most one per element; the only failure is a date overflow |
| Strings.Split | stat.py:40 | `str.split`: at least one piece, the pieces joined with the separator give the text back, and no piece contains the separator; with no occurrence the text is the only piece, otherwise the first piece ends at the first occurrence and every piece but the last ends at the first occurrence after it, so the cuts are the leftmost ones even for a separator that overlaps itself |
| Strings.SplitLeftmostCuts | stat.py:40 | `"baaaaa".split("aa")` is `["b", "", "a"]`: every cut, not only the first, is at the leftmost occurrence |
| Strings.SplitUnique | stat.py:40 | any pieces that join to the text, each but the last ending at the first following separator and the last free of it, are exactly what `str.split` returns |
| Strings.SplitOverlapping | stat.py:40 | `"aaa".split("aa")` is `["", "a"]`: the cut is made at the leftmost occurrence |
| Strings.SplitJoin | stat.py:60 | splitting a join of separator-free pieces gives the pieces back, when the separator cannot overlap itself |
| Extract.Pieces | stat.py:40-60 | cutting a block (`series` groups at `},`, `data` elements at `],`): the pieces joined back with the separator give the block with every opener removed, and no piece contains the separator |
| Extract.EntryOf | stat.py:63-65 | one group: unnamed exactly when no `name:'<digits>',` occurs; otherwise keyed by the leftmost such year, with `parse_data` under it giving paired, valid dates in that year or a date overflow (partners `EntryNames`, `KeyByYearYears`) |
| Extract.Tabulate | stat.py:62-65 | every stored series is the data of some entry naming its year; a failure is some failed entry's exception |
| Extract.TabulateFails | stat.py:62-65 | building the table fails exactly when some named entry's `parse_data` failed |
| Extract.TabulateKeys | stat.py:62-65 | the stored years are exactly the years the entries name |
| Extract.TabulateValues | stat.py:62-65 | the series stored under a year is the data of the last entry naming that year, so later groups overwrite earlier ones |
| Extract.KeyByYear | stat.py:61-65 | every stored series has as many dates as counts, all of them valid, and the only failure is a date overflow |
| Extract.KeyByYearYears | stat.py:62-65 | the stored years are exactly the years the groups name, each holding `parse_data` of the last group naming it |
| Extract.ExtractRiver | stat.py:58-65 | a river fails with the missing-block error exactly when the flattened script has no `series:[...]` match, and otherwise every year's series is paired and valid |
| Extract.RiverYears | stat.py:58-65 | a river's years are exactly those named by the groups of its `series` block, each holding the data of the last group naming it |
| Store.ListToString | stat.py:71-73 | no items give the empty line, and one item gives that item |
| Store.ListToStringSplits | stat.py:71-73 | splitting the line on `,` gives the comma-free items back |
| Calendar.IsoFormat | stat.py:73 | `str(date)` is ten characters with dashes at positions 4 and 7 |
| Calendar.IsoRoundTrip | stat.py:73 | reading `str(date)` as `YYYY-MM-DD` gives the date back |
| Calendar.IsoFormatInjective | stat.py:73 | two valid dates are written the same exactly when they are equal |
| Store.DateTextsRead | stat.py:77 | the written date texts read back as the dates |
| Store.CountTextsRead | stat.py:79 | the written count texts read back as the counts |
| Store.FileBody | stat.py:76-80 | the file text splits on newlines into exactly the dates line, the counts line and an empty rest (partner `FileBodyReadsBack`) |
| Store.TwoLinesSplit | stat.py:76-80 | two newline-free lines, each followed by a newline, split on `\n` into those two lines and an empty rest |
| Store.FileBodyReadsBack | stat.py:76-80 | for a series with points, the file text is the dates line, a newline, the counts line and a newline, and it reads back as the series |
| Store.Decide | stat.py:93-96 | a year is written exactly when both its lists are non-empty, to `<river><year>.txt`, with exactly the file text `FileBody` of the series (dates line, newline, counts line, newline), which reads back as the series; otherwise the warning names the river and the year |

## Left out

- Fetching the page and finding the `Highcharts.Chart` script (stat.py:56-57). This needs the network and an HTML parser. The model starts from the script text, so the `AttributeError` raised when no script matches is not modelled.
- The loop over the fixed river list (stat.py:16-25, 54-55, 61, 66) and over `statistics.items()` in `main` (stat.py:91-92). The model handles one river (`ExtractRiver`) and one year (`Decide`) at a time. In the program, a `DateOverflow` or a missing `series` block in any river ends `get_salmon_statistics` before `main` writes anything (stat.py:90-96), so no file is written for any river. The per-river model does not show this.
- KeyByYear: returns a `map`, so the insertion order of a river's years is not kept. That order only fixes the order in which `main` handles the years.
- `traceback.print_exc()` (stat.py:51): a rejected date drops its point and prints nothing.
- The argument parser and the output directory (stat.py:85-89, 94). The file name is `<river><year>.txt` without the directory.
- `os.makedirs`, `open` and `file.write` (stat.py:75-80). The model produces the text that would be written.
- Store.Decide: the warning carries the river and the year, not the printed sentence (stat.py:96).
- The limit of newer Python versions on the number of digits `int()` converts. Every digit run is read as an unbounded number.
- General regular-expression matching. Only the four fixed searches the script makes (stat.py:32, 38, 42, 59) are modelled.
