# Portfolio viewer core in Dafny

A model of the two pieces of logic in the TOPGUN portfolio viewer that have
algorithmic content, with proofs of their properties.

- **Indian financial-year quarters** (`src/FinancialPeriod.js`). The
  financial year runs April to March. `getCurrentIndianQuarter` maps a
  calendar month and year to a quarter label Q1..Q4 and a financial year.
  `getPreviousIndianQuarter(steps)` walks back `steps` quarters with a
  truncating `%`, a `+4` fix-up and a `Math.ceil` year roll-over. The clock
  is replaced by `month` (0..11) and `year` parameters. A quarter is a label
  plus an integer financial year. `Ordinal(q) = 4 * financialYear + index`
  puts all quarters on one time line.
- **Row reconciliation and projection** (`src/ScrapedTable.tsx`). This covers:
  - the occurrence count per company key (cell 1) over all rows;
  - the "status is `New`, first row per key wins" filter;
  - the repeat-holder highlighting on screen and in the download;
  - the `[i+1, ...row.slice(1,-1)]` projection both sides share;
  - the two cell-normalisation rules;
  - the 13-entry header row.

  Rows are `seq<Cell>` with `Cell = Str | Int | Missing`. The accessor
  `At` yields `Missing` past the end of a row, as JavaScript yields
  `undefined`.

Modules: `JsPrim` (JavaScript `%` by 4, `Math.ceil(x/4)`, `Math.abs`,
`Array.prototype.slice`), `FinancialPeriod`, `Rows`, `Reconcile`
(occurrence map and filtered rows) and `TableView` (headers, projection,
normalisation, highlighting).

Each operation has a partner:
- the quarter functions are tied to the `Ordinal` time line and to floored
  division;
- the occurrence map is tied to the set of row positions carrying each key;
- the filtered rows are tied to an independent reference, the positions of
  the first "New" occurrence of each key;
- the screen projection is tied to the download projection.

The colours are modelled as two fill values, `RepeatFill` and
`FirstTimeFill`, not as colour strings.

Two behaviours the model reproduces from the code as written, where a reader might expect otherwise:
- The projection drops the LAST cell of a row, whatever its index. It does
  not drop a fixed column 4.
- The comment above `downloadExcel` (src/ScrapedTable.tsx:68) says the
  download keeps the row colours. The code recounts keys over the rows it is
  handed. At its only call site (src/ScrapedTable.tsx:147) those are the
  de-duplicated rows, so every downloaded row gets the first-time colour,
  even where the screen marks a repeat holder. The model reproduces this,
  under its single equality on keys (see the key-coercion line under
  "Left out": in JavaScript the keys `1` and `"1"` both survive the `Set`
  but collide in the object map, and both rows then get the repeat colour).
  `TableView.DownloadAllFirstTime` and `TableView.DownloadMatchesScreen`
  pin it.

## Model

| member | source | states |
|---|---|---|
| `FinancialPeriod.LabelIndex` | src/FinancialPeriod.js:42-43 | the label-to-index table gives an index in 0..3, and the index-to-label table maps it back to the same label |
| `FinancialPeriod.IndexRoundTrip` | src/FinancialPeriod.js:54-56 | every index in 0..3 names a label whose index it is, so the two tables are inverse bijections |
| `FinancialPeriod.CurrentIndianQuarter` | src/FinancialPeriod.js:2-17 | months 0-2 give Q4, 3-5 Q1, 6-8 Q2 and 9-11 Q3. The financial year is `year - 1` exactly when `month < 3`, otherwise `year`. The month lies in the three months of the returned quarter, counted from April of its financial year |
| `FinancialPeriod.PreviousIndianQuarter` | src/FinancialPeriod.js:19-59 | the truncating remainder with its `+4` fix-up keeps the label lookup in range for every `steps`. The result index equals the floored remainder of `currentIdx - steps` by 4. The result year equals `currentFY` plus the floored quotient |
| `FinancialPeriod.PreviousZeroIsCurrent` | src/FinancialPeriod.js:6-44 | the two month tables agree: going back zero quarters returns the current quarter for every month and year |
| `FinancialPeriod.OrdinalLaw` | src/FinancialPeriod.js:47-52 | `4*FY + idx` of the result equals that of the current quarter minus `steps` |
| `FinancialPeriod.YearRollover` | src/FinancialPeriod.js:49-52 | the financial year changes only when `currentIdx - steps < 0`. It then drops by the least `d` with `4d >= steps - currentIdx`, that is the ceiling of the overshoot over 4 |
| `FinancialPeriod.WholeYearsBack` | src/FinancialPeriod.js:47-52 | going back `4k` quarters keeps the label and lowers the financial year by exactly `k` |
| `FinancialPeriod.StrictlyEarlier` | src/FinancialPeriod.js:47-52 | more steps give a strictly earlier quarter in (financial year, index) order. Quarters for different step counts are distinct |
| `FinancialPeriod.ExampleFromSecondQuarter` | src/FinancialPeriod.js:19-59 | from Q2 FY2025, one, two and six steps back give Q1 2025, Q4 2024 and Q4 2023 |
| `JsPrim.JsRem4` | src/FinancialPeriod.js:47 | JavaScript's `%` by 4 has the sign of the dividend and magnitude below 4. It equals the floored remainder, or that remainder minus 4 |
| `JsPrim.JsCeilDiv4` | src/FinancialPeriod.js:51 | `Math.ceil(x/4)` is the least `r` with `x <= 4r` |
| `JsPrim.JsSlice` | src/ScrapedTable.tsx:86 | `slice(start, end)` returns the elements between the clamped relative indices, or nothing when they cross |
| `JsPrim.Abs` | src/FinancialPeriod.js:51 | `Math.abs(x)` is the non-negative one of `x` and `-x` |
| `Rows.At` | src/ScrapedTable.tsx:48 | reading a cell past the end of a row gives `Missing` instead of failing |
| `Rows.NewMeaning` | src/ScrapedTable.tsx:58 | `row[3] === 'New'` (`Rows.IsNew`) holds exactly when the row has a cell 3 and it is the string `"New"`. A shorter row is never "New", and neither is the number or a missing cell |
| `Rows.Truthy` | src/ScrapedTable.tsx:202 | the falsy cells behind `cell \|\| '-'` here and `occ[key] \|\| 1` on lines 83 and 176 are exactly `""`, `0` and a missing cell. Every other string and number is truthy |
| `Reconcile.OccurrenceMap` | src/ScrapedTable.tsx:45-52 | exactly the keys that occur are present. Each maps to the number of rows whose cell 1 is that key |
| `Reconcile.CountsSumToRowCount` | src/ScrapedTable.tsx:45-52 | taken once each in first-seen order, the keys are exactly the map's keys, and their counts sum to the number of rows |
| `Reconcile.BumpCounts` | src/ScrapedTable.tsx:49 | `map[key] = (map[key] \|\| 0) + 1` adds the key if absent, raises its count by one (to 1 when absent) and leaves every other key's count unchanged |
| `Reconcile.NewRows` | src/ScrapedTable.tsx:58 | every row the status filter keeps has cell 3 exactly `"New"` and comes from the input |
| `Reconcile.NewIndices` | src/ScrapedTable.tsx:58 | a reference for the status filter: the increasing positions of exactly the rows whose cell 3 is `"New"` |
| `Reconcile.NewRowsIsFilter` | src/ScrapedTable.tsx:58 | the filter's output is the input taken at exactly the "New" positions: every "New" row is kept, no other row is, and input order is preserved |
| `Reconcile.Dedup` | src/ScrapedTable.tsx:56-64 | the seen set always equals the key set of the pushed rows and of the visited rows. No two pushed rows share a key |
| `Reconcile.FirstIndices` | src/ScrapedTable.tsx:59-63 | a reference for the de-duplicating `forEach`: the increasing positions of exactly the rows whose key no earlier row carries |
| `Reconcile.DedupKeepsFirst` | src/ScrapedTable.tsx:59-63 | the `forEach` pushes the input taken at exactly those first positions: the first row of each key is kept, every later one is dropped, and input order is preserved |
| `Reconcile.FilteredRows` | src/ScrapedTable.tsx:55-66 | every kept row is an input row with status `"New"`. No two kept rows share cell 1 |
| `Reconcile.FirstNewIndices` | src/ScrapedTable.tsx:55-66 | a reference for the filter: the increasing positions of exactly the rows that are "New" with no earlier "New" row carrying their key |
| `Reconcile.DedupMatchesReference` | src/ScrapedTable.tsx:55-66 | the filter followed by the de-duplicating `forEach` yields the rows at the reference positions, and its seen set is the set of "New" keys |
| `Reconcile.FilteredRowsAreFirstNew` | src/ScrapedTable.tsx:55-66 | the kept rows are a subsequence of the input at strictly increasing positions, so input order is preserved |
| `Reconcile.FilteredRowsOnePerKey` | src/ScrapedTable.tsx:56-64 | the kept rows carry exactly the keys of the "New" rows, each once. The row kept for a key is the first "New" row with it |
| `Reconcile.FilteredRowsIdempotent` | src/ScrapedTable.tsx:55-66 | filtering and de-duplicating the output again returns it unchanged |
| `TableView.Headers` | src/ScrapedTable.tsx:21-25 | there are 13 headers: the 5 fixed labels, then at column `5+k` the quarter `k+1` places before the current one |
| `TableView.HeadersStrictlyDecreasing` | src/ScrapedTable.tsx:21-25 | the eight quarter headers are pairwise distinct and strictly decreasing from left to right |
| `TableView.Project` | src/ScrapedTable.tsx:86 | a projected row is serial `i+1` followed by cells 1 to `\|row\|-2` at their own positions. Its length is `1 + max(0, \|row\|-2)` |
| `TableView.ExportCell` | src/ScrapedTable.tsx:91 | the download turns exactly the value `"-"` into `""` and leaves every other cell unchanged. No `"-"` survives |
| `TableView.RenderCell` | src/ScrapedTable.tsx:202 | the screen shows `"-"` for a falsy cell (`Missing`, `""`, `0`). A truthy cell is shown as it is. Every shown cell is truthy |
| `TableView.NormalisationIdempotent` | src/ScrapedTable.tsx:89-203 | applying either normalisation twice is the same as applying it once |
| `TableView.NormalisationsAgree` | src/ScrapedTable.tsx:89-203 | the two sides show a cell alike exactly when it is truthy and not `"-"` |
| `TableView.ExportRow` | src/ScrapedTable.tsx:86-91 | a downloaded row keeps the projected width and serial `i+1`. Cell `j >= 1` is the export rule applied to cell `j` of the source row. No `"-"` is written |
| `TableView.RenderRow` | src/ScrapedTable.tsx:190-202 | a shown row keeps the projected width and serial `i+1`. Cell `j >= 1` is the render rule applied to cell `j` of the source row. Every shown cell is truthy |
| `TableView.ProjectionsAgree` | src/ScrapedTable.tsx:86-202 | the download and the screen project a row to the same width and serial. Column by column they show the same source cell, which comes out the same unless it is falsy or `"-"` |
| `TableView.FillFor` | src/ScrapedTable.tsx:83-84 | with `count = occ[key] \|\| 1`, a key is marked repeat exactly when the map counts it more than once |
| `TableView.ExportBody` | src/ScrapedTable.tsx:75-91 | the download writes one row per row handed to it, with serials 1..n. A row gets the repeat colour exactly when its key occurs more than once among the handed rows |
| `TableView.ScreenBody` | src/ScrapedTable.tsx:174-204 | the screen shows the filtered rows with serials 1..n. A row gets the repeat colour exactly when its key occurs more than once among all rows, whatever their status |
| `TableView.DownloadAllFirstTime` | src/ScrapedTable.tsx:75-84 | handed the filtered rows, as at the call on line 147, the download counts every key once and colours every row first-time |
| `TableView.DownloadMatchesScreen` | src/ScrapedTable.tsx:147-204 | the download and the screen show the same rows in the same order, with the same serials and widths. Cells differ only under the two normalisations. Fills differ exactly for keys that occur more than once among all rows |

## Left out

- The server fetch, the loading state and the effect dependencies (src/ScrapedTable.tsx:27-42, 123-124). They are I/O and UI state; the model starts from the fetched rows.
- The ExcelJS workbook, worksheet and fill objects, `writeBuffer`, and the Blob/URL/anchor download (src/ScrapedTable.tsx:70-72, 87, 92-96, 112-120). They are library and browser calls. The `'-'` to `''` rule inside `eachCell` (lines 89-91) is modelled by `TableView.ExportCell`. The per-header format branches (lines 97-108) do nothing. The download is modelled as the rows it would write.
- ExcelJS's `eachCell` skips empty cells. This is not modelled: an empty cell is never `"-"`, so the export rule leaves it alone either way.
- Concrete colour strings, JSX markup and styles. Only the repeat or first-time choice is modelled.
- The header-cell fallback `head || '-'` (line 168). No header is empty.
- The quarter selector state (src/ScrapedTable.tsx:131-144), and the sheet and file names built from it.
- `formatQuarterString`'s number-to-string formatting. Header entries are `Quarter` values, not strings.
- The `new Date()` clock and the `console.log` call in src/FinancialPeriod.js. Month and year are parameters.
- `TableView.Headers` and `TableView.HeadersStrictlyDecreasing` compute every header entry from one clock reading, a single `(month, year)`. The program reads the clock again in each of the eight `getPreviousIndianQuarter` calls behind src/ScrapedTable.tsx:23 (src/FinancialPeriod.js:20-22), and once more for the current quarter at line 14. A month or quarter boundary passing while the headers are built is not modelled, and in the program it can repeat or skip a header. Example: if the first call sees 30 June 2025 (Q1 FY2025) and the second sees 1 July 2025 (Q2 FY2025), both return Q4 FY2024. Distinctness and strict decrease are proved only for headers computed from one reading.
- A negative `steps` in `getPreviousIndianQuarter`. The code does not reject it, but it does not compute a later quarter either. From January 2025 (Q4 of FY2024) with `steps = -1`: `raw = 4`, `4 % 4 = 0`, and since `raw` is not negative the year is left alone. The result is Q1 FY2024, not Q1 FY2025. The model takes `steps: nat`. The program calls it only with 1..8 (src/ScrapedTable.tsx:23).
- JavaScript numbers are doubles, exact only below 2^53. `steps`, `year`, the serial `i + 1` and the occurrence counts are unbounded integers in the model. No precision loss is modelled.
- `getPreviousIndianQuarter` called without an argument (`steps` undefined yields `NaN`). The model requires `steps: nat`.
- JavaScript key coercion. Object keys become strings, while `Set` compares by SameValueZero, so `1` and `"1"` collide in one but not the other. Inherited names such as `"constructor"` upset `map[key] || 0`. The model uses one structural equality on cells for both.
- Other falsy values (`NaN`, `null`, `false`) and non-integer numbers. `Cell` has no such values.
- src/PortfolioCSV.js and src/scrape.tsx are not part of this model. They are export and fetch plumbing; PortfolioCSV.js refers to undefined `headers` and `filteredRows`.
- `Reconcile.NewRows` and `Reconcile.Dedup`: their own contracts state only what is kept (the kept rows are "New" or have distinct keys, and come from the input), to keep every proof that unfolds them cheap. That every "New" row is kept, that the first row per key wins, and that order is preserved are stated by `Reconcile.NewRowsIsFilter` and `Reconcile.DedupKeepsFirst`, and for their combination by `Reconcile.DedupMatchesReference`.
- `JsPrim.JsRem4` and `JsPrim.JsCeilDiv4` fix the divisor to 4, the only one the program uses, rather than modelling `%` and `Math.ceil` for every divisor.
