# InviStar dashboard and CSV import, modelled in Dafny

This project models the data-handling core of the InviStar inventory front end. It covers four areas.

- **CSV import dialog** (`CsvImport`, in `csv_import.dfy`).
  - Parsing an uploaded text into typed records: a header line, then the data lines that are not blank, numbered from 1. Cells are typed per entity. Products read the numeric columns with `parseFloat`, falling back to 0. Businesses read an `archived` cell as a boolean when it is `true` or `false` in any case, and keep any other text as it is. Both turn `\n` into real newlines in `notes`.
  - The client-side SKU validation.
  - Stripping the `_rowIndex`, `_hasError` and `_errorMessage` metadata before the rows are sent.
  - Mapping the server's per-row errors back onto the rows. This is a method over an array, proved against a specification function.
  - The rule that enables the Import button.
- **Route helpers** (`PathUtils`, in `path_utils.dfy`): the page title and the breadcrumbs derived from a route path.
- **Dashboard statistics** (`Dashboard`, in `dashboard.dfy`).
  - The six-month revenue and expense buckets. This is a method with the source's loops.
  - The per-weekday order counts of the activity chart. This is a method over arrays.
  - The trend and profit-margin percentages of the summary cards.
- **Chart data shaping** (`Charts`, in `charts.dfy`).
  - The category pivot shared by the Line, Bar and Area charts.
  - The slice lists of the Pie and RadialBar charts.
  - The default palette.

Two shared modules model JavaScript built-ins:

- `Text` (`text.dfy`) models `String.prototype.split`, `join`, `trim` and ASCII case mapping.
- `Records` (`records.dfy`) models object assignment in order, `filter`, `indexOf`, and a `Result`/`Option` pair.

A JavaScript object used as a dictionary is a `map`. The metadata keys live in the same map as the columns, so a CSV column named `_rowIndex` overwrites the row number, as it does in the source. Assigning a string, number or boolean to the key `__proto__` goes to the prototype setter and creates no field, so a CSV column or a chart series of that name has no field in the model either.

Some inputs that the source reads from the environment are parameters here:

- the current month, read from the clock;
- today's weekday;
- each order's month and weekday, from its `created` date (None for an invalid date);
- `parseFloat`, as a function `string -> Option<real>`, where None stands for NaN.

## Model

| member | source | states |
|---|---|---|
| Text.JoinSplit | frontend/src/lib/utils.ts:18-22 | Joining the pieces of a split with the same separator gives back the original text. |
| Text.Split | frontend/src/components/csv-import.tsx:63 | `String.prototype.split` with a text separator: the pieces between occurrences, found left to right without overlap; always at least one piece (`JoinSplit`, `SplitAtFirst` and `SplitAbsent` pin it down). |
| Text.Join | frontend/src/lib/utils.ts:22 | `Array.prototype.join`: the pieces with the separator between them; `JoinSplit` makes it the inverse of `Split`. |
| Text.SplitSingleIff | frontend/src/components/csv-import.tsx:63-65 | A split yields a single piece exactly when the separator does not occur. |
| Text.SplitAbsent | frontend/src/lib/utils.ts:17 | Without the separator, the split is the whole text as one piece. |
| Text.SplitPresent | frontend/src/lib/utils.ts:17 | An occurrence of the separator yields at least two pieces. |
| Text.SplitAtFirst | frontend/src/lib/utils.ts:17 | The first piece is everything before the first occurrence; the rest is the split of what follows it. |
| Text.SplitPiecesFree | frontend/src/lib/utils.ts:18 | No piece of a split on one character contains that character. |
| Text.SplitLastPiece | frontend/src/lib/utils.ts:9 | The last piece of a split on `/` is the suffix after the last `/` (the whole text if there is none), and it is empty exactly when the text is empty or ends with `/`. |
| Text.SplitConcat | frontend/src/components/csv-import.tsx:79 | Splitting `a + "," + b` on `,` gives the pieces of `a` followed by the pieces of `b`. |
| Text.SplitAbsentOne | frontend/src/lib/utils.ts:17 | A single-piece split holds the whole text. |
| Text.JoinSnoc | frontend/src/lib/utils.ts:22 | Joining one more piece appends the separator and that piece. |
| Text.TrimStartShape | frontend/src/components/csv-import.tsx:72 | Trimming the start removes a whitespace prefix only, and leaves a result that is empty or starts with a non-space. |
| Text.TrimEndShape | frontend/src/components/csv-import.tsx:79 | Trimming the end removes a whitespace suffix only, and leaves a result that is empty or ends with a non-space. |
| Text.TrimStart | frontend/src/components/csv-import.tsx:72 | The leading-whitespace half of `trim()`; `TrimStartShape` states what it removes. |
| Text.TrimEnd | frontend/src/components/csv-import.tsx:72 | The trailing-whitespace half of `trim()`; `TrimEndShape` states what it removes. |
| Text.Trim | frontend/src/components/csv-import.tsx:72 | `trim()`: both ends trimmed; `TrimStartShape`, `TrimEndShape`, `TrimEmptyIff` and `TrimBounds` state what it removes. |
| Text.TrimEmptyIff | frontend/src/components/csv-import.tsx:77 | `trim()` yields the empty text exactly when the line is all whitespace. |
| Text.TrimBounds | frontend/src/components/csv-import.tsx:72 | A trimmed cell is no longer than the original and neither starts nor ends with whitespace. |
| Text.Lower | frontend/src/components/csv-import.tsx:88 | `toLowerCase` keeps the length and lower-cases each character. |
| Text.LowerPlain | frontend/src/components/csv-import.tsx:88 | Text without capitals is unchanged by `toLowerCase`. |
| Text.LowerIdempotent | frontend/src/components/csv-import.tsx:93-96 | Lower-casing twice is lower-casing once. |
| Text.Capitalize | frontend/src/lib/utils.ts:10-12 | The first character is upper-cased and the rest is kept. |
| Text.CapitalizeIdempotent | frontend/src/lib/utils.ts:10-12 | Capitalising an already capitalised text changes nothing. |
| Records.Assign | frontend/src/components/csv-import.tsx:84-128 | The `rowData[header] = value` and `dataPoint[s.name] = value` assignments run in order on an object, an assignment to `__proto__` creating no field; `AssignKeys`, `AssignLastWins` and `AssignUntouched` state the result. |
| Records.AssignKeys | frontend/src/components/csv-import.tsx:84-128 | Assigning fields in order leaves exactly the old keys plus the assigned names, except `__proto__`: assigning a string, number or boolean there goes to the prototype setter and creates no field. |
| Records.AssignLastWins | frontend/src/components/csv-import.tsx:84-128 | A field other than `__proto__` holds the value of the last assignment to its name. |
| Records.AssignUntouched | frontend/src/components/csv-import.tsx:80-82 | A key that no assignment names keeps its value. |
| Records.IndexOf | frontend/src/lib/api-service.ts:311 | `indexOf` gives the first position holding the element, and None exactly when the element is absent. |
| Records.Filter | frontend/src/components/csv-import.tsx:75-77 | `Array.prototype.filter`: only accepted items are kept (also `frontend/src/lib/utils.ts:18`). |
| Records.FilterKept | frontend/src/components/csv-import.tsx:77 | Every kept item comes from the input. |
| Records.FilterAppend | frontend/src/lib/utils.ts:18 | The filter keeps order and multiplicity: the kept items of a concatenation are those of each part, one after the other. |
| Records.FilterSingle | frontend/src/lib/utils.ts:18 | A single item is kept exactly when it is accepted; with `FilterAppend` this fixes the filter on every input. |
| Records.FilterEmptyIff | frontend/src/components/csv-import.tsx:75-77 | Nothing is kept exactly when every item is rejected. |
| Records.FilterKeepsAll | frontend/src/lib/utils.ts:18 | Everything is kept when every item is accepted. |
| CsvImport.EntityOf | frontend/src/components/csv-import.tsx:88-105 | `entityName.toLowerCase()` compared with `businesses` and `products`; any other name types nothing; `EntityOfIgnoresCase` states the case rule. |
| CsvImport.EntityOfIgnoresCase | frontend/src/components/csv-import.tsx:88 | The entity name is matched without regard to case. |
| CsvImport.Unescape | frontend/src/components/csv-import.tsx:99 | `replace(/\\n/g, '\n')` leaves no two-character `\n` behind and never lengthens the text. |
| CsvImport.Escape | frontend/src/components/csv-import.tsx:99 | The inverse of the `\n` replacement, which the dialog itself never performs; it is the partner that `UnescapeEscape` checks `Unescape` against. The result holds no newline and is no shorter than the text. Its first character is a backslash when the text starts with a newline, and otherwise the text's own first character. |
| CsvImport.UnescapeEscape | frontend/src/components/csv-import.tsx:99 | A note with its newlines written as `\n` reads back as written, provided it had no literal backslash-n of its own. |
| CsvImport.UnescapePlain | frontend/src/components/csv-import.tsx:121 | Text without a backslash-n is left alone. |
| CsvImport.UnescapeIdempotent | frontend/src/components/csv-import.tsx:121 | Unescaping twice is unescaping once. |
| CsvImport.ConvertCell | frontend/src/components/csv-import.tsx:86-127 | The typing of one cell by entity and column; `ConvertCellTyping` states exactly when it yields a number, a boolean or text. |
| CsvImport.ConvertCellTyping | frontend/src/components/csv-import.tsx:84-128 | A cell is a number exactly in a numeric product column (`parseFloat`, or 0 for NaN). It is a boolean exactly in a business `archived` cell reading `true`/`false` in any case, true iff it reads `true`. Otherwise it is text, unescaped for `notes` of businesses and products. |
| CsvImport.CellAssignments | frontend/src/components/csv-import.tsx:84-85 | One assignment per header, in header order, each named after its header. |
| CsvImport.Cell | frontend/src/components/csv-import.tsx:85 | `values[colIndex] \|\| ''`: a missing cell reads as the empty text (an empty one already is); used by `RowCell` and `ShortLineNumericZero`. |
| CsvImport.Cells | frontend/src/components/csv-import.tsx:79 | `row.split(',').map((value) => value.trim())`; `SplitConcat` and `TrimBounds` state its parts. |
| CsvImport.Lines | frontend/src/components/csv-import.tsx:63 | `text.split('\n')`; `ParseNeedsTwoLines` ties its length to the presence of a line break. |
| CsvImport.NotBlank | frontend/src/components/csv-import.tsx:77 | `row.trim() !== ''`; `NonBlankKept` and `NonBlankEmptyIff` restate it as not all whitespace. |
| CsvImport.ParseRow | frontend/src/components/csv-import.tsx:78-131 | One data line as a record: `_rowIndex`, then `rowData[header] = ...` for every header in order; `RowShape` and `RowCell` state its keys and values. |
| CsvImport.NonBlank | frontend/src/components/csv-import.tsx:75-77 | The data lines whose `trim()` is not empty, in order: `Records.Filter` with `NotBlank`, so the `Filter` lemmas apply, with `NonBlankKept` and `NonBlankEmptyIff` in terms of whitespace. |
| CsvImport.NonBlankKept | frontend/src/components/csv-import.tsx:75-77 | Every kept data line is one of the input lines and is not all whitespace. |
| CsvImport.NonBlankEmptyIff | frontend/src/components/csv-import.tsx:77 | The filter keeps nothing exactly when every line is all whitespace. |
| CsvImport.ParseRows | frontend/src/components/csv-import.tsx:78-131 | One record per kept data line. |
| CsvImport.ParseLines | frontend/src/components/csv-import.tsx:63-137 | Failure carries one of the two messages of the source. Success means at least two lines and one record per non-blank data line, at least one. |
| CsvImport.ParseCsv | frontend/src/components/csv-import.tsx:61-138 | A successful parse needs a line break and yields at least one record and fewer records than lines; `ParseNeedsTwoLines` and `ParseNeedsData` give both error conditions exactly, `ParseCsvRows` and `ParseCsvCell` the content of every record. |
| CsvImport.ParseCsvRows | frontend/src/components/csv-import.tsx:72-131 | Row i of a successful `parseCSV` has exactly `_rowIndex` and the header names but `__proto__` as keys, and `_rowIndex` is i + 1 unless a column of that name overwrites it. |
| CsvImport.ParseCsvCell | frontend/src/components/csv-import.tsx:84-128 | Under header j, row i of a successful `parseCSV` holds the typed cell j of the i-th kept data line (the last column of that name winning). |
| CsvImport.ParseNeedsTwoLines | frontend/src/components/csv-import.tsx:63-69 | `parseCSV` fails with the header-and-row message exactly when the text has no line break. |
| CsvImport.ParseNeedsData | frontend/src/components/csv-import.tsx:75-77 | With a line break present, it fails with the no-data message exactly when every line after the first is all whitespace (same rule at lines 133-135). |
| CsvImport.RowShape | frontend/src/components/csv-import.tsx:80-128 | A record has exactly `_rowIndex` and the header names as keys, except that a `__proto__` column creates no field. `_rowIndex` holds the row number unless a column of that name overwrites it. |
| CsvImport.RowCell | frontend/src/components/csv-import.tsx:84-128 | Under each header is the typed cell of that column (`''` when the line is short). For a repeated name, the last such column wins. |
| CsvImport.ParsedRowShape | frontend/src/components/csv-import.tsx:78-82 | Parsed rows are numbered 1, 2, ... in the order of the kept lines, and have exactly the header names (but `__proto__`) and `_rowIndex` as keys. |
| CsvImport.ParsedCell | frontend/src/components/csv-import.tsx:84-128 | The value under a column of parsed row i is the typed cell of that column of kept line i. |
| CsvImport.ExtraCellsIgnored | frontend/src/components/csv-import.tsx:84-85 | Cells beyond the header count do not change the record. |
| CsvImport.ShortLineNumericZero | frontend/src/components/csv-import.tsx:85-118 | A product line too short to reach a numeric column reads 0 there: the cell is `''` and `parseFloat('')` is NaN. |
| CsvImport.MissingSku | frontend/src/components/csv-import.tsx:146-149 | A products row whose `sku` is present, a string, and empty; `ValidateOnlyFlags` and `ValidateProductSku` use it. |
| CsvImport.Flag | frontend/src/components/csv-import.tsx:150-151 | Flagging sets `_hasError` to true and `_errorMessage` to the message, and keeps every other field. |
| CsvImport.Strip | frontend/src/components/csv-import.tsx:248-253 | The payload of a row is the row without the three metadata keys, every other field unchanged. |
| CsvImport.CleanData | frontend/src/components/csv-import.tsx:248-253 | `allRows.map` of the strip; `ValidateOnlyFlags` and `ServerErrorsKeepPayload` state what leaves it unchanged. |
| CsvImport.StripFlag | frontend/src/components/csv-import.tsx:248-253 | Flagging a row never changes what is sent for it. |
| CsvImport.ValidateData | frontend/src/components/csv-import.tsx:141-165 | Validation keeps the row count. |
| CsvImport.ValidateOnlyFlags | frontend/src/components/csv-import.tsx:141-165 | Validation flags exactly the product rows whose `sku` is the empty text, with "SKU is required", and leaves every other row and all payloads unchanged. |
| CsvImport.ValidateProductSku | frontend/src/components/csv-import.tsx:146-152 | After a product parse, a row is flagged exactly when the cell of its last `sku` column is empty, and its payload is what the parser produced. |
| CsvImport.ParsedNoFlagUnlessColumn | frontend/src/components/csv-import.tsx:80-82 | A freshly parsed row is unflagged unless a column is itself named `_hasError`. |
| CsvImport.HasRowIndex | frontend/src/components/csv-import.tsx:266 | `row._rowIndex === err.row`, a number compared with a number; `FindRow` searches with it. |
| CsvImport.FindRow | frontend/src/components/csv-import.tsx:265-267 | `findIndex` gives the first row whose `_rowIndex` equals the error's row, and None exactly when there is none. |
| CsvImport.ApplyServerError | frontend/src/components/csv-import.tsx:265-271 | One error: flag the row `findIndex` finds, or change nothing when it finds none; `ServerErrorsFlagTargets` states the outcome. |
| CsvImport.ApplyServerErrors | frontend/src/components/csv-import.tsx:264-272 | The errors applied one after another; `ServerErrorsFlagTargets`, `ServerErrorsKeepIndices` and `ServerErrorsKeepPayload` state what it does. |
| CsvImport.LastErrorFor | frontend/src/components/csv-import.tsx:264-272 | The message of the last error whose `findIndex` is row i; the reference `ServerErrorsFlagTargets` compares the loop with. |
| CsvImport.ServerErrorsKeepIndices | frontend/src/components/csv-import.tsx:264-272 | Applying errors keeps the row count and every row's `_rowIndex`, so every `findIndex` answers as on the original rows. |
| CsvImport.FindRowSame | frontend/src/components/csv-import.tsx:265-267 | `findIndex` agrees on two lists whose rows agree on the searched index. |
| CsvImport.ServerErrorsFlagTargets | frontend/src/components/csv-import.tsx:264-272 | Each row ends flagged with the message of the last error that targets it. A row no error targets is unchanged, including for errors naming no row. |
| CsvImport.LastErrorForFound | frontend/src/components/csv-import.tsx:268-271 | Once any error targets a row, a message is recorded for it. |
| CsvImport.ServerErrorsKeepPayload | frontend/src/components/csv-import.tsx:248-272 | Server errors never change what a retry sends. |
| CsvImport.MarkServerErrors | frontend/src/components/csv-import.tsx:260-272 | The in-place loop leaves the rows equal to the errors applied one after another. |
| CsvImport.Truthy | frontend/src/components/csv-import.tsx:562 | JavaScript truthiness of a cell value: a non-empty string, a non-zero number, `true`. |
| CsvImport.Flagged | frontend/src/components/csv-import.tsx:562 | `row._hasError` is present and truthy; `ImportEnabledIff` uses it. |
| CsvImport.Preview | frontend/src/components/csv-import.tsx:275 | `slice(0, 3)` is the prefix of the rows of length min(3, n). |
| CsvImport.ImportEnabled | frontend/src/components/csv-import.tsx:558-563 | The negated `disabled` expression; `ImportEnabledIff` states it over the rows. |
| CsvImport.ImportEnabledIff | frontend/src/components/csv-import.tsx:558-563 | Import is enabled exactly when a file is chosen, nothing is in progress, and none of the first three rows is flagged. |
| CsvImport.MissingSkuBlocksImport | frontend/src/components/csv-import.tsx:558-563 | A product with an empty SKU among the first three rows keeps Import disabled. |
| CsvImport.ServerErrorBlocksImport | frontend/src/components/csv-import.tsx:274-275 | A server error for one of the first three rows keeps Import disabled once the preview is refreshed. |
| PathUtils.GetPageTitle | frontend/src/lib/utils.ts:8-14 | It throws exactly for an empty path or a trailing `/`. Otherwise the title is the last segment, free of `/`, with its first character upper-cased. |
| PathUtils.LastSegment | frontend/src/lib/utils.ts:9 | `pathname.split('/').pop()`; `SplitLastPiece` states that it is the text after the last `/`. |
| PathUtils.RootTitleThrows | frontend/src/lib/utils.ts:8-14 | `getPageTitle('/')` throws a TypeError. |
| PathUtils.PageTitle | frontend/src/lib/utils.ts:9 | The corrected title agrees with `getPageTitle` wherever that succeeds, is `''` where it throws, and never holds a `/`. |
| PathUtils.HasChars | frontend/src/lib/utils.ts:18 | `item.length > 0`. |
| PathUtils.NonEmpty | frontend/src/lib/utils.ts:18 | `Records.Filter` with `HasChars`: only non-empty items are kept, and by the `Filter` lemmas every non-empty item is kept, in order. |
| PathUtils.Cropped | frontend/src/lib/utils.ts:17 | `pathname.split('/app/')[1] \|\| ''`; `CropAtFirstApp`, `CropAtSecondApp` and `NoAppNoCrumbs` state what it keeps. |
| PathUtils.Segments | frontend/src/lib/utils.ts:18 | The non-empty `/`-separated pieces of the cropped path. |
| PathUtils.GetBreadcrumbs | frontend/src/lib/utils.ts:16-29 | One crumb per non-empty segment after `/app/`, in order (with the `NonEmpty` lemmas). |
| PathUtils.NonEmptyPiecesFree | frontend/src/lib/utils.ts:18 | Breadcrumb segments hold no `/`. |
| PathUtils.NoAppNoCrumbs | frontend/src/lib/utils.ts:17 | A path without `/app/` has no breadcrumbs. |
| PathUtils.CropAtFirstApp | frontend/src/lib/utils.ts:17 | Whatever precedes the first `/app/` does not affect the breadcrumbs. |
| PathUtils.CropAtSecondApp | frontend/src/lib/utils.ts:17 | Whatever follows a second `/app/` is cut off. |
| PathUtils.CrumbNames | frontend/src/lib/utils.ts:20-24 | Crumb i is segment i with its first character upper-cased, non-empty. |
| PathUtils.CrumbPathsExtend | frontend/src/lib/utils.ts:22 | Each crumb's path is the previous crumb's path, `/`, and its own segment. |
| PathUtils.CrumbPathEnds | frontend/src/lib/utils.ts:22 | The first crumb links to `/app/` plus its segment. The last links to all segments joined, which is the whole cropped path when no segment is empty. |
| Dashboard.ProcessOrdersForRevenue | frontend/src/lib/api-service.ts:235-288 | The categories are the six months ending at the current one. Revenue and expenses per month are the summed totals of that month's sales and purchase orders. |
| Dashboard.RevenueWindow | frontend/src/lib/api-service.ts:250-257 | The month names of the six months ending at the current one; `RevenueWindowDistinct` states its properties. |
| Dashboard.MonthOf | frontend/src/lib/api-service.ts:270-271 | `monthNames[new Date(order.created).getMonth()]`, none for an invalid date; `MonthTotalStep` and `ContributionsDistinct` use it. |
| Dashboard.MonthTotalStep | frontend/src/lib/api-service.ts:269-281 | Each order adds its total to its own month's bucket of its own type only. |
| Dashboard.RevenueWindowDistinct | frontend/src/lib/api-service.ts:254-257 | The window has six different month names and ends at the current month. |
| Dashboard.WindowMonthsDistinct | frontend/src/lib/api-service.ts:255 | `(current - i + 12) % 12` gives six different month indices for i in 5..0. |
| Dashboard.MonthNamesDistinct | frontend/src/lib/api-service.ts:236-249 | Different months have different names. |
| Dashboard.RevenueConserved | frontend/src/lib/api-service.ts:283-287 | The revenue (and the expenses) add up to the totals of the sales (purchase) orders dated in the window's months, each counted once. |
| Dashboard.SumIsBucketSum | frontend/src/lib/api-service.ts:285-286 | The returned list adds up to the sum of its buckets. |
| Dashboard.BucketsConserveTotal | frontend/src/lib/api-service.ts:274-279 | With distinct month names, the buckets add up to the orders of those months. |
| Dashboard.BucketSumNoOrders | frontend/src/lib/api-service.ts:263-266 | With no orders, every bucket stays at 0. |
| Dashboard.BucketSumSnoc | frontend/src/lib/api-service.ts:269-281 | One more order adds its contributions to the buckets. |
| Dashboard.ContributionsDistinct | frontend/src/lib/api-service.ts:274 | With distinct names, an order contributes to at most one bucket. |
| Dashboard.DayName | frontend/src/lib/api-service.ts:309-310 | The short weekday name of an order's date, `Invalid Date` for an invalid one. |
| Dashboard.SlotOf | frontend/src/lib/api-service.ts:311-313 | `daysArray.indexOf(dayName)`, none for -1; `Records.IndexOf` states that it is the first match. |
| Dashboard.Tally | frontend/src/lib/api-service.ts:308-316 | Each count is increased by the number of orders whose weekday is first found at that slot. |
| Dashboard.DayWindow | frontend/src/lib/api-service.ts:296-301 | The short weekday names of the last `days` days, oldest first; `DayWindowWeekly` and `WeekCoversEveryDay` state its properties. |
| Dashboard.ProcessOrdersForChart | frontend/src/lib/api-service.ts:290-334 | It throws "Invalid array length" exactly for negative `days`. Otherwise it returns the window's weekday names with the per-slot counts of sales and purchase orders. |
| Dashboard.DayCountsConserved | frontend/src/lib/api-service.ts:308-327 | The slots add up to the number of orders whose weekday name is in the window: each is counted once. |
| Dashboard.CountSumIsSlotSum | frontend/src/lib/api-service.ts:304-305 | The returned counts add up slot by slot. |
| Dashboard.SlotSumIsMatched | frontend/src/lib/api-service.ts:311-315 | Every matched order lands in exactly one slot. |
| Dashboard.SlotSumNoOrders | frontend/src/lib/api-service.ts:304-305 | With no orders, every slot stays at 0. |
| Dashboard.SlotSumSnoc | frontend/src/lib/api-service.ts:311-315 | One more order adds one to the first n slots exactly when its slot is among them. |
| Dashboard.DayWindowWeekly | frontend/src/lib/api-service.ts:297-301 | Day k of the window has the weekday name of day k - 7. |
| Dashboard.NoCountsAfterFirstWeek | frontend/src/lib/api-service.ts:311 | In a window longer than a week, the slots after the first seven stay at 0. |
| Dashboard.WeekCoversEveryDay | frontend/src/lib/api-service.ts:297-301 | A window of at least seven days names every weekday. |
| Dashboard.Trend | frontend/src/lib/api-service.ts:167-172 | The trend is 0 without a positive baseline. Otherwise the baseline grown by the trend percentage is the current value, positive iff the value rose and negative iff it fell. |
| Dashboard.ProfitMargin | frontend/src/lib/api-service.ts:179-183 | The margin is 0 without positive revenue. Otherwise margin% of revenue is the profit; it is at most 100 for non-negative expenses and non-negative iff expenses do not exceed revenue. |
| Dashboard.KindTotal | frontend/src/lib/api-service.ts:159-177 | The filter-and-reduce total of the orders of one type. |
| Dashboard.SummaryStats | frontend/src/lib/api-service.ts:158-212 | The summary object; `SummaryGuards`, `Trend` and `ProfitMargin` state its values. |
| Dashboard.SummaryGuards | frontend/src/lib/api-service.ts:158-212 | Revenue and order trends fall back to 0 without a baseline. The order trend times last week's count is 100 times the change. The margin is 0 without revenue, and the product and margin trends are 0. |
| Charts.ValueAt | frontend/src/components/ui/charts.tsx:62 | `s.data[index] \|\| 0`: a missing entry reads as 0; `PointValue` uses it. |
| Charts.PointAssignments | frontend/src/components/ui/charts.tsx:61-63 | One assignment per series, in series order, named after the series. |
| Charts.Point | frontend/src/components/ui/charts.tsx:57-64 | The data point of one category, `{ name: category }` then one assignment per series; `PointKeys`, `PointLabel` and `PointValue` state its fields. |
| Charts.FormatData | frontend/src/components/ui/charts.tsx:56-66 | One data point per category. |
| Charts.PointKeys | frontend/src/components/ui/charts.tsx:164-174 | Every data point has exactly `name` and the series names as fields, except that a series called `__proto__` creates none. |
| Charts.PointLabel | frontend/src/components/ui/charts.tsx:270-280 | Point i is labelled with category i, unless a series is itself called `name`. |
| Charts.PointValue | frontend/src/components/ui/charts.tsx:56-66 | Under a series' name (other than `__proto__`), point i holds that series' entry i, or 0 when it has none; the last series of that name wins. |
| Charts.PivotRoundTrip | frontend/src/components/ui/charts.tsx:56-66 | With distinct names, none called `name`, and one entry per category, the categories and every series not called `__proto__` read back from the points unchanged. |
| Charts.PieData | frontend/src/components/ui/charts.tsx:367-373 | One slice per series, in series order; slice i carries the name, number and colour of series i. |
| Charts.PieMatchesRadialBar | frontend/src/components/ui/charts.tsx:367-373 | For the same series, Pie slice i and RadialBar bar i (lines 443-449) have the same name and value, and the bar is filled with the slice's colour whenever that colour is set and non-empty. |
| Charts.RadialBarData | frontend/src/components/ui/charts.tsx:443-449 | One bar per series. |
| Charts.Fill | frontend/src/components/ui/charts.tsx:447 | `s.color \|\| getDefaultColor(index)`; `RadialBarFills` states it. |
| Charts.RadialBarFills | frontend/src/components/ui/charts.tsx:443-449 | Each bar keeps its series' name and value. Its fill is the series' non-empty colour, or else a palette colour that repeats every five positions. |
| Charts.DefaultColor | frontend/src/components/ui/charts.tsx:531-540 | The default colour is always a palette entry. |
| Charts.DefaultColorPeriodic | frontend/src/components/ui/charts.tsx:539 | Default colours repeat every five positions. |
| Charts.DefaultColorsDiffer | frontend/src/components/ui/charts.tsx:532-539 | Five consecutive positions get five different colours. |

## Left out

- Rendering, React state, dialogs, toasts, file reading (`csvFile.text()`), the PocketBase calls and their filters, and `getDateBefore`. These are I/O or UI, outside the data logic.
- `parseFloat` is a parameter: number syntax is not modelled. The one fact about it the model uses, `parseFloat('')` being NaN (a short product line reads 0 in a numeric column), is a precondition of `CsvImport.ShortLineNumericZero`.
- Case mapping (`toLowerCase`, `toUpperCase`) covers ASCII letters only. Strings are sequences of characters, with no UTF-16 surrogate details.
- Amounts are exact reals. Floating-point rounding, NaN totals, and `Number(order.total)` on non-numeric text are not modelled.
- Dates: `new Date(...)`, time zones and the `en-US` locale are abstracted to a month index and a weekday per order. The current month and today's weekday are parameters.
- Dashboard.ProcessOrdersForChart: `days` is an integer. A fractional `days` (which also makes `new Array` throw) is not modelled.
- Charts.RadialBarFills: `series.indexOf(s)` is taken as the series' own position. When the same series object appears twice in the list, the source uses its first position.
- Charts.PieData: the colour fallback applied when the slices are rendered (outside `formatData`) is not modelled.
- CsvImport.MarkServerErrors: the rows are values. The source's `[...allRows]` is a shallow copy, so flagging also changes the row objects shared with `allRows` and the preview. The model only states the new list.
- The two-second `setTimeout` that closes the dialog after a clean import is timing, not data.
- CsvImport.ImportEnabled: `preview` is taken as the first three validated rows, which is how the dialog sets it after parsing and after server errors.

## Findings

| source | as written | input that shows it | evidently intended | confidence | as-written member | corrected member |
|---|---|---|---|---|---|---|
| frontend/src/lib/utils.ts:9-11 | `pathname.split('/').pop() \|\| ''` falls back to `''`, then `titleChars[0].toUpperCase()` reads index 0 of an empty list and throws a TypeError | `getPageTitle('/')` or any path ending in `/`, such as `/app/products/` | an empty last segment gives the empty title | not executed | PathUtils.RootTitleThrows | PathUtils.PageTitle |
