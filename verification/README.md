# CgoMaps row engine and map helpers, in Dafny

CgoMaps is a small Express server with a Leaflet page. Users upload Excel
workbooks of work orders, summarise and colour one column, and save the
result as a "project". The map then shows one marker per order and lets
users group the orders into routes ("correrías"). This model covers the
logic inside the server's handlers and the pure helpers of the map page.

- **Filename guard.** `path.basename` plus the `.xlsx`/`.xls` suffix test
  that every handler runs before it touches a file.
- **Row transforms.** ensure-columns, update-record,
  update-tpl-by-description and colorized. Each is a whole-sheet map over
  `seq<Row>`, where a `Row` is a `map<string, Value>`. update-record keeps
  an `updated` flag and update-tpl an `updatedCount` counter; both are
  loops with invariants.
- **column-summary.** The `forEach` loop that fills the `counts`
  dictionary, and the sort by count descending, then value ascending. It
  is proved to give a sorted, duplicate-free list of non-blank trimmed
  keys, each with its number of cells, that covers every counted cell.
  The list is proved unique, so it does not depend on dictionary order.
  The handler's own `counts = {}` differs for cell text that names a
  member every JavaScript object inherits (`__proto__`, `constructor`);
  that is modelled as written too, and listed under Findings.
- **points handler.** The colour-column pick, `getColor`, `parseGps`
  (default coordinate and the latitude/longitude swap), `toDateString`,
  `normalizeFecha` and the per-row point.
- **Handlers.** The order of their checks, their error replies (400/404)
  and the one write each asks for. A directory is a map from file name to
  rows. A handler returns the write instead of performing it.
- **Map page.**
  - `parseDDMMYYYY`, with the round trip from the server's `DD/MM/YYYY`
    text back to the same day.
  - `businessDaysBetween`: its weekday-counting loop, against a recursive
    weekday count.
  - The bounce class and the marker colour fallback.
  - The `searchUsers` user list. Its "no valid users" exit is proved
    unreachable: a text that is not blank once trimmed always yields at
    least one user.
  - The `correrias` list, as a class whose methods append, rename and
    count.

Dates are day numbers (day 0 is 1970-01-01, a Thursday). `Weekday` gives
0 for Sunday and 6 for Saturday. The calendar conversion is Howard
Hinnant's days-from-civil algorithm, and its round trip is proved.

Modules:
- `Wrappers`: `Option`.
- `JsText`: the JavaScript string built-ins the code uses. These are
  `trim`, `split`, `toLowerCase`, `parseInt`, `parseFloat` and `String(n)`.
- `Calendar`: day numbers, `new Date(y, m, d)` and `toDateString`.
- `Sheet`: cell values, `String()`, truthiness and the date a cell reads
  as.
- `PlainObject`: the members a plain JavaScript object inherits, which
  the handlers reach when they index an object with cell text.
- `RowEngine`: the row transforms.
- `ColumnSummary`: the summary.
- `Points`: the points handler.
- `Routes`: the handlers.
- `MapClient`: the map page helpers.
- `Correrias`: the route list.

## Model

| member | source | states |
|---|---|---|
| Sheet.SerialDate | app.js:156 | a spreadsheet serial is the day `n - 25569`, valid exactly when that day is within the `Date` range |
| Sheet.CellDate | app.js:158-161 | a date cell is its day; a number is a serial; anything else is the day `Date.parse` gives, or none when it gives `NaN` |
| Calendar.Weekday | public/js/map.js:121 | `getDay()` lies in 0..6 and 1970-01-01 is a Thursday (4) |
| Calendar.CivilFromDays | app.js:151-153 | the UTC month is in 1..12 and the day of month is between 1 and that month's length, 29 days in February exactly in a Gregorian leap year |
| Calendar.CivilRoundTrip | public/js/map.js:115-116 | the calendar date of a day number converts back to the same day number |
| Calendar.ClipDay | public/js/map.js:110 | a time value is a valid date exactly when it is within ±100,000,000 days, and then it is that day |
| Calendar.MakeDateCivil | public/js/map.js:110 | for a year outside 0..99 and a month in 1..12, `new Date(y, m - 1, d)` is the day of that calendar date, clipped |
| Calendar.Pad2 | app.js:151-152 | `padStart(2, '0')` gives at least two digits, a leading `0` before one digit and the digits unchanged otherwise |
| Calendar.ToDateString | app.js:150-155 | the invalid date prints `NaN/NaN/NaN`; a valid one prints its UTC day and month padded to two digits and its year, separated by `/` |
| JsText.TrimStart | app.js:134 | `trim` at the front: a suffix of the text, all white space removed before it, not starting with white space |
| JsText.TrimEnd | app.js:134 | `trim` at the back: a prefix of the text, all white space removed after it, not ending with white space |
| JsText.Trim | app.js:134 | the result has no white space at either end and is no longer than the input |
| JsText.TrimInfix | app.js:134 | what `trim` keeps is an infix of the text; only white space is removed before and after it |
| JsText.TrimIdempotent | app.js:375 | trimming twice is trimming once |
| JsText.TrimEmptyIff | app.js:376 | a text trims to `''` exactly when it is all white space |
| JsText.Split | app.js:136 | `split` gives at least one piece and no piece holds a separator |
| JsText.JoinSplit | app.js:136 | joining the pieces of a split with the separator gives the text back |
| JsText.SplitAt | public/js/map.js:104 | a piece with no separator, then a separator, splits into that piece followed by the pieces of the rest |
| JsText.Lower | app.js:127 | the ASCII part of `toLowerCase`: each of `A`-`Z` becomes its own lower-case letter (code point plus 32), every other character is kept, position by position |
| JsText.NatText | app.js:151 | `String(n)` of a natural number: at least one digit, exactly one below 10, and no leading `0` |
| JsText.IntTextValue | app.js:247 | `String(n)` is non-empty, starts with `-` exactly when `n` is negative, and the digits after that sign denote the absolute value of `n` |
| JsText.IntTextInjective | app.js:247 | two integers with the same `String()` are equal |
| JsText.DecimalNatText | app.js:151 | the decimal digits `String(n)` prints denote `n` |
| JsText.ParseInt | public/js/map.js:106-108 | `parseInt` is `NaN` exactly when no digit follows the white space and sign |
| JsText.ReadNatField | public/js/map.js:104-108 | a number's digits, with or without one leading `0`, are unchanged by trim and read back by `parseInt` as that number |
| JsText.ParseFloat | app.js:136 | `parseFloat` gives `NaN` only when no digit follows the white space and sign |
| JsText.ParseFloatNaN | app.js:136 | `parseFloat` is `NaN` exactly when, after the white space and sign, there is neither a digit nor a `.` followed by a digit |
| JsText.FractionValue | app.js:136 | the digits after the point are worth their number over 10 to the number of digits |
| JsText.ParseFloatDecimal | app.js:136 | a decimal literal `<whole>.<frac>`, with or without a `-`, reads as the whole part plus the fraction, negated after the `-` |
| JsText.ParseFloatIntText | app.js:136 | `parseFloat` reads an integer's text back as that integer |
| Points.OrderPair | app.js:140-148 | the pair is swapped exactly when `\|a\| > 90` and `\|b\| <= 90`; a latitude comes out in range whenever either number is in range |
| Points.GpsOfText | app.js:135-148 | a trimmed text with no comma, or whose first two pieces are not numbers, gives the default coordinate; otherwise the ordered pair |
| Points.ParseGps | app.js:132-149 | a missing or `null` cell gives (7.896031, -72.504365); any other cell is read from its trimmed text |
| Points.ParseGpsOfText | app.js:135-148 | a trimmed text cell with a comma whose pieces read as `a`, `b` gives the ordered pair of `a`, `b` |
| Points.ParseGpsOfIntegers | app.js:132-149 | a cell `"<a>,<b>"` of two integers gives the ordered pair of `a`, `b` |
| Points.GpsNumbersOfIntegers | app.js:136-139 | the two numbers read from `"<a>,<b>"` are `a` and `b` |
| Points.ParseGpsLatitudeInRange | app.js:141-148 | when either number read is within ±90, the latitude returned is within ±90 |
| Points.FirstColorColumn | app.js:127 | `find` of the first column whose lower-cased name starts with `color `: it matches and none before it does |
| Points.FirstTaskColorColumn | app.js:127 | `find` of the first column whose lower-cased name holds `color tarea`: it matches and none before it does |
| Points.PickColorColumn | app.js:126-127 | the first `color …` column if any, else the first `color tarea` column if any, else none |
| Points.PointColor | app.js:128-131 | the trimmed text of the row's colour cell when that is a non-blank string, else `#28a745`; never blank |
| Points.NormalizeFecha | app.js:156-163 | a cell read as a date prints as `DD/MM/YYYY`; any other prints as `String(v \|\| '')` |
| Points.Millionths | app.js:170 | the millionths `toFixed(6)` prints are within half a unit of the absolute value times 10^6 |
| Points.ToFixed6 | app.js:170 | `toFixed(6)` ends in `.` and six digits and starts with `-` exactly for a negative number |
| Points.PointOf | app.js:165-183 | a point carries the coordinate of its `Gps` cell and the row's colour; it has exactly the eleven wanted properties: `Gps` is the coordinate printed with `toFixed(6)` as `lat, lng`, a `fecha` field is its normalised date, and any other is `String` of the cell or `''` |
| Points.PointsOf | app.js:164-184 | one point per row, in row order, with the colour column picked from the first row's keys |
| RowEngine.EnsureRow | app.js:207-213 | a row gains exactly the four columns; present values are kept and missing ones become `''` |
| RowEngine.EnsureColumns | app.js:207-213 | same length and order; every row gains exactly the four columns; every present value is kept and every added one is `''` |
| RowEngine.EnsureColumnsIdempotent | app.js:207-213 | ensure-columns applied twice equals applied once |
| RowEngine.Patched | app.js:251-253 | the supplied value when it is defined, else the current value when truthy, else `''` |
| RowEngine.PatchRecord | app.js:249-254 | a matching row gains the three status columns, each set as `Patched` says, and keeps every other column |
| RowEngine.RecordRow | app.js:246-256 | a row whose `String(id)` equals the request's is patched; every other row is returned unchanged |
| RowEngine.UpdateRecordRows | app.js:244-257 | same length and order; every row is its `RecordRow`, so every match is patched and not only the first; `updated` holds exactly when some row matches |
| RowEngine.MissingIdMatchesUndefined | app.js:246-247 | a row without an id column matches exactly the requests whose id reads `"undefined"` |
| RowEngine.NumericIdMatchesText | app.js:247 | a numeric id and its decimal text select the same rows |
| RowEngine.SetTpl | app.js:295 | only `Tpl` changes, set to the supplied value, or the old one when truthy, or `''` |
| RowEngine.TplRow | app.js:293-297 | a row whose `Description \|\| ''` equals the description gets its `Tpl` set; any other row is unchanged |
| RowEngine.CountMatchingIsCardinality | app.js:291-294 | the counter is the number of rows the description selects |
| RowEngine.CountMatchingZero | app.js:291-302 | the count is 0 exactly when no row has that description |
| RowEngine.BlankDescriptionNotMatched | app.js:293 | a truthy description never selects a row without a description |
| RowEngine.UpdateTplRows | app.js:291-298 | same length and order; every row is its `TplRow`; `updatedCount` is the number of selected rows |
| RowEngine.ColorColumnName | app.js:431 | `Color <column>` differs from the column and starts with `Color ` |
| RowEngine.CellColor | app.js:432-436 | `null` or `undefined` gives `#000000`; otherwise the colour mapped to the trimmed text when truthy, else `#000000` |
| RowEngine.ColorizeRows | app.js:437 | same length and order; each row gains exactly `Color <column>`, holding its cell's colour; every other column is kept |
| RowEngine.ColorsLookup | app.js:435 | `colors[key]`: the owned value when there is one, else defined exactly for a name every object inherits |
| RowEngine.CellColorAsWrittenAgrees | app.js:432-436 | for a key `colors` owns or that no object inherits, getColor as written gives `CellColor`'s colour |
| RowEngine.InheritedNameColor | app.js:432-436 | a cell whose trimmed text is a name every object inherits, with no colour given for it, is coloured as written with that inherited member, while `CellColor` gives `#000000` |
| RowEngine.ConstructorColor | app.js:435 | the key `constructor`, with no colour given for it, reads as written the inherited `Object` function, where `#000000` is meant |
| RowEngine.ColorizeKeepsSource | app.js:437 | the column read is unchanged afterwards |
| ColumnSummary.Normalize | app.js:364-371 | outside a date column, or for a cell that does not read as a date, the value is unchanged; otherwise it becomes its `DD/MM/YYYY` text |
| ColumnSummary.KeyOf | app.js:373-376 | a counted key is the trimmed `String` of the normalised value and is never blank; `null`, `undefined` and blank give no key |
| ColumnSummary.KeysOf | app.js:372-376 | one key per row, each as `KeyOf` says |
| ColumnSummary.OccIsCardinality | app.js:377 | the count of a key is the number of cell positions that give it |
| ColumnSummary.OccPositive | app.js:377 | a key is counted at least once exactly when some cell gives it |
| ColumnSummary.TallySkip | app.js:374-376 | a cell with no key leaves the counts as they are |
| ColumnSummary.TallyAgain | app.js:377 | a key already counted gets one more |
| ColumnSummary.TallyNew | app.js:377 | a new key enters the dictionary with 1 and the total grows by one; the model appends it to a first-seen order (not the object's own key order) |
| ColumnSummary.Tally | app.js:372-378 | every key is listed once with its number of cells and at least 1; every keyed cell is counted; the counts add up to the number of keyed cells |
| ColumnSummary.StrLessIrreflexive | app.js:380 | no value comes before itself |
| ColumnSummary.StrLessAsymmetric | app.js:380 | if `a` comes before `b`, `b` does not come before `a` |
| ColumnSummary.StrLessTransitive | app.js:380 | the value order is transitive |
| ColumnSummary.StrLessTotal | app.js:380 | of two different values, one comes first |
| ColumnSummary.BeforeAsymmetric | app.js:380 | the comparator is a strict order on entries |
| ColumnSummary.BeforeTransitive | app.js:380 | the comparator is transitive |
| ColumnSummary.BeforeTotal | app.js:380 | entries with different values are always ordered |
| ColumnSummary.Insert | app.js:380 | inserting into a sorted list keeps it sorted, adds exactly that entry and adds its count to the total |
| ColumnSummary.SortEntries | app.js:379-380 | the sort gives a sorted permutation with the same total |
| ColumnSummary.SortedUnique | app.js:380 | two sorted lists with the same entries are equal |
| ColumnSummary.Entries | app.js:379 | one `{ value, count }` per key, in the model's first-seen order, with the counts' sum |
| ColumnSummary.EntriesOfTally | app.js:372-379 | every entry is a non-blank trimmed key with its number of cells, at least 1 |
| ColumnSummary.TallyCovers | app.js:372-379 | every keyed cell has an entry |
| ColumnSummary.SortedDistinctValues | app.js:379-380 | the sorted entries hold no value twice |
| ColumnSummary.SummaryOfTally | app.js:372-380 | the sorted entries of the finished tally are a summary of the column |
| ColumnSummary.Summarize | app.js:355-380 | the answer is sorted by count descending, then value ascending; it holds every non-blank trimmed key once with its number of cells, and its counts add up to the number of keyed cells |
| ColumnSummary.CountStep | app.js:377 | the as-written step on `counts = {}` changes no key other than the cell's |
| ColumnSummary.TallyAsWrittenAgrees | app.js:355-377 | for a key no object inherits, the as-written `counts` holds it exactly when some cell has it, with that number of cells |
| ColumnSummary.ProtoKeyDropped | app.js:355-377 | a `__proto__` cell is counted by `Tally` but never by the as-written object |
| ColumnSummary.ConstructorKeyText | app.js:355-377 | two `constructor` cells are counted as written as the text `function Object() { [native code] }11`, not 2 |
| ColumnSummary.SummaryUnique | app.js:379-380 | any two lists that are summaries of the same cells are equal |
| ColumnSummary.SummaryEntryShared | app.js:372-380 | an entry that counts its value's cells belongs to every list covering all keys with their counts |
| Routes.DropTrailingSlashes | app.js:112 | the path without its trailing `/`s: a prefix that does not end in `/`, followed only by `/`s |
| Routes.LastSegment | app.js:112 | a suffix with no `/`, preceded by a `/` when shorter than the path |
| Routes.Basename | app.js:112 | `path.basename` never holds `/` and keeps a name without `/` |
| Routes.SafeName | app.js:111-116 | a name is accepted exactly when its basename ends in `.xlsx` or `.xls`; it is then that basename, with no `/`, and neither `.` nor `..` |
| Routes.SafeNameAccepts | app.js:111-116 | a name with no `/` and a sheet suffix passes unchanged |
| Routes.SafeNameIdempotent | app.js:111-116 | the guard applied to an accepted name gives that name again |
| Routes.OpenSheet | app.js:111-119 | a bad name gives 400 and a missing file gives 404, in that order; otherwise the file's rows |
| Routes.PointsRoute | app.js:109-184 | a rejected name or file gets its 400/404; otherwise one point per row of the project, coloured from a column of the first row, when one is picked |
| Routes.EnsureColumnsRoute | app.js:192-217 | a rejected name or file gets its 400/404 and no write; otherwise the ensured rows are written back to the same project |
| Routes.UpdateRecordRoute | app.js:225-264 | a falsy id gets 400 before the name is checked; then 400/404 for the file; 404 and no write when no row matches; otherwise the updated rows are written back |
| Routes.UpdateTplRoute | app.js:272-302 | a falsy description gets 400; then 400/404 for the file; otherwise the rows are written back and the count of selected rows is returned |
| Routes.ColumnSummaryRoute | app.js:336-381 | a missing column gets 400; then 400/404 for the upload; otherwise the column and its summary, with no write |
| Routes.StripSuffix | app.js:441 | the base name followed by the removed suffix is the original name |
| Routes.OutputName | app.js:442 | the saved name ends in `-colored.xlsx` |
| Routes.IntTextNoSlash | app.js:442 | `Date.now()` printed holds no `/` |
| Routes.OutputNamePassesGuard | app.js:441-443 | the saved project's name passes the guard unchanged, so the project handlers accept it |
| Routes.ColorizedRoute | app.js:412-445 | a falsy column, or `colors` missing, falsy or not an object, gets 400 before the name is checked; then 400/404 for the upload; otherwise the colourised rows are written as a new project in `dataDir`, and the upload is left alone |
| MapClient.ReadFields | public/js/map.js:106-109 | the three pieces read as numbers exactly when none of them is `NaN`, and then they are those numbers |
| MapClient.NewDateCivil | public/js/map.js:110 | `new Date(yyyy, mm - 1, dd)` with a month in 1..12 and a year outside 0..99 is that calendar day, clipped |
| MapClient.DateOfParts | public/js/map.js:105-110 | fewer than three pieces, or a piece that is not a number, gives no date; otherwise `new Date(yyyy, mm - 1, dd)` of the third, second and first pieces |
| MapClient.ParseDDMMYYYY | public/js/map.js:102-111 | a missing or empty text gives no date; any other text gives the date of its pieces split on `/` or `-`, none when there are fewer than three or the day is not a number |
| MapClient.ReadDateFields | public/js/map.js:106-110 | first three pieces reading as `dd`, `mm`, `yyyy` give `new Date(yyyy, mm - 1, dd)`, whatever pieces follow |
| MapClient.DateTextRoundTrip | public/js/map.js:102-111 | the server's `DD/MM/YYYY` text for a day with a year from 100 on reads back as that same day |
| MapClient.InvalidDateTextIsNoDate | public/js/map.js:102-111 | the server's `NaN/NaN/NaN` reads as no date |
| MapClient.StartOfDay | public/js/map.js:115-116 | the invalid date stays invalid |
| MapClient.StartOfDayKeeps | public/js/map.js:115-116 | rebuilding a day from its year, month and date gives the same day |
| MapClient.CountWeekdays | public/js/map.js:118-124 | the loop counts the days from start to end, both included, that are neither Sunday nor Saturday |
| MapClient.BusinessDaysBetween | public/js/map.js:113-126 | 0 for a missing date, an invalid date or a start after the end; otherwise the weekdays in the range minus one, never below 0 |
| MapClient.WeekdaysInBound | public/js/map.js:118-125 | a range holds no more weekdays than days |
| MapClient.WeekdaysInAWeek | public/js/map.js:120-124 | any seven days in a row hold exactly five weekdays |
| MapClient.SameDayIsZero | public/js/map.js:113-126 | a request made today has 0 business days |
| MapClient.BusinessDaysBound | public/js/map.js:113-126 | never more business days than days between the dates |
| MapClient.BounceClass | public/js/map.js:1224 | fast exactly from 3 business days, slow exactly at 2, none below 2 |
| MapClient.MarkerColor | public/js/map.js:1220 | the point's colour when it is a non-blank string, else `#28a745` |
| MapClient.MarkerKeepsPointColor | public/js/map.js:1220 | the fallback never replaces a colour the server sent |
| MapClient.NonEmpty | public/js/map.js:570 | the non-empty strings, each as many times as it occurs, and nothing else |
| MapClient.NonEmptyAppend | public/js/map.js:570 | filtering a concatenation is concatenating the filtered parts, so the order is kept |
| MapClient.NonEmptySingle | public/js/map.js:570 | a single string is kept exactly when it is not empty |
| MapClient.TrimAll | public/js/map.js:569 | every line trimmed, position by position |
| MapClient.TrimmedLines | public/js/map.js:568-570 | every user read is already trimmed |
| MapClient.ParseUsers | public/js/map.js:559-575 | blank text is the empty-input case; otherwise the users are the trimmed non-empty lines, in order, each non-empty and trimmed |
| MapClient.NoValidUsersUnreachable | public/js/map.js:572-575 | the "no valid users" case never happens, and the first user is the first line, trimmed |
| Correrias.Assigned | public/js/map.js:932 | the points assigned over all routes; none for an empty list |
| Correrias.AssignedUpdate | public/js/map.js:932 | replacing an entry changes the total by the difference of the two counts |
| Correrias.AssignedAppend | public/js/map.js:731 | appending an entry adds its count to the total |
| Correrias.Bumped | public/js/map.js:932 | only the entry at `idx` changes, and its name and terminal stay the same |
| Correrias.BumpedCounts | public/js/map.js:932 | that entry's count and the total each go up by exactly 1 |
| Correrias.CorreriaList.constructor | public/js/map.js:691 | the list starts empty |
| Correrias.CorreriaList.Add | public/js/map.js:726-731 | `{ name, count: 0, terminal: '' }` is appended at the old length; the total is unchanged |
| Correrias.CorreriaList.SaveName | public/js/map.js:679-689 | a blank name adds nothing; otherwise the trimmed name is appended |
| Correrias.CorreriaList.RecordAssignment | public/js/map.js:929-935 | with a row at `idx`, only that entry's count goes up, by 1; otherwise nothing changes |
| Correrias.CorreriaList.Save | public/js/map.js:819-840 | no row or a blank name changes nothing; otherwise the name and terminal are set, trimmed; only with a project open does it request an update for that description; counts are unchanged |

## Left out

- Express routing, multer uploads, `fs` and the `xlsx` library are not part
  of the model. A directory is a map from file name to the rows of the
  first sheet. A handler returns the write it asks for.
- The `try`/`catch` 500 replies are left out. They cover library and file
  system failures, which the model does not have.
- A request body is a set of optional scalar values. A JSON array or
  object where a scalar is expected is not modelled.
- Routes.ColorizedRoute: `colors` must be an object. A scalar there, which
  the handler refuses with 400, is passed as `None` and gets that 400. An
  array `colors` passes `typeof colors === 'object'` and is indexed by
  position; the model's `colors` is a map from string keys, so that case is
  not modelled.
- ColumnSummary.Tally, ColumnSummary.Entries: the key order is the order
  keys were first seen. `Object.entries` of the handler's `counts` lists
  integer-like keys first, ascending; the sort that follows makes the
  final summary the same either way (`SortedUnique`).
- JavaScript key order is a parameter (`keyOrder` of `Routes.PointsRoute`).
  It decides the colour column pick and, on write, the column order, which
  the model does not track.
- Numbers in cells and bodies are integers. `parseFloat` is exact on
  decimal literals: binary rounding and `Infinity` are not modelled.
- `Date.parse` is a parameter (`parseDate`) that gives a day number or none.
  Time zones are left out: the local day is the UTC day.
  `excelSerialToDate` is modelled for whole serials only.
- `String()` of a `Date` cell is written `DD/MM/YYYY` in the model. In
  JavaScript it is the long locale text.
- `localeCompare` is the code-point order of the strings. The locale
  collation JavaScript applies (accents, case) is not modelled.
- JsText.Lower: `toLowerCase` is modelled for `A`-`Z` only. The names it
  is applied to (`fecha`, `date`, `color …`) are ASCII.
- Sheet.Get: a row is read as a map. A column named like an inherited
  member of every object (`constructor`, `__proto__`) reads that member in
  JavaScript; the model reads it as missing.
- The clock (`Date.now()`, `new Date()`) is a parameter.
- `generateTerminalCode` (public/js/map.js:791-797) uses `Math.random`. The
  terminal is an input of `Correrias.CorreriaList.Save`.
- `editCorreria` (public/js/map.js:799-817) and `updateCorreriaBanner`
  (public/js/map.js:1010-1020) only change the page. `Save` receives the
  name input's text, which covers what editing changes.
- The rest of map.js (DOM, Leaflet, SweetAlert, drag and popups), the
  columns, listing and delete handlers, and service/apis.js are not part of
  this model.
- Concurrent requests are not modelled: the read-modify-write race has no
  locking in the code.
- MapClient.StartOfDay: its contract states only that an invalid date stays
  invalid. StartOfDayKeeps gives the identity for years outside 0..99; years
  0 to 99, which `new Date` reads as 19YY, are not characterised.
- JsText.ParseInt: its contract states only when the result is `NaN`. Its
  values are stated by ReadNatField and the lemmas before it.

## Findings

| source | as written | input that shows it | evidently intended | confidence | as-written member | corrected member |
|---|---|---|---|---|---|---|
| app.js:355-377 | `counts = {}` and `counts[key] = (counts[key] \|\| 0) + 1` index a plain object with cell text | a column with a cell `__proto__` (never counted) or two cells `constructor` (counted as the text `function Object() { [native code] }11`, which the sort comparator then subtracts as `NaN`) | every non-blank key counted with its number of cells, as a `Map` or `Object.create(null)` would | high; not executed | ColumnSummary.ProtoKeyDropped, ColumnSummary.ConstructorKeyText | ColumnSummary.Tally, ColumnSummary.Summarize |
| app.js:432-436 | `colors[key] \|\| '#000000'` reads inherited members of the request's `colors` object | a cell `constructor` with no colour given for it is coloured with the `Object` function (RowEngine.InheritedNameColor) | `#000000` for any key `colors` does not own | high; not executed | RowEngine.ConstructorColor | RowEngine.CellColor |
