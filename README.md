# GoogleSheetsDB, modelled in Dafny

`sheets.js` defines one class, `GoogleSheetsDB`, which uses a Google Sheets
tab as an employee table. Row 1 holds the header and every later row holds
one employee in columns A to H: id, name, department, position, status,
login time, break time and last activity.

This project models the deterministic core of that class:

- the header-label normalisation `camelCase`;
- the row mapper inside `getEmployees` (header keys, defaults, dropping rows without an id, sheet order);
- the fixed eight-column tuple written for new and bulk-updated employees;
- the positional addressing of every write (`values.length + 1`, `index + 2`, `i + 2`);
- the effect of each write on the sheet.

The remote sheet is replaced by an in-memory grid. The class
`SheetsDb.GoogleSheetsDb` holds the rows a read of the tab returns in its
field `values`. Its methods `UpdateRange` and `ClearRange` stand for the two
kinds of write request. The timestamp `new Date().toISOString()` is a
parameter `now`.

Modules, one per file:

- `options.dfy`, module `Options`: `null`/`undefined` versus a present value.
- `header_keys.dfy`, module `HeaderKeys`: `camelCase`.
  - The function follows the regular expression `/[^a-zA-Z0-9]+(.)/g` literally: a greedy separator run that backtracks, and a `.` that does not match line terminators.
  - The function is proved equal to a simpler one-pass fold.
- `numbers.dfy`, module `Numbers`: `parseInt(text) || 0` and `Number.prototype.toString()` on integers.
- `grid.dfy`, module `Grid`: the grid, a range write and a range clear, each with its cell-level frame.
- `row_mapper.dfy`, module `RowMapper`: the row mapper, the serialiser and the look-ups `findIndex` and `find`.
- `sheet_updates.dfy`, module `SheetUpdates`: each write as a function from the sheet before to the sheet after, and lemmas about what a later `getEmployees` lists.
- `sheets_db.dfy`, module `SheetsDb`: the class itself, with one method per operation, each proved against the functions above.

Every update and removal is addressed by position, not by id. The row
written is `index + 2`, where `index` is the position of the id in the list
`getEmployees` returned. That list leaves out data rows without an id,
including rows cleared by an earlier `removeEmployee`. So the written row
holds the id only when no data row above it lacks one.

- `RowMapper.RecordRow`, `SheetUpdates.UpdateThenGet` and `SheetUpdates.RemoveThenGet` prove the operations correct under exactly that condition (`LeadingRowsKept`).
- `SheetUpdates.UpdateAfterBlankRowIsLost` shows what happens without it: an update lands on a blank row and is lost.
- `SheetUpdates.RemoveTwiceClearsNeighbour` shows the same: two removals in a row clear the wrong employee.

The class methods keep the source's addressing.

Several lemmas speak of a sheet under the standard header.
`StandardLayout(h)` says that the labels of `h` normalise to the keys
`employeeId`, `name`, `department`, `position`, `status`, `loginTime`,
`breakTime` and `lastActivity`, column by column.
`RowMapper.StandardHeaderKeys` proves that the header `initializeSheet`
writes has this layout.

## Model

| member | source | states |
|---|---|---|
| HeaderKeys.ReplaceSeparators | sheets.js:218 | The global replacement never lengthens the text and never empties a non-empty text. Its meaning is given by `CamelCaseIsFold`. |
| HeaderKeys.CamelCase | sheets.js:215-219 | `camelCase` never lengthens a label and never makes a non-empty label empty. Its full meaning is stated by `CamelCaseIsFold`, `CamelCaseOfWord`, `CamelCaseJoinsWords` and `KeyShape`. |
| HeaderKeys.Lower | sheets.js:217 | Lower-casing keeps the length and maps every character through ASCII lower-casing. |
| HeaderKeys.CamelCaseIsFold | sheets.js:215-219 | For labels without line terminators, the regex replacement after lower-casing equals a one-pass fold: letters and digits are copied, the first one after a separator run is upper-cased, runs are dropped, and a run at the very end leaves its last character. |
| HeaderKeys.CamelCaseOfWord | sheets.js:215-219 | A label made only of letters and digits is just lower-cased. |
| HeaderKeys.CamelCaseJoinsWords | sheets.js:215-219 | For two words joined by any non-empty separator run, line terminators included, the key is the first word lower-cased, then the first character of the second word upper-cased, then the rest of the second word lower-cased. |
| HeaderKeys.ReplaceOfAlnum | sheets.js:218 | The replacement copies a prefix of letters and digits unchanged, because no match starts in it. |
| HeaderKeys.ReplaceOfRun | sheets.js:218 | A separator run followed by a letter or digit is one match, whatever line terminators the run holds. The greedy run takes all of it, and the letter or digit is upper-cased in its place. |
| HeaderKeys.KeyShape | sheets.js:215-219 | For labels without line terminators: no separator remains inside a key. A label ending in a separator keeps that character at the end of its key. A label ending in a letter or digit gives a key ending in one. |
| Numbers.ParseInt | sheets.js:50 | Only a leading `-` followed by a digit gives a negative number. A positive number needs a leading digit, or `+` then a digit. Text that starts with neither a digit nor a sign reads as 0. The value itself is stated by `ParseSigned` and `ParseIntRoundTrip`. |
| Numbers.ParseSigned | sheets.js:50 | No sign, `-` or `+`, then digits, then text that is not a digit: this reads as the value of those digits, negated only after `-`. |
| Numbers.IntToString | sheets.js:129 | `toString` of an integer is non-empty, starts with `-` exactly when the integer is negative, and is all digits otherwise. It has no leading zero, after the `-` as well. `ParseIntRoundTrip` gives its inverse. |
| Numbers.DigitPrefix | sheets.js:50 | `parseInt` reads the longest prefix of decimal digits: it is a prefix, all digits, and the next character is not a digit. |
| Numbers.NatToString | sheets.js:129 | `toString` of a non-negative integer is a non-empty string of decimal digits. It is `0` for zero, and otherwise does not start with `0`. |
| Numbers.ParseIntRoundTrip | sheets.js:50 | `parseInt(n.toString() + rest) || 0` gives back `n`, for every integer `n` and any text `rest` that does not start with a digit. |
| Numbers.ParseZero | sheets.js:77 | The `'0'` a new row gets in its break-time column reads back as 0. |
| Grid.SetCells | sheets.js:184-200 | Writing cells into a row from a column on changes exactly those cells and pads the row when needed. |
| Grid.WriteRange | sheets.js:184-200 | A range write grows the table to reach the target row. It changes exactly the written cells of that row, and every other row and cell reads as before. |
| Grid.ClearRange | sheets.js:160-170 | A clear keeps the number of rows. The cleared cells read as empty, and every other cell reads as before. |
| Grid.WriteRangeAdjacent | sheets.js:118-138 | Two writes to adjacent ranges of one row equal one write of the joined range. |
| Grid.AppendRow | sheets.js:68-81 | Writing a row from column A just below the last row appends it to the table. |
| RowMapper.KeysOf | sheets.js:36-37 | Each header label gives the key `camelCase(label)`, column by column. |
| RowMapper.FieldMap | sheets.js:34-39 | The object built by `headers.forEach` has at most one key per header. Its keys are stated by `FieldMapKeys` and its values by `FieldMapLastWins`. |
| RowMapper.FieldMapKeys | sheets.js:34-39 | The object built for a row has exactly the keys of the header labels. |
| RowMapper.FieldMapLastWins | sheets.js:36-39 | A key holds the cell under the last label that normalises to it, or `''` when the row is too short. |
| RowMapper.ToEmployee | sheets.js:42-53 | A record is pushed exactly when the row's `employeeId` field is non-empty. |
| RowMapper.ParseRow | sheets.js:33-53 | A row gives a record exactly when its id is non-empty, and the record's id is that id. |
| RowMapper.ParseTable | sheets.js:24-32 | An empty sheet lists nobody. Otherwise there are fewer records than rows, because the header row is never a record. |
| RowMapper.Collect | sheets.js:32-54 | The loop that pushes records produces at most one record per row. |
| RowMapper.CollectNextRow | sheets.js:32-53 | Reading sheet row `i` after rows 1 to `i - 1` adds that row's record, if it has one, at the end of the list. |
| RowMapper.RecordCount | sheets.js:32-54 | `getEmployees` returns exactly one record per data row whose id is non-empty. |
| RowMapper.CollectAt | sheets.js:32-54 | The record of a row with an id comes right after the records of the rows above it, so the list keeps sheet order. |
| RowMapper.EmployeeIdKey | sheets.js:229 | `Employee_ID` normalises to `employeeId`, the key the id is read from. |
| RowMapper.LoginTimeKey | sheets.js:234 | `Login_Time` normalises to `loginTime`. |
| RowMapper.BreakTimeKey | sheets.js:235 | `Break_Time` normalises to `breakTime`. |
| RowMapper.LastActivityKey | sheets.js:236 | `Last_Activity` normalises to `lastActivity`. |
| RowMapper.StandardHeaderKeys | sheets.js:228-237 | The header `initializeSheet` writes normalises, column by column, to the eight keys `getEmployees` reads. |
| RowMapper.StandardFields | sheets.js:36-39 | Under the standard layout, each of the eight keys holds the cell of its own column. |
| RowMapper.ParseDefaults | sheets.js:38-51 | Under the standard layout a row gives no record when column A is empty. Otherwise: A to D are copied with missing cells read as `''`; an empty status becomes `logged-out`; an empty login time becomes null; the break time is the leading integer of column G, or 0; an empty last activity becomes `now`. |
| RowMapper.ParseReadsColumnsAToH | sheets.js:36-39 | Under the standard layout, two rows that agree on A to H give the same record. |
| RowMapper.Serialize | sheets.js:255-264 | The tuple written for a record has exactly the eight columns A to H. |
| RowMapper.SerializeRoundTrip | sheets.js:255-264 | Under the standard layout, reading back the tuple written for a well-formed record gives the record. Well-formed means a non-empty id, status and last activity, and a login time that is null or non-empty. |
| RowMapper.ParsedIsWellFormed | sheets.js:43-52 | Every record `getEmployees` produces under the standard layout is well formed, when `now` is non-empty. |
| RowMapper.FindIndex | sheets.js:108 | The index returned holds the id and no earlier record does. No index means no record holds the id. |
| RowMapper.FindById | sheets.js:282 | A record is found exactly when some record holds the id. The record found holds the id and is in the list. |
| RowMapper.FindByIdAtFindIndex | sheets.js:282 | `find` returns the record at the index `findIndex` reports. |
| RowMapper.FindFirst | sheets.js:282 | `find` returns the first record with the id. |
| RowMapper.RecordRow | sheets.js:114-115 | When the data rows up to record `j` all carry an id, record `j` comes from table row `j + 1`, which is sheet row `j + 2`, and that row holds the record's id. |
| SheetUpdates.NextRow | sheets.js:68 | The row `addEmployee` writes is never the header row 1: it is the row just below the last, or row 2 on an empty sheet. |
| SheetUpdates.NewRowCells | sheets.js:70-79 | The eight cells of a new row are the tuple of the record with the draft's id, name, department and position, status `logged-out`, no login time, break 0 and last activity `now`. |
| SheetUpdates.Added | sheets.js:67-81 | After `addEmployee` the sheet has `NextRow` rows and every existing row is unchanged. |
| SheetUpdates.AddAppends | sheets.js:67-81 | `addEmployee` appends exactly the row `[id, name, department, position, 'logged-out', '', '0', now]`. On an empty sheet row 1 stays empty and the new row is row 2. |
| SheetUpdates.AddThenList | sheets.js:67-81 | Under the standard layout, a later `getEmployees` at any read time lists what it listed at that time before the add, followed by the new employee with the defaults: logged out, no login time, no break, and last activity the write's timestamp. A new employee with an empty id is not listed. |
| SheetUpdates.AddThenFind | sheets.js:67-81 | Under the standard layout, a later `getEmployeeById` at any read time finds a newly added employee whose id was not in use, with the write's timestamp as its last activity. |
| SheetUpdates.AddBeforeInitialize | sheets.js:68 | An employee added to an empty sheet goes to row 2 under an empty row 1. `initializeSheet` then writes no header, and `getEmployees` lists nobody. |
| SheetUpdates.StatusCells | sheets.js:118-135 | The four cells written to E to H are the last four columns of the tuple of a record with the new status, login time, break time and last activity. |
| SheetUpdates.StatusUpdated | sheets.js:118-135 | Only cells E to H of the addressed row change, to status, `loginTime \|\| ''`, `breakTime.toString()` and `now`. |
| SheetUpdates.StatusWritesCombine | sheets.js:118-138 | The four single-cell writes, applied in turn, equal one write of the four cells. |
| SheetUpdates.UpdateThenGet | sheets.js:107-135 | Under the standard layout, when the data rows up to record `j` all carry an id, the update changes record `j` of a later list, read at any time, and no other record. Its status becomes the new status (`''` reads as logged-out), its login time the new one (`''` reads as null), its break time the new value and its last activity the write's timestamp. |
| SheetUpdates.UpdateAfterBlankRowIsLost | sheets.js:108-135 | With a blank data row above employee E, E is at index 0, so the update writes the blank row 2. E's row and the whole list stay unchanged. |
| SheetUpdates.Removed | sheets.js:159-163 | Clearing keeps the number of rows. Cells A to H of the addressed row read as empty, and every other cell is unchanged. |
| SheetUpdates.RemoveThenGet | sheets.js:152-163 | Under the standard layout, when the data rows up to record `j` all carry an id, the removal drops record `j` from the list and keeps the others in order. The number of rows is unchanged. |
| SheetUpdates.RemovedIsGone | sheets.js:152-163 | After that removal neither `findIndex` nor `getEmployeeById` finds the id, provided no other record held it. |
| SheetUpdates.RemoveTwiceClearsNeighbour | sheets.js:153-160 | With rows A, B, C: removing A and then C clears sheet row 3, which holds B. The list then holds only C. |
| SheetUpdates.Initialized | sheets.js:224-239 | An empty sheet gets the standard header as its only row. A non-empty sheet is unchanged. |
| SheetUpdates.InitializeWrites | sheets.js:227-239 | On an empty sheet the header goes in by the write of A1:H1. |
| SheetUpdates.InitializeIdempotent | sheets.js:227-239 | Initializing twice equals initializing once, and a freshly initialized sheet lists nobody. |
| SheetUpdates.BulkWritten | sheets.js:251-270 | A bulk write never shrinks the sheet. It grows the sheet to one row per record plus the header, and leaves the header and every row below the last record unchanged. Cell by cell it is stated by `BulkCells`. |
| SheetUpdates.BulkCells | sheets.js:251-266 | After a bulk write, A to H of row `i + 2` hold the tuple of record `i`, and every other cell is unchanged. The sheet grows to at least one row per record plus the header. An existing header is kept; on an empty sheet row 1 is left empty. |
| SheetUpdates.BulkBeforeInitialize | sheets.js:249-270 | A bulk write to an empty sheet leaves row 1 empty. `initializeSheet` then writes no header, and `getEmployees` lists nobody. |
| SheetUpdates.NoLabelsNoRecords | sheets.js:34-42 | Under a header row without labels no data row gives a record, because the row object has no `employeeId`. |
| SheetUpdates.BulkThenGet | sheets.js:251-264 | Under the standard layout, after a bulk write of well-formed records `getEmployees` returns those records in order, followed by the records of any older rows below them. |
| SheetUpdates.ReadWriteRead | sheets.js:251-264 | Under the standard layout, when every data row has an id, writing back the list `getEmployees` returned gives the same list to a second `getEmployees`, at any later time. |
| SheetsDb.GoogleSheetsDb.constructor | sheets.js:5-10 | The object starts with the given sheet contents. |
| SheetsDb.GoogleSheetsDb.UpdateRange | sheets.js:184-200 | The sheet becomes the range write of the given cells. |
| SheetsDb.GoogleSheetsDb.ClearRange | sheets.js:163-170 | The sheet becomes the range clear of the given cells. |
| SheetsDb.GoogleSheetsDb.GetEmployees | sheets.js:13-61 | The loop over data rows returns exactly `ParseTable` of the sheet. |
| SheetsDb.GoogleSheetsDb.RowObject | sheets.js:34-39 | The `forEach` over the header builds exactly the object `FieldMap` describes. |
| SheetsDb.GoogleSheetsDb.AddEmployee | sheets.js:64-102 | The sheet becomes `Added`. On a non-empty sheet that is the old rows plus the new row. |
| SheetsDb.GoogleSheetsDb.UpdateEmployeeStatus | sheets.js:105-145 | The login time defaults to null and the break time to 0, as in the source. Not found exactly when `findIndex` finds no record, and then nothing changes. Otherwise the sheet becomes `StatusUpdated` at row `index + 2`. |
| SheetsDb.GoogleSheetsDb.RemoveEmployee | sheets.js:148-181 | Not found exactly when `findIndex` finds no record, and then nothing changes. Otherwise the sheet becomes `Removed` at row `index + 2`. |
| SheetsDb.GoogleSheetsDb.InitializeSheet | sheets.js:222-246 | The sheet becomes `Initialized`. |
| SheetsDb.GoogleSheetsDb.BulkUpdateEmployees | sheets.js:249-277 | The loop leaves the sheet as `BulkWritten`: record `i` on row `i + 2`. |
| SheetsDb.GoogleSheetsDb.GetEmployeeById | sheets.js:280-283 | Returns the first record with the id in the list `getEmployees` gives, or nothing. |

## Left out

- The `fetch` calls, the URL and API-key query strings, HTTP methods and headers, JSON bodies and the response status checks. A read is the field `values` and a write is a grid update. Transport errors are not modelled.
- The `Promise.all` concurrency of the four cell writes and of the bulk writes, including partial failure. The writes are applied in turn, in source order.
- `testConnection`, which only wraps a transport call.
- Console output, the commented usage example and the CommonJS export.
- The text of `Error('Employee not found')`. The error is the outcome `EmployeeNotFound`.
- The clock. `now` is a parameter, and one call uses one value for it. In the source, `getEmployees` calls `new Date()` for each row without a last activity. The lemmas about a write followed by a read take two timestamps, `writeTime` for the write and `readTime` for the read, which need not be equal. The write's timestamp is non-empty, as `toISOString` always is.
- Numbers.ParseInt: models an optional sign followed by ASCII decimal digits. Leading whitespace, `0x` prefixes and other radix rules of JavaScript `parseInt` are not modelled. Neither are break times that are not integers, nor the exponent forms of `toString`. JavaScript numbers are doubles, so `parseInt` rounds digit strings above 2^53 and `toString` prints such values rounded. The model reads and writes every integer exactly.
- HeaderKeys.Lower: ASCII only. Unicode case mapping, and UTF-16 surrogate pairs under the `.` of the regular expression, are not modelled.
- HeaderKeys.CamelCaseIsFold: proved only for labels without line terminators. For other labels the key is still defined by the literal regex model `ReplaceSeparators`.
- How the Sheets API trims trailing empty rows and cells on a read. Cleared cells stay in the grid and read as `''`.
- The `values` field is either absent or non-empty, as the API returns it. An empty-but-present `values` array would make `addEmployee` write row 1 instead of row 2 (sheets.js:68).
- Fields of the argument of `addEmployee` or of a bulk record that are `undefined` or not strings. The model's records have string fields and an integer break time.
- Object keys with special meaning in JavaScript, such as `__proto__`, produced by `camelCase` from a header label. The row object is a plain map.
- SheetsDb.GoogleSheetsDb.RowObject: the `forEach` callback loop over the header is a method of its own that `GetEmployees` calls, rather than a loop nested inside it.
