# User bulk import, merge and export helpers — a Dafny model

This project models the user bulk-import pipeline of an admin dashboard,
together with the pure part of its export helpers.

- **Validation** (`validateUserData`): each header-keyed CSV row is checked.
  - The name and email are required, and the trimmed email must match the address pattern.
  - The role defaults to "Viewer" and is matched case-sensitively.
  - The status is trimmed, lower-cased and defaults to "active".
  - A valid row yields a normalised user. An invalid row yields every error message, each prefixed with its 1-based row number.
- **Aggregation** (`importUsersFromCSV`):
  - The tokenizer's outcome is either a list of rows or a failure.
  - Each row is validated in order.
  - Valid users and error messages are collected into an `ImportResult`.
  - When no row is valid, the import fails and "No valid users found in the file" leads the errors.
- **Merge** (`mergeUsers`): imported users are merged into the existing ones through a JavaScript `Map` keyed by lower-cased email.
  - An imported user replaces the entry with its key where it stands.
  - New keys are appended.
- **Export helpers**:
  - The "No data to export" guard shared by the CSV and Excel exports.
  - The Excel column auto-width, `min(max(header, longest cell) + 2, 50)`.
  - The download file names.
  - The timestamp helper `getTimestampString` (`src/lib/export.ts:121-124`). The downloads themselves are named with `Date.now()`.

Modules:

- `Wrappers`: `Option` and `Result`.
- `Text`: the ECMAScript white-space set, `trim`, ASCII lower-casing, and decimal rendering with its parser.
- `Email`: the address pattern `^[^\s@]+@[^\s@]+\.[^\s@]+$`, written twice: as a pattern and as a checker.
- `Users`: `User`, role and status.
- `Import`: validation, the parse outcome and aggregation.
- `OrderedMap`: a JavaScript `Map` as a sequence of entries in insertion order.
- `Merge`.
- `Export`.

The clock is a parameter. `validateUserData` reads `Date.now()` and
`new Date().toLocaleDateString()` each time it builds a user
(`src/lib/import.ts:82`, `src/lib/import.ts:87`). So an import takes one
reading per row, `clocks(k)` for the row at index k, and two rows may see
different times. `Date.now()` is a natural number of milliseconds. The date
strings and `toISOString()` are strings supplied by the caller.

A column's width is `min(max(header, longest cell) + 2, 50)`. The padding of 2
is added before the cap (`src/lib/export.ts:53`), so a column never exceeds 50.

Merging M existing and K imported users with no email in common gives M + K
users only when the emails are also distinct within each side
(`Merge.DisjointMerge`). In general the output has one user per distinct
lower-cased email (`Merge.MergeSize`).

The `Samples` module proves what the model gives for one concrete upload of
three literal rows. Each row's error list is derived from the row's text. The
second row's address is written with a space on each side
(`" bob@example.com "`) so that the example also shows the address being
trimmed before it is checked; the unpadded address reaches the same check
unchanged (`Samples.Unpadded`), so the row's errors do not depend on it.

## Model

| member | source | states |
|---|---|---|
| Text.TrimEnds | src/lib/import.ts:54 | `trim()`: the result is no longer than the input, and it neither starts nor ends with ECMAScript white space |
| Text.TrimSlice | src/lib/import.ts:54 | the trimmed string is a slice of the input, and what was cut off on either side is all white space |
| Text.TrimEmptyIff | src/lib/import.ts:54 | `v.trim() === ""` holds exactly when every character of `v` is white space |
| Text.TrimIdempotent | src/lib/import.ts:83-84 | trimming an already trimmed value changes nothing |
| Text.Lower | src/lib/import.ts:71 | `toLowerCase()` keeps the length and maps each character to its lower-case form |
| Text.LowerIdempotent | src/lib/import.ts:71 | lower-casing twice is lower-casing once |
| Text.Decimal | src/lib/import.ts:55 | the rendering of a number is non-empty, all digits, with no leading zero |
| Text.DecimalRoundTrip | src/lib/import.ts:55 | reading back the rendered row number gives the number |
| Text.DecimalInjective | src/lib/import.ts:82 | different numbers render differently |
| Email.ValidEmailIffPattern | src/lib/import.ts:60 | the checker accepts a trimmed address exactly when it matches `^[^\s@]+@[^\s@]+\.[^\s@]+$`: a non-empty run, '@', a non-empty run, '.', a non-empty run, none containing white space or '@' |
| Users.ParseRole | src/lib/import.ts:66-67 | a role string is accepted only as the exact name of a role |
| Users.RoleAccepted | src/lib/import.ts:66-67 | a role string is accepted exactly when it is one of "Admin", "Editor", "Viewer" |
| Users.StatusAccepted | src/lib/import.ts:72-73 | a status string is accepted exactly when it is "active" or "inactive" |
| Users.RoleNameRoundTrip | src/lib/import.ts:85 | the accepted role name is stored as that role, and that role's name is the accepted string |
| Users.StatusNameRoundTrip | src/lib/import.ts:86 | the accepted status string is stored as that status, and back |
| Import.NameError | src/lib/import.ts:54-56 | "Name is required" is raised exactly when the name is absent or every character of it is white space (the empty string included) |
| Import.EmailError | src/lib/import.ts:58-62 | "Email is required" exactly when the email is absent or all white space; "Invalid email format" exactly when it has a non-white-space character and its trimmed form does not match `^[^\s@]+@[^\s@]+\.[^\s@]+$`; nothing else |
| Import.RoleError | src/lib/import.ts:65-69 | the role error is raised exactly when the resolved role is not one of "Admin", "Editor", "Viewer" |
| Import.StatusError | src/lib/import.ts:71-75 | the status error is raised exactly when the resolved status is not "active" or "inactive" |
| Import.RowErrors | src/lib/import.ts:53-75 | each of the five errors is in a row's list exactly when its own condition holds (name blank; email blank; email present but malformed; role not a role name; status not a status name), and there are at most four of them |
| Import.NormalisedUser | src/lib/import.ts:81-88 | a row without errors gives a user with the `imported-{now}-{index}` id, the trimmed non-empty name, the trimmed valid email, the resolved role and status, and today's date |
| Import.ValidateUserData | src/lib/import.ts:46-91 | a row is valid exactly when the name is present, the email is present and well-formed, and the role and status resolve; a valid row's user has the normalised fields |
| Import.InvalidShape | src/lib/import.ts:77-79 | an invalid row carries between one and four messages, each naming its row and one error |
| Import.RowErrorsOrdered | src/lib/import.ts:53-75 | a row's errors follow the order of the checks (name, email, role, status), with at most one error per check |
| Import.ReportOrder | src/lib/import.ts:53-79 | of two messages an invalid row reports, the one whose check comes first is listed first |
| Import.MessageInjective | src/lib/import.ts:55 | two messages are equal only when they have the same row and the same error |
| Import.ReportsIff | src/lib/import.ts:53-79 | the message for error e appears in a row's result exactly when e is among the row's errors |
| Import.NameRule | src/lib/import.ts:54-56 | "Name is required" is reported exactly when the name is blank |
| Import.EmailRules | src/lib/import.ts:58-62 | the two email messages are mutually exclusive, each reported exactly under its own condition, stated against the pattern |
| Import.MissingNameAndEmail | src/lib/import.ts:53-62 | a row without a name and without an email gets both messages, the name's first |
| Import.RoleRule | src/lib/import.ts:65-69 | the role resolves to "Viewer" when blank and to the trimmed value otherwise; the role error is reported exactly when that is not one of the three names |
| Import.LowerCaseRoleRejected | src/lib/import.ts:66-68 | the role "admin" is rejected |
| Import.StatusRule | src/lib/import.ts:71-75 | the status resolves to "active" when blank and to the trimmed, lower-cased value otherwise; the status error is reported exactly when that is not "active" or "inactive" |
| Import.UpperCaseStatusAccepted | src/lib/import.ts:71-86 | the status "ACTIVE" is accepted and stored as active |
| Import.ParseCSV | src/lib/import.ts:24-41 | the parse succeeds exactly when the tokenizer completed without structural errors, and its rows are then the tokenizer's rows |
| Import.Tally | src/lib/import.ts:99-117 | accumulating the validations one by one, as the `forEach` does, gives the valid users in row order, every invalid row's messages in row order, and the counts of each bucket, all matching the front-to-back reference definitions |
| Import.Partition | src/lib/import.ts:108-117 | every row lands in exactly one of the two buckets |
| Import.ImportRows | src/lib/import.ts:99-124 | `totalRows` is the row count and equals `validRows + invalidRows`; `data` holds the valid rows' users in order; success holds exactly when some row is valid; `errors` holds the per-row messages in order, led by "No valid users found in the file" when no row is valid |
| Import.ImportUsersFromCSV | src/lib/import.ts:96-135 | a failed parse gives an empty failed result carrying the one thrown message (the joined tokenizer messages, or "Unknown error"); otherwise the rows are aggregated as above |
| Import.RowContribution | src/lib/import.ts:108-116 | row i contributes its own user or its own messages, after those of earlier rows and before those of later rows |
| Import.AllRowsValid | src/lib/import.ts:108-124 | a non-empty file of valid rows imports every row and reports no error |
| Import.EmptyFile | src/lib/import.ts:119-122 | a file without data rows fails with only "No valid users found in the file" |
| Import.ImportedIdInjective | src/lib/import.ts:82 | the generated id `imported-{now}-{index}` determines both the clock reading and the row index |
| Import.ImportedIdsDistinct | src/lib/import.ts:108-112 | no two users imported by one upload share an id, even when each row reads a different clock value |
| Import.MixedUpload | src/lib/import.ts:53-122 | for any good row, any row whose only errors are a blank name and a bad role, and any row whose only error is a malformed address: one user is imported, the result succeeds with counts 3/1/2, and the three messages follow in row order |
| Import.MixedUploadMessages | src/lib/import.ts:55-74 | the three messages of that upload read "Row 2: Name is required", "Row 2: Invalid role. Must be one of: Admin, Editor, Viewer", "Row 3: Invalid email format" |
| Samples.Unpadded | src/lib/import.ts:54 | text that neither starts nor ends with white space is its own `trim()` |
| Samples.SpaceAround | src/lib/import.ts:60 | `trim()` removes one space on each side of text that has no white space at its ends |
| Samples.AddressValid | src/lib/import.ts:60 | `user@domain.tld` with non-empty parts free of white space and '@' passes the address check |
| Samples.NoAtInvalid | src/lib/import.ts:60 | text without '@' fails the address check |
| Samples.AliceValid | src/lib/import.ts:53-75 | the row Alice / alice@example.com / Admin / active has no errors |
| Samples.BobErrors | src/lib/import.ts:53-75 | the row "" / " bob@example.com " / Manager / Active has exactly the errors NameRequired then InvalidRole; the padded address is accepted because it is trimmed, and "Active" because it is lower-cased |
| Samples.BobReport | src/lib/import.ts:53-79 | validated as the second row, Bob's row is invalid with exactly "Row 2: Name is required" followed by the role message |
| Samples.CarolErrors | src/lib/import.ts:53-75 | the row Carol / not-an-email / Viewer / inactive has exactly the error InvalidEmailFormat |
| Samples.AliceUser | src/lib/import.ts:81-88 | Alice's row becomes the user with id `imported-{now}-0`, name "Alice", email "alice@example.com", role Admin, status active and the reading's date |
| Samples.SampleUpload | src/lib/import.ts:96-124 | uploading Alice, Bob and Carol succeeds with counts 3/1/2, imports exactly Alice's user, and reports "Row 2: Name is required", "Row 2: Invalid role. Must be one of: Admin, Editor, Viewer", "Row 3: Invalid email format" in that order |
| OrderedMap.Get | src/lib/import.ts:146 | a lookup finds a value exactly when the key is present, and the value it finds is stored under that key |
| OrderedMap.Set | src/lib/import.ts:146 | `map.set` leaves the key order alone for a present key and appends a new one, and it adds no entry other than the one set |
| OrderedMap.SetGet | src/lib/import.ts:151 | after `set(k, v)`, `k` looks up `v` and every other key looks up what it did before |
| OrderedMap.SetAll | src/lib/import.ts:145-152 | a `forEach` of sets gives the key order `AddKeys`, and every entry comes from the map or from the batch |
| OrderedMap.SetAllGet | src/lib/import.ts:150-152 | after a batch of sets, a key of the batch looks up its last value in the batch, and any other key looks up what it did before |
| OrderedMap.SetAllIdempotent | src/lib/import.ts:150-152 | setting the same batch twice equals setting it once |
| Merge.MergedMap | src/lib/import.ts:142-152 | the merged map's key order is the existing keys, deduplicated, then the new imported keys; no key repeats, and each entry is filed under its user's lower-cased email |
| Merge.MergeUsers | src/lib/import.ts:141-155 | the output's keys are the existing keys in first-occurrence order followed by the new imported keys, and no two outputs share a key; every output is an input user, and every input key is present |
| Merge.InMerge | src/lib/import.ts:154 | a user is in the output exactly when the map holds it under its key |
| Merge.MergedGet | src/lib/import.ts:144-152 | under each key the map holds the last imported user with it, else the last existing one |
| Merge.ImportedWins | src/lib/import.ts:149-152 | for each imported key, the output holds the last imported user with that key and no other user with it |
| Merge.ExistingSurvives | src/lib/import.ts:144-152 | with distinct existing keys, an existing user survives exactly when no imported user shares its key, or the last one that does is that same user |
| Merge.UntouchedKept | src/lib/import.ts:144-147 | with distinct existing keys, an existing user whose key no imported user has is kept |
| Merge.MergeOrder | src/lib/import.ts:141-155 | existing keys keep their first-occurrence order at the front, and every later key is new and comes from the import; overall the key order is the deduplication of existing keys followed by imported keys |
| Merge.MergeSize | src/lib/import.ts:154 | the output has one user per distinct lower-cased email of the two inputs |
| Merge.DisjointMerge | src/lib/import.ts:141-155 | with distinct keys on each side and none shared, the output's keys are the existing keys then the imported keys, in order, so its size is M + K |
| Merge.ReplaceInPlace | src/lib/import.ts:149-152 | with distinct existing keys, one imported user with an existing key replaces that user at its position |
| Merge.AppendNew | src/lib/import.ts:149-152 | one imported user with a new key is appended |
| Merge.CaseInsensitiveReplace | src/lib/import.ts:146-151 | an existing "a@x.com" is replaced by an imported "A@X.COM" |
| Merge.MergeIdempotent | src/lib/import.ts:141-155 | merging the same import into the result of that merge changes nothing |
| Export.LookupEntry | src/lib/export.ts:51 | in a record, whose keys are distinct, `row[key]` gives the value of the entry with that key |
| Export.EmptyIffFalsy | src/lib/export.ts:51 | a cell counts length 0 exactly when its value is falsy (undefined, null, false, 0, "") |
| Export.Largest | src/lib/export.ts:49-52 | `Math.max` over the cell lengths bounds every length and is one of them, or 0 |
| Export.ColumnWidth | src/lib/export.ts:48-54 | each width is at most 50, at least `min(header + 2, 50)`, and at least `min(cell + 2, 50)` for every row's cell under the key |
| Export.WidthAttained | src/lib/export.ts:49-53 | each width is the header plus two, some row's cell plus two, or the cap 50, and the cap only when the header or some cell plus two reaches 50 |
| Export.ColumnWidths | src/lib/export.ts:48-55 | exactly one width per key of the first record, in key order |
| Export.SameLengthsSameWidth | src/lib/export.ts:49-53 | the width depends only on the header and the cells' lengths |
| Export.FalsyCellIgnored | src/lib/export.ts:51 | a falsy cell gives the same width as a row that lacks the key |
| Export.ExportToCsv | src/lib/export.ts:9-23 | rejects exactly empty data with "No data to export"; otherwise the download is named `{filename}_{now}.csv` |
| Export.ExportToExcel | src/lib/export.ts:33-57 | rejects empty data with "No data to export" (large data can also throw, see Left out); otherwise one sheet named by the caller or "Sheet1", with the computed column widths, saved as `{filename}_{now}.xlsx` |
| Export.SameGuard | src/lib/export.ts:38-40 | the CSV and Excel exports refuse the same inputs with the same message |
| Export.StampReadBack | src/lib/export.ts:23 | the clock reading can be read back from the download name |
| Export.TimestampString | src/lib/export.ts:121-124 | the result is the first `min(19, length)` characters with every ':' replaced by '-', so it contains no ':' |
| Export.TimestampIdempotent | src/lib/export.ts:123 | a timestamp string passed through again is unchanged |
| Export.IsoTimestamp | src/lib/export.ts:121-124 | for a `YYYY-MM-DDTHH:mm:ss.sssZ` reading, the result has 19 characters: the date, 'T' and the hour kept, the two time colons turned into '-', and the minutes and seconds kept |

## Left out

- PapaParse tokenisation (`src/lib/import.ts:26-39`) is a foreign, asynchronous library. Its outcome is an input: the rows with their structural error messages, or a thrown value.
- Export.ExportToExcel: does not model the engine's limit on spread arguments. `Math.max(key.length, ...data.map(...))` (`src/lib/export.ts:49-52`) passes one argument per row, and a large enough export throws a RangeError there before the file is written. The model returns Success for all non-empty data. Sheet names that the spreadsheet library rejects in `book_append_sheet` (`src/lib/export.ts:44`) are not modelled either, because that check is inside the foreign library.
- `Date.now()`, `new Date().toLocaleDateString()` and `new Date().toISOString()` read the clock and the locale. They are parameters.
- The Blob, the DOM download anchor, `Papa.unparse`, `XLSX.utils` and `XLSX.writeFile` are I/O or foreign calls. The exports are modelled up to the file name, the sheet name and the column widths they hand over.
- `exportToPDF` is floating-point page arithmetic over html2canvas and jsPDF.
- The React components (sidebar, file upload, layout, contexts, and so on) are presentational code.
- A `null` data argument to the exports is not representable. Only the empty-data branch of `!data \|\| data.length === 0` is modelled.
- Text.Lower: lower-cases ASCII letters only. The full Unicode case mapping of `toLowerCase` is not modelled. This also sets the merge key (`Merge.EmailKey`): "É@x.com" and "é@x.com" share one key in `mergeUsers` but are two keys in the model.
- Export.ColumnWidth: lengths count Unicode scalar values, whereas JavaScript's `length` counts UTF-16 code units. The two differ for characters outside the Basic Multilingual Plane.
- Export.EmptyIffFalsy: numbers are integers. `NaN`, `-0` and fractional numbers, and their string forms, are not modelled.
- Export.ColumnWidth: a number's cell is measured as its plain decimal digits. `String(n)` switches to exponent notation ("1e+21") for magnitudes of 10^21 or more, and that rendering is not modelled.
- Export.ColumnWidth: cells hold `undefined`, `null`, booleans, integers and strings. Objects, arrays and Dates, which `String()` renders as "[object Object]", comma-joined elements or a date text, are not representable.
- Import.ValidateUserData: row cells are strings, as the tokenizer in header mode produces them. Non-string cell values are not modelled.
- Import.MixedUploadMessages: the role message is stated as "Row 2: " followed by the description. The text is the same.
- Generated ids are shown distinct within one upload. Ids from two uploads in the same millisecond can collide, and that cross-upload case is outside this model.
