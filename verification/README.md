# Company Data Manager: parsing and sheet logic in Dafny

`webSearch.py` is a small desktop tool. The user picks an Excel file and
pastes a block of text that describes a company. The tool pulls nine
labelled fields out of the text, for example `Company Name: Acme` and
`Company Operations: …`. Then it appends the company as a new row of the
sheet, unless a row with the same company name is already there.

This project models the logic behind that window as pure Dafny functions
and proves properties of them:

- `Text` models `str.strip()` with no argument. It removes the characters
  `str.isspace()` accepts, the Unicode separators included.
- `Pattern` models `re.search(label + "(.+)", text)` for a literal label.
  The search takes the leftmost occurrence that has at least one character
  after it that `.` accepts, and then the longest such run. Without
  `re.DOTALL`, `.` stops at a line feed; with it, `.` accepts everything.
- `Company` holds the nine field names. They are also the required
  columns, in the sheet's column order.
- `Parser` models `parse_text` and `extract_optional_field`:
  - The six mandatory fields must be found, or the parse fails with
    `InvalidDataFormat`. That error stands for the `AttributeError` the
    source catches.
  - The three optional fields become `None` when their label is not found.
  - The operations field is searched with `re.DOTALL`, so it runs to the
    end of the text.
- `Sheet` models `ensure_columns_exist` and `add_to_excel`:
  - A spreadsheet is a `Table` of column names and rows.
  - The selected file is a `Workbook`: `Missing`, `Unreadable`, or
    `Present(table)`.
  - `ensure_columns_exist` creates the required columns in a new file, or
    appends the missing ones to an existing file as empty columns.
  - `add_to_excel` gives `Duplicate` when some row already has the record's
    company name. A missing `Company Name` column or a failed read gives
    `Failed`. Otherwise it gives `Inserted`: the table with the record
    appended the way `pd.concat` aligns it.
- `App` models the guards of `process_input`:
  - no file selected;
  - empty or all-whitespace input;
  - a failed parse;
  - the outcome of the append.

Two behaviours of the program are worth knowing:

- **A blank mandatory value is accepted.** A line `Company Name:    `
  followed by more lines parses to `""`: `.+` matches the spaces and
  `strip()` removes them (`Parser.BlankLineCapturesEmpty`). When that line
  is the last one, `process_input` has already stripped the input
  (webSearch.py:89), the label loses its trailing space, and the parse
  fails instead.
- **A store error gets the duplicate warning.** `add_to_excel` returns
  `False` both for a duplicate and for a caught exception (webSearch.py:133,
  143), so `process_input` shows the "already exists" warning for both
  (webSearch.py:100-101). `App.Outcome` therefore has a single `NotAdded`
  case, which carries the reason (`App.ParseOrStoreRejected`).

## Model

| member | source | states |
|---|---|---|
| Text.StripBounds | webSearch.py:107-115 | `strip()` cuts the text at two bounds: only whitespace lies outside them, and the kept part neither starts nor ends with whitespace |
| Text.StripIsStripsTo | webSearch.py:107-115 | any pair of bounds with that property cuts out exactly the stripped text, so the property alone determines `strip()` |
| Text.StripUnique | webSearch.py:107-115 | two pairs of bounds with that property cut out the same text |
| Text.StripIdempotent | webSearch.py:89 | stripping an already-stripped text changes nothing |
| Text.StripEmptyIffAllSpace | webSearch.py:89-90 | the stripped input is empty exactly when the input is all whitespace |
| Text.StripIgnoresLeading | webSearch.py:89 | whitespace added in front of a text does not change what stripping it gives |
| Text.StripIgnoresTrailing | webSearch.py:89 | whitespace added after a text does not change what stripping it gives |
| Text.StripIgnoresPadding | webSearch.py:89 | whitespace added before or after a text does not change what stripping it gives |
| Text.StripKeepsOut | webSearch.py:125 | stripping only removes characters: a character absent from the input is absent from the result |
| Pattern.FindFromIsLeftmost | webSearch.py:124 | the search reports a start where the label is followed by a character `.` accepts, and no earlier start qualifies; when it reports none, no start qualifies |
| Pattern.RunEndIsGreedy | webSearch.py:124 | the greedy `.+` accepts every character it covers and stops at the end of the text or at a character `.` refuses |
| Pattern.SearchNoneIffNoMatch | webSearch.py:124-125 | the search finds nothing exactly when no position matches the pattern; a group it finds is non-empty and made of characters `.` accepts |
| Pattern.SearchIsFirstLongest | webSearch.py:107-115 | the group starts right after the leftmost qualifying label, and is followed by the end of the text or a character `.` refuses |
| Pattern.SingleLineCaptureIsRestOfLine | webSearch.py:124 | without `re.DOTALL`, the group is the rest of the label's line |
| Pattern.DotAllCaptureIsRestOfText | webSearch.py:115 | with `re.DOTALL`, the group is everything after the label, to the end of the text |
| Company.KeysDistinct | webSearch.py:65-69 | the nine required column names are pairwise different |
| Parser.ExtractOptionalFieldNoneIffNoMatch | webSearch.py:122-125 | `extract_optional_field` returns `None` exactly when the label never has text after it on its line; a value it returns holds no line feed |
| Parser.CollectNoneIff | webSearch.py:106-120 | building the dictionary fails exactly when some mandatory entry's search finds nothing |
| Parser.CollectKeys | webSearch.py:106-116 | a built dictionary has exactly the keys of its entries |
| Parser.CollectValue | webSearch.py:106-116 | in a built dictionary, an entry no later entry overrides holds its own value: the stripped group for a mandatory field, the `extract_optional_field` result for an optional one |
| Parser.FieldKeysAreColumns | webSearch.py:65-69 | the dictionary keys of `parse_text` are the required columns of `ensure_columns_exist`, in the same order |
| Parser.ParseText | webSearch.py:103-120 | a parsed record has exactly the nine required column names as keys |
| Parser.MissingMandatoryFailsParse | webSearch.py:105-120 | if one of the six mandatory labels is never followed by text, the parse fails |
| Parser.FailedParseHasMissingMandatory | webSearch.py:105-120 | a failed parse names one of the six mandatory fields whose label is never followed by text |
| Parser.ParseFailsIffMandatoryMissing | webSearch.py:105-120 | the parse fails exactly when some mandatory label is never followed by text; the optional labels play no part |
| Parser.ParsedFieldValue | webSearch.py:106-116 | in a parsed record, every field's key holds the stripped group of that field's own label, searched in that field's mode; an optional field holds what `extract_optional_field` returns |
| Parser.MandatoryFieldsPresent | webSearch.py:107-115 | in a parsed record, every mandatory key holds a string, never `None` |
| Parser.OptionalFieldAbsentIffNoMatch | webSearch.py:109-114 | an optional key holds `None` exactly when its label is never followed by text, and a missing optional label never fails the parse |
| Parser.SingleLineCapture | webSearch.py:107-114 | a single-line field's value is the stripped rest of its label's line, and holds no line feed |
| Parser.BlankLineCapturesEmpty | webSearch.py:107 | a label followed only by spaces up to the end of its line yields the empty string, not an error |
| Parser.OperationsValue | webSearch.py:115 | the `Operations` value is the stripped text from the first `Company Operations: ` label to the end of the input, line breaks included |
| Sheet.AddColumn | webSearch.py:74-75 | `df[column] = None` appends the column last, keeps every cell, and gives every row an empty cell in it |
| Sheet.AddMissingColumns | webSearch.py:73-75 | the loop keeps the table well formed, only appends columns and empty cells, and afterwards the columns are the old ones plus the required ones |
| Sheet.AddMissingColumnsOrder | webSearch.py:73-75 | the loop appends the names the table lacks after the old columns, in the order of the list, each once |
| Sheet.AddMissingColumnsNoop | webSearch.py:73-75 | when no name is missing, the loop leaves the table exactly as it was |
| Sheet.RepairSchema | webSearch.py:72-76 | a repaired table has every required column, keeps every cell, and its columns are the old ones followed by the missing required ones in `required_columns` order |
| Sheet.RepairSchemaIdempotent | webSearch.py:72-76 | repairing a repaired table changes nothing |
| Sheet.RepairSchemaKeepsComplete | webSearch.py:73-75 | a table that already has every required column is left unchanged |
| Sheet.EnsureColumnsExist | webSearch.py:63-81 | a missing file becomes an empty table with exactly the required columns in order; an unreadable file is an error; an existing table gains only the missing columns, after its own and in `required_columns` order, filled with empty cells |
| Sheet.EnsureColumnsExistIdempotent | webSearch.py:70-81 | running the schema check again on the table it produced gives back the same table |
| Sheet.NewRow | webSearch.py:135 | the one-row frame of the record has exactly one cell per column |
| Sheet.NewRowOfFullRecord | webSearch.py:135 | a record whose keys are exactly the table's columns becomes a row equal to the record |
| Sheet.Append | webSearch.py:135-136 | `concat` adds exactly one row; the columns are the old ones, followed by the record keys the frame lacked in the record's key order, and no others; earlier rows keep their cells; the new row holds each record value under its key, and an empty cell in any other column |
| Sheet.AddToExcel | webSearch.py:127-143 | the result is `Duplicate` exactly when the sheet has the name column and a row with the record's non-null name; `Failed` exactly when the read fails or the column is missing; otherwise the record is appended |
| Sheet.DuplicateLeavesSheetUnchanged | webSearch.py:132-133 | a record whose name is already in a row is refused, and the stored sheet stays as it was |
| Sheet.InsertAddsOneRow | webSearch.py:135-140 | a new name adds exactly one row, which holds the record; on a sheet that already has the required columns, the columns and the earlier rows are unchanged |
| Sheet.NewFileFirstRecord | webSearch.py:127-140 | adding a record to the sheet created for a new path gives the required columns and that record as the only row |
| Sheet.FirstRecordOfEmptyTable | webSearch.py:132-136 | adding a record to an empty table whose columns are exactly the record's keys inserts the record as the only row, columns unchanged |
| App.BlankInputRejected | webSearch.py:85-92 | without a selected file the outcome is the no-file error; with one, blank input gives the empty-input error and nothing else does |
| App.SurroundingWhitespaceIrrelevant | webSearch.py:89 | whitespace added before or after the pasted text never changes the outcome |
| App.ParseOrStoreRejected | webSearch.py:94-101 | with a file selected and non-blank text, the outcome is the format error exactly when the stripped text does not parse; a parsed record gives `NotAdded` with the read or missing-column error when the store fails, and `NotAdded(Duplicate)` when its name is already listed |
| App.AddedIffNewCompany | webSearch.py:94-101 | a row is added exactly when the stripped text parses, the file is readable, it has the name column, and no row has the parsed name; the new sheet is the old one with the record appended |

## Left out

- The window, its widgets, message boxes and `main` (webSearch.py:20-50, 145-152) are user interface. The message the window ends on is the `App.Outcome` value.
- The file dialog of `select_excel_file` (webSearch.py:52-61) is not modelled. After a file is chosen, that method stores the path and runs `ensure_columns_exist` on it (`Sheet.EnsureColumnsExist`). It keeps the path and reports success even when the repair failed and its error was shown (webSearch.py:77-78). `App.ProcessInput` takes the workbook as it stands after that call, as read again by `add_to_excel`. Cancelling a later dialog keeps the earlier path (webSearch.py:55-56), so `selected` is `None` only when no file has ever been chosen.
- `adjust_excel_format` (webSearch.py:9-18) only turns off text wrapping in every cell. It changes no data.
- File reads and writes through pandas and openpyxl are not modelled. A read becomes the `Workbook` value passed in. A write is the table returned. A failure while writing or reformatting, after the row was appended, is not modelled: the source also reports `False` in that case.
- pandas type inference is not modelled. Every cell is an optional string. A cell that reads back as a number or a date would never equal the string name, so it would not count as a duplicate. The model treats it as the same string.
- Missing-value conversion on reading is not modelled. `read_excel` reads an empty cell as NaN. By default it also reads texts such as `NA`, `N/A`, `None`, `null` and `nan` as NaN, and a NaN cell matches no name. So a written empty string, or a company named `NA`, is never seen as a duplicate by the source, while the model reports `Duplicate`. The table a later call reads is passed in, so the conversion belongs to that read.
- Duplicate header names are not modelled. `read_excel` renames them, so `Sheet.WellFormed` takes the columns to be distinct.
- Only the patterns the source uses are modelled: a literal label followed by `(.+)`. The labels contain no regular-expression metacharacters, so no general regex engine is needed.
- The `Exception` text shown in the error boxes is not modelled. Only the kind of failure is kept.
- Sheet.AddMissingColumns: its own contract states which columns the result has, and that the old ones come first. The order of the new ones is stated by the lemma `Sheet.AddMissingColumnsOrder`. Keeping it out of the function's contract keeps every proof that uses the function small.
