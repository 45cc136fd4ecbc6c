# JSON tally to Excel row: a Dafny model

The application takes five location fields (territory, municipality, voting
centre, neighbourhood, JRV ballot-box number) and a JSON file of vote-tally
records (`resultados`, each with a `candidato` and its `marcas`). It matches
every record to a candidate's ballot position from a fixed reference list,
sorts the records by position with the unmatched ones ('No encontrado') last,
and writes a one-row spreadsheet. The row has the four metadata columns, then
one column per ballot position from 1 to the largest position in the list,
each holding that position's mark or '0'. The workbook's file name is built
from the five fields.

This project models that pipeline, all of it in `src/App.jsx`, and proves
what it promises:

- `tally.dfy`, module `Tally` (`processJsonData`). The name→position map
  (the last entry wins), the resolution of each record, and the in-place sort
  of the resolved records over an `array`.
- `decimal.dfy`, module `Decimal`. `i.toString()` for the position column
  labels, with its inverse and injectivity.
- `form.dfy`, module `Form` (`validateForm`). JavaScript `trim`, and the loop
  that records one error per blank field plus one for a missing file.
- `filename.dfy`, module `FileName`. The join / strip / collapse /
  `.xlsx` file-name transform.
- `row.dfy`, module `Row` (`generateExcel`). The loop that fills the
  position→mark map, `Math.max` over the reference positions, the loop that
  builds the row object, the header list, and the row as written under the
  header.
- `app.dfy`, module `App` (`handleSubmit`). Validation, then processing and
  export, or one of the two error outcomes.
- `scenario.dfy`, module `Scenario`. A worked example evaluated on the model.

Parts that change state step by step are methods with loops and invariants
(`ValidateForm`, `CollectMarks`, `BuildRow`, the insertion sort over an
`array`). Each is proved equal to a specification function, or proved to
meet the property outright. The properties of those functions are lemmas.

JavaScript truthiness matters in two places, and the model states both:

- `candidatesMap.get(name) || 'No encontrado'` turns a reference position of
  0 into the sentinel.
- `marksByPosition.get(i) || '0'` turns a mark of `0`, `''` or
  `null`/missing into the string '0'.

Marks are modelled as `Value = Str | Num | Null`.

Some behaviour of the code may be unexpected:

- With an empty reference list, `Math.max()` is -Infinity. No position column
  is produced and nothing fails. The model handles this case (`PositionColumns`)
  and does not forbid it.
- The metadata columns hold the fields exactly as typed. Only the file name is
  sanitised.
- The comparator returns 1 for two unmatched records in either order, so it
  is not a consistent order. The model sorts by the evident intent: the key
  (unmatched, position). It promises what any correct sort by that key gives.

## Model

| member | source | states |
|---|---|---|
| `Tally.LookupKeys` | src/App.jsx:84-86 | a name is a key of the candidates map iff some reference entry has that name |
| `Tally.LookupLastWins` | src/App.jsx:84-86 | for a repeated name the map holds the position of the last entry with that name |
| `Tally.ResolutionAgainstReferences` | src/App.jsx:88-91 | resolution keeps the list length and every record's candidato, marcas and other fields; posicion is the last matching reference position, or 'No encontrado' when the name is absent or that position is 0 |
| `Tally.SortedMeaning` | src/App.jsx:94-98 | in a sorted list resolved positions never decrease and no resolved record follows an unresolved one |
| `Tally.InsertAt` | src/App.jsx:94-98 | one insertion step sorts the prefix up to i, permutes the array, leaves the rest alone, and changes nothing when the prefix is already sorted |
| `Tally.SortByPosition` | src/App.jsx:94-98 | the in-place sort leaves the array sorted by (unresolved, position), a permutation of its old contents, and unchanged when it was already sorted (so sorting twice equals sorting once) |
| `Tally.ProcessJsonData` | src/App.jsx:83-102 | the processed list has one record per input record, is a permutation of the resolved records, and is sorted |
| `Decimal.NatToString` | src/App.jsx:60 | `i.toString()` is a non-empty string of digits that starts with '0' only for 0 |
| `Decimal.DigitsValueOfNatToString` | src/App.jsx:60 | reading the decimal label back gives the position it was made from |
| `Decimal.NatToStringInjective` | src/App.jsx:60 | distinct positions have distinct column labels |
| `Form.Entries` | src/App.jsx:20 | `Object.entries(formData)` lists the five keys in declaration order |
| `Form.TrimEmptyIffBlank` | src/App.jsx:21 | `!value.trim()` holds iff the value consists only of JavaScript white space and line terminators |
| `Form.ValidateForm` | src/App.jsx:17-32 | a field key is in the errors iff that field is blank, with its message; 'file' is in the errors iff no file is chosen; no other key appears; the result is true iff there is no error, i.e. iff every field is non-blank and a file is chosen |
| `FileName.StripDisallowed` | src/App.jsx:75 | the result contains only `[A-Za-z0-9-]`, so every other character is dropped, and keeps every allowed character as often as it occurs; a single character is kept iff it is allowed |
| `FileName.StripConcat` | src/App.jsx:75 | the strip of a concatenation is the concatenation of the strips, so the kept characters stay in their order and the result is fully determined |
| `FileName.StripAllowedUnchanged` | src/App.jsx:75 | a string made only of allowed characters passes through the strip unchanged |
| `FileName.CollapseHyphens` | src/App.jsx:76 | the result never has two hyphens in a row, starts with the input's first character and uses only characters of the input |
| `FileName.CollapseKeepsOtherCharacters` | src/App.jsx:76 | collapsing changes only hyphens: the non-hyphen characters stay, in order |
| `FileName.CollapseUnchanged` | src/App.jsx:76 | a string with no run of hyphens is left unchanged, so collapsing is idempotent |
| `FileName.CollapseDoubled` | src/App.jsx:76 | a double hyphen anywhere collapses exactly as a single one, so each run of hyphens leaves exactly one hyphen and the result is fully determined |
| `FileName.ExcelFileName` | src/App.jsx:74-77 | the file name ends in `.xlsx`, and before it holds only `[A-Za-z0-9-]` with no two consecutive hyphens |
| `FileName.CleanFieldsFileName` | src/App.jsx:74-77 | non-empty alphanumeric fields come through verbatim: the name is `territory-municipio-centro-colonia-jrv.xlsx` |
| `Row.MarksKeys` | src/App.jsx:42-47 | a position has a mark iff some record resolved to it, so unresolved records never contribute one |
| `Row.MarksLastWins` | src/App.jsx:42-47 | of several records sharing a position, the mark kept is that of the last one in list order |
| `Row.CollectMarks` | src/App.jsx:42-47 | the forEach loop builds exactly the position→mark map of the list |
| `Row.MaxPosition` | src/App.jsx:58 | `Math.max` over the reference positions is one of them and at least every one of them |
| `Row.PositionColumns` | src/App.jsx:58-59 | every candidate's position is at most the number of position columns, and that number is 0 or some candidate's position |
| `Row.PositionColumnsCover` | src/App.jsx:58-66 | column i (1-based) exists iff some candidate's position is at least i, so an empty or non-positive reference list gives no position column |
| `Row.Header` | src/App.jsx:64-66 | the header is `No. Acta`, `CENTRO DE VOTACION`, `COLONIA`, `TERRITORIO`, then "1".."n" in order, 4 + n labels in all |
| `Row.HeaderDistinct` | src/App.jsx:64-66 | no header label occurs twice |
| `Row.RowDataKeys` | src/App.jsx:50-61 | the row object's keys are exactly the header's labels |
| `Row.RowDataMetadata` | src/App.jsx:50-55 | the metadata columns hold jrv, centro, colonia and territory verbatim whatever positions are added |
| `Row.RowDataPosition` | src/App.jsx:59-61 | column "i" holds position i's mark when present and truthy, otherwise '0', and no later position overwrites it |
| `Row.BuildRow` | src/App.jsx:50-61 | the for loop over 1..maxPosition builds exactly that row object |
| `Row.SheetRowContents` | src/App.jsx:50-66 | read in header order, the row is jrv, centro, colonia, territory, then the cell of each position 1..n |
| `Row.UnreferencedPositionReadsZero` | src/App.jsx:59-61 | a position no record resolved to reads '0' |
| `Row.PositionReadsLastMark` | src/App.jsx:42-47 | a position reads the mark of the last record resolved to it, or '0' when that mark is falsy |
| `Row.GenerateExcel` | src/App.jsx:40-81 | the workbook has sheet 'Resultados', the fixed header with 4 + n distinct labels, the data row of metadata then position cells, and the sanitised file name |
| `App.HandleSubmit` | src/App.jsx:122-135 | the submission is rejected iff a field is blank or no file is chosen, and then its errors are exactly one per blank field with that field's message plus 'file' iff no file is chosen; an unreadable file gives the single processing error; otherwise the workbook, with sheet 'Resultados', is built from the sorted, resolved records |
| `Scenario.DocumentedExample` | src/App.jsx:84-98 | with Juan Perez at 1 and Maria Lopez at 2, a Juan Perez record gets position 1 and a Ghost record stays 'No encontrado'; the two position cells read 15 and '0' |

## Left out

- React state and rendering: `useState`, `setErrors`, `handleInputChange`, `renderInput` and the JSX. `ValidateForm` returns the error map that `setErrors` would store. The `isFormValid` button gate is the same condition as `App.Complete` plus a chosen file.
- Reading the file and `JSON.parse`: asynchronous I/O and a library call. `App.Upload` covers the three results: no file, content that is not JSON or has no `resultados`, or the records. A `null` record makes `item.candidato` throw, which is unreadable content here too. The source differs for a number or string record: it is spread into an object without `candidato`, gets 'No encontrado', and the workbook is still written. The same holds for a record without a `candidato` or with a non-string one, such as a number: the lookup misses and the record gets 'No encontrado'. The model's `RawRecord.candidato` is always a string, so it cannot express any of these records.
- The XLSX library: `json_to_sheet`, `book_new`, `book_append_sheet`, `writeFile`. These are foreign calls that produce a binary file. The model keeps the sheet name, the header, the values written under it, and the file name.
- The MIME-type check in `handleFileChange`. It depends on browser file metadata.
- `console.log`, `console.error`, and how errors are displayed on screen.
- `Number(...)` coercions. Positions are integers and marks are opaque values. JSON numbers that are not integers, and booleans, arrays or objects used as marks or extra fields, are not modelled.
- Object spread when a raw record already has a `posicion` field. The model keeps the raw record's extra fields in `rest` and adds `posicion` beside them.
- Tally.SortByPosition: does not promise which order records with equal keys end up in. The source comparator is inconsistent for two unmatched records, which leaves that order to the JavaScript engine. The insertion sort used here happens to be stable.
