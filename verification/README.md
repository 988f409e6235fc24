# go-excel mapping engine in Dafny

go-excel maps between spreadsheets and slices of Go structs. The
mapping is driven by `excel:"<column name>"` struct tags. This project
models the part of go-excel that runs between the spreadsheet codec and
Go reflection:

- **Schema extraction** (`getStructTagFieldMap`). A template struct type
  and a filter give the ordered list of column names and the map from
  column name to field name.
- **Import** (the row loop of `ImportExcel2StructSlice`, and
  `setRow2StructField`). The sheet's first row is bound positionally to
  field names. Every later row is coerced, cell by cell and by field kind,
  into a fresh record. The first failing cell or row aborts the import.
- **Export** (`setStruct2ExcelRow`, and the header and source dispatch of
  `ExportStructSlice2Excel`). The output is a header row of column names,
  then one row of cell text per record.
- **Errors** (`common/err.go`). Every failure is an `ExcelError`: a
  numeric code plus a message, and `Error()` falls back to the code when
  the message is empty.

Reflection is replaced by explicit datatypes:
- a struct type is its declared field list (name, optional tag value,
  kind, and whether the field is exported and so can be set through
  reflection);
- a record is a map from field name to a value;
- the export source is a `Data` value (nil, struct, pointer, slice, or
  another kind);
- a sheet is the grid `seq<seq<string>>` of its cell texts.

The modules follow the program's structure:
- `Results`: Option and Result.
- `Strconv`: the parts of Go's `strconv` and `fmt` the engine calls.
- `Errors`: `common/err.go`.
- `Structs`: the reflection substitute.
- `Schema`: `getStructTagFieldMap`.
- `Decoder`: import.
- `Encoder`: export.
- `RoundTrip`: export followed by import.

The main theorem is `RoundTrip.ExportImportRoundTrip`. Take a struct
type whose column names are distinct. Every field the export writes a
column for must be settable (a Go-exported identifier) and of a kind the
decoder reads (string, int, int32, int64, bool). Export a slice of
records that fit it, then import the sheet with the same type. The result
is one record per original, in order. Every exported field holds its
original value and every other field its zero value. The proof goes
through these facts:
- integer rendering and parsing are inverse on each kind's range;
- `%t` output is accepted by `ParseBool`;
- the empty string is the only value rendered as an empty cell, and it
  is the zero value the decoder leaves in place.

Behaviour of the code that the model makes explicit:
- The column map is built by assignment in field order. Two fields with
  the same column name leave the column mapped to the later field
  (`Schema.ColFieldMapSpec`).
- Within a row, an empty cell is skipped. A later non-empty cell for the
  same field overwrites an earlier one (`Decoder.DecodeCellsLast`).
- `Int` fields go through `strconv.Atoi`, which is taken to be the 64-bit
  `ParseInt`.
- The cell loop panics in two places instead of returning an error.
  Both abort the import just as a returned error does, so the model
  returns a distinguished failure value for each (code 0, which no
  error of the source has):
  - `Decoder.IndexPanic`: a non-empty cell beyond the field slice
    indexes past its end (excel/go_excel.go:183);
  - `Decoder.SetUnexportedPanic`: a parsed value is written into an
    unexported field (excel/go_excel.go:191-227). The encoder reads such
    fields without complaint, so the round trip requires every exported
    column's field to be settable.
- `DataParseErrOn` and `TargetTypeNotSupportErr` are used by the engine
  but not defined in `common/err.go`. They are modelled as assumptions:
  - `DataParseErrOn` behaves as `ParamTypeErrOn` (code -2, message
    starting with the `[row,col]` position);
  - `TargetTypeNotSupportErr` is the template-type error (code -3).

## Model

| member | source | states |
|---|---|---|
| `Strconv.Itoa` | excel/go_excel.go:250-255 | integers render as an optional minus sign (present exactly for negatives) followed by digits whose decimal value is the magnitude, in canonical form: no leading zero, and zero is exactly `"0"` |
| `Strconv.DigitsValueOfFormatNat` | excel/go_excel.go:255 | the digits written for a natural number denote that number |
| `Strconv.ParseInt` | excel/go_excel.go:198-209 | a parsed value is one the text denotes (an optional sign, then digits spelling its magnitude; a minus sign for negatives, none for positives) and lies within the bit size's signed range; no value is returned exactly when the text denotes no number in that range |
| `Strconv.DenotesOnly` | excel/go_excel.go:192-209 | a well-formed decimal text denotes exactly one number, its digit value with the sign applied |
| `Strconv.Atoi` | excel/go_excel.go:192-197 | as the 64-bit parse: the value is the number the text denotes, within the 64-bit range, and there is none exactly when the text denotes no 64-bit number |
| `Strconv.ParseIntOfItoa` | excel/go_excel.go:192-209 | parsing the decimal rendering of `n` gives `n` back exactly when `n` fits the bit size, and fails otherwise |
| `Strconv.ParseIntNarrowing` | excel/go_excel.go:198-209 | the 32-bit parse agrees with the 64-bit parse whenever the value fits 32 bits, and fails otherwise |
| `Strconv.FormatBool` | excel/go_excel.go:260-261 | `%t` output is non-empty and `ParseBool` reads it back as the same boolean |
| `Strconv.ParseBool` | excel/go_excel.go:222-227 | exactly the twelve spellings `1 t T TRUE true True 0 f F FALSE false False` are accepted, and an accepted spelling is true exactly when it starts with `1`, `t` or `T` |
| `Errors.NewExcelErr` | common/err.go:27-34 | the built error reports exactly the given code, and its text is the given message, or the code's decimal rendering when the message is empty |
| `Errors.Error` | common/err.go:69-74 | `Error()` is never empty; it is the message when there is one, else the canonical decimal rendering of the code, which parses back to the code |
| `Errors.TypeNotSupport` | common/err.go:36-43 | code -2 and a message ending with the unsupported type's name |
| `Errors.ParamTypeErrOn` | common/err.go:45-51 | code -2 and a message starting with the `[row,col]` position and ending with the expected kind and the request to check |
| `Errors.LackRequiredColOf` | common/err.go:53-59 | code -2 |
| `Errors.LackRequiredParamOn` | common/err.go:61-67 | code -2 and a message starting with the `[row,col]` position |
| `Errors.DataParseErrOn` | excel/go_excel.go:192-227 | the parse error for cell (row, col) has code -2 and a message starting with that position and ending with the expected kind and the request to check |
| `Errors.SentinelErrors` | common/err.go:80-86 | ExcelOptErr has code -1; the six parameter errors have code -3 and are pairwise distinct |
| `Structs.ZeroValue` | excel/go_excel.go:172-175 | the value of a freshly allocated field is one a field of that kind can hold |
| `Structs.Lookup` | excel/go_excel.go:185-188 | field lookup by name finds a field with that name, the first one, and fails only when no field has it |
| `Structs.ZeroRecord` | excel/go_excel.go:172-175 | a fresh record has exactly the struct's field names as keys |
| `Schema.TemplateFields` | excel/go_excel.go:114-123 | a nil template gives NilParamErr; the fields are found exactly for a struct or a pointer to a struct; every other non-nil shape fails with TargetTypeNotSupportErr |
| `Schema.ExportedFrom` | excel/go_excel.go:127-131 | the indices kept are exactly those of fields with a tag outside the filter, in increasing order |
| `Schema.Columns` | excel/go_excel.go:125-132 | the column list is the tag values of the kept fields, one per kept field, in declaration order |
| `Schema.ColFieldMapSpec` | excel/go_excel.go:133 | the map's keys are the kept tag values, and each maps to the name of the last kept field carrying it |
| `Schema.ColumnsMatchMap` | excel/go_excel.go:125-137 | the column list and the column map name the same columns, and both are empty exactly when no field is kept |
| `Schema.SchemaOfFields` | excel/go_excel.go:125-138 | success exactly when some field is kept, else TagNotFoundErr; on success the list and map are as above, non-empty, and cover each other |
| `Schema.ExtractSchema` | excel/go_excel.go:113-139 | a nil template gives NilParamErr, a non-struct template its type error, and a struct template the schema of its fields |
| `Schema.ColumnMapsToOwnField` | excel/go_excel.go:127-134 | with distinct column names, every kept field's column maps to that very field |
| `Schema.FieldSlice` | excel/go_excel.go:77-84 | the field slice has one entry per column |
| `Decoder.BindHeader` | excel/go_excel.go:33-41 | binding succeeds exactly when every header cell is a known column, else ColNotMatchFieldErr; on success entry i is the field of header cell i |
| `Decoder.CoerceCellByKind` | excel/go_excel.go:183-230 | an unknown field gives ColNotMatchFieldErr; strings are stored verbatim; int kinds take the base-10 value within the kind's range, or else the parse error at (rowId, col); booleans take ParseBool's verdict, or else the parse error; other kinds give TypeNotSupport; storing a parsed value into an unexported field panics; a stored value always fits a settable field |
| `Decoder.CoerceCellNotIndexPanic` | excel/go_excel.go:183-230 | no coercion outcome is the index panic |
| `Decoder.CoerceCellErrorPosition` | excel/go_excel.go:191-227 | a data-mismatch failure under a field of a kind the decoder reads carries the cell's `[row,col]` position at the head of its message |
| `Decoder.DecodeCellsSuccess` | excel/go_excel.go:179-231 | when the cell loop succeeds, no non-empty cell failed to coerce |
| `Decoder.DecodeCellsFirstError` | excel/go_excel.go:179-231 | when the cell loop fails, it carries the error of the first non-empty cell that fails |
| `Decoder.DecodeCellsFailure` | excel/go_excel.go:179-231 | the cell loop fails exactly when some non-empty cell fails, and then with the first such cell's error |
| `Decoder.TouchedStep` | excel/go_excel.go:179-183 | the fields written from column i on are cell i's field if that cell is non-empty, plus those written from i+1 on |
| `Decoder.DecodeCellsKeys` | excel/go_excel.go:179-231 | a successful cell loop adds exactly the fields of the non-empty cells |
| `Decoder.DecodeCellsKeep` | excel/go_excel.go:179-182 | a field no non-empty cell goes to keeps its prior value |
| `Decoder.DecodeCellsLast` | excel/go_excel.go:183-227 | a field ends with the value of the last non-empty cell that goes to it |
| `Decoder.DecodeCellsWritesFields` | excel/go_excel.go:184-188 | a successful cell loop writes only fields of the struct |
| `Decoder.DecodeRowSpec` | excel/go_excel.go:160-233 | a nil template, empty row or empty field slice gives NilParamErr; then a non-struct template gives TargetTypeNotSupportErr; otherwise the record has exactly the struct's fields, each holding its last non-empty cell's value or its zero value, and the row fails exactly when some non-empty cell fails (a cell beyond the field slice failing with the index panic), with the first one's error |
| `Decoder.DecodeRowIndexPanic` | excel/go_excel.go:179-183 | past the argument checks, a row panics on the field slice exactly when it has a non-empty cell beyond the field slice with no failing cell before it; a row whose extra cells are all empty never does |
| `Decoder.DecodeRowErrorAt` | excel/go_excel.go:160-227 | a failing row failed on the argument checks with NilParamErr, or with its first failing non-empty cell's error, whose message starts with `[rowId,j]` when it is a parse failure |
| `Decoder.CollectSuccess` | excel/go_excel.go:42-49 | a completed loop holds every row's record, in row order |
| `Decoder.CollectFailure` | excel/go_excel.go:42-49 | the loop fails exactly when some row fails, and then with the first failing row's error |
| `Decoder.RowResults` | excel/go_excel.go:42-43 | one decoded result per data row |
| `Decoder.DecodeRowsSpec` | excel/go_excel.go:42-49 | one record per data row in row order, or the first failing row's error with no partial result |
| `Decoder.ImportRowsSpec` | excel/go_excel.go:31-50 | an empty sheet gives no records; an unknown header cell gives ColNotMatchFieldErr; otherwise one record per data row decoded against the header's fields, or the first failing row's error |
| `Decoder.ImportRowsErrorAt` | excel/go_excel.go:33-46 | a failing import carries the error of its first failing data row, grid row m, decoded under the one-based row number m + 1 |
| `Decoder.Import` | excel/go_excel.go:26-50 | a schema failure is returned as is; otherwise the outcome is the row loop over the schema's column map |
| `Encoder.EncodeRow` | excel/go_excel.go:244-268 | a record's row has one cell per field-slice entry |
| `Encoder.EncodeElement` | excel/go_excel.go:237-243 | an element (after one pointer level) is encoded exactly when it is a struct, and is otherwise rejected with TargetTypeNotSupportErr |
| `Encoder.EncodeElements` | excel/go_excel.go:90-97 | a slice is encoded exactly when every element is a struct: one row per element in order, or else TargetTypeNotSupportErr |
| `Encoder.EncodeSource` | excel/go_excel.go:86-105 | a slice gives the header plus one row per element; a struct gives the header plus exactly one row; anything else gives SourceTypeNotSupportErr; every data row has one cell per field |
| `Encoder.Export` | excel/go_excel.go:57-107 | a nil source gives NilParamErr, a refused sheet ExcelOptErr, and a schema failure its error; past those, a struct source is exported, a slice exactly when all its elements are structs (else TargetTypeNotSupportErr), anything else gives SourceTypeNotSupportErr; the rows are the header and the source encoded through the field slice of the column map; a success starts with the column list as header, has 1 + count rows, all of equal width |
| `RoundTrip.RenderThenCoerce` | excel/go_excel.go:246-265 | a value a settable field of a supported kind can hold reads back as itself from its cell text; only the zero string renders as an empty cell |
| `RoundTrip.ExportedNames` | excel/go_excel.go:72-84 | the exported field names are those of the kept fields in declaration order |
| `RoundTrip.ColumnsSlice` | excel/go_excel.go:77-84 | with distinct column names, the columns map to the kept fields position by position, under the export's filter and under any filter that keeps at least as much |
| `RoundTrip.SchemaFieldSlices` | excel/go_excel.go:26-29 | both the export's schema and the import's schema (no filter) exist and map the exported columns to the exported fields |
| `RoundTrip.ExportedNamesFacts` | excel/go_excel.go:127-134 | the exported names are distinct, and a field's name is among them exactly when the field is kept |
| `RoundTrip.ListedCellsCoerce` | excel/go_excel.go:179-227 | every non-empty cell of a rendered row coerces back to the value it was rendered from |
| `RoundTrip.DecodeListedRow` | excel/go_excel.go:160-233 | a row rendered through distinct field names decodes to the record on those fields and to zero values elsewhere |
| `RoundTrip.ExportedRowDecodes` | excel/go_excel.go:43-47 | an exported record row decodes back to the record it came from |
| `RoundTrip.ExportWritesSheet` | excel/go_excel.go:72-105 | exporting a slice of records writes the column list and then each record's rendered row |
| `RoundTrip.ImportReadsSheet` | excel/go_excel.go:26-50 | importing that sheet gives one restored record per original, in order |
| `RoundTrip.ExportImportRoundTrip` | excel/go_excel.go:19-108 | export followed by import returns every record, exported fields equal to the original, other fields zero |

## Left out

- File I/O and codecs (`excelize.OpenReader`, `GetRows`, `GetSheetMap`, `xlsx.NewFile`, `AddRow`, `AddCell`, `multipart.File`). A sheet is the grid of its cell texts, so the open failure that gives `ExcelOptErr` on import is not represented.
- Sheet creation: whether `AddSheet` accepts the sheet name is the boolean parameter `sheetAccepted` of `Encoder.Export`.
- Styling (`getTitleStyle`, `SetStyle`): no observable data.
- Float32 and Float64 fields (`ParseFloat`, `FormatFloat`): floating-point numerics. These kinds are not part of `Structs.Kind`.
- Go reflection is replaced by the explicit field lists and values of `Structs`. A slice whose elements have interface type (which the source rejects with TargetTypeNotSupportErr) is not modelled.
- The text of a value of an unsupported kind follows `reflect.Value.String()` (`<type Value>`); nothing is proved about it beyond the row width.
- excel/mapper_factory.go: data-holder constructors only.
- The required-column and required-cell checks and the Int/Float/Bool label constants (common/err.go:16-20): the engine never uses them. Their constructors are modelled.
- Go's `int` is taken to be 64 bits wide, so `Atoi` is the 64-bit `ParseInt` and `Itoa(int(x))` never truncates.
- Go panics are not modelled as panics: the two the cell loop can raise are failure values that end the import like an error (see `Decoder.IndexPanic` and `Decoder.SetUnexportedPanic` above), and the panic message text is not the runtime's.
- Field visibility: whether a field is exported is the flag `canSet` of `Structs.Field`, not derived from the case of the name's first letter.
- Errors.LackRequiredColOf: states only the code, not that the message names the column.
- Encoder.EncodeRow: states only the row width. The cell texts are stated only through what the decoder reads back from them (`RoundTrip.RenderThenCoerce`). No contract fixes the exact spellings: `true`/`false` for booleans (`FormatBool` only promises text `ParseBool` reads back), or `<invalid Value>` for a field the record lacks.
