/** Export (`setStruct2ExcelRow` and the header and source dispatch of
    `ExportStructSlice2Excel`): a header row of column names, then one row
    of cell text per record. The sheet is the grid of its rows' cell
    texts. */
module Encoder {
  import opened Results
  import opened Strconv
  import opened Errors
  import opened Structs
  import opened Schema

  /** What `reflect.Value.String()` prints for the zero `reflect.Value`,
      which is what looking up a field the record does not have gives. */
  const InvalidValueText: string := "<invalid Value>"

  /** The text of one field value: integers in decimal, booleans as
      `true`/`false`, strings verbatim, any other kind as
      `reflect.Value.String()` prints it. */
  function RenderValue(v: Value): string {
    match v
    case StrV(s) => s
    case IntV(n) => Itoa(n)
    case BoolV(b) => FormatBool(b)
    case OpaqueV(typeName) => "<" + typeName + " Value>"
  }

  /** The text of the field named `name` of a record. */
  function RenderField(rec: Record, name: string): string {
    if name in rec then RenderValue(rec[name]) else InvalidValueText
  }

  /** The cells of one record, one per entry of the field slice. */
  function EncodeRow(rec: Record, fieldSlice: seq<string>): (row: seq<string>)
    ensures |row| == |fieldSlice|
  {
    seq(|fieldSlice|, i requires 0 <= i < |fieldSlice| => RenderField(rec, fieldSlice[i]))
  }

  /** `setStruct2ExcelRow`: one pointer level is followed, and anything
      but a struct is rejected. */
  function EncodeElement(d: Data, fieldSlice: seq<string>): (r: Result<seq<string>, ExcelError>)
    ensures r.Success? <==> Deref(d).StructVal?
    ensures r.Success? ==> r.value == EncodeRow(Deref(d).rec, fieldSlice)
    ensures r.Failure? ==> r.error == TargetTypeNotSupportErr
  {
    match Deref(d)
    case StructVal(rec) => Success(EncodeRow(rec, fieldSlice))
    case _ => Failure(TargetTypeNotSupportErr)
  }

  /** The slice branch of the export: one row per element, in order, and
      the first element that is not a struct aborts the export. */
  function EncodeElements(elems: seq<Data>, fieldSlice: seq<string>): (r: Result<seq<seq<string>>, ExcelError>)
    ensures r.Success? <==> forall k | 0 <= k < |elems| :: Deref(elems[k]).StructVal?
    ensures r.Success? ==>
              |r.value| == |elems| &&
              forall k | 0 <= k < |elems| :: r.value[k] == EncodeRow(Deref(elems[k]).rec, fieldSlice)
    ensures r.Failure? ==> r.error == TargetTypeNotSupportErr
  {
    if |elems| == 0 then Success([])
    else
      var row :- EncodeElement(elems[0], fieldSlice);
      var rest :- EncodeElements(elems[1..], fieldSlice);
      Success([row] + rest)
  }

  /** The rows of the export once the schema is known: the header row of
      column names, then the source's records. */
  function EncodeSource(source: Data, columns: seq<string>, fieldSlice: seq<string>)
    : (r: Result<seq<seq<string>>, ExcelError>)
    ensures var d := Deref(source);
            && (!d.SeqOf? && !d.StructVal? ==> r == Failure(SourceTypeNotSupportErr))
            && (d.StructVal? ==> r == Success([columns, EncodeRow(d.rec, fieldSlice)]))
            && (d.SeqOf? ==>
                  (r.Success? <==> forall k | 0 <= k < |d.elems| :: Deref(d.elems[k]).StructVal?))
            && (d.SeqOf? && r.Failure? ==> r.error == TargetTypeNotSupportErr)
    ensures r.Success? ==>
              && |r.value| == 1 + (if Deref(source).SeqOf? then |Deref(source).elems| else 1)
              && r.value[0] == columns
              && (forall k | 1 <= k < |r.value| :: |r.value[k]| == |fieldSlice|)
              && (Deref(source).SeqOf? ==>
                    forall k | 0 <= k < |Deref(source).elems| ::
                      r.value[k + 1] == EncodeRow(Deref(Deref(source).elems[k]).rec, fieldSlice))
  {
    match Deref(source)
    case SeqOf(elems) =>
      var rows :- EncodeElements(elems, fieldSlice);
      Success([columns] + rows)
    case StructVal(rec) => Success([columns, EncodeRow(rec, fieldSlice)])
    case _ => Failure(SourceTypeNotSupportErr)
  }

  /** `ExportStructSlice2Excel`, with the sheet taken as the grid of its
      cell texts. `sheetAccepted` is whether the spreadsheet library
      accepted the sheet name. */
  function Export(sheetAccepted: bool, source: Data, t: Template, filter: set<string>)
    : (r: Result<seq<seq<string>>, ExcelError>)
    ensures source.NilData? ==> r == Failure(NilParamErr)
    ensures !source.NilData? && !sheetAccepted ==> r == Failure(ExcelOptErr)
    ensures !source.NilData? && sheetAccepted && ExtractSchema(t, filter).Failure? ==>
              r == Failure(ExtractSchema(t, filter).error)
    ensures !source.NilData? && sheetAccepted && ExtractSchema(t, filter).Success? &&
            !Deref(source).SeqOf? && !Deref(source).StructVal? ==>
              r == Failure(SourceTypeNotSupportErr)
    ensures !source.NilData? && sheetAccepted && ExtractSchema(t, filter).Success? ==>
              var d := Deref(source);
              && (d.StructVal? ==> r.Success?)
              && (d.SeqOf? ==> (r.Success? <==> forall k | 0 <= k < |d.elems| :: Deref(d.elems[k]).StructVal?))
              && (d.SeqOf? && r.Failure? ==> r.error == TargetTypeNotSupportErr)
    ensures !source.NilData? && sheetAccepted && ExtractSchema(t, filter).Success? ==>
              var schema := ExtractSchema(t, filter).value;
              r == EncodeSource(source, schema.columns, FieldSlice(schema.columns, schema.colField))
    ensures r.Success? ==>
              && ExtractSchema(t, filter).Success?
              && |r.value| == 1 + (if Deref(source).SeqOf? then |Deref(source).elems| else 1)
              && r.value[0] == ExtractSchema(t, filter).value.columns
              && forall k | 0 <= k < |r.value| :: |r.value[k]| == |r.value[0]|
  {
    if source.NilData? then Failure(NilParamErr)
    else if !sheetAccepted then Failure(ExcelOptErr)
    else
      var schema :- ExtractSchema(t, filter);
      EncodeSource(source, schema.columns, FieldSlice(schema.columns, schema.colField))
  }
}
