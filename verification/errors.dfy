/** The error values of `common/err.go`: every failure of the engine is an
    `ExcelError` carrying a numeric code and a human-readable message. */
module Errors {
  import opened Results
  import opened Strconv

  /** File-stream failures surfaced from the codec layer. */
  const ExcelOptErrCode: int := -1
  /** A cell, column or field does not match what the record type needs. */
  const NoneMatchTypeCode: int := -2
  /** Caller misuse: nil argument, wrong shape, no tagged fields, ... */
  const ParamErrCode: int := -3

  datatype ExcelError = ExcelError(errCode: int, errMsg: string)

  /** `NewExcelErr`: an error remembers exactly the code and message it
      was built from. */
  function NewExcelErr(code: int, msg: string): (e: ExcelError)
    ensures Code(e) == code
    ensures msg != "" ==> Error(e) == msg
    ensures msg == "" ==> Error(e) == Itoa(code)
  {
    ExcelError(code, msg)
  }

  /** `ExcelError.Code()`. */
  function Code(e: ExcelError): int {
    e.errCode
  }

  /** `ExcelError.Error()`: the message, or the decimal rendering of the
      code when the message is empty. The text is never empty, and in the
      fallback case it is the code's decimal rendering, which reads back
      as the code. */
  function Error(e: ExcelError): (s: string)
    ensures |s| > 0
    ensures e.errMsg != "" ==> s == e.errMsg
    ensures e.errMsg == "" ==> s == Itoa(e.errCode)
    ensures e.errMsg == "" && InRange(e.errCode, W64) ==> Atoi(s) == Some(e.errCode)
  {
    if e.errMsg == "" then
      ParseIntOfItoa(e.errCode, W64);
      Itoa(e.errCode)
    else e.errMsg
  }

  /** `TypeNotSupport`: a data-mismatch error whose message ends with the
      name of the unsupported type. */
  function TypeNotSupport(typeName: string): (e: ExcelError)
    ensures Code(e) == NoneMatchTypeCode
    ensures EndsWith(Error(e), typeName)
  {
    ExcelError(NoneMatchTypeCode, "暂不支持此类型字段：" + typeName)
  }

  predicate StartsWith(s: string, prefix: string) {
    |prefix| <= |s| && s[..|prefix|] == prefix
  }

  predicate EndsWith(s: string, suffix: string) {
    |suffix| <= |s| && s[|s| - |suffix|..] == suffix
  }

  /** The `[row,col]` position marker the positional messages start with. */
  function Position(row: int, col: int): string {
    "[" + Itoa(row) + "," + Itoa(col) + "]"
  }

  /** `ParamTypeErrOn`: a data-mismatch error whose message starts with the
      cell position and names the expected kind just before its closing
      request to check. */
  function ParamTypeErrOn(row: int, col: int, kind: string): (e: ExcelError)
    ensures Code(e) == NoneMatchTypeCode
    ensures StartsWith(Error(e), Position(row, col))
    ensures EndsWith(Error(e), kind + "！请检查")
  {
    ExcelError(NoneMatchTypeCode, Position(row, col) + "处的参数必须为" + kind + "！请检查")
  }

  /** `LackRequiredColOf`: a data-mismatch error naming the missing column. */
  function LackRequiredColOf(colName: string): (e: ExcelError)
    ensures Code(e) == NoneMatchTypeCode
  {
    ExcelError(NoneMatchTypeCode, "缺失必填列【" + colName + "】, 请核对！")
  }

  /** `LackRequiredParamOn`: a data-mismatch error whose message starts with
      the cell position. */
  function LackRequiredParamOn(row: int, col: int): (e: ExcelError)
    ensures Code(e) == NoneMatchTypeCode
    ensures StartsWith(Error(e), Position(row, col))
  {
    ExcelError(NoneMatchTypeCode, Position(row, col) + "处为必填参数！请检查")
  }

  /** The coercion failure the row decoder reports for cell `(row, col)`
      under a field of the given kind. `common.DataParseErrOn` is not defined
      in common/err.go; it is taken to behave as `ParamTypeErrOn`
      (code -2, message naming the position and the kind). */
  function DataParseErrOn(row: int, col: int, kind: string): (e: ExcelError)
    ensures Code(e) == NoneMatchTypeCode
    ensures StartsWith(Error(e), Position(row, col))
    ensures EndsWith(Error(e), kind + "！请检查")
  {
    ParamTypeErrOn(row, col, kind)
  }

  const ExcelOptErr := NewExcelErr(ExcelOptErrCode, "Excel文件流操作异常")
  const NilParamErr := NewExcelErr(ParamErrCode, "参数不能为空")
  const TagNotFoundErr := NewExcelErr(ParamErrCode, "未识别到具有Excel标签的字段")
  const TemplateTypeNotSupportErr := NewExcelErr(ParamErrCode, "非法的模板结构体类型：必须为结构体指针/结构体")
  const SourceTypeNotSupportErr := NewExcelErr(ParamErrCode, "非法的数据源类型：必须为结构体/结构体切片/结构体数组")
  const ColNotMatchFieldErr := NewExcelErr(ParamErrCode, "Excel列名与结构体字段Tag值不匹配")
  const ExcelFormatErr := NewExcelErr(ParamErrCode, "文件格式错误！仅支持xls xlsx csv格式")
  /** `common.TargetTypeNotSupportErr` is not defined in common/err.go;
      it is taken to be the template-type error (code -3). */
  const TargetTypeNotSupportErr := TemplateTypeNotSupportErr

  /** The sentinel errors carry fixed codes, and the parameter errors are
      told apart by their messages. */
  lemma SentinelErrors()
    ensures Code(ExcelOptErr) == -1
    ensures Code(NilParamErr) == -3 && Code(TagNotFoundErr) == -3
    ensures Code(TemplateTypeNotSupportErr) == -3 && Code(SourceTypeNotSupportErr) == -3
    ensures Code(ColNotMatchFieldErr) == -3 && Code(ExcelFormatErr) == -3
    ensures Code(TargetTypeNotSupportErr) == -3
    ensures |{NilParamErr, TagNotFoundErr, TemplateTypeNotSupportErr, SourceTypeNotSupportErr,
              ColNotMatchFieldErr, ExcelFormatErr}| == 6
  {
  }
}
