/** Import (`ImportExcel2StructSlice` once the sheet's rows are read, and
    `setRow2StructField`): header cells are bound positionally to field
    names, then every data row is coerced, cell by cell, into a fresh
    record. */
module Decoder {
  import opened Results
  import opened Strconv
  import opened Errors
  import opened Structs
  import opened Schema

  /** The header row: cell `i` names the field that column `i` fills.
      Every header cell must be a known column name. */
  function BindHeader(header: seq<string>, colField: map<string, string>): (r: Result<seq<string>, ExcelError>)
    ensures r.Success? <==> forall i | 0 <= i < |header| :: header[i] in colField
    ensures r.Failure? ==> r.error == ColNotMatchFieldErr
    ensures r.Success? ==>
              |r.value| == |header| && forall i | 0 <= i < |header| :: r.value[i] == colField[header[i]]
  {
    if |header| == 0 then Success([])
    else if header[0] !in colField then Failure(ColNotMatchFieldErr)
    else
      var rest :- BindHeader(header[1..], colField);
      Success([colField[header[0]]] + rest)
  }

  /** What `reflect.Kind.String()` prints for a kind. */
  function KindLabel(k: Kind): string {
    match k
    case StringKind => "string"
    case IntKind => "int"
    case Int32Kind => "int32"
    case Int64Kind => "int64"
    case BoolKind => "bool"
    case OtherKind(kindName, _) => kindName
  }

  /** The source indexes the field slice with every non-empty cell's
      column, so a row may be longer than the field slice only by empty
      cells; a row that does not fit panics at its first non-empty cell
      beyond the field slice, unless an earlier cell fails first. */
  predicate RowFits(row: seq<string>, width: nat) {
    forall i | width <= i < |row| :: row[i] == ""
  }

  /** Two places of the cell loop panic instead of returning an error:
      indexing the field slice past its end, and setting an unexported
      field through reflection. A panic aborts the import just as a
      returned error does, so the model returns these two values for them;
      code 0 is the code of no error the source returns. */
  const IndexPanic := ExcelError(0, "runtime error: index out of range")
  const SetUnexportedPanic := ExcelError(0, "reflect: set using value obtained using unexported field")

  /** The text of a non-empty cell (row `rowId`, column `col`) parsed for a
      field of kind `k`. */
  function ParseCell(k: Kind, rowId: int, col: int, cell: string): Result<Value, ExcelError> {
    match k
    case StringKind => Success(StrV(cell))
    case IntKind =>
      (match Atoi(cell)
       case None => Failure(DataParseErrOn(rowId, col, KindLabel(IntKind)))
       case Some(n) => Success(IntV(n)))
    case Int32Kind =>
      (match ParseInt(cell, W32)
       case None => Failure(DataParseErrOn(rowId, col, KindLabel(Int32Kind)))
       case Some(n) => Success(IntV(n)))
    case Int64Kind =>
      (match ParseInt(cell, W64)
       case None => Failure(DataParseErrOn(rowId, col, KindLabel(Int64Kind)))
       case Some(n) => Success(IntV(n)))
    case BoolKind =>
      (match ParseBool(cell)
       case None => Failure(DataParseErrOn(rowId, col, KindLabel(BoolKind)))
       case Some(b) => Success(BoolV(b)))
    case OtherKind(kindName, _) => Failure(TypeNotSupport(kindName))
  }

  /** Writing a parsed value into field `f`. */
  function Stored(f: Field, v: Value): Result<Value, ExcelError> {
    if f.canSet then Success(v) else Failure(SetUnexportedPanic)
  }

  /** One non-empty cell (row `rowId`, column `col`) coerced into the field
      named `fieldName`: the field is looked up, the text parsed by the
      field's kind and the value written; `CoerceCellByKind` states its
      outcome kind by kind. */
  function CoerceCell(fields: seq<Field>, rowId: int, col: int, cell: string, fieldName: string)
    : Result<Value, ExcelError>
  {
    match Lookup(fields, fieldName)
    case None => Failure(ColNotMatchFieldErr)
    case Some(f) =>
      var v :- ParseCell(f.kind, rowId, col, cell);
      Stored(f, v)
  }

  /** The coercion outcome, field kind by field kind: text verbatim,
      integers by base-10 parse with the kind's range, booleans by
      `ParseBool`, an unknown field name or an unsupported kind rejected;
      a parsed value written into an unexported field panics. A successful
      coercion always yields a value the field can hold. */
  lemma CoerceCellByKind(fields: seq<Field>, rowId: int, col: int, cell: string, fieldName: string)
    ensures var r := CoerceCell(fields, rowId, col, cell, fieldName);
            && (Lookup(fields, fieldName).None? ==> r == Failure(ColNotMatchFieldErr))
            && (r.Success? ==>
                  && Lookup(fields, fieldName).Some?
                  && Lookup(fields, fieldName).value.canSet
                  && Conforms(r.value, Lookup(fields, fieldName).value.kind))
    ensures Lookup(fields, fieldName).Some? ==>
              var r := CoerceCell(fields, rowId, col, cell, fieldName);
              var f := Lookup(fields, fieldName).value;
              var k := f.kind;
              && (k == StringKind ==> r == Stored(f, StrV(cell)))
              && (IsIntKind(k) ==>
                    match ParseInt(cell, WidthOf(k))
                    case Some(n) => r == Stored(f, IntV(n))
                    case None => r == Failure(DataParseErrOn(rowId, col, KindLabel(k))))
              && (k == BoolKind ==>
                    match ParseBool(cell)
                    case Some(b) => r == Stored(f, BoolV(b))
                    case None => r == Failure(DataParseErrOn(rowId, col, KindLabel(k))))
              && (k.OtherKind? ==> r == Failure(TypeNotSupport(k.kindName)))
  {
    match Lookup(fields, fieldName)
    case None =>
    case Some(f) =>
      match f.kind
      case IntKind =>
        assert CoerceCell(fields, rowId, col, cell, fieldName) ==
               (match ParseInt(cell, W64)
                case None => Failure(DataParseErrOn(rowId, col, KindLabel(IntKind)))
                case Some(n) => Stored(f, IntV(n)));
      case _ =>
  }

  /** The outcome of non-empty cell `j` of a row: a column beyond the
      field slice panics, any other is coerced into its field. */
  function CellAt(fields: seq<Field>, rowId: int, row: seq<string>, fieldSlice: seq<string>, j: nat)
    : Result<Value, ExcelError>
    requires j < |row|
  {
    if j < |fieldSlice| then CoerceCell(fields, rowId, j, row[j], fieldSlice[j])
    else Failure(IndexPanic)
  }

  /** Cell `j` is non-empty and no later non-empty cell goes to the same
      field, so it is the one whose value the field keeps. */
  predicate LastFor(row: seq<string>, fieldSlice: seq<string>, j: nat) {
    && j < |row| && j < |fieldSlice| && row[j] != ""
    && forall j' | j < j' < |row| && j' < |fieldSlice| :: row[j'] != "" ==> fieldSlice[j'] != fieldSlice[j]
  }

  /** No non-empty cell from column `i` on goes to field `name`. */
  predicate Untouched(row: seq<string>, fieldSlice: seq<string>, i: nat, name: string) {
    forall j | i <= j < |row| && j < |fieldSlice| :: row[j] != "" ==> fieldSlice[j] != name
  }

  /** The names of the fields some non-empty cell from column `i` on goes to. */
  function Touched(row: seq<string>, fieldSlice: seq<string>, i: nat): set<string> {
    set j | i <= j < |row| && j < |fieldSlice| && row[j] != "" :: fieldSlice[j]
  }

  /** The cell loop of `setRow2StructField`, from column `i` on, writing
      into `acc`: empty cells are skipped, the first failing cell aborts.
      Its properties are the `DecodeCells...` lemmas below. */
  function DecodeCells(fields: seq<Field>, rowId: int, row: seq<string>, fieldSlice: seq<string>,
                       i: nat, acc: Record): Result<Record, ExcelError>
    requires i <= |row|
    decreases |row| - i
  {
    if i == |row| then Success(acc)
    else if row[i] == "" then DecodeCells(fields, rowId, row, fieldSlice, i + 1, acc)
    else if i >= |fieldSlice| then Failure(IndexPanic)
    else
      match CoerceCell(fields, rowId, i, row[i], fieldSlice[i])
      case Failure(e) => Failure(e)
      case Success(v) => DecodeCells(fields, rowId, row, fieldSlice, i + 1, acc[fieldSlice[i] := v])
  }

  /** The non-empty cell at column `j` fails to coerce. */
  predicate BadCell(fields: seq<Field>, rowId: int, row: seq<string>, fieldSlice: seq<string>, j: nat) {
    j < |row| && row[j] != "" && CellAt(fields, rowId, row, fieldSlice, j).Failure?
  }

  /** A successful cell loop met no failing non-empty cell. */
  lemma {:induction false} DecodeCellsSuccess(fields: seq<Field>, rowId: int, row: seq<string>,
                                              fieldSlice: seq<string>, i: nat, acc: Record)
    requires i <= |row|
    ensures DecodeCells(fields, rowId, row, fieldSlice, i, acc).Success? ==>
              forall j | i <= j :: !BadCell(fields, rowId, row, fieldSlice, j)
    decreases |row| - i
  {
    if i < |row| && DecodeCells(fields, rowId, row, fieldSlice, i, acc).Success? {
      if row[i] == "" {
        DecodeCellsSuccess(fields, rowId, row, fieldSlice, i + 1, acc);
      } else {
        assert i < |fieldSlice|;
        var c := CoerceCell(fields, rowId, i, row[i], fieldSlice[i]);
        assert c.Success?;
        DecodeCellsSuccess(fields, rowId, row, fieldSlice, i + 1, acc[fieldSlice[i] := c.value]);
      }
      forall j | i <= j ensures !BadCell(fields, rowId, row, fieldSlice, j) {
        if j == i {
          assert row[i] != "" ==> CellAt(fields, rowId, row, fieldSlice, i).Success?;
        }
      }
    }
  }

  /** A failing cell loop failed with the error of its first failing
      non-empty cell. */
  lemma {:induction false} DecodeCellsFirstError(fields: seq<Field>, rowId: int, row: seq<string>,
                                                 fieldSlice: seq<string>, i: nat, acc: Record)
    requires i <= |row|
    ensures var r := DecodeCells(fields, rowId, row, fieldSlice, i, acc);
            r.Failure? ==>
              exists j | i <= j ::
                && BadCell(fields, rowId, row, fieldSlice, j)
                && CellAt(fields, rowId, row, fieldSlice, j).error == r.error
                && forall j' | i <= j' < j :: !BadCell(fields, rowId, row, fieldSlice, j')
    decreases |row| - i
  {
    var r := DecodeCells(fields, rowId, row, fieldSlice, i, acc);
    if r.Failure? {
      if row[i] == "" {
        DecodeCellsFirstError(fields, rowId, row, fieldSlice, i + 1, acc);
      } else if i >= |fieldSlice| {
        assert BadCell(fields, rowId, row, fieldSlice, i);
      } else {
        var c := CoerceCell(fields, rowId, i, row[i], fieldSlice[i]);
        if c.Failure? {
          assert BadCell(fields, rowId, row, fieldSlice, i);
        } else {
          DecodeCellsFirstError(fields, rowId, row, fieldSlice, i + 1, acc[fieldSlice[i] := c.value]);
        }
      }
      if !BadCell(fields, rowId, row, fieldSlice, i) {
        var j :| i + 1 <= j && BadCell(fields, rowId, row, fieldSlice, j)
                 && CellAt(fields, rowId, row, fieldSlice, j).error == r.error
                 && forall j' | i + 1 <= j' < j :: !BadCell(fields, rowId, row, fieldSlice, j');
        assert forall j' | i <= j' < j :: !BadCell(fields, rowId, row, fieldSlice, j');
      }
    }
  }

  /** Fail-fast: the cell loop fails exactly when some non-empty cell fails
      to coerce, and then with the error of the first such cell. */
  lemma DecodeCellsFailure(fields: seq<Field>, rowId: int, row: seq<string>,
                           fieldSlice: seq<string>, i: nat, acc: Record)
    requires i <= |row|
    ensures var r := DecodeCells(fields, rowId, row, fieldSlice, i, acc);
            && (r.Failure? <==> exists j | i <= j :: BadCell(fields, rowId, row, fieldSlice, j))
            && (r.Failure? ==>
                  exists j | i <= j ::
                    && BadCell(fields, rowId, row, fieldSlice, j)
                    && CellAt(fields, rowId, row, fieldSlice, j).error == r.error
                    && forall j' | i <= j' < j :: !BadCell(fields, rowId, row, fieldSlice, j'))
  {
    DecodeCellsSuccess(fields, rowId, row, fieldSlice, i, acc);
    DecodeCellsFirstError(fields, rowId, row, fieldSlice, i, acc);
  }

  /** The fields touched from column `i` on: cell `i`'s, if it is
      non-empty, and those touched from `i + 1` on. */
  lemma TouchedStep(row: seq<string>, fieldSlice: seq<string>, i: nat)
    requires i < |row|
    ensures Touched(row, fieldSlice, i) ==
            (if row[i] != "" && i < |fieldSlice| then {fieldSlice[i]} else {}) + Touched(row, fieldSlice, i + 1)
  {
  }

  /** A successful cell loop adds exactly the fields of the non-empty cells. */
  lemma {:induction false} DecodeCellsKeys(fields: seq<Field>, rowId: int, row: seq<string>,
                                           fieldSlice: seq<string>, i: nat, acc: Record)
    requires i <= |row|
    ensures var r := DecodeCells(fields, rowId, row, fieldSlice, i, acc);
            r.Success? ==> r.value.Keys == acc.Keys + Touched(row, fieldSlice, i)
    decreases |row| - i
  {
    if i < |row| {
      TouchedStep(row, fieldSlice, i);
      if row[i] == "" {
        DecodeCellsKeys(fields, rowId, row, fieldSlice, i + 1, acc);
      } else if i < |fieldSlice| {
        var c := CoerceCell(fields, rowId, i, row[i], fieldSlice[i]);
        if c.Success? {
          DecodeCellsKeys(fields, rowId, row, fieldSlice, i + 1, acc[fieldSlice[i] := c.value]);
        }
      }
    }
  }

  /** A field no non-empty cell from column `i` on goes to keeps its value
      from `acc`. */
  lemma {:induction false} DecodeCellsKeep(fields: seq<Field>, rowId: int, row: seq<string>,
                                           fieldSlice: seq<string>, i: nat, acc: Record, n: string)
    requires i <= |row|
    requires n in acc && Untouched(row, fieldSlice, i, n)
    ensures var r := DecodeCells(fields, rowId, row, fieldSlice, i, acc);
            r.Success? ==> n in r.value && r.value[n] == acc[n]
    decreases |row| - i
  {
    var r := DecodeCells(fields, rowId, row, fieldSlice, i, acc);
    if i < |row| && r.Success? {
      assert row[i] != "" ==> i < |fieldSlice|;
      var acc' := if row[i] == "" then acc
                  else acc[fieldSlice[i] := CoerceCell(fields, rowId, i, row[i], fieldSlice[i]).value];
      assert r == DecodeCells(fields, rowId, row, fieldSlice, i + 1, acc');
      assert n in acc' && acc'[n] == acc[n];
      DecodeCellsKeep(fields, rowId, row, fieldSlice, i + 1, acc', n);
    }
  }

  /** A field that no later non-empty cell overwrites keeps the value its
      last non-empty cell coerces to. */
  lemma {:induction false} DecodeCellsLast(fields: seq<Field>, rowId: int, row: seq<string>,
                                           fieldSlice: seq<string>, i: nat, acc: Record, j: nat)
    requires i <= j && LastFor(row, fieldSlice, j)
    ensures var r := DecodeCells(fields, rowId, row, fieldSlice, i, acc);
            r.Success? ==>
              fieldSlice[j] in r.value &&
              CellAt(fields, rowId, row, fieldSlice, j) == Success(r.value[fieldSlice[j]])
    decreases |row| - i
  {
    var r := DecodeCells(fields, rowId, row, fieldSlice, i, acc);
    if r.Success? {
      assert row[i] != "" ==> i < |fieldSlice|;
      var acc' := if row[i] == "" then acc
                  else acc[fieldSlice[i] := CoerceCell(fields, rowId, i, row[i], fieldSlice[i]).value];
      assert r == DecodeCells(fields, rowId, row, fieldSlice, i + 1, acc');
      if j == i {
        DecodeCellsKeep(fields, rowId, row, fieldSlice, i + 1, acc', fieldSlice[i]);
      } else {
        DecodeCellsLast(fields, rowId, row, fieldSlice, i + 1, acc', j);
      }
    }
  }

  /** Every field a successful cell loop writes is a field of the struct. */
  lemma {:induction false} DecodeCellsWritesFields(fields: seq<Field>, rowId: int, row: seq<string>,
                                                   fieldSlice: seq<string>)
    ensures DecodeCells(fields, rowId, row, fieldSlice, 0, ZeroRecord(fields)).Success? ==>
              Touched(row, fieldSlice, 0) <= FieldNames(fields)
  {
    var r := DecodeCells(fields, rowId, row, fieldSlice, 0, ZeroRecord(fields));
    DecodeCellsFailure(fields, rowId, row, fieldSlice, 0, ZeroRecord(fields));
    if r.Success? {
      forall n | n in Touched(row, fieldSlice, 0)
        ensures n in FieldNames(fields)
      {
        var j :| 0 <= j < |row| && j < |fieldSlice| && row[j] != "" && fieldSlice[j] == n;
        assert !BadCell(fields, rowId, row, fieldSlice, j);
        CoerceCellByKind(fields, rowId, j, row[j], fieldSlice[j]);
        var f := Lookup(fields, n).value;
        assert f in fields;
      }
    }
  }

  /** `setRow2StructField`: a fresh record of the template's fields, filled
      from the row's non-empty cells; `DecodeRowSpec` states its outcome. */
  function DecodeRow(t: Template, rowId: int, row: seq<string>, fieldSlice: seq<string>)
    : Result<Record, ExcelError>
  {
    if t.NilTemplate? || |row| == 0 || |fieldSlice| == 0 then Failure(NilParamErr)
    else
      var fields :- TemplateFields(t);
      DecodeCells(fields, rowId, row, fieldSlice, 0, ZeroRecord(fields))
  }

  /** A decoded row: the nil and empty-argument checks come first, then a
      template that is not a struct gives `TargetTypeNotSupportErr`; on
      success the record has exactly the template's fields, a field keeps
      the value of its last non-empty cell and every field no non-empty
      cell goes to keeps its zero value; the row fails exactly when a
      non-empty cell does not coerce, with the first such cell's error. */
  lemma DecodeRowSpec(t: Template, rowId: int, row: seq<string>, fieldSlice: seq<string>)
    ensures var r := DecodeRow(t, rowId, row, fieldSlice);
            && (t.NilTemplate? || |row| == 0 || |fieldSlice| == 0 ==> r == Failure(NilParamErr))
            && (TemplateFields(t).Failure? ==> r.Failure? && Code(r.error) == ParamErrCode)
            && (!t.NilTemplate? && |row| > 0 && |fieldSlice| > 0 && TemplateFields(t).Failure? ==>
                  r == Failure(TargetTypeNotSupportErr))
            && (r.Success? ==> TemplateFields(t).Success?)
    ensures var r := DecodeRow(t, rowId, row, fieldSlice);
            r.Success? && TemplateFields(t).Success? ==>
              var fields := TemplateFields(t).value;
              && r.value.Keys == FieldNames(fields)
              && (forall j: nat | LastFor(row, fieldSlice, j) ::
                    fieldSlice[j] in r.value &&
                    CellAt(fields, rowId, row, fieldSlice, j) == Success(r.value[fieldSlice[j]]))
              && (forall n | n in FieldNames(fields) && Untouched(row, fieldSlice, 0, n) ::
                    n in r.value && r.value[n] == ZeroValue(Lookup(fields, n).value.kind))
    ensures var r := DecodeRow(t, rowId, row, fieldSlice);
            !t.NilTemplate? && |row| > 0 && |fieldSlice| > 0 && TemplateFields(t).Success? ==>
              var fields := TemplateFields(t).value;
              && (r.Failure? <==> exists j: nat :: BadCell(fields, rowId, row, fieldSlice, j))
              && (r.Failure? ==>
                    exists j: nat ::
                      && BadCell(fields, rowId, row, fieldSlice, j)
                      && CellAt(fields, rowId, row, fieldSlice, j).error == r.error
                      && forall j': nat | j' < j :: !BadCell(fields, rowId, row, fieldSlice, j'))
  {
    if !(t.NilTemplate? || |row| == 0 || |fieldSlice| == 0) && TemplateFields(t).Success? {
      var fields := TemplateFields(t).value;
      var zero := ZeroRecord(fields);
      DecodeCellsFailure(fields, rowId, row, fieldSlice, 0, zero);
      DecodeCellsKeys(fields, rowId, row, fieldSlice, 0, zero);
      var r := DecodeRow(t, rowId, row, fieldSlice);
      if r.Success? {
        forall j: nat | LastFor(row, fieldSlice, j)
          ensures fieldSlice[j] in r.value
          ensures CellAt(fields, rowId, row, fieldSlice, j) == Success(r.value[fieldSlice[j]])
        {
          DecodeCellsLast(fields, rowId, row, fieldSlice, 0, zero, j);
        }
        forall n | n in FieldNames(fields) && Untouched(row, fieldSlice, 0, n)
          ensures n in r.value && r.value[n] == zero[n]
        {
          DecodeCellsKeep(fields, rowId, row, fieldSlice, 0, zero, n);
        }
      }
      DecodeCellsWritesFields(fields, rowId, row, fieldSlice);
    }
  }

  /** A coercion never fails with the index panic: that outcome belongs to
      the column alone. */
  lemma CoerceCellNotIndexPanic(fields: seq<Field>, rowId: int, col: int, cell: string, fieldName: string)
    ensures CoerceCell(fields, rowId, col, cell, fieldName) != Failure(IndexPanic)
  {
    CoerceCellByKind(fields, rowId, col, cell, fieldName);
  }

  /** A coercion that fails with a data-mismatch error under a field of a
      kind the decoder reads is a parse failure, and its message starts
      with the cell's position. */
  lemma CoerceCellErrorPosition(fields: seq<Field>, rowId: int, col: int, cell: string, fieldName: string)
    ensures var r := CoerceCell(fields, rowId, col, cell, fieldName);
            && r.Failure? && Code(r.error) == NoneMatchTypeCode
            && Lookup(fields, fieldName).Some? && Supported(Lookup(fields, fieldName).value.kind)
            ==> StartsWith(Error(r.error), Position(rowId, col))
  {
    CoerceCellByKind(fields, rowId, col, cell, fieldName);
  }

  /** A row that gets past the argument checks panics on the field slice
      exactly when it has a non-empty cell beyond the field slice and no
      earlier cell fails; so a row that fits never does. */
  lemma DecodeRowIndexPanic(t: Template, rowId: int, row: seq<string>, fieldSlice: seq<string>)
    requires |row| > 0 && |fieldSlice| > 0 && TemplateFields(t).Success?
    ensures var fields := TemplateFields(t).value;
            DecodeRow(t, rowId, row, fieldSlice) == Failure(IndexPanic) <==>
              exists j: nat | |fieldSlice| <= j < |row| && row[j] != "" ::
                forall j': nat | j' < j :: !BadCell(fields, rowId, row, fieldSlice, j')
    ensures RowFits(row, |fieldSlice|) ==> DecodeRow(t, rowId, row, fieldSlice) != Failure(IndexPanic)
  {
    var fields := TemplateFields(t).value;
    var r := DecodeRow(t, rowId, row, fieldSlice);
    DecodeRowSpec(t, rowId, row, fieldSlice);
    if r.Failure? {
      var j: nat :| && BadCell(fields, rowId, row, fieldSlice, j)
               && CellAt(fields, rowId, row, fieldSlice, j).error == r.error
               && forall j': nat | j' < j :: !BadCell(fields, rowId, row, fieldSlice, j');
      if j < |fieldSlice| {
        CoerceCellNotIndexPanic(fields, rowId, j, row[j], fieldSlice[j]);
        assert r != Failure(IndexPanic);
      } else {
        assert r == Failure(IndexPanic);
      }
      forall j1: nat | |fieldSlice| <= j1 < |row| && row[j1] != ""
                       && forall j': nat | j' < j1 :: !BadCell(fields, rowId, row, fieldSlice, j')
        ensures j1 == j
      {
        assert BadCell(fields, rowId, row, fieldSlice, j1);
      }
    } else {
      forall j1: nat | |fieldSlice| <= j1 < |row| && row[j1] != ""
        ensures BadCell(fields, rowId, row, fieldSlice, j1)
      {
      }
    }
  }

  /** Fail-fast collection: the values of all results in order, or the
      error of the first failure. */
  function Collect<T>(rs: seq<Result<T, ExcelError>>): Result<seq<T>, ExcelError> {
    if |rs| == 0 then Success([])
    else
      var x :- rs[0];
      var rest :- Collect(rs[1..]);
      Success([x] + rest)
  }

  /** A successful collection holds every result's value, in order. */
  lemma {:induction false} CollectSuccess<T>(rs: seq<Result<T, ExcelError>>)
    ensures Collect(rs).Success? ==>
              && |Collect(rs).value| == |rs|
              && forall i | 0 <= i < |rs| :: rs[i] == Success(Collect(rs).value[i])
  {
    if |rs| > 0 && Collect(rs).Success? {
      var rest := Collect(rs[1..]);
      CollectSuccess(rs[1..]);
      assert Collect(rs).value == [rs[0].value] + rest.value;
      forall i | 0 <= i < |rs| ensures rs[i] == Success(Collect(rs).value[i]) {
        if i > 0 {
          assert rs[i] == rs[1..][i - 1];
        }
      }
    }
  }

  /** A collection fails exactly when some result fails, and then with the
      error of the first failing result. */
  lemma {:induction false} CollectFailure<T>(rs: seq<Result<T, ExcelError>>)
    ensures Collect(rs).Failure? <==> exists i | 0 <= i < |rs| :: rs[i].Failure?
    ensures Collect(rs).Failure? ==>
              exists i | 0 <= i < |rs| ::
                && rs[i] == Failure(Collect(rs).error)
                && forall i' | 0 <= i' < i :: rs[i'].Success?
  {
    if |rs| > 0 {
      CollectFailure(rs[1..]);
      if rs[0].Success? {
        if Collect(rs).Failure? {
          var i :| 0 <= i < |rs[1..]| && rs[1..][i] == Failure(Collect(rs).error)
                   && forall i' | 0 <= i' < i :: rs[1..][i'].Success?;
          assert rs[i + 1] == rs[1..][i];
          forall i' | 0 <= i' < i + 1 ensures rs[i'].Success? {
            if i' > 0 {
              assert rs[i'] == rs[1..][i' - 1];
            }
          }
        } else {
          forall i | 0 <= i < |rs| ensures rs[i].Success? {
            if i > 0 {
              assert rs[i] == rs[1..][i - 1];
            }
          }
        }
      }
    }
  }

  /** Grid row `m` is decoded with the one-based row number `m + 1`. */
  function RowAt(t: Template, grid: seq<seq<string>>, fieldSlice: seq<string>, m: nat)
    : Result<Record, ExcelError>
    requires m < |grid|
  {
    DecodeRow(t, m + 1, grid[m], fieldSlice)
  }

  /** The decoded rows from grid row `k` on, each on its own. */
  function RowResults(t: Template, grid: seq<seq<string>>, fieldSlice: seq<string>, k: nat)
    : (rs: seq<Result<Record, ExcelError>>)
    requires k <= |grid|
    ensures |rs| == |grid| - k
  {
    seq(|grid| - k, i requires 0 <= i < |grid| - k => RowAt(t, grid, fieldSlice, k + i))
  }

  /** Entry `m - k` of the decoded rows is grid row `m` decoded. */
  lemma RowResultsAt(t: Template, grid: seq<seq<string>>, fieldSlice: seq<string>, k: nat)
    requires k <= |grid|
    ensures forall m | k <= m < |grid| :: RowResults(t, grid, fieldSlice, k)[m - k] == RowAt(t, grid, fieldSlice, m)
  {
  }

  /** The data-row part of the import loop from grid row `k` on: every row
      decoded in turn, the first failing one aborting the loop; its outcome
      is stated by `DecodeRowsSpec`. */
  function DecodeRows(t: Template, grid: seq<seq<string>>, fieldSlice: seq<string>, k: nat)
    : Result<seq<Record>, ExcelError>
    requires 1 <= k <= |grid|
  {
    Collect(RowResults(t, grid, fieldSlice, k))
  }

  /** One record per data row from `k` on, in row order; the first failing
      row aborts with its error and no partial result. */
  lemma DecodeRowsSpec(t: Template, grid: seq<seq<string>>, fieldSlice: seq<string>, k: nat)
    requires 1 <= k <= |grid|
    ensures var r := DecodeRows(t, grid, fieldSlice, k);
            && (r.Success? ==>
                  && |r.value| == |grid| - k
                  && forall m | k <= m < |grid| :: RowAt(t, grid, fieldSlice, m) == Success(r.value[m - k]))
            && (r.Failure? <==> exists m | k <= m < |grid| :: RowAt(t, grid, fieldSlice, m).Failure?)
            && (r.Failure? ==>
                  exists m | k <= m < |grid| ::
                    && RowAt(t, grid, fieldSlice, m) == Failure(r.error)
                    && forall m' | k <= m' < m :: RowAt(t, grid, fieldSlice, m').Success?)
  {
    var rs := RowResults(t, grid, fieldSlice, k);
    var r := DecodeRows(t, grid, fieldSlice, k);
    RowResultsAt(t, grid, fieldSlice, k);
    CollectSuccess(rs);
    CollectFailure(rs);
    if r.Failure? {
      var i :| 0 <= i < |rs| && rs[i] == Failure(r.error) && forall i' | 0 <= i' < i :: rs[i'].Success?;
      assert RowAt(t, grid, fieldSlice, k + i) == Failure(r.error);
      assert forall m' | k <= m' < k + i :: RowAt(t, grid, fieldSlice, m').Success?;
    }
  }

  /** The row loop of `ImportExcel2StructSlice` for a given column map: row
      0 is bound as the header, every later row becomes one record. */
  function ImportRows(t: Template, grid: seq<seq<string>>, colField: map<string, string>)
    : Result<seq<Record>, ExcelError>
  {
    if |grid| == 0 then Success([])
    else
      var fieldSlice :- BindHeader(grid[0], colField);
      DecodeRows(t, grid, fieldSlice, 1)
  }

  /** The row loop: an empty grid gives no records; an unknown header cell
      gives `ColNotMatchFieldErr`; otherwise there is one record per data
      row, each the row decoded against the header's fields, or the error
      of the first row that fails. */
  lemma ImportRowsSpec(t: Template, grid: seq<seq<string>>, colField: map<string, string>)
    ensures |grid| == 0 ==> ImportRows(t, grid, colField) == Success([])
    ensures |grid| > 0 && (exists c | c in grid[0] :: c !in colField) ==>
              ImportRows(t, grid, colField) == Failure(ColNotMatchFieldErr)
    ensures |grid| > 0 && (forall c | c in grid[0] :: c in colField) ==>
              var fieldSlice := FieldSlice(grid[0], colField);
              var r := ImportRows(t, grid, colField);
              && (r.Success? ==>
                    && |r.value| == |grid| - 1
                    && forall m | 1 <= m < |grid| :: RowAt(t, grid, fieldSlice, m) == Success(r.value[m - 1]))
              && (r.Failure? <==> exists m | 1 <= m < |grid| :: RowAt(t, grid, fieldSlice, m).Failure?)
              && (r.Failure? ==>
                    exists m | 1 <= m < |grid| ::
                      && RowAt(t, grid, fieldSlice, m) == Failure(r.error)
                      && forall m' | 1 <= m' < m :: RowAt(t, grid, fieldSlice, m').Success?)
  {
    if |grid| > 0 {
      var b := BindHeader(grid[0], colField);
      if forall c | c in grid[0] :: c in colField {
        assert b.Success? && b.value == FieldSlice(grid[0], colField);
        DecodeRowsSpec(t, grid, b.value, 1);
      } else {
        assert b.Failure?;
      }
    }
  }

  /** Where a failing row failed, for a struct template: either the row or
      the field slice is empty, or the error is that of the row's first
      failing non-empty cell `j`; a parse failure's message then starts
      with the position `[rowId, j]`. */
  lemma DecodeRowErrorAt(t: Template, rowId: int, row: seq<string>, fieldSlice: seq<string>)
    requires TemplateFields(t).Success?
    ensures var fields := TemplateFields(t).value;
            var r := DecodeRow(t, rowId, row, fieldSlice);
            r.Failure? ==>
              && (|row| == 0 || |fieldSlice| == 0 ==> r.error == NilParamErr)
              && (|row| > 0 && |fieldSlice| > 0 ==>
                    exists j: nat | j < |row| ::
                      && BadCell(fields, rowId, row, fieldSlice, j)
                      && (forall j': nat | j' < j :: !BadCell(fields, rowId, row, fieldSlice, j'))
                      && r.error == CellAt(fields, rowId, row, fieldSlice, j).error
                      && (&& j < |fieldSlice| && Code(r.error) == NoneMatchTypeCode
                          && Lookup(fields, fieldSlice[j]).Some?
                          && Supported(Lookup(fields, fieldSlice[j]).value.kind)
                          ==> StartsWith(Error(r.error), Position(rowId, j))))
  {
    var fields := TemplateFields(t).value;
    var r := DecodeRow(t, rowId, row, fieldSlice);
    DecodeRowSpec(t, rowId, row, fieldSlice);
    if r.Failure? && |row| > 0 && |fieldSlice| > 0 {
      var j: nat :| && BadCell(fields, rowId, row, fieldSlice, j)
                    && CellAt(fields, rowId, row, fieldSlice, j).error == r.error
                    && forall j': nat | j' < j :: !BadCell(fields, rowId, row, fieldSlice, j');
      if j < |fieldSlice| {
        CoerceCellErrorPosition(fields, rowId, j, row[j], fieldSlice[j]);
      }
    }
  }

  /** Where a failing import failed, for a header that binds: at the first failing data row, grid row `m`, which is
      reported as row `m + 1` (the header being row 1), with the outcome
      `DecodeRowErrorAt` states for that row under that number. */
  lemma ImportRowsErrorAt(t: Template, grid: seq<seq<string>>, colField: map<string, string>)
    requires |grid| > 0 && forall c | c in grid[0] :: c in colField
    ensures var fieldSlice := FieldSlice(grid[0], colField);
            var r := ImportRows(t, grid, colField);
            r.Failure? ==>
              exists m | 1 <= m < |grid| ::
                && (forall m' | 1 <= m' < m :: RowAt(t, grid, fieldSlice, m').Success?)
                && DecodeRow(t, m + 1, grid[m], fieldSlice) == Failure(r.error)
  {
    ImportRowsSpec(t, grid, colField);
  }

  /** `ImportExcel2StructSlice` once the rows are read: the schema is
      extracted without a filter before any row is looked at. */
  function Import(t: Template, grid: seq<seq<string>>): (r: Result<seq<Record>, ExcelError>)
    ensures ExtractSchema(t, {}).Failure? ==> r == Failure(ExtractSchema(t, {}).error)
    ensures ExtractSchema(t, {}).Success? ==> r == ImportRows(t, grid, ExtractSchema(t, {}).value.colField)
  {
    var schema :- ExtractSchema(t, {});
    ImportRows(t, grid, schema.colField)
  }
}
