/** Schema extraction (`getStructTagFieldMap`): which fields of a record
    type take part in spreadsheet I/O, under which column names, in which
    order. */
module Schema {
  import opened Results
  import opened Errors
  import opened Structs

  /** The extracted schema: the column names in declaration order and the
      column name to field name map. */
  datatype ColumnSchema = ColumnSchema(columns: seq<string>, colField: map<string, string>)

  /** The template must be a struct or a pointer to one (one level of
      indirection is followed). */
  function TemplateFields(t: Template): (r: Result<seq<Field>, ExcelError>)
    ensures t.NilTemplate? ==> r == Failure(NilParamErr)
    ensures r.Failure? ==> r.error == NilParamErr || r.error == TargetTypeNotSupportErr
    ensures t.TemplateOf? && r.Failure? ==> r.error == TargetTypeNotSupportErr
    ensures r.Success? <==>
              t.TemplateOf? &&
              (t.shape.StructType? || (t.shape.PointerType? && t.shape.elem.StructType?))
  {
    match t
    case NilTemplate => Failure(NilParamErr)
    case TemplateOf(shape) =>
      var target := if shape.PointerType? then shape.elem else shape;
      if target.StructType? then Success(target.fields) else Failure(TargetTypeNotSupportErr)
  }

  /** A field is exported when it carries an `excel` tag whose value is not
      filtered out. */
  predicate Exported(f: Field, filter: set<string>) {
    f.tag.Some? && f.tag.value !in filter
  }

  /** The ascending indices, from `from` on, of the exported fields. */
  function ExportedFrom(fields: seq<Field>, filter: set<string>, from: nat): (idx: seq<nat>)
    requires from <= |fields|
    ensures forall k | 0 <= k < |idx| :: from <= idx[k] < |fields| && Exported(fields[idx[k]], filter)
    ensures forall k, l | 0 <= k < l < |idx| :: idx[k] < idx[l]
    ensures forall i | from <= i < |fields| && Exported(fields[i], filter) :: i in idx
    decreases |fields| - from
  {
    if from == |fields| then []
    else if Exported(fields[from], filter) then [from] + ExportedFrom(fields, filter, from + 1)
    else ExportedFrom(fields, filter, from + 1)
  }

  /** The column names, one per exported field, in declaration order. */
  function Columns(fields: seq<Field>, filter: set<string>): (cols: seq<string>)
    ensures var idx := ExportedFrom(fields, filter, 0);
            |cols| == |idx| && forall k | 0 <= k < |idx| :: cols[k] == fields[idx[k]].tag.value
  {
    var idx := ExportedFrom(fields, filter, 0);
    seq(|idx|, k requires 0 <= k < |idx| => fields[idx[k]].tag.value)
  }

  /** Field `i` is the last of the first `n` fields exported under column
      name `c`. */
  predicate LastUnder(fields: seq<Field>, filter: set<string>, n: nat, i: nat, c: string)
    requires n <= |fields|
  {
    && i < n
    && Exported(fields[i], filter) && fields[i].tag.value == c
    && forall j | i < j < n :: Exported(fields[j], filter) ==> fields[j].tag.value != c
  }

  /** The column to field map built from the first `n` fields, one
      assignment per exported field in declaration order
      (`ColFieldMapSpec` states what it holds). */
  function ColFieldMap(fields: seq<Field>, filter: set<string>, n: nat): map<string, string>
    requires n <= |fields|
  {
    if n == 0 then map[]
    else
      var m := ColFieldMap(fields, filter, n - 1);
      var f := fields[n - 1];
      if Exported(f, filter) then m[f.tag.value := f.name] else m
  }

  /** The map's keys are the column names of the exported fields among the
      first `n`, and a column name maps to the last of those fields that
      carries it: a later field with the same column name overwrites an
      earlier one. */
  lemma {:induction false} ColFieldMapSpec(fields: seq<Field>, filter: set<string>, n: nat)
    requires n <= |fields|
    ensures forall c :: c in ColFieldMap(fields, filter, n) <==>
              exists i | 0 <= i < n :: Exported(fields[i], filter) && fields[i].tag.value == c
    ensures forall c | c in ColFieldMap(fields, filter, n) ::
              exists i | 0 <= i < n ::
                LastUnder(fields, filter, n, i, c) && ColFieldMap(fields, filter, n)[c] == fields[i].name
  {
    if n > 0 {
      ColFieldMapSpec(fields, filter, n - 1);
      var m := ColFieldMap(fields, filter, n);
      var m' := ColFieldMap(fields, filter, n - 1);
      var f := fields[n - 1];
      forall c
        ensures c in m <==> exists i | 0 <= i < n :: Exported(fields[i], filter) && fields[i].tag.value == c
      {
        if exists i | 0 <= i < n :: Exported(fields[i], filter) && fields[i].tag.value == c {
          var i :| 0 <= i < n && Exported(fields[i], filter) && fields[i].tag.value == c;
          if i < n - 1 {
            assert c in m';
          }
        }
        if c in m && !(Exported(f, filter) && f.tag.value == c) {
          assert c in m';
          var i :| 0 <= i < n - 1 && Exported(fields[i], filter) && fields[i].tag.value == c;
        }
      }
      forall c | c in m
        ensures exists i | 0 <= i < n :: LastUnder(fields, filter, n, i, c) && m[c] == fields[i].name
      {
        if Exported(f, filter) && f.tag.value == c {
          assert LastUnder(fields, filter, n, n - 1, c);
        } else {
          var i :| 0 <= i < n - 1 && LastUnder(fields, filter, n - 1, i, c) && m'[c] == fields[i].name;
          assert LastUnder(fields, filter, n, i, c);
        }
      }
    }
  }

  /** The column list and the column map name the same columns, and both
      are empty exactly when no field is exported. */
  lemma ColumnsMatchMap(fields: seq<Field>, filter: set<string>)
    ensures forall c :: c in ColFieldMap(fields, filter, |fields|) <==> c in Columns(fields, filter)
    ensures |Columns(fields, filter)| == 0 <==> forall i | 0 <= i < |fields| :: !Exported(fields[i], filter)
    ensures |ColFieldMap(fields, filter, |fields|)| == 0 <==> |Columns(fields, filter)| == 0
  {
    var idx := ExportedFrom(fields, filter, 0);
    var cols := Columns(fields, filter);
    var m := ColFieldMap(fields, filter, |fields|);
    ColFieldMapSpec(fields, filter, |fields|);
    forall c
      ensures c in m <==> c in cols
    {
      if c in m {
        var i :| 0 <= i < |fields| && Exported(fields[i], filter) && fields[i].tag.value == c;
        assert i in idx;
        var k :| 0 <= k < |idx| && idx[k] == i;
        assert cols[k] == c;
      }
      if c in cols {
        var k :| 0 <= k < |cols| && cols[k] == c;
        assert Exported(fields[idx[k]], filter);
      }
    }
    if exists i | 0 <= i < |fields| :: Exported(fields[i], filter) {
      var i :| 0 <= i < |fields| && Exported(fields[i], filter);
      assert i in idx;
    }
    if |cols| > 0 {
      assert cols[0] in m;
    }
  }

  /** The loop of `getStructTagFieldMap` over a struct's fields: the
      column list (see `Columns`) and the column map (see `ColFieldMap`),
      or `TagNotFoundErr` when no field is exported. */
  function SchemaOfFields(fields: seq<Field>, filter: set<string>): (r: Result<ColumnSchema, ExcelError>)
    ensures r.Success? <==> exists i | 0 <= i < |fields| :: Exported(fields[i], filter)
    ensures r.Failure? ==> r.error == TagNotFoundErr
    ensures r.Success? ==>
              && r.value.columns == Columns(fields, filter)
              && r.value.colField == ColFieldMap(fields, filter, |fields|)
              && |r.value.columns| > 0
              && forall c | c in r.value.columns :: c in r.value.colField
  {
    var columns := Columns(fields, filter);
    var colField := ColFieldMap(fields, filter, |fields|);
    ColumnsMatchMap(fields, filter);
    if |columns| == 0 || |colField| == 0 then
      Failure(TagNotFoundErr)
    else Success(ColumnSchema(columns, colField))
  }

  /** `getStructTagFieldMap`: nil and non-struct templates are rejected
      before any field is looked at. */
  function ExtractSchema(t: Template, filter: set<string>): (r: Result<ColumnSchema, ExcelError>)
    ensures t.NilTemplate? ==> r == Failure(NilParamErr)
    ensures TemplateFields(t).Failure? ==> r == Failure(TemplateFields(t).error)
    ensures TemplateFields(t).Success? ==> r == SchemaOfFields(TemplateFields(t).value, filter)
  {
    var fields :- TemplateFields(t);
    SchemaOfFields(fields, filter)
  }

  /** No two tagged fields share a column name. */
  predicate DistinctTags(fields: seq<Field>) {
    forall i, j | 0 <= i < j < |fields| ::
      fields[i].tag.Some? && fields[j].tag.Some? ==> fields[i].tag.value != fields[j].tag.value
  }

  /** When column names are distinct, every exported field's column maps
      back to that very field. */
  lemma ColumnMapsToOwnField(fields: seq<Field>, filter: set<string>, i: nat)
    requires DistinctTags(fields) && i < |fields| && Exported(fields[i], filter)
    ensures var m := ColFieldMap(fields, filter, |fields|);
            fields[i].tag.value in m && m[fields[i].tag.value] == fields[i].name
  {
    var m := ColFieldMap(fields, filter, |fields|);
    ColFieldMapSpec(fields, filter, |fields|);
    var c := fields[i].tag.value;
    assert c in m;
    var i' :| 0 <= i' < |fields| && LastUnder(fields, filter, |fields|, i', c) && m[c] == fields[i'].name;
    assert i' == i;
  }

  /** The field names a sequence of column names maps to, position by
      position. */
  function FieldSlice(names: seq<string>, colField: map<string, string>): (fieldSlice: seq<string>)
    requires forall c | c in names :: c in colField
    ensures |fieldSlice| == |names|
  {
    seq(|names|, i requires 0 <= i < |names| => colField[names[i]])
  }
}
