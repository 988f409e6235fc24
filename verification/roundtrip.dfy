/** Exporting records and importing the sheet back with the same record
    type gives the records back, field by field, for the kinds the
    decoder reads (text, the three integer kinds, booleans). */
module RoundTrip {
  import opened Results
  import opened Strconv
  import opened Structs
  import opened Schema
  import opened Decoder
  import opened Encoder

  /** A value a field can hold, rendered and read back under that field,
      is the value itself; the only value rendered as an empty cell (which
      the decoder skips) is the empty string, which is the zero value the
      decoder leaves in place. */
  lemma RenderThenCoerce(fields: seq<Field>, rowId: int, col: int, f: Field, v: Value)
    requires Lookup(fields, f.name) == Some(f)
    requires Supported(f.kind) && f.canSet && Conforms(v, f.kind)
    ensures RenderValue(v) == "" ==> v == ZeroValue(f.kind)
    ensures RenderValue(v) != "" ==> CoerceCell(fields, rowId, col, RenderValue(v), f.name) == Success(v)
  {
    CoerceCellByKind(fields, rowId, col, RenderValue(v), f.name);
    if IsIntKind(f.kind) {
      ParseIntOfItoa(v.i, WidthOf(f.kind));
    }
  }

  /** The template of a plain struct type with the given fields. */
  function StructTemplate(fields: seq<Field>): Template {
    TemplateOf(StructType(fields))
  }

  /** The names of the exported fields, in declaration order: the field
      slice the export fills its rows from. */
  function ExportedNames(fields: seq<Field>, filter: set<string>): (names: seq<string>)
    ensures var idx := ExportedFrom(fields, filter, 0);
            |names| == |idx| && forall k | 0 <= k < |idx| :: names[k] == fields[idx[k]].name
  {
    var idx := ExportedFrom(fields, filter, 0);
    seq(|idx|, k requires 0 <= k < |idx| => fields[idx[k]].name)
  }

  /** The conditions under which a record survives the round trip: an
      exported field must have a kind the decoder reads and be settable. */
  predicate RoundTrippable(fields: seq<Field>, filter: set<string>) {
    && DistinctNames(fields)
    && DistinctTags(fields)
    && (exists i | 0 <= i < |fields| :: Exported(fields[i], filter))
    && forall i | 0 <= i < |fields| :: Exported(fields[i], filter) ==> Supported(fields[i].kind) && fields[i].canSet
  }

  /** `rec` holds a fitting value for every exported field. */
  predicate FitsExported(fields: seq<Field>, filter: set<string>, rec: Record) {
    forall i | 0 <= i < |fields| && Exported(fields[i], filter) ::
      fields[i].name in rec && Conforms(rec[fields[i].name], fields[i].kind)
  }

  /** With distinct column names, the columns exported under `filter` map,
      through the column map built under any filter that lets at least
      the same fields through, to the exported fields position by
      position. */
  lemma ColumnsSlice(fields: seq<Field>, filter: set<string>, wider: set<string>)
    requires DistinctTags(fields) && wider <= filter
    ensures var cols := Columns(fields, filter);
            var m := ColFieldMap(fields, wider, |fields|);
            && (forall c | c in cols :: c in m)
            && FieldSlice(cols, m) == ExportedNames(fields, filter)
  {
    var cols := Columns(fields, filter);
    var m := ColFieldMap(fields, wider, |fields|);
    var idx := ExportedFrom(fields, filter, 0);
    forall k | 0 <= k < |idx|
      ensures cols[k] in m && m[cols[k]] == fields[idx[k]].name
    {
      ColumnMapsToOwnField(fields, wider, idx[k]);
    }
  }

  /** Both the export (with its filter) and the import (without one) find
      a schema, and both map the exported columns to the exported fields. */
  lemma SchemaFieldSlices(fields: seq<Field>, filter: set<string>)
    requires RoundTrippable(fields, filter)
    ensures ExtractSchema(StructTemplate(fields), filter).Success?
    ensures ExtractSchema(StructTemplate(fields), {}).Success?
    ensures var out := ExtractSchema(StructTemplate(fields), filter).value;
            var back := ExtractSchema(StructTemplate(fields), {}).value;
            && out.columns == Columns(fields, filter)
            && (forall c | c in out.columns :: c in out.colField && c in back.colField)
            && FieldSlice(out.columns, out.colField) == ExportedNames(fields, filter)
            && FieldSlice(out.columns, back.colField) == ExportedNames(fields, filter)
  {
    var t := StructTemplate(fields);
    var i :| 0 <= i < |fields| && Exported(fields[i], filter);
    assert Exported(fields[i], {});
    assert TemplateFields(t) == Success(fields);
    var out := SchemaOfFields(fields, filter);
    var back := SchemaOfFields(fields, {});
    assert out.Success? && out.value.colField == ColFieldMap(fields, filter, |fields|);
    assert back.Success? && back.value.colField == ColFieldMap(fields, {}, |fields|);
    ColumnsSlice(fields, filter, filter);
    ColumnsSlice(fields, filter, {});
  }

  /** Distinct field names make the exported names distinct, and a field's
      name is among them exactly when the field is exported. */
  lemma ExportedNamesFacts(fields: seq<Field>, filter: set<string>)
    requires DistinctNames(fields)
    ensures var names := ExportedNames(fields, filter);
            Distinct(names)
    ensures var names := ExportedNames(fields, filter);
            forall i | 0 <= i < |fields| :: fields[i].name in names <==> Exported(fields[i], filter)
  {
    var names := ExportedNames(fields, filter);
    var idx := ExportedFrom(fields, filter, 0);
    forall k, l | 0 <= k < |names| && 0 <= l < |names| && k != l
      ensures names[k] != names[l]
    {
      if k < l { assert idx[k] < idx[l]; } else { assert idx[l] < idx[k]; }
    }
    forall i | 0 <= i < |fields|
      ensures fields[i].name in names <==> Exported(fields[i], filter)
    {
      if Exported(fields[i], filter) {
        assert i in idx;
        var k :| 0 <= k < |idx| && idx[k] == i;
        assert names[k] == fields[i].name;
      } else {
        forall k | 0 <= k < |names| ensures names[k] != fields[i].name {
          assert idx[k] != i;
        }
      }
    }
  }

  /** No name occurs twice. */
  predicate Distinct(names: seq<string>) {
    forall k, l | 0 <= k < |names| && 0 <= l < |names| && k != l :: names[k] != names[l]
  }

  /** The field each of `names` denotes is settable, has a supported kind
      and `rec` holds a fitting value for it. */
  predicate Listed(fields: seq<Field>, names: seq<string>, rec: Record) {
    forall k | 0 <= k < |names| ::
      && Lookup(fields, names[k]).Some?
      && Supported(Lookup(fields, names[k]).value.kind)
      && Lookup(fields, names[k]).value.canSet
      && names[k] in rec
      && Conforms(rec[names[k]], Lookup(fields, names[k]).value.kind)
  }

  /** Every non-empty cell of a rendered row reads back, under its field,
      as the value it was rendered from. */
  lemma ListedCellsCoerce(fields: seq<Field>, rowId: int, names: seq<string>, rec: Record)
    requires Listed(fields, names, rec)
    ensures var row := EncodeRow(rec, names);
            forall j: nat | j < |row| && row[j] != "" ::
              CellAt(fields, rowId, row, names, j) == Success(rec[names[j]])
  {
    var row := EncodeRow(rec, names);
    forall j: nat | j < |row| && row[j] != ""
      ensures CellAt(fields, rowId, row, names, j) == Success(rec[names[j]])
    {
      var f := Lookup(fields, names[j]).value;
      RenderThenCoerce(fields, rowId, j, f, rec[f.name]);
    }
  }

  /** A row rendered from `rec` through listed field names decodes. */
  lemma DecodeListedRowSucceeds(fields: seq<Field>, rowId: int, names: seq<string>, rec: Record)
    requires |names| > 0 && Listed(fields, names, rec)
    ensures var row := EncodeRow(rec, names);
            && var r := DecodeRow(StructTemplate(fields), rowId, row, names);
            && r.Success?
            && r.value.Keys == FieldNames(fields)
  {
    var row := EncodeRow(rec, names);
    ListedCellsCoerce(fields, rowId, names, rec);
    DecodeRowSpec(StructTemplate(fields), rowId, row, names);
    assert forall j: nat :: !BadCell(fields, rowId, row, names, j);
  }

  /** A row rendered from `rec` through distinct field names decodes to
      `rec` on those fields and to zero values on the others. */
  lemma DecodeListedRow(fields: seq<Field>, rowId: int, names: seq<string>, rec: Record)
    requires |names| > 0 && Listed(fields, names, rec) && Distinct(names)
    ensures var row := EncodeRow(rec, names);
            && var r := DecodeRow(StructTemplate(fields), rowId, row, names);
            && r.Success?
            && r.value.Keys == FieldNames(fields)
            && (forall n | n in names :: n in rec && n in r.value && r.value[n] == rec[n])
            && (forall n | n in FieldNames(fields) && n !in names ::
                  r.value[n] == ZeroValue(Lookup(fields, n).value.kind))
  {
    var t := StructTemplate(fields);
    var row := EncodeRow(rec, names);
    DecodeListedRowSucceeds(fields, rowId, names, rec);
    ListedCellsCoerce(fields, rowId, names, rec);
    DecodeRowSpec(t, rowId, row, names);
    var r := DecodeRow(t, rowId, row, names).value;
    forall n | n in names ensures n in rec && n in r && r[n] == rec[n] {
      var k :| 0 <= k < |names| && names[k] == n;
      if row[k] != "" {
        assert LastFor(row, names, k);
      } else {
        var f := Lookup(fields, n).value;
        RenderThenCoerce(fields, rowId, k, f, rec[n]);
        assert Untouched(row, names, 0, n);
      }
    }
    forall n | n in FieldNames(fields) && n !in names
      ensures r[n] == ZeroValue(Lookup(fields, n).value.kind)
    {
      assert Untouched(row, names, 0, n);
    }
  }


  /** With distinct field names, looking a field's name up finds that field. */
  lemma LookupOwn(fields: seq<Field>, i: nat)
    requires DistinctNames(fields) && i < |fields|
    ensures Lookup(fields, fields[i].name) == Some(fields[i])
  {
  }

  /** `r` is `rec` brought back: every field is present, an exported field
      holds its value from `rec`, any other field its zero value. */
  predicate Restores(fields: seq<Field>, filter: set<string>, rec: Record, r: Record) {
    forall i | 0 <= i < |fields| ::
      && fields[i].name in r
      && (Exported(fields[i], filter) ==> fields[i].name in rec && r[fields[i].name] == rec[fields[i].name])
      && (!Exported(fields[i], filter) ==> r[fields[i].name] == ZeroValue(fields[i].kind))
  }

  /** The exported names denote settable fields of supported kinds that
      `rec` fits. */
  lemma ExportedNamesListed(fields: seq<Field>, filter: set<string>, rec: Record)
    requires RoundTrippable(fields, filter) && FitsExported(fields, filter, rec)
    ensures var names := ExportedNames(fields, filter);
            |names| > 0 && Listed(fields, names, rec) && Distinct(names)
  {
    ExportedNamesFacts(fields, filter);
    var i0 :| 0 <= i0 < |fields| && Exported(fields[i0], filter);
    assert fields[i0].name in ExportedNames(fields, filter);
    var names := ExportedNames(fields, filter);
    var idx := ExportedFrom(fields, filter, 0);
    forall k | 0 <= k < |names|
      ensures Lookup(fields, names[k]).Some?
      ensures Supported(Lookup(fields, names[k]).value.kind) && Lookup(fields, names[k]).value.canSet
      ensures names[k] in rec && Conforms(rec[names[k]], Lookup(fields, names[k]).value.kind)
    {
      LookupOwn(fields, idx[k]);
    }
  }

  /** A record that agrees with `rec` on the exported names and is zero
      elsewhere restores `rec`. */
  lemma RestoresFromNames(fields: seq<Field>, filter: set<string>, names: seq<string>, rec: Record, r: Record)
    requires DistinctNames(fields)
    requires forall i | 0 <= i < |fields| :: fields[i].name in names <==> Exported(fields[i], filter)
    requires r.Keys == FieldNames(fields)
    requires forall n | n in names :: n in rec && n in r && r[n] == rec[n]
    requires forall n | n in FieldNames(fields) && n !in names :: r[n] == ZeroValue(Lookup(fields, n).value.kind)
    ensures Restores(fields, filter, rec, r)
  {
    forall i | 0 <= i < |fields|
      ensures fields[i].name in r
      ensures Exported(fields[i], filter) ==> fields[i].name in rec && r[fields[i].name] == rec[fields[i].name]
      ensures !Exported(fields[i], filter) ==> r[fields[i].name] == ZeroValue(fields[i].kind)
    {
      assert fields[i].name in FieldNames(fields);
      LookupOwn(fields, i);
    }
  }

  /** One exported record row decodes back to the record it came from. */
  lemma ExportedRowDecodes(fields: seq<Field>, filter: set<string>, rowId: int, rec: Record)
    requires RoundTrippable(fields, filter) && FitsExported(fields, filter, rec)
    ensures var names := ExportedNames(fields, filter);
            var row := EncodeRow(rec, names);
            && var r := DecodeRow(StructTemplate(fields), rowId, row, names);
            && r.Success?
            && Restores(fields, filter, rec, r.value)
  {
    var names := ExportedNames(fields, filter);
    ExportedNamesListed(fields, filter, rec);
    ExportedNamesFacts(fields, filter);
    DecodeListedRow(fields, rowId, names, rec);
    var r := DecodeRow(StructTemplate(fields), rowId, EncodeRow(rec, names), names).value;
    RestoresFromNames(fields, filter, names, rec, r);
  }

  /** The source an export of `recs` reads: a slice of struct values. */
  function SliceOf(recs: seq<Record>): (d: Data)
    ensures d.SeqOf? && |d.elems| == |recs|
    ensures forall k | 0 <= k < |recs| :: Deref(d.elems[k]) == StructVal(recs[k])
  {
    SeqOf(seq(|recs|, k requires 0 <= k < |recs| => StructVal(recs[k])))
  }

  /** The sheet exporting `recs` writes: the exported column names, then
      one rendered row per record. */
  function SheetOf(fields: seq<Field>, filter: set<string>, recs: seq<Record>): (grid: seq<seq<string>>)
    ensures |grid| == |recs| + 1 && grid[0] == Columns(fields, filter)
    ensures forall m | 1 <= m < |grid| :: grid[m] == EncodeRow(recs[m - 1], ExportedNames(fields, filter))
  {
    var names := ExportedNames(fields, filter);
    [Columns(fields, filter)] + seq(|recs|, k requires 0 <= k < |recs| => EncodeRow(recs[k], names))
  }

  /** Once the schema is found, the export renders the source through the
      exported names. */
  lemma ExportEncodesThroughNames(fields: seq<Field>, filter: set<string>, src: Data)
    requires RoundTrippable(fields, filter) && !src.NilData?
    ensures Export(true, src, StructTemplate(fields), filter) ==
            EncodeSource(src, Columns(fields, filter), ExportedNames(fields, filter))
  {
    SchemaFieldSlices(fields, filter);
  }

  /** Exporting a slice of records writes exactly that sheet. */
  lemma ExportWritesSheet(fields: seq<Field>, filter: set<string>, recs: seq<Record>)
    requires RoundTrippable(fields, filter)
    ensures Export(true, SliceOf(recs), StructTemplate(fields), filter) == Success(SheetOf(fields, filter, recs))
  {
    var src := SliceOf(recs);
    var names := ExportedNames(fields, filter);
    ExportEncodesThroughNames(fields, filter, src);
    var e := EncodeSource(src, Columns(fields, filter), names);
    assert e.Success?;
    var grid := SheetOf(fields, filter, recs);
    forall m | 0 <= m < |grid| ensures e.value[m] == grid[m] {
      if m > 0 {
        assert e.value[m] == EncodeRow(recs[m - 1], names);
      }
    }
    assert e.value == grid;
  }

  /** When the header binds and every data row decodes, the row loop
      succeeds with one record per data row, in order. */
  lemma ImportRowsAllDecode(t: Template, grid: seq<seq<string>>, colField: map<string, string>)
    requires |grid| > 0
    requires forall c | c in grid[0] :: c in colField
    requires forall m | 1 <= m < |grid| :: RowAt(t, grid, FieldSlice(grid[0], colField), m).Success?
    ensures var r := ImportRows(t, grid, colField);
            && r.Success?
            && |r.value| == |grid| - 1
            && forall m | 1 <= m < |grid| :: RowAt(t, grid, FieldSlice(grid[0], colField), m) == Success(r.value[m - 1])
  {
    ImportRowsSpec(t, grid, colField);
  }

  /** Data row `m` of the sheet decodes to record `m - 1` brought back. */
  lemma SheetRowDecodes(fields: seq<Field>, filter: set<string>, recs: seq<Record>, m: nat)
    requires RoundTrippable(fields, filter)
    requires forall k | 0 <= k < |recs| :: FitsExported(fields, filter, recs[k])
    requires 1 <= m <= |recs|
    ensures var grid := SheetOf(fields, filter, recs);
            var names := ExportedNames(fields, filter);
            && RowAt(StructTemplate(fields), grid, names, m).Success?
            && Restores(fields, filter, recs[m - 1], RowAt(StructTemplate(fields), grid, names, m).value)
  {
    var grid := SheetOf(fields, filter, recs);
    var names := ExportedNames(fields, filter);
    var row := EncodeRow(recs[m - 1], names);
    assert grid[m] == row;
    ExportedRowDecodes(fields, filter, m + 1, recs[m - 1]);
    assert RowAt(StructTemplate(fields), grid, names, m) == DecodeRow(StructTemplate(fields), m + 1, row, names);
  }

  /** Importing that sheet brings every record back. */
  lemma ImportReadsSheet(fields: seq<Field>, filter: set<string>, recs: seq<Record>)
    requires RoundTrippable(fields, filter)
    requires forall k | 0 <= k < |recs| :: FitsExported(fields, filter, recs[k])
    ensures var grid := SheetOf(fields, filter, recs);
            && var back := Import(StructTemplate(fields), grid);
            && back.Success?
            && |back.value| == |recs|
            && forall k | 0 <= k < |recs| :: Restores(fields, filter, recs[k], back.value[k])
  {
    var t := StructTemplate(fields);
    var grid := SheetOf(fields, filter, recs);
    var names := ExportedNames(fields, filter);
    SchemaFieldSlices(fields, filter);
    var colField := ExtractSchema(t, {}).value.colField;
    assert FieldSlice(grid[0], colField) == names;
    forall m | 1 <= m < |grid|
      ensures RowAt(t, grid, names, m).Success?
      ensures Restores(fields, filter, recs[m - 1], RowAt(t, grid, names, m).value)
    {
      SheetRowDecodes(fields, filter, recs, m);
    }
    ImportRowsAllDecode(t, grid, colField);
    var back := ImportRows(t, grid, colField).value;
    forall k | 0 <= k < |recs| ensures Restores(fields, filter, recs[k], back[k]) {
      assert RowAt(t, grid, names, k + 1) == Success(back[k]);
    }
  }

  /** Exporting records of a struct type whose column names are distinct
      and whose exported fields have kinds the decoder reads, and importing
      the resulting sheet with the same type, gives one record per
      original: each exported field holds its original value, every other
      field its zero value. */
  lemma ExportImportRoundTrip(fields: seq<Field>, filter: set<string>, recs: seq<Record>)
    requires RoundTrippable(fields, filter)
    requires forall k | 0 <= k < |recs| :: FitsExported(fields, filter, recs[k])
    ensures var grid := Export(true, SliceOf(recs), StructTemplate(fields), filter);
            && grid.Success?
            && var back := Import(StructTemplate(fields), grid.value);
            && back.Success?
            && |back.value| == |recs|
            && forall k | 0 <= k < |recs| :: Restores(fields, filter, recs[k], back.value[k])
  {
    ExportWritesSheet(fields, filter, recs);
    ImportReadsSheet(fields, filter, recs);
  }
}
