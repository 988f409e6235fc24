/** Go reflection replaced by an explicit description of record types and
    record values. A record type is its declared field list; a record is a
    map from field name to a value that carries its own kind, as a
    `reflect.Value` does. */
module Structs {
  import opened Results
  import opened Strconv

  /** The field kinds the engine dispatches on. `OtherKind` is every kind
      that neither the decoder nor the encoder treats specially (unsigned
      and 8/16-bit integers, structs, pointers, slices, ...): `kindName` is
      what `reflect.Kind.String()` prints and `typeName` what
      `reflect.Type.String()` prints. Floating-point kinds are not part of
      this model. */
  datatype Kind =
    | StringKind
    | IntKind
    | Int32Kind
    | Int64Kind
    | BoolKind
    | OtherKind(kindName: string, typeName: string)

  /** A declared struct field: its name, the value of its `excel` tag when
      the tag is present, its kind, and whether reflection may set it.
      `canSet` is false exactly for an unexported field, one whose name does
      not start with an upper-case letter: such a field can be read through
      reflection but not written. */
  datatype Field = Field(name: string, tag: Option<string>, kind: Kind, canSet: bool)

  /** The static shape of the template argument: a struct, a pointer to
      some type, or any other type. */
  datatype TypeShape =
    | StructType(fields: seq<Field>)
    | PointerType(elem: TypeShape)
    | OtherType

  /** The template argument: untyped nil, or a value of some type whose
      shape is all the engine looks at. */
  datatype Template = NilTemplate | TemplateOf(shape: TypeShape)

  /** A field value. `OpaqueV` stands for a value of an `OtherKind` field;
      the engine never reads its contents, only its type name. */
  datatype Value =
    | StrV(s: string)
    | IntV(i: int)
    | BoolV(b: bool)
    | OpaqueV(typeName: string)

  type Record = map<string, Value>

  /** The export source: untyped nil, a struct value, a pointer, a slice or
      array, or a value of any other kind. */
  datatype Data =
    | NilData
    | StructVal(rec: Record)
    | PtrTo(target: Data)
    | SeqOf(elems: seq<Data>)
    | ScalarVal

  /** One level of pointer indirection is followed, as `Elem()` does; a nil
      pointer is `PtrTo(NilData)` and yields no struct. */
  function Deref(d: Data): Data {
    if d.PtrTo? then d.target else d
  }

  /** The value a freshly allocated struct holds in a field of kind `k`. */
  function ZeroValue(k: Kind): (v: Value)
    ensures Conforms(v, k)
  {
    match k
    case StringKind => StrV("")
    case BoolKind => BoolV(false)
    case OtherKind(_, typeName) => OpaqueV(typeName)
    case _ => IntV(0)
  }

  /** The signed width of an integer kind. */
  function WidthOf(k: Kind): Width
    requires IsIntKind(k)
  {
    if k == Int32Kind then W32 else W64
  }

  predicate IsIntKind(k: Kind) {
    k == IntKind || k == Int32Kind || k == Int64Kind
  }

  /** The kinds whose cells the decoder can read back. */
  predicate Supported(k: Kind) {
    !k.OtherKind?
  }

  /** `v` is a value a Go field of kind `k` can hold. */
  predicate Conforms(v: Value, k: Kind) {
    match k
    case StringKind => v.StrV?
    case BoolKind => v.BoolV?
    case OtherKind(_, typeName) => v == OpaqueV(typeName)
    case _ => v.IntV? && InRange(v.i, WidthOf(k))
  }

  /** `reflect.Type.FieldByName`: the first field with that name. */
  function Lookup(fields: seq<Field>, name: string): (r: Option<Field>)
    ensures r.Some? ==> r.value in fields && r.value.name == name
    ensures r.None? ==> forall i | 0 <= i < |fields| :: fields[i].name != name
    ensures forall i | 0 <= i < |fields| && fields[i].name == name ::
              r == Some(fields[i]) || exists j | 0 <= j < i :: fields[j].name == name
  {
    if |fields| == 0 then None
    else if fields[0].name == name then Some(fields[0])
    else Lookup(fields[1..], name)
  }

  function FieldNames(fields: seq<Field>): set<string> {
    set f | f in fields :: f.name
  }

  /** Go guarantees that the fields of one struct have distinct names. */
  predicate DistinctNames(fields: seq<Field>) {
    forall i, j | 0 <= i < j < |fields| :: fields[i].name != fields[j].name
  }

  /** A freshly allocated struct of the given fields (`reflect.New`). */
  function ZeroRecord(fields: seq<Field>): (r: Record)
    ensures r.Keys == FieldNames(fields)
  {
    map n | n in FieldNames(fields) :: ZeroValue(Lookup(fields, n).value.kind)
  }
}
