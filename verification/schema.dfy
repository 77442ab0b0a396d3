/** The explicit field-descriptor table that stands in for Go reflection over
    the target struct, the typed values a record holds, and the functions the
    loader borrows from libraries outside the repository. */
module Schema {
  import opened GoStrconv

  /** The media whose keys are derived per field by name conversion. */
  datatype SourceKind = Env | Dir | Flag

  /** The struct-tag key consulted for each medium. */
  function TagKey(k: SourceKind): string
  {
    match k
    case Env => "env"
    case Dir => "dir"
    case Flag => "flag"
  }

  datatype FloatWidth = F32 | F64

  /** The kinds setField tells apart. `Other` covers every kind it leaves
      untouched (structs, maps, pointers, arrays, ...). */
  datatype ElemKind = Text | Int(width: Width) | Uint(width: Width) | Bool | Float(fwidth: FloatWidth) | Other

  /** A field is either one element, or a slice of elements. */
  datatype Kind = Scalar(elem: ElemKind) | Slice(elem: ElemKind)

  /** One exported struct field: its declared name, its kind and its struct
      tags, keyed by tag name (`env`, `dir`, `flag`, ...). */
  datatype Field = Field(name: string, kind: Kind, tags: map<string, string>)

  /** reflect.StructTag.Get: the tag's text, or "" when the field has no such tag. */
  function TagOf(f: Field, k: SourceKind): string
  {
    if TagKey(k) in f.tags then f.tags[TagKey(k)] else ""
  }

  datatype Scalar = TextVal(text: string) | IntVal(i: int) | UintVal(u: nat) | BoolVal(b: bool) | FloatVal(x: real) | OtherVal

  datatype Value = One(scalar: Scalar) | Many(items: seq<Scalar>)

  /** The target struct: one value per field of the schema, in declaration order. */
  type Record = seq<Value>

  /** A scalar is a value Go could hold in a variable of the element kind. */
  predicate ScalarConforms(e: ElemKind, v: Scalar)
  {
    match e
    case Text => v.TextVal?
    case Int(w) => v.IntVal? && MinInt(w) <= v.i <= MaxInt(w)
    case Uint(w) => v.UintVal? && v.u <= MaxUint(w)
    case Bool => v.BoolVal?
    case Float(_) => v.FloatVal?
    case Other => v.OtherVal?
  }

  predicate ValueConforms(k: Kind, v: Value)
  {
    match k
    case Scalar(e) => v.One? && ScalarConforms(e, v.scalar)
    case Slice(e) => v.Many? && forall j :: 0 <= j < |v.items| ==> ScalarConforms(e, v.items[j])
  }

  /** The record has the schema's shape, field by field. */
  predicate Conforms(schema: seq<Field>, rec: Record)
  {
    |rec| == |schema| && forall i :: 0 <= i < |rec| ==> ValueConforms(schema[i].kind, rec[i])
  }

  /** Functions of libraries outside the repository, taken as given. */
  datatype Library = Library(
    /** strcase.ToScreamingSnake */
    screamingSnake: string -> string,
    /** strcase.ToKebab */
    kebab: string -> string,
    /** strcase.ToLowerCamel, under the acronym table NewLoader configures */
    lowerCamel: string -> string,
    /** the value strconv.ParseFloat returns, as reflect's SetFloat stores it */
    parseFloat: (string, FloatWidth) -> real)
}
