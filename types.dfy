/** Field types of a schema (`Type`) and the comparison operators (`Op`). */
module Types {

  /** `Type.INT_TYPE` and `Type.STRING_TYPE`. */
  datatype FieldType = IntType | StringType

  /** `Type.STRING_LEN`: the fixed capacity of a string field, in bytes. */
  const STRING_LEN: nat := 128

  /** `Type.getLen`: bytes needed to store one field of the type. */
  function Len(t: FieldType): nat
  {
    match t
    case IntType => 4
    case StringType => STRING_LEN + 4
  }

  /** Java's default `toString` of the enum constants: their names. */
  function TypeName(t: FieldType): string
  {
    match t
    case IntType => "INT_TYPE"
    case StringType => "STRING_TYPE"
  }

  /** `Op`: the operators a predicate can compare with. */
  datatype Op = Equals | GreaterThan | LessThan | LessThanOrEq | GreaterThanOrEq | Like | NotEquals
}
