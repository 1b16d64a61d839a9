/** `IntField`: a field value holding one Java `int`. */
module IntFields {
  import opened Common
  import opened Types

  datatype IntField = IntField(value: Int32)

  /** `IntField.compare`: this field's value against `val`'s under `op`. */
  function Compare(f: IntField, op: Op, val: IntField): bool
  {
    match op
    case Equals => f.value == val.value
    case NotEquals => f.value != val.value
    case GreaterThan => f.value > val.value
    case GreaterThanOrEq => f.value >= val.value
    case LessThan => f.value < val.value
    case LessThanOrEq => f.value <= val.value
    case Like => f.value == val.value
  }

  /** `IntField.equals`: same class and same value. */
  predicate FieldEquals(a: IntField, b: IntField)
  {
    a.value == b.value
  }

  /** `IntField.hashCode`: the value itself. */
  function HashCode(f: IntField): Int32
  {
    f.value
  }

  /** `IntField.getType`. */
  function GetType(f: IntField): FieldType
  {
    IntType
  }

  /** The six comparisons mean what their names say, on the int values. */
  lemma CompareMeaning(a: IntField, b: IntField)
    ensures Compare(a, Equals, b) <==> a.value == b.value
    ensures Compare(a, NotEquals, b) <==> a.value != b.value
    ensures Compare(a, GreaterThan, b) <==> a.value > b.value
    ensures Compare(a, GreaterThanOrEq, b) <==> a.value >= b.value
    ensures Compare(a, LessThan, b) <==> a.value < b.value
    ensures Compare(a, LessThanOrEq, b) <==> a.value <= b.value
  {
  }

  /** On ints, LIKE behaves exactly as EQUALS. */
  lemma LikeIsEquals(a: IntField, b: IntField)
    ensures Compare(a, Like, b) == Compare(a, Equals, b)
  {
  }

  /** NOT_EQUALS negates EQUALS; GREATER_THAN/LESS_THAN_OR_EQ and
      LESS_THAN/GREATER_THAN_OR_EQ are complementary pairs. */
  lemma ComplementaryOps(a: IntField, b: IntField)
    ensures Compare(a, NotEquals, b) == !Compare(a, Equals, b)
    ensures Compare(a, GreaterThan, b) == !Compare(a, LessThanOrEq, b)
    ensures Compare(a, LessThan, b) == !Compare(a, GreaterThanOrEq, b)
  {
  }

  /** Swapping the operands mirrors the operator. */
  lemma CompareConverse(a: IntField, b: IntField)
    ensures Compare(a, GreaterThan, b) == Compare(b, LessThan, a)
    ensures Compare(a, GreaterThanOrEq, b) == Compare(b, LessThanOrEq, a)
    ensures Compare(a, Equals, b) == Compare(b, Equals, a)
  {
  }

  /** `equals` holds exactly for equal values, agrees with hashCode, and the type is INT_TYPE. */
  lemma EqualsAndHash(a: IntField, b: IntField)
    ensures FieldEquals(a, b) <==> a == b
    ensures FieldEquals(a, b) ==> HashCode(a) == HashCode(b)
    ensures HashCode(a) == a.value
    ensures GetType(a) == IntType
  {
  }
}
