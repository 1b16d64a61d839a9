/** `Predicate`: compares one field of a tuple with a constant under an
    operator. The operand is an `IntField`, as are the tuples' fields. */
module Predicates {
  import opened Common
  import opened Types
  import opened IntFields
  import opened Tuples

  /** `Predicate(field, op, operand)`; `getField`, `getOp` and `getOperand`
      are the datatype's fields, so they return the constructor arguments. */
  datatype Predicate = Predicate(field: int, op: Op, operand: IntField)

  /** `filter(t)`: field `field` of `t` compared with the operand. Reading a
      field outside the schema throws NoSuchElementException; calling
      `compare` on an unset (null) field throws NullPointerException. */
  function Filter(p: Predicate, t: Tuple): (r: Result<bool>)
    requires t.Valid()
    reads t.data
    ensures r.Ok? <==> 0 <= p.field < NumFieldsOf(t) && t.Fields()[p.field].Some?
    ensures !(0 <= p.field < NumFieldsOf(t)) ==> r == Fail(NoSuchElement)
    ensures 0 <= p.field < NumFieldsOf(t) && t.Fields()[p.field].None? ==> r == Fail(NullPointer)
    ensures r.Ok? ==> r.value == Compare(t.Fields()[p.field].value, p.op, p.operand)
  {
    if p.field < 0 || p.field >= t.data.Length then Fail(NoSuchElement)
    else match t.data[p.field]
      case None => Fail(NullPointer)
      case Some(f) => Ok(Compare(f, p.op, p.operand))
  }

  /** The number of fields of a tuple. */
  function NumFieldsOf(t: Tuple): (n: nat)
    requires t.Valid()
    ensures n == |t.td.items|
  {
    t.data.Length
  }

  /** A tuple passes the predicate exactly when its field passes `compare`. */
  predicate Passes(p: Predicate, t: Tuple)
    requires t.Valid()
    reads t.data
  {
    Filter(p, t) == Ok(true)
  }

  /** EQUALS i passes exactly the value i. */
  lemma EqualsPassesOnlyItsOperand(field: int, i: Int32, t: Tuple)
    requires t.Valid() && 0 <= field < NumFieldsOf(t) && t.Fields()[field].Some?
    ensures Passes(Predicate(field, Equals, IntField(i)), t) <==> t.Fields()[field].value.value == i
  {
  }

  /** GREATER_THAN i passes i + 1 and rejects i and i - 1. */
  lemma GreaterThanExamples(i: Int32)
    requires -0x8000_0000 < i < 0x7fff_ffff
    ensures Compare(IntField(i + 1), GreaterThan, IntField(i))
    ensures !Compare(IntField(i), GreaterThan, IntField(i))
    ensures !Compare(IntField(i - 1), GreaterThan, IntField(i))
  {
  }

  /** LESS_THAN_OR_EQ i passes i - 1 and i and rejects i + 1. */
  lemma LessThanOrEqExamples(i: Int32)
    requires -0x8000_0000 < i < 0x7fff_ffff
    ensures Compare(IntField(i - 1), LessThanOrEq, IntField(i))
    ensures Compare(IntField(i), LessThanOrEq, IntField(i))
    ensures !Compare(IntField(i + 1), LessThanOrEq, IntField(i))
  {
  }
}
