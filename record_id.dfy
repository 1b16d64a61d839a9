/** `RecordId`: a tuple's location, as a page id and a slot (tuple) number. */
module RecordIds {
  import opened Common
  import opened PageIds

  /** The destructors `pid` and `tupleno` are `getPageId` and `tupleno`. */
  datatype RecordId = RecordId(pid: SimplePageId, tupleno: Int32)

  /** `RecordId.equals`: same tuple number and equal page ids. */
  predicate RecordIdEquals(a: RecordId, b: RecordId)
  {
    b.tupleno == a.tupleno && PageIdEquals(b.pid, a.pid)
  }

  /** `RecordId.hashCode`: `tupleno * 23 + pid.hashCode()` in 32-bit arithmetic. */
  function HashCode(r: RecordId): (h: Int32)
    ensures (h as int - (r.tupleno as int * 23 + PageIds.HashCode(r.pid) as int)) % INT_MODULUS == 0
  {
    Wrap32(r.tupleno as int * 23 + PageIds.HashCode(r.pid) as int)
  }

  /** `equals` is value equality: symmetric, and a different tuple number or a
      different page gives unequal ids; equal ids hash equally. */
  lemma EqualsIsValueEquality(a: RecordId, b: RecordId)
    ensures RecordIdEquals(a, b) <==> a == b
    ensures RecordIdEquals(a, b) == RecordIdEquals(b, a)
    ensures a.tupleno != b.tupleno ==> !RecordIdEquals(a, b)
    ensures a.pid != b.pid ==> !RecordIdEquals(a, b)
    ensures RecordIdEquals(a, b) ==> HashCode(a) == HashCode(b)
  {
  }
}
