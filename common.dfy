/** Shared vocabulary of the model: optional values, the exceptions the Java
    code raises (as error kinds), results that carry either a value or an
    error, and Java's 32-bit `int`. */
module Common {

  datatype Option<+T> = None | Some(value: T)

  /** One kind per Java exception class that the core throws. */
  datatype Error =
    | NoSuchElement         // java.util.NoSuchElementException
    | IndexOutOfBounds      // ArrayIndexOutOfBounds / IndexOutOfBoundsException
    | NullPointer           // NullPointerException (a null field or reference)
    | TypeMismatch          // RuntimeException("The types don't match")
    | Unsupported           // UnsupportedOperationException
    | PageError             // PageException
    | BufferManagerError    // BufferManagerException
    | DiskError             // DiskManagerException (from the disk collaborator)
    | DbError               // DbException

  /** A value, or the exception the Java method would have thrown. */
  datatype Result<+T> = Ok(value: T) | Fail(error: Error)

  /** Outcome of a Java `void` method: it returned, or it threw. */
  datatype Status = Done | Failed(error: Error)

  const INT_MODULUS: int := 0x1_0000_0000

  /** Java `int`. */
  newtype Int32 = x: int | -0x8000_0000 <= x < 0x8000_0000

  /** Java's wrap-around of an `int` expression evaluated exactly. */
  function Wrap32(x: int): (r: Int32)
    ensures (r as int - x) % INT_MODULUS == 0
  {
    var m := (x + 0x8000_0000) % INT_MODULUS;
    (m - 0x8000_0000) as Int32
  }

  /** Wrapping leaves every value already in range alone. */
  lemma Wrap32InRange(x: int)
    requires -0x8000_0000 <= x < 0x8000_0000
    ensures Wrap32(x) as int == x
  {
  }
}
