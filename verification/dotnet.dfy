/**
 * The few .NET notions the utilities rely on: exceptions, `byte`, boxed
 * `object` values and an optional value.
 */
module DotNet {

  datatype Option<T> = None | Some(value: T)

  /** The exceptions the modelled code throws or lets escape. */
  datatype Exception =
    | ArgumentNull
    | ArgumentOutOfRange
    | Argument
    | IndexOutOfRange
    | InvalidOperation(message: string)
    | InvalidCast
    | NullReference
    | IOError(message: string)
    | KeyNotFound
    | NotImplemented
    | NotSupported
    | Overflow

  /** A call that either returns a value or throws. */
  datatype Result<T> = Ok(value: T) | Throws(error: Exception)

  /** The range of a C# `int`. */
  predicate IsInt32(x: int)
  {
    -0x8000_0000 <= x < 0x8000_0000
  }

  /** A C# `byte`. */
  newtype byte = x: int | 0 <= x < 256

  /** Visibility of a WPF element. */
  datatype Visibility = Visible | Hidden | Collapsed

  /**
   * A value passed as `object`: null, one of the boxed primitive types the
   * converters and validators test for, or anything else (`Other`, told
   * apart by a tag).
   */
  datatype Boxed =
    | Null
    | BoxedBool(b: bool)
    | BoxedInt(i: int)
    | BoxedString(s: string)
    | Other(tag: nat)
}
