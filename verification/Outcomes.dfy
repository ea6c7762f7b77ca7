/** Shared vocabulary of the model: Java's nullable references, its fixed-width
    integers and bytes, and the exceptions the library throws, recast as values. */
module Outcomes {

  /** A Java reference that may be null: `None` stands for null. */
  datatype Option<+T> = None | Some(value: T)

  /** The exceptions the modelled code can raise, kept by kind (and message
      where the library chooses one), not by Java class hierarchy. */
  datatype Failure =
    | HttpFailure(message: string)      // fluff.http.HTTPException
    | RuntimeFailure(message: string)   // java.lang.RuntimeException
    | IndexOutOfBounds                  // list or array index outside its bounds
    | NullDereference                   // NullPointerException
    | NumberFormat                      // NumberFormatException from parseInt/parseLong

  /** Either the value a Java method returns or the exception it throws. */
  datatype Outcome<+T> = Ok(value: T) | Fail(failure: Failure)

  /** Java `int` and `long`. */
  const INT_MIN: int := -0x8000_0000
  const INT_MAX: int := 0x7fff_ffff
  const LONG_MIN: int := -0x8000_0000_0000_0000
  const LONG_MAX: int := 0x7fff_ffff_ffff_ffff

  type int32 = x: int | INT_MIN <= x <= INT_MAX
  type int64 = x: int | LONG_MIN <= x <= LONG_MAX

  /** A Java `byte`, seen through its unsigned bit pattern. */
  type Byte = x: int | 0 <= x < 0x100
}
