/** Java-language notions shared by every module of the model:
    nullable references, the exceptions the library throws, and the
    fixed-width primitive types it unboxes to. */
module Lang {

  /** A Java reference that may be null: `None` is `null`. */
  datatype Option<+T> = None | Some(value: T)

  /** The exceptions thrown by the library, each with its message. */
  datatype Exception =
    | NullPointerException(message: string)
    | IllegalArgumentException(message: string)
    | IllegalStateException(message: string)

  /** The outcome of a Java call that returns a value or throws. */
  datatype Result<+T> = Ok(value: T) | Throws(error: Exception)

  /** The outcome of a Java `void` call: it returns normally or throws. */
  datatype Outcome = Normal | Thrown(error: Exception)

  /** No element of `s` occurs twice. */
  ghost predicate Distinct<X>(s: seq<X>)
  {
    forall i, j :: 0 <= i < j < |s| ==> s[i] != s[j]
  }

  /** Java's primitive integer types, with their exact ranges. */
  newtype JavaByte = x: int | -0x80 <= x < 0x80
  newtype JavaShort = x: int | -0x8000 <= x < 0x8000
  newtype JavaChar = x: int | 0 <= x < 0x1_0000
  newtype JavaInt = x: int | -0x8000_0000 <= x < 0x8000_0000
  newtype JavaLong = x: int | -0x8000_0000_0000_0000 <= x < 0x8000_0000_0000_0000

  /** Java's `int` arithmetic: the two's-complement wrap-around of `x`. */
  function WrapInt(x: int): (r: JavaInt)
    ensures (r as int - x) % 0x1_0000_0000 == 0
    ensures -0x8000_0000 <= x < 0x8000_0000 ==> r as int == x
  {
    var m := x % 0x1_0000_0000;
    if m < 0x8000_0000 then m as JavaInt else (m - 0x1_0000_0000) as JavaInt
  }
}
