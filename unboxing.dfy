/** GojulUnboxingUtils: null-tolerant unboxing of Java's wrapper types.
    A boxed value is an `Option` of the primitive type; none of these
    functions can fail, whatever the argument. */
module Unboxing {
  import opened Lang

  /** The common rule: the wrapped value, or `defaultValue` for null. */
  function UnboxOr<T>(boxed: Option<T>, defaultValue: T): (r: T)
    ensures boxed.None? ==> r == defaultValue
    ensures boxed.Some? ==> r == boxed.value
  {
    match boxed
    case None => defaultValue
    case Some(v) => v
  }

  /** `Boolean.TRUE.equals(b)`: true only for a non-null TRUE. */
  function UnboxBoolean(b: Option<bool>): (r: bool)
    ensures r <==> b == Some(true)
    ensures b.None? ==> !r
  {
    b.Some? && b.value
  }

  function UnboxChar(c: Option<JavaChar>, defaultValue: JavaChar): (r: JavaChar)
    ensures c.None? ==> r == defaultValue
    ensures c.Some? ==> r == c.value
  {
    UnboxOr(c, defaultValue)
  }

  function UnboxByte(b: Option<JavaByte>, defaultValue: JavaByte): (r: JavaByte)
    ensures b.None? ==> r == defaultValue
    ensures b.Some? ==> r == b.value
  {
    UnboxOr(b, defaultValue)
  }

  function UnboxShort(s: Option<JavaShort>, defaultValue: JavaShort): (r: JavaShort)
    ensures s.None? ==> r == defaultValue
    ensures s.Some? ==> r == s.value
  {
    UnboxOr(s, defaultValue)
  }

  function UnboxInt(i: Option<JavaInt>, defaultValue: JavaInt): (r: JavaInt)
    ensures i.None? ==> r == defaultValue
    ensures i.Some? ==> r == i.value
  {
    UnboxOr(i, defaultValue)
  }

  function UnboxLong(l: Option<JavaLong>, defaultValue: JavaLong): (r: JavaLong)
    ensures l.None? ==> r == defaultValue
    ensures l.Some? ==> r == l.value
  {
    UnboxOr(l, defaultValue)
  }
}
