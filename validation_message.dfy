/** GojulValidationErrorMessage: an immutable (UI target, message text) value.
    Once built, neither field is null, so the fields are plain values. */
module ValidationMessage {
  import opened Lang
  import Preconditions

  datatype ErrorMessage<K, V> = ErrorMessage(uiTarget: K, message: V)

  /** The constructor: rejects a null target first, then a null message;
      otherwise the getters give back exactly the arguments. */
  function NewErrorMessage<K, V>(uiTarget: Option<K>, message: Option<V>): (r: Result<ErrorMessage<K, V>>)
    ensures r.Ok? <==> uiTarget.Some? && message.Some?
    ensures uiTarget.None? ==> r == Throws(NullPointerException("uiTarget is null"))
    ensures uiTarget.Some? && message.None? ==> r == Throws(NullPointerException("message is null"))
    ensures r.Ok? ==> r.value.uiTarget == uiTarget.value && r.value.message == message.value
  {
    var c1 := Preconditions.CheckNotNull(uiTarget, "uiTarget is null");
    if c1.Thrown? then Throws(c1.error)
    else
      var c2 := Preconditions.CheckNotNull(message, "message is null");
      if c2.Thrown? then Throws(c2.error)
      else Ok(ErrorMessage(uiTarget.value, message.value))
  }

  /** GojulValidationErrorMessage.equals: equal texts and equal targets. */
  function MessageEquals<K(==), V(==)>(a: ErrorMessage<K, V>, b: ErrorMessage<K, V>): (r: bool)
    ensures r <==> a == b
  {
    a.message == b.message && a.uiTarget == b.uiTarget
  }

  /** GojulValidationErrorMessage.hashCode: `31 * (31 + hash(message)) + hash(uiTarget)`
      in Java `int` arithmetic. */
  function MessageHashCode<K, V>(m: ErrorMessage<K, V>, hashK: K -> JavaInt, hashV: V -> JavaInt): (r: JavaInt)
    // the exact value 961 + 31 * hash(message) + hash(uiTarget), up to a multiple of 2^32
    ensures (r as int - (961 + 31 * hashV(m.message) as int + hashK(m.uiTarget) as int)) % 0x1_0000_0000 == 0
  {
    var inner := WrapInt(31 + hashV(m.message) as int);
    var q := (inner as int - (31 + hashV(m.message) as int)) / 0x1_0000_0000;
    assert inner as int == 31 + hashV(m.message) as int + q * 0x1_0000_0000;
    assert 31 * inner as int + hashK(m.uiTarget) as int ==
           961 + 31 * hashV(m.message) as int + hashK(m.uiTarget) as int + (31 * q) * 0x1_0000_0000;
    WrapInt(31 * inner as int + hashK(m.uiTarget) as int)
  }

  /** Messages that are equal have equal hash codes. */
  lemma EqualMessagesHaveEqualHashCodes<K, V>(a: ErrorMessage<K, V>, b: ErrorMessage<K, V>, hashK: K -> JavaInt, hashV: V -> JavaInt)
    requires MessageEquals(a, b)
    ensures MessageHashCode(a, hashK, hashV) == MessageHashCode(b, hashK, hashV)
  {
  }
}
