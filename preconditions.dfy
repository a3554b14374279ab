/** GojulPreconditions: guards that throw when a condition fails.
    `Objects.requireNonNull(x, msg)`, which the library uses just as often,
    behaves as `CheckNotNull` without the logging, so both are modelled here. */
module Preconditions {
  import opened Lang

  /** Throws a NullPointerException carrying `message` exactly when `obj` is null. */
  function CheckNotNull<T>(obj: Option<T>, message: string): (r: Outcome)
    ensures r.Thrown? <==> obj.None?
    ensures r.Thrown? ==> r.error == NullPointerException(message)
  {
    if obj.None? then Thrown(NullPointerException(message)) else Normal
  }

  /** Throws an IllegalArgumentException carrying `message` exactly when `assertion` is false. */
  function CheckAssertion(assertion: bool, message: string): (r: Outcome)
    ensures r.Thrown? <==> !assertion
    ensures r.Thrown? ==> r.error == IllegalArgumentException(message)
  {
    if !assertion then Thrown(IllegalArgumentException(message)) else Normal
  }
}
