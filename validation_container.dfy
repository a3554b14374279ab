/** GojulValidationErrorMessageContainer: an append-only list of error
    messages. Every `addError` overload only ever appends at the end. */
module ValidationContainer {
  import opened Lang
  import opened ValidationMessage
  import Preconditions

  /** The `GojulValidationErrorMessageInstanciator` callback: builds a message, possibly null. */
  type MessageInstanciator<K, V> = () -> Option<ErrorMessage<K, V>>

  class ErrorMessageContainer<K, V> {
    var errorMessages: seq<ErrorMessage<K, V>>

    /** A new container holds no message. */
    constructor ()
      ensures errorMessages == []
      ensures !HasErrors()
    {
      errorMessages := [];
    }

    /** `addError(msg)`: a null message is rejected and nothing changes;
        otherwise `msg` is appended after every earlier message. */
    method AddError(msg: Option<ErrorMessage<K, V>>) returns (r: Outcome)
      modifies this
      ensures msg.None? ==> r == Thrown(NullPointerException("msg is null"))
      ensures msg.None? ==> errorMessages == old(errorMessages)
      ensures msg.Some? ==> r == Normal && errorMessages == old(errorMessages) + [msg.value]
    {
      r := Preconditions.CheckNotNull(msg, "msg is null");
      if r.Thrown? {
        return;
      }
      errorMessages := errorMessages + [msg.value];
    }

    /** `addError(assertion, msg)`: a null message is rejected even when the
        assertion holds; otherwise `msg` is appended exactly when the
        assertion is false. */
    method AddErrorUnless(assertion: bool, msg: Option<ErrorMessage<K, V>>) returns (r: Outcome)
      modifies this
      ensures msg.None? ==> r == Thrown(NullPointerException("msg is null"))
      ensures msg.None? ==> errorMessages == old(errorMessages)
      ensures msg.Some? ==> r == Normal
      ensures msg.Some? ==> errorMessages == old(errorMessages) + (if assertion then [] else [msg.value])
    {
      r := Preconditions.CheckNotNull(msg, "msg is null");
      if r.Thrown? {
        return;
      }
      if !assertion {
        errorMessages := errorMessages + [msg.value];
      }
    }

    /** `addError(assertion, instanciator)`: a null instanciator is rejected;
        the instanciator is called only when the assertion is false, and a
        null message from it is rejected without appending anything.
        `invoked` tells whether the instanciator was called. */
    method AddLazyErrorUnless(assertion: bool, instanciator: Option<MessageInstanciator<K, V>>)
      returns (r: Outcome, invoked: bool)
      modifies this
      ensures invoked <==> instanciator.Some? && !assertion
      ensures instanciator.None? ==> r == Thrown(NullPointerException("instanciator is null"))
      ensures invoked && instanciator.value().None? ==>
                r == Thrown(IllegalArgumentException("Trying to create a null error message !"))
      ensures r.Thrown? ==> errorMessages == old(errorMessages)
      ensures instanciator.Some? && assertion ==> r == Normal && errorMessages == old(errorMessages)
      ensures invoked && instanciator.value().Some? ==>
                r == Normal && errorMessages == old(errorMessages) + [instanciator.value().value]
    {
      invoked := false;
      r := Preconditions.CheckNotNull(instanciator, "instanciator is null");
      if r.Thrown? {
        return;
      }
      if !assertion {
        var msg := instanciator.value();
        invoked := true;
        r := Preconditions.CheckAssertion(msg.Some?, "Trying to create a null error message !");
        if r.Thrown? {
          return;
        }
        errorMessages := errorMessages + [msg.value];
      }
    }

    /** `getMessages`: every message added, in insertion order (a read-only view). */
    function GetMessages(): (r: seq<ErrorMessage<K, V>>)
      reads this
      ensures r == errorMessages
    {
      errorMessages
    }

    /** `hasErrors`: the container holds at least one message. */
    function HasErrors(): (r: bool)
      reads this
      ensures r <==> |GetMessages()| > 0
    {
      errorMessages != []
    }
  }

  /** A container reference as a Java nullable value. */
  function AsNullable<K, V>(c: ErrorMessageContainer?<K, V>): (r: Option<ErrorMessageContainer<K, V>>)
    ensures r.None? <==> c == null
    ensures r.Some? ==> r.value == c
  {
    if c == null then None else Some(c)
  }
}
