/** GojulValidationException: the exception that carries an error-message
    container, and the check that throws it when the container has errors. */
module ValidationException {
  import opened Lang
  import opened ValidationContainer
  import Preconditions

  /** The exception: its (optional) message and the container it carries. */
  datatype ValidationException<K, V> =
    ValidationException(message: Option<string>, errorMessageContainer: ErrorMessageContainer<K, V>)

  /** The outcome of `checkMessageContainerForErrors`. */
  datatype CheckResult<K, V> =
    | Passed
    | Failed(error: Exception)                       // the null-container NullPointerException
    | Invalid(exception: ValidationException<K, V>)  // the GojulValidationException thrown

  /** `new GojulValidationException(msgContainer)`: a null container is rejected. */
  function NewValidationException<K, V>(msgContainer: ErrorMessageContainer?<K, V>): (r: Result<ValidationException<K, V>>)
    ensures msgContainer == null ==> r == Throws(NullPointerException("msgContainer is null"))
    ensures msgContainer != null ==> r == Ok(ValidationException(None, msgContainer))
  {
    var c := Preconditions.CheckNotNull(AsNullable(msgContainer), "msgContainer is null");
    if c.Thrown? then Throws(c.error) else Ok(ValidationException(None, msgContainer))
  }

  /** `new GojulValidationException(msg, msgContainer)`: a null container is rejected;
      `getErrorMessageContainer` then returns the container passed in. */
  function NewValidationExceptionWithMessage<K, V>(msg: Option<string>, msgContainer: ErrorMessageContainer?<K, V>): (r: Result<ValidationException<K, V>>)
    ensures msgContainer == null ==> r == Throws(NullPointerException("msgContainer is null"))
    ensures msgContainer != null ==> r.Ok? && r.value.errorMessageContainer == msgContainer && r.value.message == msg
  {
    var c := Preconditions.CheckNotNull(AsNullable(msgContainer), "msgContainer is null");
    if c.Thrown? then Throws(c.error) else Ok(ValidationException(msg, msgContainer))
  }

  /** `checkMessageContainerForErrors`: a null container is rejected; otherwise
      it throws exactly when the container has errors, and the exception
      carries that same container and the message "Validation failed". */
  function CheckMessageContainerForErrors<K, V>(errorMsgContainer: ErrorMessageContainer?<K, V>): (r: CheckResult<K, V>)
    reads errorMsgContainer
    ensures errorMsgContainer == null ==> r == Failed(NullPointerException("errorMsgContainer is null"))
    ensures errorMsgContainer != null ==> (r.Invalid? <==> |errorMsgContainer.GetMessages()| > 0)
    ensures errorMsgContainer != null ==> (r.Passed? <==> errorMsgContainer.GetMessages() == [])
    ensures r.Invalid? ==> r.exception == ValidationException(Some("Validation failed"), errorMsgContainer)
  {
    var c := Preconditions.CheckNotNull(AsNullable(errorMsgContainer), "errorMsgContainer is null");
    if c.Thrown? then Failed(c.error)
    else if errorMsgContainer.HasErrors() then
      Invalid(ValidationException(Some("Validation failed"), errorMsgContainer))
    else Passed
  }
}
