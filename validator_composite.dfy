/** GojulValidatorComposite: runs a list of validators, in list order, against
    one element and one shared error-message container. A validator is modelled
    by what it does to the container, which offers only additions: the messages
    it appends (they may depend on the element and on the messages already
    there), and whether it then returns or throws. An entry of the list may be
    null, and calling `validate` on it throws a NullPointerException. */
module ValidatorComposite {
  import opened Lang
  import opened ValidationMessage
  import opened ValidationContainer
  import Preconditions

  /** One call of a validator: the messages it added, then how it ended. */
  datatype Step<K, V> = Step(appended: seq<ErrorMessage<K, V>>, outcome: Outcome)

  type Validator<!E, !K, !V> = (E, seq<ErrorMessage<K, V>>) -> Step<K, V>

  /** The composite keeps its own copy of the validator list. */
  datatype Composite<!E, !K, !V> = Composite(validators: seq<Option<Validator<E, K, V>>>)

  /** The constructor: a null list is rejected; null entries are kept. */
  function NewValidatorComposite<E, K, V>(validators: Option<seq<Option<Validator<E, K, V>>>>): (r: Result<Composite<E, K, V>>)
    ensures validators.None? ==> r == Throws(NullPointerException("validators is null"))
    ensures validators.Some? ==> r == Ok(Composite(validators.value))
  {
    var c := Preconditions.CheckNotNull(validators, "validators is null");
    if c.Thrown? then Throws(c.error) else Ok(Composite(validators.value))
  }

  /** The container's messages, and how the loop ended. */
  datatype Run<K, V> = Run(messages: seq<ErrorMessage<K, V>>, outcome: Outcome)

  /** The loop of `validate` over `validators`, starting from `messages`: each
      validator runs once, in order, on `element`; a null entry, or a
      validator that throws, ends the loop with that exception, and what was
      appended until then stays in the container. */
  function RunValidators<E, K, V>(validators: seq<Option<Validator<E, K, V>>>, element: E, messages: seq<ErrorMessage<K, V>>): Run<K, V>
    decreases |validators|
  {
    if validators == [] then Run(messages, Normal)
    else if validators[0].None? then Run(messages, Thrown(NullPointerException("")))
    else
      var step := validators[0].value(element, messages);
      var next := messages + step.appended;
      if step.outcome.Thrown? then Run(next, step.outcome)
      else RunValidators(validators[1..], element, next)
  }

  /** GojulValidatorComposite.validate: a null element, then a null container,
      is rejected before any validator runs; otherwise each validator runs
      once, in list order, on the same element and the same container, until
      one of them (or a null entry) throws. */
  method Validate<E, K, V>(composite: Composite<E, K, V>, element: Option<E>, container: ErrorMessageContainer?<K, V>)
    returns (r: Outcome)
    modifies container
    ensures element.None? ==> r == Thrown(NullPointerException("element is null"))
    ensures element.Some? && container == null ==> r == Thrown(NullPointerException("errorMsgContainer is null"))
    ensures element.None? && container != null ==> container.errorMessages == old(container.errorMessages)
    ensures element.Some? && container != null ==>
              var run := RunValidators(composite.validators, element.value, old(container.errorMessages));
              r == run.outcome && container.errorMessages == run.messages
  {
    r := Preconditions.CheckNotNull(element, "element is null");
    if r.Thrown? {
      return;
    }
    r := Preconditions.CheckNotNull(AsNullable(container), "errorMsgContainer is null");
    if r.Thrown? {
      return;
    }
    var validators := composite.validators;
    var i := 0;
    while i < |validators|
      invariant 0 <= i <= |validators|
      invariant RunValidators(validators[i..], element.value, container.errorMessages)
             == RunValidators(validators, element.value, old(container.errorMessages))
    {
      assert validators[i..][1..] == validators[i + 1..];
      if validators[i].None? {
        return Thrown(NullPointerException(""));
      }
      // the validator appends its messages to the shared container, then returns or throws
      var step := validators[i].value(element.value, container.errorMessages);
      container.errorMessages := container.errorMessages + step.appended;
      if step.outcome.Thrown? {
        return step.outcome;
      }
      i := i + 1;
    }
  }

  /** Running validators only appends, whether the loop completes or throws:
      the earlier messages stay, in order, as a prefix of the result. */
  lemma {:induction false} RunValidatorsOnlyAppends<E, K, V>(validators: seq<Option<Validator<E, K, V>>>, element: E, messages: seq<ErrorMessage<K, V>>)
    ensures |messages| <= |RunValidators(validators, element, messages).messages|
    ensures RunValidators(validators, element, messages).messages[..|messages|] == messages
    decreases |validators|
  {
    if validators != [] && validators[0].Some? {
      var step := validators[0].value(element, messages);
      var next := messages + step.appended;
      assert next[..|messages|] == messages;
      if step.outcome.Normal? {
        RunValidatorsOnlyAppends(validators[1..], element, next);
      }
    }
  }

  /** Validators run in list order: running `first + second` is running
      `first`, then, unless `first` threw, `second` on the container `first`
      left; an exception in `first` means `second` never runs. */
  lemma {:induction false} RunValidatorsConcat<E, K, V>(first: seq<Option<Validator<E, K, V>>>, second: seq<Option<Validator<E, K, V>>>, element: E, messages: seq<ErrorMessage<K, V>>)
    ensures RunValidators(first, element, messages).outcome.Thrown? ==>
              RunValidators(first + second, element, messages) == RunValidators(first, element, messages)
    ensures RunValidators(first, element, messages).outcome.Normal? ==>
              RunValidators(first + second, element, messages)
              == RunValidators(second, element, RunValidators(first, element, messages).messages)
    decreases |first|
  {
    if first != [] {
      assert (first + second)[0] == first[0];
      assert (first + second)[1..] == first[1..] + second;
      if first[0].Some? {
        var step := first[0].value(element, messages);
        if step.outcome.Normal? {
          RunValidatorsConcat(first[1..], second, element, messages + step.appended);
        }
      }
    } else {
      assert first + second == second;
    }
  }

  /** The composite reports errors afterwards whenever the container had
      errors before, however the loop ends. */
  lemma ValidateKeepsErrors<E, K, V>(validators: seq<Option<Validator<E, K, V>>>, element: E, messages: seq<ErrorMessage<K, V>>)
    requires messages != []
    ensures RunValidators(validators, element, messages).messages != []
  {
    RunValidatorsOnlyAppends(validators, element, messages);
  }
}
