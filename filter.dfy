/** GojulFilterComposite: the conjunction of a list of filters, consulted in
    list order and stopping at the first filter that does not accept. A
    filter answers for a (non-null) value and a context that may be null, or
    throws; an entry of the list may itself be null, and calling `accept` on
    it throws a NullPointerException. */
module Filter {
  import opened Lang
  import Preconditions

  /** A filter's `accept`: an answer, or the exception it throws. */
  type GojulFilter<!S, !C> = (S, Option<C>) -> Result<bool>

  /** The composite keeps its own copy of the list (a sequence value), so
      later changes to the caller's list cannot reach it. */
  datatype FilterComposite<!S, !C> = FilterComposite(filters: seq<Option<GojulFilter<S, C>>>)

  /** The constructor: a null list is rejected; null entries are kept. */
  function NewFilterComposite<S, C>(filters: Option<seq<Option<GojulFilter<S, C>>>>): (r: Result<FilterComposite<S, C>>)
    ensures filters.None? ==> r == Throws(NullPointerException("filters is null"))
    ensures filters.Some? ==> r == Ok(FilterComposite(filters.value))
  {
    var c := Preconditions.CheckNotNull(filters, "filters is null");
    if c.Thrown? then Throws(c.error) else Ok(FilterComposite(filters.value))
  }

  /** `filter.accept(value, context)` on one entry of the list: a null entry
      throws a NullPointerException without a message. */
  function Consult<S, C>(filter: Option<GojulFilter<S, C>>, value: S, context: Option<C>): Result<bool>
  {
    if filter.None? then Throws(NullPointerException("")) else filter.value(value, context)
  }

  /** Entry `k` is the first one whose call does not answer `true`. */
  ghost predicate FirstNotAccepting<S, C>(filters: seq<Option<GojulFilter<S, C>>>, value: S, context: Option<C>, k: int)
  {
    0 <= k < |filters| && Consult(filters[k], value, context) != Ok(true) &&
    forall i :: 0 <= i < k ==> Consult(filters[i], value, context) == Ok(true)
  }

  /** What one run of `accept` does: its outcome, and how many filters it called. */
  datatype Evaluation = Evaluation(outcome: Result<bool>, consulted: nat)

  /** The early-exit loop of `accept`, over the filters left to consult: a
      `false` answer returns `false`, an exception propagates. */
  function Evaluate<S, C>(filters: seq<Option<GojulFilter<S, C>>>, value: S, context: Option<C>): (r: Evaluation)
    ensures r.consulted <= |filters|
    ensures r.outcome == Ok(true) <==> forall i :: 0 <= i < |filters| ==> Consult(filters[i], value, context) == Ok(true)
    // every filter before the last one consulted accepted
    ensures forall i :: 0 <= i < r.consulted - 1 ==> Consult(filters[i], value, context) == Ok(true)
    // otherwise the loop stops at the first filter that does not accept, with its outcome
    ensures r.outcome != Ok(true) ==>
              r.consulted >= 1 && r.outcome == Consult(filters[r.consulted - 1], value, context)
    // an acceptance consulted every filter
    ensures r.outcome == Ok(true) ==> r.consulted == |filters|
    decreases |filters|
  {
    if filters == [] then Evaluation(Ok(true), 0)
    else
      var first := Consult(filters[0], value, context);
      if first != Ok(true) then Evaluation(first, 1)
      else
        var rest := Evaluate(filters[1..], value, context);
        Evaluation(rest.outcome, rest.consulted + 1)
  }

  /** GojulFilterComposite.accept: a null value is rejected before any filter
      runs; otherwise the answer is `true` when every filter accepts, and is
      the outcome (`false` or an exception) of the first one that does not. */
  function Accept<S, C>(composite: FilterComposite<S, C>, value: Option<S>, context: Option<C>): (r: Result<bool>)
    ensures value.None? ==> r == Throws(NullPointerException("value is null"))
    ensures value.Some? ==>
              (r == Ok(true) <==>
               forall i :: 0 <= i < |composite.filters| ==> Consult(composite.filters[i], value.value, context) == Ok(true))
    ensures value.Some? && r != Ok(true) ==>
              exists k :: FirstNotAccepting(composite.filters, value.value, context, k) &&
                          r == Consult(composite.filters[k], value.value, context)
  {
    var c := Preconditions.CheckNotNull(value, "value is null");
    if c.Thrown? then Throws(c.error)
    else
      var e := Evaluate(composite.filters, value.value, context);
      assert e.outcome != Ok(true) ==> FirstNotAccepting(composite.filters, value.value, context, e.consulted - 1);
      e.outcome
  }

  /** Filters after the first one that does not accept are never called:
      the number of filters consulted is one past it, and its outcome (a
      rejection, or the exception it or a null entry throws) is the answer. */
  lemma StopsAtFirstNotAccepting<S, C>(filters: seq<Option<GojulFilter<S, C>>>, value: S, context: Option<C>, k: int)
    requires FirstNotAccepting(filters, value, context, k)
    ensures Evaluate(filters, value, context) == Evaluation(Consult(filters[k], value, context), k + 1)
  {
  }
}
