/** GojulEncapsulationUtils: defensive copies of dates and arrays. Array
    elements are Java references, so they may be null (`Option`). */
module Encapsulation {
  import opened Lang
  import Preconditions

  /** A `java.util.Date`: a mutable number of milliseconds since the epoch. */
  class Date {
    var time: JavaLong

    constructor (time: JavaLong)
      ensures this.time == time
    {
      this.time := time;
    }
  }

  /** `copyDate`: null for null, otherwise a new date holding the same instant. */
  method CopyDate(d: Date?) returns (r: Date?)
    ensures r == null <==> d == null
    ensures d != null ==> fresh(r) && r.time == d.time
  {
    if d == null {
      return null;
    }
    r := new Date(d.time);
  }

  /** The element-wise deep copy: null elements stay null, the others are
      replaced by what the copy function returns for them. */
  function DeepCopied<T>(source: seq<Option<T>>, copy: T -> Option<T>): (r: seq<Option<T>>)
    ensures |r| == |source|
    ensures forall i :: 0 <= i < |source| && source[i].None? ==> r[i].None?
    ensures forall i :: 0 <= i < |source| && source[i].Some? ==> r[i] == copy(source[i].value)
  {
    seq(|source|, i requires 0 <= i < |source| => if source[i].None? then None else copy(source[i].value))
  }

  /** `Array.newInstance(source[0].getClass(), n)`: the new array's element
      class is read from the first element, which throws when it is null. */
  function NewArrayLikeFirst<T>(source: seq<Option<T>>): (r: Outcome)
    requires |source| > 0
    ensures r.Thrown? <==> source[0].None?
    ensures r.Thrown? ==> r.error.NullPointerException?
  {
    if source[0].None? then Thrown(NullPointerException("")) else Normal
  }

  /** The `System.arraycopy` step: a fresh array with the same elements. */
  method CopyElements<T>(source: array<Option<T>>) returns (copy: array<Option<T>>)
    ensures fresh(copy)
    ensures copy[..] == source[..]
  {
    copy := new Option<T>[source.Length];
    var i := 0;
    while i < source.Length
      invariant 0 <= i <= source.Length
      invariant copy[..i] == source[..i]
    {
      copy[i] := source[i];
      i := i + 1;
    }
  }

  /** The loop of `deepCopyArray` into a fresh array. */
  method DeepCopyElements<T>(source: array<Option<T>>, copyFunction: T -> Option<T>) returns (copy: array<Option<T>>)
    ensures fresh(copy)
    ensures copy[..] == DeepCopied(source[..], copyFunction)
  {
    copy := new Option<T>[source.Length];
    for i := 0 to source.Length
      invariant copy[..i] == DeepCopied(source[..i], copyFunction)
    {
      var elem := source[i];
      if elem.None? {
        copy[i] := None;
      } else {
        copy[i] := copyFunction(elem.value);
      }
      assert source[..i + 1] == source[..i] + [source[i]];
    }
    assert source[..source.Length] == source[..];
  }

  /** `copyArray`, as written: null for null, the array itself when it is
      empty, otherwise a fresh array with the same elements; but a null
      first element makes it throw before anything is copied. */
  method CopyArray<T>(source: array?<Option<T>>) returns (r: Result<array?<Option<T>>>)
    ensures source == null ==> r == Ok(null)
    ensures source != null && source.Length == 0 ==> r == Ok(source)
    ensures source != null && source.Length > 0 ==> (r.Throws? <==> source[0].None?)
    ensures r.Throws? ==> r.error.NullPointerException?
    ensures source != null && source.Length > 0 && r.Ok? ==>
              r.value != null && fresh(r.value) && r.value[..] == source[..]
  {
    if source == null {
      return Ok(null);
    }
    var len := source.Length;
    if len == 0 {
      return Ok(source);
    }
    var c := NewArrayLikeFirst(source[..]);
    if c.Thrown? {
      return Throws(c.error);
    }
    var copy := CopyElements(source);
    r := Ok(copy);
  }

  /** `deepCopyArray`, as written: a null copy function is rejected first;
      then null for null, the array itself when it is empty, otherwise a
      fresh array of the element-wise copies; but a null first element
      makes it throw, although the loop itself handles null elements. */
  method DeepCopyArray<T>(source: array?<Option<T>>, copyFunction: Option<T -> Option<T>>)
    returns (r: Result<array?<Option<T>>>)
    ensures copyFunction.None? ==> r == Throws(NullPointerException("copyFunction is null"))
    ensures copyFunction.Some? && source == null ==> r == Ok(null)
    ensures copyFunction.Some? && source != null && source.Length == 0 ==> r == Ok(source)
    ensures copyFunction.Some? && source != null && source.Length > 0 ==> (r.Throws? <==> source[0].None?)
    ensures r.Throws? ==> r.error.NullPointerException?
    ensures copyFunction.Some? && source != null && source.Length > 0 && r.Ok? ==>
              r.value != null && fresh(r.value) && r.value[..] == DeepCopied(source[..], copyFunction.value)
  {
    var c := Preconditions.CheckNotNull(copyFunction, "copyFunction is null");
    if c.Thrown? {
      return Throws(c.error);
    }
    if source == null {
      return Ok(null);
    }
    var len := source.Length;
    if len == 0 {
      return Ok(source);
    }
    c := NewArrayLikeFirst(source[..]);
    if c.Thrown? {
      return Throws(c.error);
    }
    var copy := DeepCopyElements(source, copyFunction.value);
    r := Ok(copy);
  }

  /** `copyArray` as evidently intended: the new array's element type does
      not depend on the first element, so any array is copied. */
  method CopyArrayNullSafe<T>(source: array?<Option<T>>) returns (r: array?<Option<T>>)
    ensures source == null ==> r == null
    ensures source != null && source.Length == 0 ==> r == source
    ensures source != null && source.Length > 0 ==> r != null && fresh(r) && r[..] == source[..]
  {
    if source == null {
      return null;
    }
    if source.Length == 0 {
      return source;
    }
    r := CopyElements(source);
  }

  /** `deepCopyArray` as evidently intended: only a null copy function is
      rejected, and null elements anywhere are copied as null. */
  method DeepCopyArrayNullSafe<T>(source: array?<Option<T>>, copyFunction: Option<T -> Option<T>>)
    returns (r: Result<array?<Option<T>>>)
    ensures copyFunction.None? ==> r == Throws(NullPointerException("copyFunction is null"))
    ensures copyFunction.Some? ==> r.Ok?
    ensures copyFunction.Some? && source == null ==> r == Ok(null)
    ensures copyFunction.Some? && source != null && source.Length == 0 ==> r == Ok(source)
    ensures copyFunction.Some? && source != null && source.Length > 0 ==>
              r.value != null && fresh(r.value) && r.value[..] == DeepCopied(source[..], copyFunction.value)
  {
    var c := Preconditions.CheckNotNull(copyFunction, "copyFunction is null");
    if c.Thrown? {
      return Throws(c.error);
    }
    if source == null {
      return Ok(null);
    }
    if source.Length == 0 {
      return Ok(source);
    }
    var copy := DeepCopyElements(source, copyFunction.value);
    r := Ok(copy);
  }

  /** The array of the deep-copy test with its null moved to the front:
      the copy as written throws, the null-safe copy succeeds. */
  method NullFirstElementCounterexample() returns (asWritten: Result<array?<Option<int>>>, corrected: Result<array?<Option<int>>>)
    ensures asWritten.Throws?
    ensures corrected.Ok? && corrected.value != null && corrected.value[..] == [None, Some(2)]
  {
    var sample := new Option<int>[2];
    sample[0] := None;
    sample[1] := Some(1);
    var copyFunction: int -> Option<int> := x => Some(x + 1);
    asWritten := DeepCopyArray(sample, Some(copyFunction));
    corrected := DeepCopyArrayNullSafe(sample, Some(copyFunction));
    assert sample[..] == [None, Some(1)];
  }
}
