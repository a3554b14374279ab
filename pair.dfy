/** GojulPair: an immutable pair whose two components may each be null.
    The getters `getFirst`/`getSecond` are the datatype's destructors;
    element `equals` is modelled by Dafny equality and element `hashCode`
    by caller-supplied hash functions. */
module Pairs {
  import opened Lang

  datatype Pair<S, T> = Pair(first: Option<S>, second: Option<T>)

  /** `a != null ? a.equals(b) : b == null`. */
  function NullSafeEquals<X(==)>(a: Option<X>, b: Option<X>): (r: bool)
    ensures r <==> a == b
  {
    match a
    case Some(x) => b.Some? && x == b.value
    case None => b.None?
  }

  /** GojulPair.equals: both components null-safe-equal. It coincides with
      structural equality of the pair. */
  function PairEquals<S(==), T(==)>(p: Pair<S, T>, q: Pair<S, T>): (r: bool)
    ensures r <==> p == q
    ensures r <==> p.first == q.first && p.second == q.second
  {
    NullSafeEquals(p.first, q.first) && NullSafeEquals(p.second, q.second)
  }

  /** GojulPair.hashCode: `31 * hash(first) + hash(second)` in Java `int`
      arithmetic, a null component hashing to 0. */
  function PairHashCode<S, T>(p: Pair<S, T>, hashS: S -> JavaInt, hashT: T -> JavaInt): (r: JavaInt)
    // the exact sum, up to a multiple of 2^32
    ensures (r as int - (31 * NullHash(p.first, hashS) + NullHash(p.second, hashT))) % 0x1_0000_0000 == 0
    ensures p.first.None? ==> r as int == NullHash(p.second, hashT)
    ensures p.first.None? && p.second.None? ==> r == 0
  {
    WrapInt(31 * NullHash(p.first, hashS) + NullHash(p.second, hashT))
  }

  /** The hash of a component that may be null: 0 for null. */
  function NullHash<X>(x: Option<X>, hash: X -> JavaInt): int
  {
    if x.Some? then hash(x.value) as int else 0
  }

  /** A pair holding a non-null component is never equal to a pair holding
      null at that position, in either position. */
  lemma NonNullNeverEqualsNull<S, T>(p: Pair<S, T>, q: Pair<S, T>)
    requires (p.first.Some? && q.first.None?) || (p.second.Some? && q.second.None?)
    ensures !PairEquals(p, q) && !PairEquals(q, p)
  {
  }

  /** Pairs that are equal have equal hash codes. */
  lemma EqualPairsHaveEqualHashCodes<S, T>(p: Pair<S, T>, q: Pair<S, T>, hashS: S -> JavaInt, hashT: T -> JavaInt)
    requires PairEquals(p, q)
    ensures PairHashCode(p, hashS, hashT) == PairHashCode(q, hashS, hashT)
  {
  }
}
