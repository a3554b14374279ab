/** GojulJoinDataService: LEFT JOIN and INNER JOIN over a GojulJoinData.
    For every left key, in first-seen order, and every left element under it,
    in input order, the left join emits one pair per right element with the
    same key (in input order), or a single pair with a null right side when
    no right element has that key. Null keys join like any other key. */
module JoinService {
  import opened Lang
  import opened Pairs
  import opened JoinData
  import Preconditions

  /** `elementsToJoin.get(key)`: the list under `key`, or null when absent. */
  function Lookup<K, V>(m: LinkedMultimap<K, V>, k: K): (r: Option<seq<V>>)
    ensures r.None? <==> k !in m.buckets
    ensures r.Some? ==> r.value == Bucket(m, k)
  {
    if k in m.buckets then Some(m.buckets[k]) else None
  }

  /** The pairs emitted for one left element. */
  ghost function PairsFor<S, T>(e: Option<S>, target: Option<seq<Option<T>>>): seq<Pair<S, T>>
  {
    match target
    case None => [Pair(e, None)]
    case Some(ts) => seq(|ts|, j requires 0 <= j < |ts| => Pair(e, ts[j]))
  }

  /** The pairs emitted by `joinForKey` for a list of left elements. */
  ghost function JoinForKeySpec<S, T>(elements: seq<Option<S>>, target: Option<seq<Option<T>>>): seq<Pair<S, T>>
    decreases |elements|
  {
    if elements == [] then []
    else
      var n := |elements| - 1;
      JoinForKeySpec(elements[..n], target) + PairsFor(elements[n], target)
  }

  /** The pairs emitted by `leftJoin` for the given left keys, in order. */
  ghost function LeftJoinOver<K, S, T>(keys: seq<K>, left: LinkedMultimap<K, Option<S>>, right: LinkedMultimap<K, Option<T>>)
    : seq<Pair<S, T>>
    decreases |keys|
  {
    if keys == [] then []
    else
      var n := |keys| - 1;
      LeftJoinOver(keys[..n], left, right) + JoinForKeySpec(Bucket(left, keys[n]), Lookup(right, keys[n]))
  }

  ghost function LeftJoinSpec<K, S, T>(jd: JoinData<K, S, T>): seq<Pair<S, T>>
  {
    LeftJoinOver(jd.leftElementsPerKey.keys, jd.leftElementsPerKey, jd.rightElementsKey)
  }

  /** The stream filter of `innerJoin`: keep the pairs whose right side is
      not null, in order. */
  function KeepMatched<S, T>(pairs: seq<Pair<S, T>>): (r: seq<Pair<S, T>>)
    ensures |r| <= |pairs|
    ensures forall i :: 0 <= i < |r| ==> r[i].second.Some?
    ensures forall p :: p in r ==> p in pairs && p.second.Some?
    ensures forall p :: p in pairs && p.second.Some? ==> p in r
    decreases |pairs|
  {
    if pairs == [] then []
    else (if pairs[0].second.Some? then [pairs[0]] else []) + KeepMatched(pairs[1..])
  }

  // ---------------------------------------------------------------------
  // The service's methods
  // ---------------------------------------------------------------------

  /** `joinForKey`: pairs every element of `elements` with each right element
      under `key`, or with null when `key` has no right element. */
  method JoinForKey<K(==), S, T>(key: K, elements: seq<Option<S>>, elementsToJoin: LinkedMultimap<K, Option<T>>)
    returns (result: seq<Pair<S, T>>)
    ensures result == JoinForKeySpec(elements, Lookup(elementsToJoin, key))
  {
    var targetElements := Lookup(elementsToJoin, key);
    result := [];
    for i := 0 to |elements|
      invariant result == JoinForKeySpec(elements[..i], targetElements)
    {
      assert elements[..i + 1][..i] == elements[..i];
      var element := elements[i];
      if targetElements.None? {
        result := result + [Pair(element, None)];
      } else {
        var ts := targetElements.value;
        ghost var before := result;
        for j := 0 to |ts|
          invariant result == before + PairsFor(element, Some(ts[..j]))
        {
          assert PairsFor(element, Some(ts[..j + 1])) == PairsFor(element, Some(ts[..j])) + [Pair(element, ts[j])];
          result := result + [Pair(element, ts[j])];
        }
        assert ts[..|ts|] == ts;
      }
    }
    assert elements[..|elements|] == elements;
  }

  /** `leftJoin`: a null argument is rejected; otherwise the pairs of every
      left key, in the order the keys were first seen. */
  method LeftJoin<K(==), S, T>(joinData: Option<JoinData<K, S, T>>) returns (r: Result<seq<Pair<S, T>>>)
    requires joinData.Some? ==> JoinDataValid(joinData.value)
    ensures joinData.None? ==> r == Throws(NullPointerException("joinData is null"))
    ensures joinData.Some? ==> r == Ok(LeftJoinSpec(joinData.value))
  {
    var c := Preconditions.CheckNotNull(joinData, "joinData is null");
    if c.Thrown? {
      return Throws(c.error);
    }
    var leftElements := GetLeftElementsPerKey(joinData.value);
    var rightElements := GetRightElementsPerKey(joinData.value);
    var result := [];
    for i := 0 to |leftElements.keys|
      invariant result == LeftJoinOver(leftElements.keys[..i], leftElements, rightElements)
    {
      var key := leftElements.keys[i];
      var forKey := JoinForKey(key, leftElements.buckets[key], rightElements);
      LeftJoinOverStep(leftElements.keys, i, leftElements, rightElements);
      result := result + forKey;
    }
    assert leftElements.keys[..|leftElements.keys|] == leftElements.keys;
    r := Ok(result);
  }

  /** One more key of the left join appends that key's pairs. */
  lemma LeftJoinOverStep<K, S, T>(keys: seq<K>, i: nat, left: LinkedMultimap<K, Option<S>>, right: LinkedMultimap<K, Option<T>>)
    requires i < |keys|
    ensures LeftJoinOver(keys[..i + 1], left, right)
         == LeftJoinOver(keys[..i], left, right) + JoinForKeySpec(Bucket(left, keys[i]), Lookup(right, keys[i]))
  {
    assert keys[..i + 1][..i] == keys[..i];
  }

  /** `innerJoin`: a null argument is rejected; otherwise the left join
      without the pairs whose right side is null. */
  method InnerJoin<K(==), S, T>(joinData: Option<JoinData<K, S, T>>) returns (r: Result<seq<Pair<S, T>>>)
    requires joinData.Some? ==> JoinDataValid(joinData.value)
    ensures joinData.None? ==> r == Throws(NullPointerException("joinData is null"))
    ensures joinData.Some? ==> r == Ok(KeepMatched(LeftJoinSpec(joinData.value)))
  {
    var c := Preconditions.CheckNotNull(joinData, "joinData is null");
    if c.Thrown? {
      return Throws(c.error);
    }
    var left := LeftJoin(joinData);
    r := Ok(KeepMatched(left.value));
  }

  // ---------------------------------------------------------------------
  // What the joins compute
  // ---------------------------------------------------------------------

  lemma PairsForMembership<S, T>(e: Option<S>, target: Option<seq<Option<T>>>, p: Pair<S, T>)
    ensures target.None? ==> (p in PairsFor(e, target) <==> p == Pair(e, None))
    ensures target.Some? ==> (p in PairsFor(e, target) <==> p.first == e && p.second in target.value)
  {
    if target.Some? && p.first == e && p.second in target.value {
      var j :| 0 <= j < |target.value| && target.value[j] == p.second;
      assert PairsFor(e, target)[j] == p;
    }
  }

  lemma {:induction false} JoinForKeyMembership<S, T>(elements: seq<Option<S>>, target: Option<seq<Option<T>>>, p: Pair<S, T>)
    ensures p in JoinForKeySpec(elements, target) <==> exists a :: 0 <= a < |elements| && p in PairsFor(elements[a], target)
    decreases |elements|
  {
    if elements != [] {
      var n := |elements| - 1;
      JoinForKeyMembership(elements[..n], target, p);
      if exists a :: 0 <= a < n && p in PairsFor(elements[..n][a], target) {
        var a :| 0 <= a < n && p in PairsFor(elements[..n][a], target);
        assert elements[..n][a] == elements[a];
      }
      if exists a :: 0 <= a < |elements| && p in PairsFor(elements[a], target) {
        var a :| 0 <= a < |elements| && p in PairsFor(elements[a], target);
        if a < n {
          assert elements[..n][a] == elements[a];
        }
      }
    }
  }

  lemma {:induction false} LeftJoinOverMembership<K, S, T>(keys: seq<K>, left: LinkedMultimap<K, Option<S>>,
                                                           right: LinkedMultimap<K, Option<T>>, p: Pair<S, T>)
    ensures p in LeftJoinOver(keys, left, right) ==>
            exists k :: k in keys && p in JoinForKeySpec(Bucket(left, k), Lookup(right, k))
    ensures forall k :: k in keys && p in JoinForKeySpec(Bucket(left, k), Lookup(right, k)) ==>
            p in LeftJoinOver(keys, left, right)
    decreases |keys|
  {
    if keys != [] {
      var n := |keys| - 1;
      assert keys == keys[..n] + [keys[n]];
      LeftJoinOverMembership(keys[..n], left, right, p);
    }
  }

  /** What the right side offers for key `k`: null when no right element has
      that key, otherwise exactly the right elements with that key. */
  lemma LookupOfGroup<K, T>(rk: Option<T> -> K, rd: seq<Option<T>>, k: K)
    ensures Lookup(Group(rk, rd), k).None? <==> forall t :: t in rd ==> rk(t) != k
    ensures Lookup(Group(rk, rd), k).None? <==> Select(rk, rd, k) == []
    ensures Lookup(Group(rk, rd), k).Some? ==> Lookup(Group(rk, rd), k).value == Select(rk, rd, k)
  {
    GroupKeys(rk, rd, k);
    GroupBucketIsSelection(rk, rd, k);
    GroupIsWellFormed(rk, rd);
    if exists t :: t in rd && rk(t) == k {
      var t :| t in rd && rk(t) == k;
      var i :| 0 <= i < |rd| && rd[i] == t;
      assert rk(rd[i]) == k;
    }
  }

  /** A pair is in the left join of two inputs exactly when its left side is
      a left element and either its right side is a right element with the
      same key, or it is null and no right element has that key. */
  lemma LeftJoinMembership<K, S, T>(lk: Option<S> -> K, ld: seq<Option<S>>, rk: Option<T> -> K, rd: seq<Option<T>>, p: Pair<S, T>)
    ensures p in LeftJoinSpec(JoinData(Group(lk, ld), Group(rk, rd))) <==>
            && p.first in ld
            && ((p.second in rd && rk(p.second) == lk(p.first)) ||
                (p.second.None? && forall t :: t in rd ==> rk(t) != lk(p.first)))
  {
    var L, R := Group(lk, ld), Group(rk, rd);
    LeftJoinOverMembership(L.keys, L, R, p);
    if p in LeftJoinSpec(JoinData(L, R)) {
      var k :| k in L.keys && p in JoinForKeySpec(Bucket(L, k), Lookup(R, k));
      JoinForKeyMembership(Bucket(L, k), Lookup(R, k), p);
      var a :| 0 <= a < |Bucket(L, k)| && p in PairsFor(Bucket(L, k)[a], Lookup(R, k));
      var e := Bucket(L, k)[a];
      GroupBucketIsSelection(lk, ld, k);
      SelectMembership(lk, ld, k, e);
      PairsForMembership(e, Lookup(R, k), p);
      LookupOfGroup(rk, rd, k);
      if Lookup(R, k).Some? {
        SelectMembership(rk, rd, k, p.second);
      }
    } else if p.first in ld {
      var e := p.first;
      var k := lk(e);
      GroupKeys(lk, ld, k);
      var i :| 0 <= i < |ld| && ld[i] == e;
      assert lk(ld[i]) == k;
      GroupBucketIsSelection(lk, ld, k);
      SelectMembership(lk, ld, k, e);
      var a :| 0 <= a < |Bucket(L, k)| && Bucket(L, k)[a] == e;
      LookupOfGroup(rk, rd, k);
      PairsForMembership(e, Lookup(R, k), p);
      if Lookup(R, k).Some? {
        SelectMembership(rk, rd, k, p.second);
      }
      JoinForKeyMembership(Bucket(L, k), Lookup(R, k), p);
    }
  }

  /** A pair is in the inner join exactly when its left side is a left
      element and its right side is a non-null right element with the same
      key. A null right element is dropped even when its key matches. */
  lemma InnerJoinMembership<K, S, T>(lk: Option<S> -> K, ld: seq<Option<S>>, rk: Option<T> -> K, rd: seq<Option<T>>, p: Pair<S, T>)
    ensures p in KeepMatched(LeftJoinSpec(JoinData(Group(lk, ld), Group(rk, rd)))) <==>
            p.first in ld && p.second.Some? && p.second in rd && rk(p.second) == lk(p.first)
  {
    LeftJoinMembership(lk, ld, rk, rd, p);
  }

  /** The left join keeps every left element: each one is the left side of
      at least one pair. */
  lemma EveryLeftElementIsJoined<K, S, T>(lk: Option<S> -> K, ld: seq<Option<S>>, rk: Option<T> -> K, rd: seq<Option<T>>, e: Option<S>)
    requires e in ld
    ensures exists p :: p in LeftJoinSpec(JoinData(Group(lk, ld), Group(rk, rd))) && p.first == e
  {
    if t :| t in rd && rk(t) == lk(e) {
      LeftJoinMembership(lk, ld, rk, rd, Pair(e, t));
    } else {
      LeftJoinMembership(lk, ld, rk, rd, Pair(e, None));
    }
  }

  /** Number of pairs one left element with key `k` contributes. */
  ghost function Width<K, T>(rk: Option<T> -> K, rd: seq<Option<T>>, k: K): nat
  {
    if Select(rk, rd, k) == [] then 1 else |Select(rk, rd, k)|
  }

  lemma {:induction false} JoinForKeyLength<K, S, T>(lk: Option<S> -> K, elements: seq<Option<S>>,
                                                     rk: Option<T> -> K, rd: seq<Option<T>>, k: K)
    requires forall i :: 0 <= i < |elements| ==> lk(elements[i]) == k
    ensures |JoinForKeySpec(elements, Lookup(Group(rk, rd), k))| == Weight(elements, e => Width(rk, rd, lk(e)))
    decreases |elements|
  {
    if elements != [] {
      var n := |elements| - 1;
      var target := Lookup(Group(rk, rd), k);
      assert forall i :: 0 <= i < n ==> lk(elements[..n][i]) == k;
      JoinForKeyLength(lk, elements[..n], rk, rd, k);
      LookupOfGroup(rk, rd, k);
      assert lk(elements[n]) == k;
      assert |PairsFor(elements[n], target)| == Width(rk, rd, k);
    }
  }

  lemma {:induction false} LeftJoinOverLength<K, S, T>(keys: seq<K>, lk: Option<S> -> K, ld: seq<Option<S>>,
                                                       rk: Option<T> -> K, rd: seq<Option<T>>)
    ensures |LeftJoinOver(keys, Group(lk, ld), Group(rk, rd))|
         == WeightByKeys(keys, Group(lk, ld), e => Width(rk, rd, lk(e)))
    decreases |keys|
  {
    if keys != [] {
      var n := |keys| - 1;
      var k := keys[n];
      var bucket := Bucket(Group(lk, ld), k);
      LeftJoinOverLength(keys[..n], lk, ld, rk, rd);
      GroupBucketIsSelection(lk, ld, k);
      forall i | 0 <= i < |bucket| ensures lk(bucket[i]) == k {
        SelectMembership(lk, ld, k, bucket[i]);
      }
      JoinForKeyLength(lk, bucket, rk, rd, k);
    }
  }

  /** Size of the left join: each left element contributes as many pairs as
      there are right elements with its key, and one when there is none. */
  lemma LeftJoinLength<K, S, T>(lk: Option<S> -> K, ld: seq<Option<S>>, rk: Option<T> -> K, rd: seq<Option<T>>)
    ensures |LeftJoinSpec(JoinData(Group(lk, ld), Group(rk, rd)))| == Weight(ld, e => Width(rk, rd, lk(e)))
  {
    LeftJoinOverLength(Group(lk, ld).keys, lk, ld, rk, rd);
    GroupPreservesWeight(lk, ld, e => Width(rk, rd, lk(e)));
  }

  /** The inner-join filter distributes over concatenation, so it keeps the
      surviving pairs in their left-join order. */
  lemma {:induction false} KeepMatchedDistributes<S, T>(a: seq<Pair<S, T>>, b: seq<Pair<S, T>>)
    ensures KeepMatched(a + b) == KeepMatched(a) + KeepMatched(b)
    decreases |a|
  {
    if a != [] {
      var head := if a[0].second.Some? then [a[0]] else [];
      assert (a + b)[0] == a[0];
      assert (a + b)[1..] == a[1..] + b;
      KeepMatchedDistributes(a[1..], b);
      calc {
        KeepMatched(a + b);
        head + KeepMatched(a[1..] + b);
        head + (KeepMatched(a[1..]) + KeepMatched(b));
        (head + KeepMatched(a[1..])) + KeepMatched(b);
        KeepMatched(a) + KeepMatched(b);
      }
    } else {
      assert a + b == b;
    }
  }
}
