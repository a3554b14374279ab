/** GojulJoinData: the two sides of an in-memory equi-join, each grouped by
    its key function into an insertion-ordered multimap (a LinkedHashMap
    from key to the list of elements with that key). Elements are Java
    references, so they may be null (`Option`); a null key is an ordinary
    value of the key type. */
module JoinData {
  import opened Lang
  import Preconditions

  /** A LinkedHashMap<K, List<V>>: the keys in insertion order, and the list under each key. */
  datatype LinkedMultimap<K, V> = LinkedMultimap(keys: seq<K>, buckets: map<K, seq<V>>)

  /** The shape every grouping has: each key listed once, exactly the keys
      of the map, and no empty list. */
  ghost predicate WellFormed<K, V>(m: LinkedMultimap<K, V>)
  {
    && Distinct(m.keys)
    && (forall k :: k in m.buckets ==> k in m.keys)
    && (forall k :: k in m.keys ==> k in m.buckets)
    && (forall k :: k in m.buckets ==> m.buckets[k] != [])
  }

  /** The list under `k`, or the empty list when `k` is absent. */
  function Bucket<K, V>(m: LinkedMultimap<K, V>, k: K): seq<V>
  {
    if k in m.buckets then m.buckets[k] else []
  }

  /** One step of `buildElementsMapPerKey`: append `x` to the list of `k`,
      registering `k` at the end of the key order when it is new. */
  ghost function Put<K, V>(m: LinkedMultimap<K, V>, k: K, x: V): LinkedMultimap<K, V>
  {
    if k in m.buckets then LinkedMultimap(m.keys, m.buckets[k := m.buckets[k] + [x]])
    else LinkedMultimap(m.keys + [k], m.buckets[k := [x]])
  }

  /** The grouping of `data` by `keyOf`, element by element in input order. */
  ghost function Group<K, V>(keyOf: V -> K, data: seq<V>): LinkedMultimap<K, V>
    decreases |data|
  {
    if data == [] then LinkedMultimap([], map[])
    else
      var n := |data| - 1;
      Put(Group(keyOf, data[..n]), keyOf(data[n]), data[n])
  }

  /** Reference definition: the elements of `data` whose key is `k`, in input order. */
  ghost function Select<K, V>(keyOf: V -> K, data: seq<V>, k: K): seq<V>
    decreases |data|
  {
    if data == [] then []
    else
      var n := |data| - 1;
      Select(keyOf, data[..n], k) + (if keyOf(data[n]) == k then [data[n]] else [])
  }

  /** The sum of `w` over the elements of `s`. */
  ghost function Weight<V>(s: seq<V>, w: V -> nat): nat
    decreases |s|
  {
    if s == [] then 0 else Weight(s[..|s| - 1], w) + w(s[|s| - 1])
  }

  /** The sum of `w` over the lists of `keys`, in order. */
  ghost function WeightByKeys<K, V>(keys: seq<K>, m: LinkedMultimap<K, V>, w: V -> nat): nat
    decreases |keys|
  {
    if keys == [] then 0
    else WeightByKeys(keys[..|keys| - 1], m, w) + Weight(Bucket(m, keys[|keys| - 1]), w)
  }

  /** The sum of the sizes of the lists of `keys`, in order. */
  ghost function SizeByKeys<K, V>(keys: seq<K>, m: LinkedMultimap<K, V>): nat
    decreases |keys|
  {
    if keys == [] then 0
    else SizeByKeys(keys[..|keys| - 1], m) + |Bucket(m, keys[|keys| - 1])|
  }

  // ---------------------------------------------------------------------
  // buildElementsMapPerKey and the constructor
  // ---------------------------------------------------------------------

  /** `buildElementsMapPerKey`: one pass over `data`, appending each element
      to the list of its key and creating the list on first sight. */
  method BuildElementsMapPerKey<K(==), V>(keyGen: V -> K, data: seq<V>) returns (r: LinkedMultimap<K, V>)
    ensures r == Group(keyGen, data)
    ensures WellFormed(r)
    ensures forall k :: Bucket(r, k) == Select(keyGen, data, k)
  {
    var keys: seq<K> := [];
    var result: map<K, seq<V>> := map[];
    for i := 0 to |data|
      invariant LinkedMultimap(keys, result) == Group(keyGen, data[..i])
    {
      assert data[..i + 1][..i] == data[..i];
      ghost var before := LinkedMultimap(keys, result);
      var elem := data[i];
      var key := keyGen(elem);
      if key !in result {
        keys := keys + [key];
        result := result[key := []];
        assert result[key] + [elem] == [elem];
      }
      result := result[key := result[key] + [elem]];
      assert result == Put(before, key, elem).buckets;
    }
    assert data[..|data|] == data;
    r := LinkedMultimap(keys, result);
    GroupIsWellFormed(keyGen, data);
    forall k ensures Bucket(r, k) == Select(keyGen, data, k) {
      GroupBucketIsSelection(keyGen, data, k);
    }
  }

  datatype JoinData<K, S, T> = JoinData(
    leftElementsPerKey: LinkedMultimap<K, Option<S>>,
    rightElementsKey: LinkedMultimap<K, Option<T>>)

  ghost predicate JoinDataValid<K, S, T>(jd: JoinData<K, S, T>)
  {
    WellFormed(jd.leftElementsPerKey) && WellFormed(jd.rightElementsKey)
  }

  /** The GojulJoinData constructor: rejects a null argument, checking the
      left key, the left elements, the right key and the right elements in
      that order; otherwise groups each side by its key. */
  method NewJoinData<K(==), S, T>(
    leftKey: Option<Option<S> -> K>, leftElements: Option<seq<Option<S>>>,
    rightKey: Option<Option<T> -> K>, rightElements: Option<seq<Option<T>>>)
    returns (r: Result<JoinData<K, S, T>>)
    ensures leftKey.None? ==> r == Throws(NullPointerException("leftKey is null"))
    ensures leftKey.Some? && leftElements.None? ==> r == Throws(NullPointerException("leftElements is null"))
    ensures leftKey.Some? && leftElements.Some? && rightKey.None? ==>
              r == Throws(NullPointerException("rightKey is null"))
    ensures leftKey.Some? && leftElements.Some? && rightKey.Some? && rightElements.None? ==>
              r == Throws(NullPointerException("rightElements is null"))
    ensures r.Ok? <==> leftKey.Some? && leftElements.Some? && rightKey.Some? && rightElements.Some?
    ensures r.Ok? ==> r.value == JoinData(Group(leftKey.value, leftElements.value), Group(rightKey.value, rightElements.value))
    ensures r.Ok? ==> JoinDataValid(r.value)
  {
    var c := Preconditions.CheckNotNull(leftKey, "leftKey is null");
    if c.Thrown? { return Throws(c.error); }
    c := Preconditions.CheckNotNull(leftElements, "leftElements is null");
    if c.Thrown? { return Throws(c.error); }
    c := Preconditions.CheckNotNull(rightKey, "rightKey is null");
    if c.Thrown? { return Throws(c.error); }
    c := Preconditions.CheckNotNull(rightElements, "rightElements is null");
    if c.Thrown? { return Throws(c.error); }
    var left := BuildElementsMapPerKey(leftKey.value, leftElements.value);
    var right := BuildElementsMapPerKey(rightKey.value, rightElements.value);
    r := Ok(JoinData(left, right));
  }

  // ---------------------------------------------------------------------
  // Getters
  // ---------------------------------------------------------------------

  /** `deepUnmodifiableMap`: rebuilds the map entry by entry in iteration
      order; the result has the same keys, in the same order, and the same lists. */
  method DeepUnmodifiableMap<K(==), V>(m: LinkedMultimap<K, V>) returns (r: LinkedMultimap<K, V>)
    requires WellFormed(m)
    ensures r == m
  {
    var keys: seq<K> := [];
    var buckets: map<K, seq<V>> := map[];
    for i := 0 to |m.keys|
      invariant keys == m.keys[..i]
      invariant buckets.Keys == set j | 0 <= j < i :: m.keys[j]
      invariant forall k :: k in buckets ==> k in m.buckets && buckets[k] == m.buckets[k]
    {
      var k := m.keys[i];
      keys := keys + [k];
      buckets := buckets[k := m.buckets[k]];
    }
    assert keys == m.keys;
    assert forall k :: k in m.buckets ==> k in buckets by {
      forall k | k in m.buckets ensures k in buckets {
        var j :| 0 <= j < |m.keys| && m.keys[j] == k;
      }
    }
    r := LinkedMultimap(keys, buckets);
  }

  /** `getLeftElementsPerKey`: the left grouping, as a read-only copy. */
  method GetLeftElementsPerKey<K(==), S, T>(jd: JoinData<K, S, T>) returns (r: LinkedMultimap<K, Option<S>>)
    requires JoinDataValid(jd)
    ensures r == jd.leftElementsPerKey
  {
    r := DeepUnmodifiableMap(jd.leftElementsPerKey);
  }

  /** `getRightElementsPerKey`: the right grouping, as a read-only copy. */
  method GetRightElementsPerKey<K(==), S, T>(jd: JoinData<K, S, T>) returns (r: LinkedMultimap<K, Option<T>>)
    requires JoinDataValid(jd)
    ensures r == jd.rightElementsKey
  {
    r := DeepUnmodifiableMap(jd.rightElementsKey);
  }

  /** `get` gives the same list for every key either map holds; for any
      other key both give the empty list. */
  ghost predicate SameLists<K, V>(m1: LinkedMultimap<K, V>, m2: LinkedMultimap<K, V>)
  {
    forall k :: k in m1.buckets.Keys + m2.buckets.Keys ==> Bucket(m1, k) == Bucket(m2, k)
  }

  /** GojulJoinData.equals: the left maps are equal and the right maps are
      equal. Map equality ignores the order in which keys were inserted. */
  function JoinDataEquals<K(==), S(==), T(==)>(a: JoinData<K, S, T>, b: JoinData<K, S, T>): (r: bool)
    // reflexive, as Object.equals requires
    ensures a == b ==> r
    // equal values answer every `get` alike, on both sides
    ensures r ==> SameLists(a.leftElementsPerKey, b.leftElementsPerKey) &&
                  SameLists(a.rightElementsKey, b.rightElementsKey)
    // for values the constructor builds, answering every `get` alike is equality
    ensures (JoinDataValid(a) && JoinDataValid(b) &&
             SameLists(a.leftElementsPerKey, b.leftElementsPerKey) &&
             SameLists(a.rightElementsKey, b.rightElementsKey)) ==> r
  {
    SameBucketsSameMap(a.leftElementsPerKey, b.leftElementsPerKey);
    SameBucketsSameMap(a.rightElementsKey, b.rightElementsKey);
    a.leftElementsPerKey.buckets == b.leftElementsPerKey.buckets &&
    a.rightElementsKey.buckets == b.rightElementsKey.buckets
  }

  // ---------------------------------------------------------------------
  // What the grouping is
  // ---------------------------------------------------------------------

  lemma {:induction false} GroupIsWellFormed<K, V>(keyOf: V -> K, data: seq<V>)
    ensures WellFormed(Group(keyOf, data))
    decreases |data|
  {
    if data != [] {
      var n := |data| - 1;
      GroupIsWellFormed(keyOf, data[..n]);
    }
  }

  /** Each key's list holds exactly the input elements with that key, in input order. */
  lemma {:induction false} GroupBucketIsSelection<K, V>(keyOf: V -> K, data: seq<V>, k: K)
    ensures Bucket(Group(keyOf, data), k) == Select(keyOf, data, k)
    decreases |data|
  {
    if data != [] {
      var n := |data| - 1;
      GroupBucketIsSelection(keyOf, data[..n], k);
    }
  }

  /** An element is selected under `k` exactly when it is in the input and has key `k`. */
  lemma {:induction false} SelectMembership<K, V>(keyOf: V -> K, data: seq<V>, k: K, x: V)
    ensures x in Select(keyOf, data, k) <==> x in data && keyOf(x) == k
    decreases |data|
  {
    if data != [] {
      var n := |data| - 1;
      SelectMembership(keyOf, data[..n], k, x);
      assert data == data[..n] + [data[n]];
    }
  }

  /** The keys are exactly the keys of the input elements. */
  lemma {:induction false} GroupKeys<K, V>(keyOf: V -> K, data: seq<V>, k: K)
    ensures k in Group(keyOf, data).keys <==> exists i :: 0 <= i < |data| && keyOf(data[i]) == k
    ensures k in Group(keyOf, data).buckets <==> k in Group(keyOf, data).keys
    decreases |data|
  {
    GroupIsWellFormed(keyOf, data);
    if data != [] {
      var n := |data| - 1;
      GroupKeys(keyOf, data[..n], k);
      if exists i :: 0 <= i < n && keyOf(data[..n][i]) == k {
        var i :| 0 <= i < n && keyOf(data[..n][i]) == k;
        assert keyOf(data[i]) == k;
      }
      if exists i :: 0 <= i < |data| && keyOf(data[i]) == k {
        var i :| 0 <= i < |data| && keyOf(data[i]) == k;
        if i < n {
          assert keyOf(data[..n][i]) == k;
        }
      }
    }
  }

  /** Keys are listed in first-occurrence order: whenever key `a` is listed
      before key `b`, every occurrence of `b` in the input comes after some
      occurrence of `a`. */
  lemma {:induction false} GroupKeysInFirstSeenOrder<K, V>(keyOf: V -> K, data: seq<V>, a: nat, b: nat, j: nat)
    requires a < b < |Group(keyOf, data).keys|
    requires j < |data| && keyOf(data[j]) == Group(keyOf, data).keys[b]
    ensures exists i :: 0 <= i < j && keyOf(data[i]) == Group(keyOf, data).keys[a]
    decreases |data|
  {
    var n := |data| - 1;
    var prev := Group(keyOf, data[..n]);
    var keys := Group(keyOf, data).keys;
    var ka := keys[a];
    if keyOf(data[n]) in prev.buckets {
      // the key order did not change
      assert keys == prev.keys;
      if j < n {
        assert keyOf(data[..n][j]) == keys[b];
        GroupKeysInFirstSeenOrder(keyOf, data[..n], a, b, j);
        var i :| 0 <= i < j && keyOf(data[..n][i]) == ka;
        assert keyOf(data[i]) == ka;
      } else {
        // keys[b] was already listed, so it occurs earlier at some j0 < n
        GroupKeys(keyOf, data[..n], keys[b]);
        GroupIsWellFormed(keyOf, data[..n]);
        var j0 :| 0 <= j0 < n && keyOf(data[..n][j0]) == keys[b];
        GroupKeysInFirstSeenOrder(keyOf, data[..n], a, b, j0);
        var i :| 0 <= i < j0 && keyOf(data[..n][i]) == ka;
        assert keyOf(data[i]) == ka;
      }
    } else {
      assert keys == prev.keys + [keyOf(data[n])];
      GroupKeys(keyOf, data[..n], ka);
      GroupKeys(keyOf, data[..n], keyOf(data[n]));
      var i0 :| 0 <= i0 < n && keyOf(data[..n][i0]) == ka;
      if b < |prev.keys| {
        // keys[b] is an old key: it cannot be the new last element's key
        assert keys[b] in prev.keys;
        assert j < n;
        assert keyOf(data[..n][j]) == keys[b];
        GroupKeysInFirstSeenOrder(keyOf, data[..n], a, b, j);
        var i :| 0 <= i < j && keyOf(data[..n][i]) == ka;
        assert keyOf(data[i]) == ka;
      } else {
        // keys[b] is the new key, first seen at position n
        forall i | 0 <= i < n ensures keyOf(data[i]) != keyOf(data[n]) {
          assert data[..n][i] == data[i];
        }
        assert j == n;
        assert keyOf(data[i0]) == ka;
      }
    }
  }

  lemma {:induction false} WeightByKeysFrame<K, V>(keys: seq<K>, m1: LinkedMultimap<K, V>, m2: LinkedMultimap<K, V>, w: V -> nat)
    requires forall k :: k in keys ==> Bucket(m1, k) == Bucket(m2, k)
    ensures WeightByKeys(keys, m1, w) == WeightByKeys(keys, m2, w)
    decreases |keys|
  {
    if keys != [] {
      var n := |keys| - 1;
      assert forall k :: k in keys[..n] ==> k in keys;
      WeightByKeysFrame(keys[..n], m1, m2, w);
    }
  }

  lemma {:induction false} WeightByKeysUpdate<K, V>(keys: seq<K>, m1: LinkedMultimap<K, V>, m2: LinkedMultimap<K, V>, k0: K, x: V, w: V -> nat)
    requires Distinct(keys) && k0 in keys
    requires Bucket(m2, k0) == Bucket(m1, k0) + [x]
    requires forall k :: k in keys && k != k0 ==> Bucket(m1, k) == Bucket(m2, k)
    ensures WeightByKeys(keys, m2, w) == WeightByKeys(keys, m1, w) + w(x)
    decreases |keys|
  {
    var n := |keys| - 1;
    var init := keys[..n];
    assert forall k :: k in init ==> k in keys;
    if keys[n] == k0 {
      assert k0 !in init;
      WeightByKeysFrame(init, m1, m2, w);
      assert Bucket(m2, k0)[..|Bucket(m2, k0)| - 1] == Bucket(m1, k0);
    } else {
      assert k0 in init;
      WeightByKeysUpdate(init, m1, m2, k0, x, w);
    }
  }

  /** Grouping neither loses nor duplicates an element: summing any weight
      list by list gives the sum over the input. */
  lemma {:induction false} GroupPreservesWeight<K, V>(keyOf: V -> K, data: seq<V>, w: V -> nat)
    ensures WeightByKeys(Group(keyOf, data).keys, Group(keyOf, data), w) == Weight(data, w)
    decreases |data|
  {
    if data != [] {
      var n := |data| - 1;
      var prev := Group(keyOf, data[..n]);
      var g := Group(keyOf, data);
      var k0 := keyOf(data[n]);
      GroupPreservesWeight(keyOf, data[..n], w);
      GroupIsWellFormed(keyOf, data[..n]);
      if k0 in prev.buckets {
        WeightByKeysUpdate(prev.keys, prev, g, k0, data[n], w);
      } else {
        assert g.keys == prev.keys + [k0];
        assert g.keys[..|g.keys| - 1] == prev.keys;
        WeightByKeysFrame(prev.keys, prev, g, w);
        assert Bucket(g, k0) == [data[n]];
        assert Weight([data[n]], w) == w(data[n]);
      }
    }
  }

  lemma {:induction false} WeightOfOnes<V>(s: seq<V>)
    ensures Weight(s, _ => 1) == |s|
    decreases |s|
  {
    if s != [] {
      WeightOfOnes(s[..|s| - 1]);
    }
  }

  /** Summing sizes is summing a weight of one per element. */
  lemma {:induction false} SizesAreUnitWeights<K, V>(keys: seq<K>, m: LinkedMultimap<K, V>)
    ensures SizeByKeys(keys, m) == WeightByKeys(keys, m, _ => 1)
    decreases |keys|
  {
    if keys != [] {
      SizesAreUnitWeights(keys[..|keys| - 1], m);
      WeightOfOnes(Bucket(m, keys[|keys| - 1]));
    }
  }

  /** The list sizes add up to the input length. */
  lemma GroupSizesSumToLength<K, V>(keyOf: V -> K, data: seq<V>)
    ensures SizeByKeys(Group(keyOf, data).keys, Group(keyOf, data)) == |data|
  {
    SizesAreUnitWeights(Group(keyOf, data).keys, Group(keyOf, data));
    GroupPreservesWeight(keyOf, data, _ => 1);
    WeightOfOnes(data);
  }

  /** Two groupings have equal maps exactly when they select the same
      elements, in the same order, under every key. */
  lemma GroupsEqualIffSameSelections<K, V>(keyOf1: V -> K, data1: seq<V>, keyOf2: V -> K, data2: seq<V>)
    ensures Group(keyOf1, data1).buckets == Group(keyOf2, data2).buckets ==>
              forall k :: Select(keyOf1, data1, k) == Select(keyOf2, data2, k)
    ensures (forall k :: Select(keyOf1, data1, k) == Select(keyOf2, data2, k)) ==>
              Group(keyOf1, data1).buckets == Group(keyOf2, data2).buckets
  {
    var g1, g2 := Group(keyOf1, data1), Group(keyOf2, data2);
    GroupIsWellFormed(keyOf1, data1);
    GroupIsWellFormed(keyOf2, data2);
    SameBucketsSameMap(g1, g2);
    if forall k :: Select(keyOf1, data1, k) == Select(keyOf2, data2, k) {
      forall k ensures Bucket(g1, k) == Bucket(g2, k) {
        GroupBucketIsSelection(keyOf1, data1, k);
        GroupBucketIsSelection(keyOf2, data2, k);
      }
      assert SameLists(g1, g2);
    }
    if g1.buckets == g2.buckets {
      forall k ensures Select(keyOf1, data1, k) == Select(keyOf2, data2, k) {
        GroupBucketIsSelection(keyOf1, data1, k);
        GroupBucketIsSelection(keyOf2, data2, k);
        assert Bucket(g1, k) == Bucket(g2, k);
      }
    }
    assert g1.buckets == g2.buckets ==> forall k :: Select(keyOf1, data1, k) == Select(keyOf2, data2, k);
    assert (forall k :: Select(keyOf1, data1, k) == Select(keyOf2, data2, k)) ==> g1.buckets == g2.buckets;
  }

  /** Two join-data objects built by the constructor are equal exactly when,
      for every key, both sides select the same elements in the same order. */
  lemma JoinDataEqualsIffSameSelections<K, S, T>(
    lk1: Option<S> -> K, l1: seq<Option<S>>, rk1: Option<T> -> K, r1: seq<Option<T>>,
    lk2: Option<S> -> K, l2: seq<Option<S>>, rk2: Option<T> -> K, r2: seq<Option<T>>)
    ensures JoinDataEquals(JoinData(Group(lk1, l1), Group(rk1, r1)), JoinData(Group(lk2, l2), Group(rk2, r2))) ==>
              (forall k :: Select(lk1, l1, k) == Select(lk2, l2, k)) && (forall k :: Select(rk1, r1, k) == Select(rk2, r2, k))
    ensures (forall k :: Select(lk1, l1, k) == Select(lk2, l2, k)) && (forall k :: Select(rk1, r1, k) == Select(rk2, r2, k)) ==>
              JoinDataEquals(JoinData(Group(lk1, l1), Group(rk1, r1)), JoinData(Group(lk2, l2), Group(rk2, r2)))
  {
    GroupsEqualIffSameSelections(lk1, l1, lk2, l2);
    GroupsEqualIffSameSelections(rk1, r1, rk2, r2);
  }

  /** Without empty lists, a map is determined by its `Bucket` view. */
  lemma SameBucketsSameMap<K, V>(m1: LinkedMultimap<K, V>, m2: LinkedMultimap<K, V>)
    ensures m1.buckets == m2.buckets ==> SameLists(m1, m2)
    ensures WellFormed(m1) && WellFormed(m2) && SameLists(m1, m2) ==> m1.buckets == m2.buckets
  {
    if WellFormed(m1) && WellFormed(m2) && SameLists(m1, m2) {
      assert forall k :: k in m1.buckets <==> k in m2.buckets by {
        forall k ensures k in m1.buckets <==> k in m2.buckets {
          if k in m1.buckets || k in m2.buckets {
            assert Bucket(m1, k) == Bucket(m2, k);
          }
        }
      }
      assert forall k :: k in m1.buckets ==> m1.buckets[k] == m2.buckets[k] by {
        forall k | k in m1.buckets ensures m1.buckets[k] == m2.buckets[k] {
          assert Bucket(m1, k) == Bucket(m2, k);
        }
      }
      assert m1.buckets == m2.buckets;
    }
  }
}
