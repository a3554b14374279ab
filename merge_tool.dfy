/** GojulHibernateCollectionsMergeTool: reconciles a caller-owned set of
    persistent entities (the targets) with a set of source entities, matching
    them by a generated key. Matched targets are merged in place (they keep
    their identity), source entities under keys no target has are added, and,
    in the "with delete" mode, targets without a source are removed and their
    keys returned. Entities are compared by reference, as Hibernate does. */
module MergeTool {
  import opened Lang
  import Preconditions

  /** A mergeable entity. `mergeEntity` follows the interface's contract as
      the reference implementation does: a null argument is ignored,
      otherwise the entity's state is copied from the argument. */
  class Entity<P> {
    var payload: P

    constructor (payload: P)
      ensures this.payload == payload
    {
      this.payload := payload;
    }

    method MergeEntity(entity: Entity?<P>)
      modifies this
      ensures entity == null ==> payload == old(payload)
      ensures entity != null ==> payload == old(entity.payload)
    {
      if entity == null {
        return;
      }
      payload := entity.payload;
    }
  }

  /** The caller's `Set<E>`, updated in place; it may contain null. */
  class EntitySet<P> {
    var elements: set<Entity?<P>>

    constructor (elements: set<Entity?<P>>)
      ensures this.elements == elements
    {
      this.elements := elements;
    }
  }

  /** `byKeys` groups `sources` by `keyOf`: every list is non-empty and free
      of duplicates, holds only sources with its key, and every source sits
      in the list of its key. */
  ghost predicate GroupedByKey<K, P>(byKeys: map<K, seq<Entity<P>>>, keyOf: Entity<P> -> K, sources: set<Entity<P>>)
  {
    && (forall k :: k in byKeys ==> byKeys[k] != [] && Distinct(byKeys[k]))
    && (forall k, i :: k in byKeys && 0 <= i < |byKeys[k]| ==> keyOf(byKeys[k][i]) == k && byKeys[k][i] in sources)
    && (forall e :: e in sources ==> keyOf(e) in byKeys && e in byKeys[keyOf(e)])
  }

  /** The sources whose key is `k`. */
  ghost function WithKey<K, P>(keyOf: Entity<P> -> K, sources: set<Entity<P>>, k: K): set<Entity<P>>
  {
    set s | s in sources && keyOf(s) == k
  }

  /** The sources whose key is one of `ks`. */
  ghost function WithKeyIn<K, P>(keyOf: Entity<P> -> K, sources: set<Entity<P>>, ks: set<K>): set<Entity<P>>
  {
    set s | s in sources && keyOf(s) in ks
  }

  /** Adding a key to `ks` adds the sources with that key. */
  lemma WithKeyInGrows<K, P>(keyOf: Entity<P> -> K, sources: set<Entity<P>>, ks: set<K>, k: K)
    ensures WithKeyIn(keyOf, sources, ks + {k}) == WithKeyIn(keyOf, sources, ks) + WithKey(keyOf, sources, k)
  {
  }

  /** The keys of the non-null entities of `ts`. */
  ghost function KeysOf<K, P>(keyOf: Entity<P> -> K, ts: set<Entity?<P>>): set<K>
  {
    set t: Entity<P> | t in ts :: keyOf(t)
  }

  /** The sources a merge adds: those whose key no target has. */
  ghost function Added<K, P>(keyOf: Entity<P> -> K, sources: set<Entity<P>>, targets: set<Entity?<P>>): set<Entity<P>>
  {
    set s | s in sources && keyOf(s) !in KeysOf(keyOf, targets)
  }

  /** The targets that have no source. */
  ghost function Unmatched<K, P>(keyOf: Entity<P> -> K, byKeys: map<K, seq<Entity<P>>>, targets: set<Entity?<P>>): set<Entity<P>>
  {
    set t: Entity<P> | t in targets && keyOf(t) !in byKeys
  }

  class CollectionsMergeTool<K(==), P> {
    const keyInstanciator: Entity<P> -> K
    const sourceEntitiesByKeys: map<K, seq<Entity<P>>>
    ghost const sourceEntities: set<Entity<P>>

    ghost predicate Valid()
    {
      GroupedByKey(sourceEntitiesByKeys, keyInstanciator, sourceEntities)
    }

    /** Several sources are filed under `k`. */
    ghost predicate Ambiguous(k: K)
    {
      k in sourceEntitiesByKeys && |sourceEntitiesByKeys[k]| > 1
    }

    /** The grouping loop of the constructor, over the source set in its
        (unspecified) iteration order. The null checks are in
        `NewCollectionsMergeTool`. */
    constructor (keyInstanciator: Entity<P> -> K, sourceEntities: set<Entity<P>>)
      ensures Valid()
      ensures this.keyInstanciator == keyInstanciator && this.sourceEntities == sourceEntities
    {
      var byKeys: map<K, seq<Entity<P>>> := map[];
      var rest := sourceEntities;
      while rest != {}
        invariant rest <= sourceEntities
        invariant GroupedByKey(byKeys, keyInstanciator, sourceEntities - rest)
        decreases rest
      {
        var entity :| entity in rest;
        rest := rest - {entity};
        var key := keyInstanciator(entity);
        if key !in byKeys {
          byKeys := byKeys[key := []];
        }
        byKeys := byKeys[key := byKeys[key] + [entity]];
      }
      this.keyInstanciator := keyInstanciator;
      this.sourceEntitiesByKeys := byKeys;
      this.sourceEntities := sourceEntities;
    }

    /** `getEntityForKey`: null when no source has the key, an
        IllegalStateException when several do, otherwise the one source
        with that key. */
    function GetEntityForKey(key: K): (r: Result<Entity?<P>>)
      requires Valid()
      ensures r.Ok? && r.value == null <==> WithKey(keyInstanciator, sourceEntities, key) == {}
      ensures r.Throws? <==> |WithKey(keyInstanciator, sourceEntities, key)| > 1
      ensures r.Throws? ==> r.error.IllegalStateException?
      ensures r.Ok? && r.value != null ==> WithKey(keyInstanciator, sourceEntities, key) == {r.value}
      ensures r.Ok? && r.value != null ==> key in sourceEntitiesByKeys && r.value == sourceEntitiesByKeys[key][0]
    {
      BucketIsSourcesWithKey(sourceEntitiesByKeys, keyInstanciator, sourceEntities, key);
      if key !in sourceEntitiesByKeys || |sourceEntitiesByKeys[key]| == 0 then Ok(null)
      else if |sourceEntitiesByKeys[key]| > 1 then
        Throws(IllegalStateException("Multiple entities found for key %s - cannot merge"))
      else Ok(sourceEntitiesByKeys[key][0])
    }

    /** `getSourceEntityAndMarkKeyAsProcessed`: looks up the source of a
        target and, when that does not throw, removes its key from the keys
        still to process. */
    method GetSourceEntityAndMarkKeyAsProcessed(entityToMerge: Entity<P>, unprocessedKeys: set<K>)
      returns (r: Result<Entity?<P>>, remainingKeys: set<K>)
      requires Valid()
      ensures r.Throws? <==> Ambiguous(keyInstanciator(entityToMerge))
      ensures r.Throws? ==> r.error.IllegalStateException? && remainingKeys == unprocessedKeys
      ensures r.Ok? ==> r.value == if keyInstanciator(entityToMerge) in sourceEntitiesByKeys
                                   then sourceEntitiesByKeys[keyInstanciator(entityToMerge)][0] else null
      ensures r.Ok? ==> remainingKeys == unprocessedKeys - {keyInstanciator(entityToMerge)}
    {
      AmbiguousIffSeveralSources();
      var key := keyInstanciator(entityToMerge);
      r := GetEntityForKey(key);
      if r.Throws? {
        return r, unprocessedKeys;
      }
      remainingKeys := unprocessedKeys - {key};
    }

    /** `addRemainingEntities`: adds every source filed under one of `unprocessedKeys`. */
    method AddRemainingEntities(entities: EntitySet<P>, unprocessedKeys: set<K>)
      requires Valid()
      modifies entities
      ensures entities.elements == old(entities.elements) + WithKeyIn(keyInstanciator, sourceEntities, unprocessedKeys)
    {
      var rest := unprocessedKeys;
      ghost var done: set<K> := {};
      while rest != {}
        invariant done + rest == unprocessedKeys
        invariant entities.elements == old(entities.elements) + WithKeyIn(keyInstanciator, sourceEntities, done)
        decreases rest
      {
        var key :| key in rest;
        rest := rest - {key};
        BucketIsSourcesWithKey(sourceEntitiesByKeys, keyInstanciator, sourceEntities, key);
        WithKeyInGrows(keyInstanciator, sourceEntities, done, key);
        if key in sourceEntitiesByKeys {
          entities.elements := entities.elements + (set e | e in sourceEntitiesByKeys[key]);
        }
        done := done + {key};
      }
    }

    /** The targets' loop of `mergeEntitiesWithoutDelete`: each target, in
        the set's (unspecified) iteration order, is merged with the source of
        its key, and that key is marked processed. */
    method MergeEachTarget(entities: EntitySet<P>) returns (r: Outcome, unprocessedKeys: set<K>)
      requires Valid() && null !in entities.elements
      modifies entities.elements
      ensures forall s :: s in sourceEntities ==> s.payload == old(s.payload)
      ensures r.Thrown? <==> exists t: Entity<P> :: t in entities.elements &&
                               Ambiguous(keyInstanciator(t))
      ensures r.Thrown? ==>
                && r.error.IllegalStateException?
                && forall t: Entity<P> :: t in entities.elements ==>
                     || t.payload == old(t.payload)
                     || (keyInstanciator(t) in sourceEntitiesByKeys &&
                         t.payload == old(sourceEntitiesByKeys[keyInstanciator(t)][0].payload))
      ensures r.Normal? ==> unprocessedKeys == sourceEntitiesByKeys.Keys - KeysOf(keyInstanciator, entities.elements)
      ensures r.Normal? ==>
                forall t: Entity<P> :: t in entities.elements ==>
                  t.payload == if keyInstanciator(t) in sourceEntitiesByKeys
                               then old(sourceEntitiesByKeys[keyInstanciator(t)][0].payload)
                               else old(t.payload)
    {
      r := Normal;
      unprocessedKeys := sourceEntitiesByKeys.Keys;
      var toVisit := entities.elements;
      ghost var visited: set<Entity<P>> := {};
      while toVisit != {}
        invariant toVisit <= entities.elements && visited <= entities.elements
        invariant forall t: Entity<P> :: t in entities.elements ==> (t in visited <==> t !in toVisit)
        invariant unprocessedKeys == sourceEntitiesByKeys.Keys - KeysOf(keyInstanciator, visited)
        invariant forall t :: t in visited ==> !Ambiguous(keyInstanciator(t))
        invariant forall s :: s in sourceEntities ==> s.payload == old(s.payload)
        invariant forall t: Entity<P> :: t in entities.elements && t !in visited ==> t.payload == old(t.payload)
        invariant forall t :: t in visited && keyInstanciator(t) !in sourceEntitiesByKeys ==> t.payload == old(t.payload)
        invariant forall t :: t in visited && keyInstanciator(t) in sourceEntitiesByKeys ==>
                    t.payload == old(sourceEntitiesByKeys[keyInstanciator(t)][0].payload)
        decreases toVisit
      {
        var entityToMerge :| entityToMerge in toVisit;
        toVisit := toVisit - {entityToMerge};
        var sourceEntity, remainingKeys := GetSourceEntityAndMarkKeyAsProcessed(entityToMerge, unprocessedKeys);
        if sourceEntity.Throws? {
          return Thrown(sourceEntity.error), unprocessedKeys;
        }
        unprocessedKeys := remainingKeys;
        if sourceEntity.value != null {
          MergeKeepsSources(entityToMerge);
        }
        entityToMerge.MergeEntity(sourceEntity.value);
        visited := visited + {entityToMerge};
      }
      assert forall t: Entity<P> :: t in entities.elements ==> t in visited;
      assert KeysOf(keyInstanciator, visited) == KeysOf(keyInstanciator, entities.elements);
    }

    /** `mergeEntitiesWithoutDelete`: every target is merged with the source
        of its key (or with null, which changes nothing), then the sources
        under keys no target has are added. Nothing is removed. A key with
        several sources aborts the merge when a target has it, leaving the
        targets already merged as they are. */
    method MergeEntitiesWithoutDelete(entities: EntitySet?<P>) returns (r: Outcome)
      requires Valid()
      modifies entities, if entities == null then {} else entities.elements
      ensures entities == null ==> r == Thrown(NullPointerException("entities is null"))
      ensures entities != null && null in old(entities.elements) ==>
                && r == Thrown(IllegalArgumentException("entities contains null value"))
                && entities.elements == old(entities.elements)
                && forall t: Entity<P> :: t in old(entities.elements) ==> t.payload == old(t.payload)
      // the source entities are left unaltered
      ensures forall s :: s in sourceEntities ==> s.payload == old(s.payload)
      ensures entities != null && null !in old(entities.elements) ==>
                (r.Thrown? <==> exists t: Entity<P> :: t in old(entities.elements) &&
                                  |WithKey(keyInstanciator, sourceEntities, keyInstanciator(t))| > 1)
      ensures r.Thrown? && entities != null && null !in old(entities.elements) ==>
                && r.error.IllegalStateException?
                && entities.elements == old(entities.elements)
                && forall t: Entity<P> :: t in old(entities.elements) ==>
                     || t.payload == old(t.payload)
                     || (keyInstanciator(t) in sourceEntitiesByKeys &&
                         t.payload == old(sourceEntitiesByKeys[keyInstanciator(t)][0].payload))
      ensures r.Normal? ==> entities != null
      ensures r.Normal? ==>
                entities.elements == old(entities.elements) + Added(keyInstanciator, sourceEntities, old(entities.elements))
      ensures r.Normal? ==>
                forall t: Entity<P> :: t in old(entities.elements) ==>
                  t.payload == if keyInstanciator(t) in sourceEntitiesByKeys
                               then old(sourceEntitiesByKeys[keyInstanciator(t)][0].payload)
                               else old(t.payload)
    {
      if entities == null {
        return Thrown(NullPointerException("entities is null"));
      }
      r := Preconditions.CheckAssertion(null !in entities.elements, "entities contains null value");
      if r.Thrown? {
        return;
      }
      var unprocessedKeys;
      r, unprocessedKeys := MergeEachTarget(entities);
      AmbiguousIffSeveralSources();
      if r.Thrown? {
        return;
      }
      RemainingSourcesAreAdded(entities.elements);
      AddRemainingEntities(entities, unprocessedKeys);
    }

    /** The targets' loop of `mergeEntitiesWithDelete`: a target with a
        source is merged with it, a target without one is removed from the
        set and its key recorded. */
    method MergeOrRemoveEachTarget(entities: EntitySet<P>) returns (r: Result<set<K>>, unprocessedKeys: set<K>)
      requires Valid() && null !in entities.elements
      modifies entities, entities.elements
      ensures forall s :: s in sourceEntities ==> s.payload == old(s.payload)
      ensures r.Throws? <==> exists t: Entity<P> :: t in old(entities.elements) &&
                               Ambiguous(keyInstanciator(t))
      ensures r.Throws? ==>
                && r.error.IllegalStateException?
                && entities.elements <= old(entities.elements)
                && (forall t: Entity<P> :: t in old(entities.elements) && t !in entities.elements ==>
                      keyInstanciator(t) !in sourceEntitiesByKeys)
                && forall t: Entity<P> :: t in old(entities.elements) ==>
                     || t.payload == old(t.payload)
                     || (keyInstanciator(t) in sourceEntitiesByKeys &&
                         t.payload == old(sourceEntitiesByKeys[keyInstanciator(t)][0].payload))
      ensures r.Ok? ==>
                entities.elements == old(entities.elements) - Unmatched(keyInstanciator, sourceEntitiesByKeys, old(entities.elements))
      ensures r.Ok? ==>
                r.value == KeysOf(keyInstanciator, Unmatched(keyInstanciator, sourceEntitiesByKeys, old(entities.elements)))
      ensures r.Ok? ==> unprocessedKeys == sourceEntitiesByKeys.Keys - KeysOf(keyInstanciator, old(entities.elements))
      ensures r.Ok? ==>
                forall t: Entity<P> :: t in old(entities.elements) ==>
                  t.payload == if keyInstanciator(t) in sourceEntitiesByKeys
                               then old(sourceEntitiesByKeys[keyInstanciator(t)][0].payload)
                               else old(t.payload)
    {
      ghost var targets := entities.elements;
      var keysToRemove: set<K> := {};
      unprocessedKeys := sourceEntitiesByKeys.Keys;
      var toVisit := entities.elements;
      ghost var visited: set<Entity<P>> := {};
      while toVisit != {}
        invariant toVisit <= targets && visited <= targets
        invariant forall t: Entity<P> :: t in targets ==> (t in visited <==> t !in toVisit)
        invariant entities.elements == targets - Unmatched(keyInstanciator, sourceEntitiesByKeys, visited)
        invariant keysToRemove == KeysOf(keyInstanciator, Unmatched(keyInstanciator, sourceEntitiesByKeys, visited))
        invariant unprocessedKeys == sourceEntitiesByKeys.Keys - KeysOf(keyInstanciator, visited)
        invariant forall t :: t in visited ==> !Ambiguous(keyInstanciator(t))
        invariant forall s :: s in sourceEntities ==> s.payload == old(s.payload)
        invariant forall t: Entity<P> :: t in targets && t !in visited ==> t.payload == old(t.payload)
        invariant forall t :: t in visited && keyInstanciator(t) !in sourceEntitiesByKeys ==> t.payload == old(t.payload)
        invariant forall t :: t in visited && keyInstanciator(t) in sourceEntitiesByKeys ==>
                    t.payload == old(sourceEntitiesByKeys[keyInstanciator(t)][0].payload)
        decreases toVisit
      {
        var entityToMerge :| entityToMerge in toVisit;
        toVisit := toVisit - {entityToMerge};
        var sourceEntity, remainingKeys := GetSourceEntityAndMarkKeyAsProcessed(entityToMerge, unprocessedKeys);
        if sourceEntity.Throws? {
          return Throws(sourceEntity.error), unprocessedKeys;
        }
        unprocessedKeys := remainingKeys;
        VisitStep(keyInstanciator, sourceEntitiesByKeys, visited, entityToMerge);
        if sourceEntity.value == null {
          entities.elements := entities.elements - {entityToMerge};
          keysToRemove := keysToRemove + {keyInstanciator(entityToMerge)};
        } else {
          MergeKeepsSources(entityToMerge);
          entityToMerge.MergeEntity(sourceEntity.value);
        }
        visited := visited + {entityToMerge};
      }
      assert forall t: Entity<P> :: t in targets ==> t in visited;
      assert KeysOf(keyInstanciator, visited) == KeysOf(keyInstanciator, targets);
      assert Unmatched(keyInstanciator, sourceEntitiesByKeys, visited)
          == Unmatched(keyInstanciator, sourceEntitiesByKeys, targets);
      r := Ok(keysToRemove);
    }

    /** `mergeEntitiesWithDelete`: as `mergeEntitiesWithoutDelete`, except
        that a target without a source is removed instead of merged, and the
        keys of the removed targets are returned. */
    method MergeEntitiesWithDelete(entities: EntitySet?<P>) returns (r: Result<set<K>>)
      requires Valid()
      modifies entities, if entities == null then {} else entities.elements
      ensures entities == null ==> r == Throws(NullPointerException("entities is null"))
      ensures entities != null && null in old(entities.elements) ==>
                && r == Throws(IllegalArgumentException("entities contains null value"))
                && entities.elements == old(entities.elements)
                && forall t: Entity<P> :: t in old(entities.elements) ==> t.payload == old(t.payload)
      // the source entities are left unaltered
      ensures forall s :: s in sourceEntities ==> s.payload == old(s.payload)
      ensures entities != null && null !in old(entities.elements) ==>
                (r.Throws? <==> exists t: Entity<P> :: t in old(entities.elements) &&
                                  |WithKey(keyInstanciator, sourceEntities, keyInstanciator(t))| > 1)
      ensures r.Throws? && entities != null && null !in old(entities.elements) ==>
                && r.error.IllegalStateException?
                && entities.elements <= old(entities.elements)
                && (forall t: Entity<P> :: t in old(entities.elements) && t !in entities.elements ==>
                      keyInstanciator(t) !in sourceEntitiesByKeys)
                && forall t: Entity<P> :: t in old(entities.elements) ==>
                     || t.payload == old(t.payload)
                     || (keyInstanciator(t) in sourceEntitiesByKeys &&
                         t.payload == old(sourceEntitiesByKeys[keyInstanciator(t)][0].payload))
      ensures r.Ok? ==> entities != null
      ensures r.Ok? ==>
                entities.elements == old(entities.elements)
                                     - Unmatched(keyInstanciator, sourceEntitiesByKeys, old(entities.elements))
                                     + Added(keyInstanciator, sourceEntities, old(entities.elements))
      ensures r.Ok? ==>
                r.value == KeysOf(keyInstanciator, Unmatched(keyInstanciator, sourceEntitiesByKeys, old(entities.elements)))
      ensures r.Ok? ==>
                forall t: Entity<P> :: t in old(entities.elements) ==>
                  t.payload == if keyInstanciator(t) in sourceEntitiesByKeys
                               then old(sourceEntitiesByKeys[keyInstanciator(t)][0].payload)
                               else old(t.payload)
    {
      if entities == null {
        return Throws(NullPointerException("entities is null"));
      }
      var c := Preconditions.CheckAssertion(null !in entities.elements, "entities contains null value");
      if c.Thrown? {
        return Throws(c.error);
      }
      ghost var targets := entities.elements;
      var unprocessedKeys;
      r, unprocessedKeys := MergeOrRemoveEachTarget(entities);
      AmbiguousIffSeveralSources();
      if r.Throws? {
        return;
      }
      RemainingSourcesAreAdded(targets);
      AddRemainingEntities(entities, unprocessedKeys);
    }

    /** Merging a target with the source of its key never alters a source:
        a target that is itself a source is the only source of its key, so
        it is merged with itself. */
    lemma MergeKeepsSources(target: Entity<P>)
      requires Valid()
      requires keyInstanciator(target) in sourceEntitiesByKeys && !Ambiguous(keyInstanciator(target))
      ensures target in sourceEntities ==> sourceEntitiesByKeys[keyInstanciator(target)][0] == target
    {
    }

    /** A key has several sources exactly when several are filed under it. */
    lemma AmbiguousIffSeveralSources()
      requires Valid()
      ensures forall k :: Ambiguous(k) <==> |WithKey(keyInstanciator, sourceEntities, k)| > 1
    {
      forall k ensures Ambiguous(k) <==> |WithKey(keyInstanciator, sourceEntities, k)| > 1 {
        BucketIsSourcesWithKey(sourceEntitiesByKeys, keyInstanciator, sourceEntities, k);
      }
    }

    /** The sources under the keys left unprocessed are exactly the sources
        whose key no target has. */
    lemma RemainingSourcesAreAdded(targets: set<Entity?<P>>)
      requires Valid()
      ensures WithKeyIn(keyInstanciator, sourceEntities, sourceEntitiesByKeys.Keys - KeysOf(keyInstanciator, targets))
           == Added(keyInstanciator, sourceEntities, targets)
    {
    }
  }

  /** The GojulHibernateCollectionsMergeTool constructor: rejects a null key
      instanciator, then a null source set, then a source set holding null;
      otherwise groups the sources by key. */
  method NewCollectionsMergeTool<K(==), P>(keyInstanciator: Option<Entity<P> -> K>, sourceEntities: Option<set<Entity?<P>>>)
    returns (r: Result<CollectionsMergeTool<K, P>>)
    ensures keyInstanciator.None? ==> r == Throws(NullPointerException("keyInstanciator is null"))
    ensures keyInstanciator.Some? && sourceEntities.None? ==> r == Throws(NullPointerException("sourceEntities is null"))
    ensures keyInstanciator.Some? && sourceEntities.Some? && null in sourceEntities.value ==>
              r == Throws(IllegalArgumentException("sourceEntities contains null value while forbidden"))
    ensures r.Ok? <==> keyInstanciator.Some? && sourceEntities.Some? && null !in sourceEntities.value
    ensures r.Ok? ==> fresh(r.value) && r.value.Valid()
    ensures r.Ok? ==> r.value.keyInstanciator == keyInstanciator.value && r.value.sourceEntities == sourceEntities.value
  {
    var c := Preconditions.CheckNotNull(keyInstanciator, "keyInstanciator is null");
    if c.Thrown? {
      return Throws(c.error);
    }
    c := Preconditions.CheckNotNull(sourceEntities, "sourceEntities is null");
    if c.Thrown? {
      return Throws(c.error);
    }
    c := Preconditions.CheckAssertion(null !in sourceEntities.value, "sourceEntities contains null value while forbidden");
    if c.Thrown? {
      return Throws(c.error);
    }
    var sources: set<Entity<P>> := set e: Entity<P> | e in sourceEntities.value;
    var tool := new CollectionsMergeTool(keyInstanciator.value, sources);
    r := Ok(tool);
  }

  /** How the sets a merge loop tracks grow when one more target is visited. */
  lemma VisitStep<K, P>(keyOf: Entity<P> -> K, byKeys: map<K, seq<Entity<P>>>, visited: set<Entity<P>>, e: Entity<P>)
    ensures KeysOf(keyOf, visited + {e}) == KeysOf(keyOf, visited) + {keyOf(e)}
    ensures keyOf(e) !in byKeys ==> Unmatched(keyOf, byKeys, visited + {e}) == Unmatched(keyOf, byKeys, visited) + {e}
    ensures keyOf(e) in byKeys ==> Unmatched(keyOf, byKeys, visited + {e}) == Unmatched(keyOf, byKeys, visited)
    ensures KeysOf(keyOf, Unmatched(keyOf, byKeys, visited) + {e}) == KeysOf(keyOf, Unmatched(keyOf, byKeys, visited)) + {keyOf(e)}
  {
  }

  /** The list filed under a key holds exactly the sources with that key,
      each once; so its length is their number. */
  lemma BucketIsSourcesWithKey<K, P>(byKeys: map<K, seq<Entity<P>>>, keyOf: Entity<P> -> K, sources: set<Entity<P>>, k: K)
    requires GroupedByKey(byKeys, keyOf, sources)
    ensures k in byKeys ==> (set e | e in byKeys[k]) == WithKey(keyOf, sources, k)
    ensures k in byKeys ==> |byKeys[k]| == |WithKey(keyOf, sources, k)|
    ensures k !in byKeys ==> WithKey(keyOf, sources, k) == {}
  {
    if k in byKeys {
      var bucket := byKeys[k];
      assert forall e :: e in bucket ==> e in WithKey(keyOf, sources, k) by {
        forall e | e in bucket ensures e in WithKey(keyOf, sources, k) {
          var i :| 0 <= i < |bucket| && bucket[i] == e;
        }
      }
      DistinctSequenceCardinality(bucket);
    }
  }

  lemma {:induction false} DistinctSequenceCardinality<X>(s: seq<X>)
    requires Distinct(s)
    ensures |set x | x in s| == |s|
    decreases |s|
  {
    if s != [] {
      var n := |s| - 1;
      DistinctSequenceCardinality(s[..n]);
      assert (set x | x in s) == (set x | x in s[..n]) + {s[n]};
      assert s[n] !in s[..n];
    }
  }

  /** After a merge with delete, the targets' keys are exactly the sources'
      keys: unmatched targets are gone and every source key is covered. */
  lemma KeysAfterMergeWithDelete<K, P>(byKeys: map<K, seq<Entity<P>>>, keyOf: Entity<P> -> K,
                                       sources: set<Entity<P>>, targets: set<Entity?<P>>)
    requires GroupedByKey(byKeys, keyOf, sources)
    ensures KeysOf(keyOf, targets - Unmatched(keyOf, byKeys, targets) + Added(keyOf, sources, targets)) == byKeys.Keys
  {
    var result := targets - Unmatched(keyOf, byKeys, targets) + Added(keyOf, sources, targets);
    forall k | k in byKeys ensures k in KeysOf(keyOf, result) {
      if k in KeysOf(keyOf, targets) {
        var t: Entity<P> :| t in targets && keyOf(t) == k;
        assert t in result;
      } else {
        var s := byKeys[k][0];
        assert s in result;
      }
    }
  }

  /** After a merge without delete, the targets' keys are the old targets'
      keys together with the sources' keys. */
  lemma KeysAfterMergeWithoutDelete<K, P>(byKeys: map<K, seq<Entity<P>>>, keyOf: Entity<P> -> K,
                                          sources: set<Entity<P>>, targets: set<Entity?<P>>)
    requires GroupedByKey(byKeys, keyOf, sources)
    ensures KeysOf(keyOf, targets + Added(keyOf, sources, targets)) == KeysOf(keyOf, targets) + byKeys.Keys
  {
    var result := targets + Added(keyOf, sources, targets);
    forall k | k in byKeys ensures k in KeysOf(keyOf, result) {
      if k !in KeysOf(keyOf, targets) {
        var s := byKeys[k][0];
        assert s in result;
      }
    }
  }

  /** The keys a merge with delete reports are keys of the old targets that
      have no source, and no other. */
  lemma RemovedKeysHaveNoSource<K, P>(byKeys: map<K, seq<Entity<P>>>, keyOf: Entity<P> -> K, targets: set<Entity?<P>>)
    ensures KeysOf(keyOf, Unmatched(keyOf, byKeys, targets)) == KeysOf(keyOf, targets) - byKeys.Keys
  {
    forall k | k in KeysOf(keyOf, targets) - byKeys.Keys ensures k in KeysOf(keyOf, Unmatched(keyOf, byKeys, targets)) {
      var t: Entity<P> :| t in targets && keyOf(t) == k;
      assert t in Unmatched(keyOf, byKeys, targets);
    }
  }
}
