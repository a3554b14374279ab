# gojulutils core, modelled in Dafny

This project models the collection and validation logic of the gojulutils
Java library and proves what its documentation and tests promise.

- **Entity-collection reconciliation** (`GojulHibernateCollectionsMergeTool`).
  Construction groups a set of source entities by a key function. The two
  merge operations then update a caller-owned set of target entities in place:
  - each target is merged with the source of its key;
  - with delete, targets without a source are removed and their keys returned;
  - the sources under keys that no target touched are added.
  A key with several sources throws an IllegalStateException, but only when a
  target hits it.
- **In-memory equi-join** (`GojulJoinData`, `GojulJoinDataService`, `GojulPair`).
  Each side is grouped into an insertion-ordered multimap. `leftJoin` emits
  pairs key by key. `innerJoin` is the left join without the pairs whose right
  side is null.
- **Short-circuit filter composite** (`GojulFilterComposite`): the conjunction
  of a list of filters, consulted in order up to the first one that rejects
  or throws.
- **Validation accumulation**:
  - the append-only error-message container;
  - the error message value;
  - the validator composite;
  - the validation exception and its container check.
- **Small helpers**:
  - `GojulPreconditions` (throw on null, throw on false);
  - `GojulEncapsulationUtils` (`copyDate`, `copyArray`, `deepCopyArray`);
  - `GojulUnboxingUtils` (null-to-default unboxing).

Conventions used throughout:
- A Java reference that may be null is a `Lang.Option` for values and a
  nullable class type (`C?`) for objects.
- A thrown exception is a `Lang.Exception` value with its message. It is
  returned through `Result` (for calls that return a value) or `Outcome` (for
  `void` calls).
- A Java constructor that can throw becomes a factory (`NewJoinData`,
  `NewCollectionsMergeTool`, and so on) that returns the error or the new
  value.
- Collaborator interfaces become parameters:
  - key functions are Dafny functions;
  - a filter is a function to an answer or a thrown exception;
  - a validator is a function from the element and the current messages to
    the messages it appends and whether it then returns or throws;
  - an entry of a filter or validator list may be null (`Option`), and
    calling it throws a NullPointerException;
  - a mergeable entity is `MergeTool.Entity`, whose `MergeEntity` copies the
    source's payload and ignores null, like the test suite's entity.
- Imperative Java code stays imperative:
  - the merge tool, the error container and the array copies are classes,
    arrays and loops;
  - `buildElementsMapPerKey`, `deepUnmodifiableMap`, `leftJoin` and
    `joinForKey` are loops proved against pure specification functions
    (`Group`, `LeftJoinSpec`);
  - everything is then proved about those specification functions.
- The copy methods in `Encapsulation` have no `modifies` clause, so they leave
  the source array unchanged.

Where the documentation and the code differ, the model follows the code. The
javadoc of the merge tool's constructor names an IllegalArgumentException for
a null source set. The code throws a NullPointerException
(`GojulHibernateCollectionsMergeTool.java:47`), and so does the model.

## Model

| member | source | states |
|---|---|---|
| Preconditions.CheckNotNull | src/main/java/org/gojul/gojulutils/validation/GojulPreconditions.java:35-40 | throws a NullPointerException carrying the given message exactly when the object is null, and returns normally otherwise |
| Preconditions.CheckAssertion | src/main/java/org/gojul/gojulutils/validation/GojulPreconditions.java:52-57 | throws an IllegalArgumentException carrying the given message exactly when the assertion is false, and returns normally otherwise |
| Unboxing.UnboxBoolean | src/main/java/org/gojul/gojulutils/safetools/GojulUnboxingUtils.java:24-26 | true exactly for a non-null TRUE; null gives false; never fails |
| Unboxing.UnboxChar | src/main/java/org/gojul/gojulutils/safetools/GojulUnboxingUtils.java:37-39 | the default for null, otherwise the wrapped value |
| Unboxing.UnboxByte | src/main/java/org/gojul/gojulutils/safetools/GojulUnboxingUtils.java:50-52 | the default for null, otherwise the wrapped value |
| Unboxing.UnboxShort | src/main/java/org/gojul/gojulutils/safetools/GojulUnboxingUtils.java:63-65 | the default for null, otherwise the wrapped value |
| Unboxing.UnboxInt | src/main/java/org/gojul/gojulutils/safetools/GojulUnboxingUtils.java:76-78 | the default for null, otherwise the wrapped value |
| Unboxing.UnboxLong | src/main/java/org/gojul/gojulutils/safetools/GojulUnboxingUtils.java:89-91 | the default for null, otherwise the wrapped value |
| Pairs.NullSafeEquals | src/main/java/org/gojul/gojulutils/data/GojulPair.java:59-60 | the null-safe comparison is true exactly when both are null or both are equal values |
| Pairs.PairEquals | src/main/java/org/gojul/gojulutils/data/GojulPair.java:53-61 | two pairs are equal exactly when their firsts and their seconds are null-safe equal |
| Pairs.NonNullNeverEqualsNull | src/main/java/org/gojul/gojulutils/data/GojulPair.java:59-60 | a pair with a non-null component never equals, in either direction, a pair with null in that position |
| Pairs.PairHashCode | src/main/java/org/gojul/gojulutils/data/GojulPair.java:67-71 | the hash code is `31 * hash(first) + hash(second)` up to a multiple of 2^32, a null component counting 0; with a null first it is the second's hash, and two nulls hash to 0 |
| Pairs.EqualPairsHaveEqualHashCodes | src/main/java/org/gojul/gojulutils/data/GojulPair.java:67-71 | equal pairs have equal hash codes, for any element hash functions |
| Filter.NewFilterComposite | src/main/java/org/gojul/gojulutils/filter/GojulFilterComposite.java:26-29 | a null list is rejected with "filters is null"; otherwise the composite holds its own copy of the list |
| Filter.Evaluate | src/main/java/org/gojul/gojulutils/filter/GojulFilterComposite.java:38-44 | the outcome is true exactly when every entry answers true; every entry before the last consulted one answered true; otherwise the outcome is that of the last consulted entry (false, the exception a filter threw, or a NullPointerException for a null entry); on acceptance all entries were consulted |
| Filter.Accept | src/main/java/org/gojul/gojulutils/filter/GojulFilterComposite.java:35-45 | a null value is rejected with "value is null" before any filter; otherwise the answer is true exactly when every entry answers true for the value with the unchanged (possibly null) context, and is otherwise the outcome (false or an exception, a null entry throwing a NullPointerException) of the first entry that does not answer true |
| Filter.StopsAtFirstNotAccepting | src/main/java/org/gojul/gojulutils/filter/GojulFilterComposite.java:38-41 | when entry k is the first not to answer true, evaluation ends with that entry's outcome after consulting exactly k+1 entries, so no later filter is called |
| ValidationMessage.NewErrorMessage | src/main/java/org/gojul/gojulutils/validation/GojulValidationErrorMessage.java:48-53 | succeeds exactly when both arguments are non-null; a null target is reported first ("uiTarget is null"), then a null message ("message is null"); the getters return the arguments |
| ValidationMessage.MessageEquals | src/main/java/org/gojul/gojulutils/validation/GojulValidationErrorMessage.java:89-108 | two messages are equal exactly when their targets and their texts are equal |
| ValidationMessage.MessageHashCode | src/main/java/org/gojul/gojulutils/validation/GojulValidationErrorMessage.java:76-82 | the hash code is `961 + 31 * hash(message) + hash(uiTarget)` up to a multiple of 2^32, the value of the `31 * result + h` steps with the starting value 1 |
| ValidationMessage.EqualMessagesHaveEqualHashCodes | src/main/java/org/gojul/gojulutils/validation/GojulValidationErrorMessage.java:76-82 | equal messages have equal hash codes, for any component hash functions |
| ValidationContainer.ErrorMessageContainer.constructor | src/main/java/org/gojul/gojulutils/validation/GojulValidationErrorMessageContainer.java:68-70 | a new container holds no message and has no errors |
| ValidationContainer.ErrorMessageContainer.AddError | src/main/java/org/gojul/gojulutils/validation/GojulValidationErrorMessageContainer.java:79-82 | a null message throws "msg is null" and leaves the list unchanged; otherwise the message is appended after the earlier ones |
| ValidationContainer.ErrorMessageContainer.AddErrorUnless | src/main/java/org/gojul/gojulutils/validation/GojulValidationErrorMessageContainer.java:95-100 | a null message is rejected even when the assertion holds; otherwise the message is appended exactly when the assertion is false |
| ValidationContainer.ErrorMessageContainer.AddLazyErrorUnless | src/main/java/org/gojul/gojulutils/validation/GojulValidationErrorMessageContainer.java:112-119 | a null instanciator is rejected; it is invoked exactly when the assertion is false; a null result throws an IllegalArgumentException and nothing is appended; otherwise its message is appended |
| ValidationContainer.ErrorMessageContainer.GetMessages | src/main/java/org/gojul/gojulutils/validation/GojulValidationErrorMessageContainer.java:125-127 | the view is the container's whole message list, in insertion order, as the add methods leave it |
| ValidationContainer.ErrorMessageContainer.HasErrors | src/main/java/org/gojul/gojulutils/validation/GojulValidationErrorMessageContainer.java:133-135 | true exactly when the message list is non-empty |
| ValidatorComposite.NewValidatorComposite | src/main/java/org/gojul/gojulutils/validation/GojulValidatorComposite.java:31-34 | a null list is rejected with "validators is null"; otherwise the composite holds its own copy of the list |
| ValidatorComposite.Validate | src/main/java/org/gojul/gojulutils/validation/GojulValidatorComposite.java:46-53 | a null element, then a null container, is rejected before any validator runs and the container is unchanged; otherwise each validator runs once, in list order, on the same element and container, until a null entry throws a NullPointerException or a validator throws; the outcome is that exception or normal return, and the container keeps every message appended until then |
| ValidatorComposite.RunValidatorsOnlyAppends | src/main/java/org/gojul/gojulutils/validation/GojulValidatorComposite.java:50-52 | running validators keeps the prior messages as a prefix, whether the loop completes or throws: nothing is removed or reordered |
| ValidatorComposite.RunValidatorsConcat | src/main/java/org/gojul/gojulutils/validation/GojulValidatorComposite.java:50-52 | running a concatenation is running the first list, then, only if it returned normally, the second list on the messages it left; if the first list throws, the second never runs |
| ValidatorComposite.ValidateKeepsErrors | src/main/java/org/gojul/gojulutils/validation/GojulValidatorComposite.java:50-52 | a container that had errors still has errors after validation, however it ends |
| ValidationException.NewValidationException | src/main/java/org/gojul/gojulutils/validation/GojulValidationException.java:22-26 | a null container is rejected with "msgContainer is null"; otherwise the exception carries that container and no message |
| ValidationException.NewValidationExceptionWithMessage | src/main/java/org/gojul/gojulutils/validation/GojulValidationException.java:36-48 | a null container is rejected with "msgContainer is null"; otherwise `getErrorMessageContainer` gives back that container and the message is kept |
| ValidationException.CheckMessageContainerForErrors | src/main/java/org/gojul/gojulutils/validation/GojulValidationException.java:66-71 | a null container throws "errorMsgContainer is null"; otherwise it throws exactly when the container has errors, with the message "Validation failed" and that same container |
| JoinData.BuildElementsMapPerKey | src/main/java/org/gojul/gojulutils/data/GojulJoinData.java:71-87 | the loop builds the grouping `Group`: keys listed once each, no empty list, and each key's list is exactly the input elements with that key, in input order |
| JoinData.NewJoinData | src/main/java/org/gojul/gojulutils/data/GojulJoinData.java:60-69 | succeeds exactly when no argument is null; otherwise the first null argument in declaration order is reported with its own message; on success both sides are the groupings of their inputs |
| JoinData.DeepUnmodifiableMap | src/main/java/org/gojul/gojulutils/data/GojulJoinData.java:109-117 | the map rebuilt entry by entry has the same keys, in the same order, with the same lists |
| JoinData.GetLeftElementsPerKey | src/main/java/org/gojul/gojulutils/data/GojulJoinData.java:95-97 | returns the same key-to-list content as the left grouping |
| JoinData.GetRightElementsPerKey | src/main/java/org/gojul/gojulutils/data/GojulJoinData.java:105-107 | returns the same key-to-list content as the right grouping |
| JoinData.GroupIsWellFormed | src/main/java/org/gojul/gojulutils/data/GojulJoinData.java:76-84 | the grouping lists each key once, holds a list for exactly the listed keys, and has no empty list |
| JoinData.GroupBucketIsSelection | src/main/java/org/gojul/gojulutils/data/GojulJoinData.java:76-84 | each key's list equals the independent selection of the input elements with that key, in input order; a null key is an ordinary key |
| JoinData.SelectMembership | src/main/java/org/gojul/gojulutils/data/GojulJoinData.java:76-84 | an element is in a key's list exactly when it is in the input and has that key |
| JoinData.GroupKeys | src/main/java/org/gojul/gojulutils/data/GojulJoinData.java:76-82 | a key is listed exactly when some input element has it |
| JoinData.GroupKeysInFirstSeenOrder | src/main/java/org/gojul/gojulutils/data/GojulJoinData.java:73-82 | keys are listed in first-occurrence order: a key listed earlier occurs in the input before any element of a key listed later |
| JoinData.GroupPreservesWeight | src/main/java/org/gojul/gojulutils/data/GojulJoinData.java:76-84 | every input element lands in exactly one list: any per-element weight summed over the lists equals its sum over the input |
| JoinData.GroupSizesSumToLength | src/main/java/org/gojul/gojulutils/data/GojulJoinData.java:76-84 | the sizes of the key lists, summed over the listed keys, add up to the input length |
| JoinData.GroupsEqualIffSameSelections | src/main/java/org/gojul/gojulutils/data/GojulJoinData.java:131-133 | two groupings have equal maps exactly when they select the same elements under every key |
| JoinData.JoinDataEquals | src/main/java/org/gojul/gojulutils/data/GojulJoinData.java:125-134 | reflexive; equal values give the same list for every key on both sides; for constructed values, giving the same list for every key on both sides implies equality, whatever the key insertion order |
| JoinData.JoinDataEqualsIffSameSelections | src/main/java/org/gojul/gojulutils/data/GojulJoinData.java:125-134 | two constructed join-data values are equal exactly when their left maps are equal and their right maps are equal, that is, when both sides select the same elements under every key |
| JoinData.SameBucketsSameMap | src/main/java/org/gojul/gojulutils/data/GojulJoinData.java:131-133 | equal maps give the same list for every key; for well-formed groupings the converse holds too |
| JoinService.Lookup | src/main/java/org/gojul/gojulutils/data/GojulJoinDataService.java:70 | `get` gives null exactly for an absent key, otherwise that key's list |
| JoinService.JoinForKey | src/main/java/org/gojul/gojulutils/data/GojulJoinDataService.java:68-85 | the nested loops build `JoinForKeySpec`: for each left element in order, one `(element, null)` pair when the key has no right list, otherwise one pair per right element in list order |
| JoinService.LeftJoin | src/main/java/org/gojul/gojulutils/data/GojulJoinDataService.java:53-66 | null is rejected with "joinData is null"; otherwise the result is `LeftJoinSpec`, the pairs of every left key in first-seen order |
| JoinService.InnerJoin | src/main/java/org/gojul/gojulutils/data/GojulJoinDataService.java:101-108 | null is rejected with "joinData is null"; otherwise the left join with the pairs whose right side is null removed |
| JoinService.KeepMatched | src/main/java/org/gojul/gojulutils/data/GojulJoinDataService.java:104-105 | the filter keeps exactly the pairs whose right side is non-null and never grows the list |
| JoinService.KeepMatchedDistributes | src/main/java/org/gojul/gojulutils/data/GojulJoinDataService.java:104-105 | the filter distributes over concatenation, so the inner join keeps the left join's order |
| JoinService.LookupOfGroup | src/main/java/org/gojul/gojulutils/data/GojulJoinDataService.java:70-80 | the right side has no list for a key exactly when no right element has that key; otherwise its list is the right elements with that key |
| JoinService.LeftJoinMembership | src/main/java/org/gojul/gojulutils/data/GojulJoinDataService.java:53-85 | a pair is in the left join exactly when its left side is a left element, and either its right side is a right element with the same key or it is null and no right element has that key |
| JoinService.InnerJoinMembership | src/main/java/org/gojul/gojulutils/data/GojulJoinDataService.java:101-108 | a pair is in the inner join exactly when its left side is a left element and its right side is a non-null right element with the same key; a null right element is dropped even when its key matches |
| JoinService.EveryLeftElementIsJoined | src/main/java/org/gojul/gojulutils/data/GojulJoinDataService.java:61-82 | every left element is the left side of at least one pair of the left join |
| JoinService.JoinForKeyLength | src/main/java/org/gojul/gojulutils/data/GojulJoinDataService.java:74-82 | one key's pairs number, per left element, the size of the matching right list, or 1 when there is none |
| JoinService.LeftJoinLength | src/main/java/org/gojul/gojulutils/data/GojulJoinDataService.java:61-82 | the left join's length is the sum over left elements of the matching right list's size, or 1 when there is none |
| MergeTool.Entity.MergeEntity | src/main/java/org/gojul/gojulutils/hibernateutils/GojulHibernateMergeable.java:20-26 | merging with null leaves the entity unchanged; otherwise it takes the source's payload |
| MergeTool.NewCollectionsMergeTool | src/main/java/org/gojul/gojulutils/hibernateutils/GojulHibernateCollectionsMergeTool.java:44-60 | a null key instanciator or a null source set throws a NullPointerException, and a source set holding null throws an IllegalArgumentException, in that order; otherwise the new tool files every source under its key |
| MergeTool.CollectionsMergeTool.constructor | src/main/java/org/gojul/gojulutils/hibernateutils/GojulHibernateCollectionsMergeTool.java:49-59 | after the grouping loop, every source sits exactly once in the list of its generated key, and each list holds only sources with that key |
| MergeTool.CollectionsMergeTool.GetEntityForKey | src/main/java/org/gojul/gojulutils/hibernateutils/GojulHibernateCollectionsMergeTool.java:157-168 | null exactly when no source has the key; an IllegalStateException exactly when several do; otherwise the one source with that key |
| MergeTool.CollectionsMergeTool.GetSourceEntityAndMarkKeyAsProcessed | src/main/java/org/gojul/gojulutils/hibernateutils/GojulHibernateCollectionsMergeTool.java:150-155 | throws exactly when the target's key has several sources, leaving the keys alone; otherwise returns the source of that key (or null) and removes the key from the unprocessed keys |
| MergeTool.CollectionsMergeTool.AddRemainingEntities | src/main/java/org/gojul/gojulutils/hibernateutils/GojulHibernateCollectionsMergeTool.java:170-177 | adds exactly the sources whose key is unprocessed, all members of multi-source lists included |
| MergeTool.CollectionsMergeTool.MergeEachTarget | src/main/java/org/gojul/gojulutils/hibernateutils/GojulHibernateCollectionsMergeTool.java:88-92 | sources are unchanged; throws exactly when some target's key has several sources; otherwise each target took its source's payload (or kept its own), and the unprocessed keys are the source keys no target has |
| MergeTool.CollectionsMergeTool.MergeEntitiesWithoutDelete | src/main/java/org/gojul/gojulutils/hibernateutils/GojulHibernateCollectionsMergeTool.java:84-95 | null and null-holding target sets are rejected before any change; sources are never modified; an IllegalStateException is thrown exactly when some target's key has several sources, with no rollback of targets already merged; otherwise no target is removed, each target took its source's payload or kept its own, and exactly the sources under keys of no target are added |
| MergeTool.CollectionsMergeTool.MergeOrRemoveEachTarget | src/main/java/org/gojul/gojulutils/hibernateutils/GojulHibernateCollectionsMergeTool.java:132-143 | the targets without a source are removed and their keys collected, the other targets are merged, and the unprocessed keys are the source keys no target has |
| MergeTool.CollectionsMergeTool.MergeEntitiesWithDelete | src/main/java/org/gojul/gojulutils/hibernateutils/GojulHibernateCollectionsMergeTool.java:128-148 | the same rejections before any change; sources never modified; an IllegalStateException exactly when some target's key has several sources, keeping earlier removals and merges; otherwise exactly the targets whose key has no source are removed, exactly their keys are returned, the rest are merged, and the sources under keys of no target are added |
| MergeTool.CollectionsMergeTool.AmbiguousIffSeveralSources | src/main/java/org/gojul/gojulutils/hibernateutils/GojulHibernateCollectionsMergeTool.java:162-166 | a key's list has several entries exactly when several sources have that key |
| MergeTool.BucketIsSourcesWithKey | src/main/java/org/gojul/gojulutils/hibernateutils/GojulHibernateCollectionsMergeTool.java:51-59 | the list filed under a key holds exactly the sources with that key, each once; a key with no list has no source |
| MergeTool.KeysAfterMergeWithDelete | src/main/java/org/gojul/gojulutils/hibernateutils/GojulHibernateCollectionsMergeTool.java:128-148 | after a successful merge with delete, the targets' keys are exactly the sources' keys |
| MergeTool.KeysAfterMergeWithoutDelete | src/main/java/org/gojul/gojulutils/hibernateutils/GojulHibernateCollectionsMergeTool.java:84-95 | after a successful merge without delete, the targets' keys are the old targets' keys together with the sources' keys |
| MergeTool.RemovedKeysHaveNoSource | src/main/java/org/gojul/gojulutils/hibernateutils/GojulHibernateCollectionsMergeTool.java:137-139 | the keys a merge with delete returns are exactly the old targets' keys that no source has |
| Encapsulation.CopyDate | src/main/java/org/gojul/gojulutils/safetools/GojulEncapsulationUtils.java:83-85 | null for null; otherwise a new date, distinct from the argument, holding the same time |
| Encapsulation.CopyArray | src/main/java/org/gojul/gojulutils/safetools/GojulEncapsulationUtils.java:99-112 | as written: null for null, the same array when empty, a NullPointerException exactly when the first element is null, otherwise a new array with the same element at every index |
| Encapsulation.DeepCopyArray | src/main/java/org/gojul/gojulutils/safetools/GojulEncapsulationUtils.java:126-149 | as written: a null copy function is rejected first, even for a null source; null for null; the same array when empty; a NullPointerException exactly when the first element is null; otherwise a new array where null entries stay null and every other entry is the copy function's result |
| Encapsulation.NewArrayLikeFirst | src/main/java/org/gojul/gojulutils/safetools/GojulEncapsulationUtils.java:109 | creating the copy from the first element's class throws exactly when that element is null |
| Encapsulation.CopyElements | src/main/java/org/gojul/gojulutils/safetools/GojulEncapsulationUtils.java:110 | the copy is a new array holding the source's elements in order |
| Encapsulation.DeepCopyElements | src/main/java/org/gojul/gojulutils/safetools/GojulEncapsulationUtils.java:139-146 | the loop fills a new array with the element-wise deep copy `DeepCopied` |
| Encapsulation.DeepCopied | src/main/java/org/gojul/gojulutils/safetools/GojulEncapsulationUtils.java:139-146 | the deep copy has the source's length, keeps null entries null, and holds the copy function's result for every other entry |
| Encapsulation.CopyArrayNullSafe | src/main/java/org/gojul/gojulutils/safetools/GojulEncapsulationUtils.java:99-112 | corrected: never throws; null for null, the same array when empty, otherwise a new array with the same contents, whatever the first element is |
| Encapsulation.DeepCopyArrayNullSafe | src/main/java/org/gojul/gojulutils/safetools/GojulEncapsulationUtils.java:126-149 | corrected: only a null copy function is rejected; null for null, the same array when empty, otherwise a new array holding the element-wise deep copy, including a null first entry |
| Encapsulation.NullFirstElementCounterexample | src/main/java/org/gojul/gojulutils/safetools/GojulEncapsulationUtils.java:137 | on the array [null, 1], the as-written deep copy throws while the corrected one returns [null, copy(1)] |

## Left out

- Date and number formatters (`GojulDateFormatter`, `GojulDecimalFormatter`, `GojulDateFormatBuilder`): caches guarded for concurrency, around foreign `java.text` formatting and floating point.
- Unmodifiable-view wrappers (`GojulCollections`, the `unmodifiable*` methods of `GojulEncapsulationUtils`): thin wrappers over `java.util.Collections`. The read-only views that `getLeftElementsPerKey`, `getRightElementsPerKey` and `getMessages` return are modelled as immutable values.
- `unboxFloat` and `unboxDouble`: floating point.
- Logging through slf4j, serialisation (JAXB, `Serializable`) and every `toString`: side effects and text rendering only.
- Pairs.PairHashCode, ValidationMessage.MessageHashCode: the element hash functions are parameters; the hash code is stated up to a multiple of 2^32, the 32-bit wrap-around itself being `Lang.WrapInt`.
- Filter.Accept, Filter.Evaluate, ValidatorComposite.Validate: an exception thrown by a filter or a validator is one of the kinds `Lang.Exception` names (NullPointerException, IllegalArgumentException, IllegalStateException); any other exception class is not represented. Errors (`OutOfMemoryError` and the like) are not modelled. Calling a null entry throws a NullPointerException whose message the JVM chooses (null, or a generated description); the model gives it the empty message.
- MergeTool.CollectionsMergeTool.GetEntityForKey: the IllegalStateException message keeps the `%s` placeholder of the format string, because the key is not rendered as text.
- Java `HashSet` and `HashMap` semantics: target and source sets are sets of object references, and a key is compared with Dafny equality. `equals`/`hashCode` overrides on entities, and mutable elements inside a hash set, are not modelled.
- Iteration order of hash sets and maps: the loops pick an arbitrary next element, so every proved property holds for every iteration order.
- JoinData.BuildElementsMapPerKey, JoinData.NewJoinData, ValidationContainer.ErrorMessageContainer.AddLazyErrorUnless, Encapsulation.DeepCopyElements, Encapsulation.DeepCopyArray, Encapsulation.DeepCopyArrayNullSafe, MergeTool.Entity.MergeEntity, MergeTool.NewCollectionsMergeTool, MergeTool.CollectionsMergeTool.constructor, MergeTool.CollectionsMergeTool.MergeEachTarget, MergeTool.CollectionsMergeTool.MergeOrRemoveEachTarget, MergeTool.CollectionsMergeTool.MergeEntitiesWithoutDelete, MergeTool.CollectionsMergeTool.MergeEntitiesWithDelete: the caller-supplied callbacks (the join key functions, the error-message instanciator, the copy function, the key instanciator and `mergeEntity`) are total functions that always return. In Java an exception from one of them passes out unchanged, after whatever partial update the loop had already made: earlier targets stay merged or removed, and earlier messages or copied elements stay. The model does not promise anything about such a run.
- The key instanciator is a pure function of the entity reference. Keys therefore cannot change while a merge updates payloads.
- Hibernate session semantics: entities are plain objects with a payload that `mergeEntity` copies.
- JoinService.LeftJoin, JoinService.InnerJoin, JoinData.GetLeftElementsPerKey, JoinData.GetRightElementsPerKey: these require a join-data value built by `NewJoinData`, since it is the only way the source can make one.
- Encapsulation.CopyArray, Encapsulation.DeepCopyArray: an ArrayStoreException, raised when a later element is not an instance of the first element's runtime class, is not modelled because the model has no runtime classes.
- `GojulJoinData.hashCode`: its arithmetic over map hash codes is left out, since it is used only in tests.

## Findings

| source | as written | input that shows it | evidently intended | confidence | as-written member | corrected member |
|---|---|---|---|---|---|---|
| src/main/java/org/gojul/gojulutils/safetools/GojulEncapsulationUtils.java:137 | `deepCopyArray` creates the copy with `Array.newInstance(source[0].getClass(), …)`, which throws a NullPointerException when the first element is null, although the loop below it explicitly copies null elements as null | `deepCopyArray(new Date[]{null, d}, f)` with any non-null `f` | a copy in which the null first entry stays null, exactly as a null in any other position does | high; not executed | Encapsulation.DeepCopyArray, Encapsulation.NullFirstElementCounterexample | Encapsulation.DeepCopyArrayNullSafe |
| src/main/java/org/gojul/gojulutils/safetools/GojulEncapsulationUtils.java:109 | `copyArray` takes the copy's element class from `source[0]`, so it throws a NullPointerException on an array whose first element is null | `copyArray(new Date[]{null, d})` | a new array with the same contents, null first entry included | high; not executed | Encapsulation.CopyArray | Encapsulation.CopyArrayNullSafe |
