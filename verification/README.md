# jstreams `Stream` — a Dafny model

This project models the lazy stream pipeline of jstreams
(`src/main/java/com/amoerie/jstreams/Stream.java`) and proves properties of it.

A stream is an immutable value. It is built from a source:

- `empty`, `singleton`, `create(array)` and `create(iterable)`.

Wrapper operators then add nodes around it:

- `cast`, `concat`, `filter`, `flatMap`, `map`, `ofClass`;
- `skip` and `take`;
- `sort`, `sortBy` and `sortByDescending`;
- `groupBy`.

Terminal operations consume it: `reduce`, `toList`, `toSet`, `length`, `first`, `last` and `some`.

The modules:

- `Wrappers` holds Java's nullable arguments (`Ref`) and the `IllegalArgumentException` error path (`Result`).
- `Int32` holds Java `int` with its two's-complement wrap-around.
- `Values` holds the dynamically typed element universe, which mirrors Java's erased generics. It includes `null` and the `Group` objects that `groupBy` yields. It also has `Class.isInstance` over the classes the model knows.
- `Seqs` holds the sequence-level meaning of mapping, filtering, skipping, taking and folding.
- `Sorting` holds the `Comparator` contract, the sorted buffer and the key comparators that `sortBy`/`sortByDescending` build.
- `Grouping` holds the (key, members) groups of `groupBy`.
- `Streams` holds the pipeline datatype. It has one constructor per node class that `Stream.java` instantiates, except that the inner iterable of `concat` is the list constructor `StreamList` of a separate stream-of-streams type, not an iterable stream. Its denotation `Elems(s)` is the sequence of elements one full traversal yields.
- `Operators` holds the factories and operators. Each rejects a null argument or a negative count with the exact message of the Java code. Otherwise it returns a new node, and its contract says what that node yields in terms of its upstream.
- `Terminals` holds the consuming operations. `reduce` is a left fold, and `toList`, `toSet` and `length` are that fold with the reducer the Java code passes. `last` keeps the latest element. `first` takes element 0 or `null`. `some` is `filter(p).first() != null`.
- `Laws` holds the properties that relate several operations.

## Model

| member | source | states |
|---|---|---|
| Operators.Empty | src/main/java/com/amoerie/jstreams/Stream.java:27-29 | the empty stream yields no elements |
| Operators.Singleton | src/main/java/com/amoerie/jstreams/Stream.java:38-40 | a singleton yields exactly its one element, which may be `null` |
| Operators.CreateFromArray | src/main/java/com/amoerie/jstreams/Stream.java:49-53 | a null array is rejected with the array message; otherwise the result is `create(iterable)` of the array's elements and yields them in order |
| Operators.CreateFromIterable | src/main/java/com/amoerie/jstreams/Stream.java:63-67 | a null iterable is rejected with the iterable message; otherwise the stream yields the iterable's elements in order |
| Operators.Cast | src/main/java/com/amoerie/jstreams/Stream.java:76-80 | a null class is rejected; otherwise the same elements in the same order |
| Operators.Concat | src/main/java/com/amoerie/jstreams/Stream.java:88-90 | the flat stream over [this, other] yields this stream's elements followed by the other's |
| Operators.Filter | src/main/java/com/amoerie/jstreams/Stream.java:98-102 | a null filter is rejected; otherwise every yielded element satisfies the filter, each satisfying element keeps its upstream multiplicity, the others are dropped, and the order is kept (a subsequence) |
| Operators.FlatMap | src/main/java/com/amoerie/jstreams/Stream.java:121-125 | a null mapper is rejected; otherwise the stream yields the elements of `mapper(e)` for each upstream `e`, one stream after another (the reference concatenation `ConcatElems`) |
| Operators.Map | src/main/java/com/amoerie/jstreams/Stream.java:176-180 | a null mapper is rejected; otherwise the same number of elements, element `i` being the mapper applied to upstream element `i` |
| Operators.OfClass | src/main/java/com/amoerie/jstreams/Stream.java:160-167 | a null class reaches `cast` and is rejected with the cast message; otherwise only instances of the class are yielded, each instance with its upstream multiplicity |
| Operators.Skip | src/main/java/com/amoerie/jstreams/Stream.java:208-212 | a negative count is rejected; otherwise all but the first `number` elements, or none when there are fewer |
| Operators.Take | src/main/java/com/amoerie/jstreams/Stream.java:279-283 | a negative count is rejected; otherwise the first `number` elements, or all when there are fewer |
| Operators.Sort | src/main/java/com/amoerie/jstreams/Stream.java:233-236 | a null comparator is rejected; otherwise a permutation of the elements, ordered by the comparator whenever it obeys the `Comparator` contract |
| Operators.SortBy | src/main/java/com/amoerie/jstreams/Stream.java:245-254 | a null mapper is rejected; otherwise a permutation of the elements whose keys ascend |
| Operators.SortByDescending | src/main/java/com/amoerie/jstreams/Stream.java:262-271 | a null mapper is rejected; otherwise a permutation of the elements whose keys descend |
| Operators.GroupBy | src/main/java/com/amoerie/jstreams/Stream.java:292-296 | a null key mapper is rejected; otherwise the yielded groups are non-empty and have distinct keys, each member has its group's key and comes from upstream, each upstream element lies in the group of its key, each group holds every element with its key exactly as often as upstream yields it, and the member counts sum to the element count |
| Operators.GroupedIsGrouping | src/main/java/com/amoerie/jstreams/Stream.java:292-296 | the node `groupBy` builds yields a grouping of its upstream in the sense of `IsGrouping`: distinct non-empty keyed groups that hold each upstream element exactly as often as upstream does |
| Grouping.GroupMembership | src/main/java/com/amoerie/jstreams/Stream.java:292-296 | for the (key, members) pairs: keys are distinct, each element lands in the group of its key, and members carry their group's key |
| Grouping.GroupMultiplicity | src/main/java/com/amoerie/jstreams/Stream.java:292-296 | no element is lost or duplicated: the group for a key holds each element with that key exactly as often as the upstream does, and holds no other element |
| Grouping.GroupsPartition | src/main/java/com/amoerie/jstreams/Stream.java:292-296 | the member counts of the groups sum to the element count |
| Terminals.Reduce | src/main/java/com/amoerie/jstreams/Stream.java:192-200 | a null reducer is rejected before any traversal; otherwise the result is a success, and an empty stream returns the initial value unchanged |
| Terminals.FoldAppendElement | src/main/java/com/amoerie/jstreams/Stream.java:304-310 | folding the list-append reducer over the elements appends them all, in order, to the starting list |
| Terminals.FoldAddElement | src/main/java/com/amoerie/jstreams/Stream.java:319-325 | folding the set-add reducer adds exactly the elements to the starting set |
| Terminals.FoldCountElement | src/main/java/com/amoerie/jstreams/Stream.java:145-150 | folding the `length + 1` reducer adds the element count to the start, with Java `int` wrap-around |
| Terminals.FoldKeepLatest | src/main/java/com/amoerie/jstreams/Stream.java:133-136 | the assignment loop of `last` ends holding the final element, or its initial value when there is none |
| Terminals.ToList | src/main/java/com/amoerie/jstreams/Stream.java:303-311 | the list holds exactly the stream's elements in traversal order |
| Terminals.ToSet | src/main/java/com/amoerie/jstreams/Stream.java:318-326 | a value is in the set if and only if the stream yields it |
| Terminals.Length | src/main/java/com/amoerie/jstreams/Stream.java:144-151 | the element count as a Java `int`: exact up to `Integer.MAX_VALUE`, wrapped beyond it |
| Terminals.First | src/main/java/com/amoerie/jstreams/Stream.java:109-112 | `null` for an empty stream, element 0 otherwise |
| Terminals.Last | src/main/java/com/amoerie/jstreams/Stream.java:132-137 | `null` for an empty stream, the final element otherwise |
| Terminals.Some | src/main/java/com/amoerie/jstreams/Stream.java:219-223 | a null filter is rejected; otherwise true if and only if some element satisfies the filter, no earlier element does, and that element is not `null` |
| Terminals.SomeIsFirstMatch | src/main/java/com/amoerie/jstreams/Stream.java:219-223 | `some` answers whether the first matching element exists and is non-null, as an index computation |
| Terminals.FirstMatch | src/main/java/com/amoerie/jstreams/Stream.java:222 | the head of the filtered sequence is non-null exactly when the first element satisfying the filter exists and is non-null |
| Laws.ReduceConcat | src/main/java/com/amoerie/jstreams/Stream.java:192-200 | reducing a concatenation continues from the result of reducing the first stream |
| Laws.ReduceIsLeftFold | src/main/java/com/amoerie/jstreams/Stream.java:192-200 | the last element is combined last, with the reduction of everything before it |
| Laws.ConcatLength | src/main/java/com/amoerie/jstreams/Stream.java:144-151 | the length of a concatenation is the wrapped total count, and is the sum of the two lengths while that total fits in an `int` |
| Laws.LengthOfAppend | src/main/java/com/amoerie/jstreams/Stream.java:144-151 | the same additivity for any stream yielding as many elements as two others together |
| Int32.WrappedCountsAdd | src/main/java/com/amoerie/jstreams/Stream.java:148 | the wrapped total of two counts equals the Java `int` sum of the two wrapped counts |
| Int32.Increment | src/main/java/com/amoerie/jstreams/Stream.java:148 | `length + 1` on a Java `int`: one more below `MAX_VALUE`, `MIN_VALUE` after it |
| Laws.LengthIsListSize | src/main/java/com/amoerie/jstreams/Stream.java:144-151 | `length` is the (wrapped) size of `toList` |
| Laws.SetOfList | src/main/java/com/amoerie/jstreams/Stream.java:318-326 | `toSet` is the set of members of `toList` |
| Laws.TakeSkipReconstruct | src/main/java/com/amoerie/jstreams/Stream.java:279-283 | for a non-negative count, `take(n)` and `skip(n)` both succeed, their lists concatenate to the whole list, and `take(n)` has min(n, length) elements |
| Laws.MapLength | src/main/java/com/amoerie/jstreams/Stream.java:176-180 | `map` preserves `length` |
| Laws.FirstLastEnds | src/main/java/com/amoerie/jstreams/Stream.java:109-112 | `first` and `last` of the empty stream are `null`, and of a singleton both are its element |
| Laws.FirstLastConcat | src/main/java/com/amoerie/jstreams/Stream.java:88-90 | `first` of a concatenation comes from the first non-empty part, and `last` from the last non-empty part |
| Laws.SomeWithoutNull | src/main/java/com/amoerie/jstreams/Stream.java:219-223 | on a stream with no `null` element, `some` is plain existence of a satisfying element |
| Laws.SomeMissesNullMatch | src/main/java/com/amoerie/jstreams/Stream.java:219-223 | a stream whose first match is `null` answers false although an element satisfies the filter |
| Laws.FlatMapConcat | src/main/java/com/amoerie/jstreams/Stream.java:121-125 | flat-mapping distributes over concatenation |
| Laws.FlatMapOfSingletonIsMap | src/main/java/com/amoerie/jstreams/Stream.java:121-125 | flat-mapping each element to a singleton is mapping |
| Laws.SortByKeys | src/main/java/com/amoerie/jstreams/Stream.java:245-254 | the keys of the `sortBy` result ascend and are a permutation of the input's keys |
| Laws.SortByDescendingKeys | src/main/java/com/amoerie/jstreams/Stream.java:262-271 | the keys of the `sortByDescending` result descend and are a permutation of the input's keys |
| Laws.SortByDescendingReversesKeys | src/main/java/com/amoerie/jstreams/Stream.java:262-271 | the key sequence of `sortByDescending` is exactly the reverse of that of `sortBy` (ties may be broken differently) |
| Laws.OfClassIsFilterByInstance | src/main/java/com/amoerie/jstreams/Stream.java:160-167 | `ofClass` yields exactly `filter(isInstance)`, in order, so its cast never meets a mismatch |
| Sorting.KeyComparatorsAreComparators | src/main/java/com/amoerie/jstreams/Stream.java:248-253 | the comparators that `sortBy` and `sortByDescending` build obey the `Comparator` contract |
| Sorting.SortedByKeyIffAscending | src/main/java/com/amoerie/jstreams/Stream.java:248-253 | a sequence is ordered by the `sortBy` comparator if and only if its keys ascend |
| Sorting.SortedByDescendingKeyIffDescending | src/main/java/com/amoerie/jstreams/Stream.java:265-270 | a sequence is ordered by the `sortByDescending` comparator if and only if its keys descend |
| Sorting.IntegerCompare | src/main/java/com/amoerie/jstreams/Stream.java:251 | `Integer.compareTo` is the sign of the difference |
| Sorting.InsertionSortSorted | src/main/java/com/amoerie/jstreams/Stream.java:233-236 | under the comparator contract, the sorted buffer is in comparator order |
| Sorting.AscendingUnique | src/main/java/com/amoerie/jstreams/Stream.java:245-271 | an ascending arrangement of a multiset of keys is unique, which pins `sortByDescending`'s keys to the reverse of `sortBy`'s |

## Left out

- The `Iterator`/`Iterable` cursor protocol and the node classes (`MappedStream`, `SkipStream`, `SortedStream`, `GroupedStream`, `FlatStream`, …) are not part of this model. Each node gets its meaning denotationally, as the sequence `Elems` one full traversal yields. Laziness and re-traversal cost are therefore not modelled.
- Operators.Cast: the elements are passed through unchanged. The checked cast that would throw `ClassCastException` at traversal time is not modelled, because it is Java reflection on a class that is not part of this model. `ofClass` never meets such a mismatch (see `Laws.OfClassIsFilterByInstance`).
- Values.IsInstance: `Class.isInstance` is modelled over four runtime classes (`Object`, `Integer`, `String`, `Group`) and is false for `null`. Other classes and the class hierarchy are left out.
- Operators.Concat: a null `other` is not modelled. The Java code does not check it, and traversal would fail with a `NullPointerException`. Likewise, a `flatMap` mapper that returns a null stream is not modelled.
- Stream-valued elements are not modelled: `Value` has no case for a stream, so `map` to streams and `create` over a list of streams (a `Stream<Stream<R>>`) cannot be expressed. Dafny rejects a `Value` type that holds a `Stream`, because a `Stream` holds functions over `Value`. Streams of streams exist only as the upstream of a flat stream, in the separate type `StreamOfStreams`. Its `StreamList` case stands for the `Arrays.asList(this, other)` iterable that `concat` wraps, and its `MappedToStreams` case stands for the mapped stream that `flatMap` wraps.
- Operators.SortBy: keys are modelled as `int` compared with `Integer.compareTo`, not as an arbitrary `Comparable`.
- Operators.SortByDescending: keys are `int`, as for `sortBy`.
- Operators.Sort: the sorting algorithm is not modelled, and insertion sort stands in for it. The contract promises only a permutation, plus comparator order when the comparator obeys its contract. Stability is not promised. Exceptions a library sort may throw for a comparator that breaks its contract are not modelled.
- Operators.GroupBy: the order of groups and the `Group` class are not part of this model. The denotation lists groups by the first occurrence of their key. No contract depends on that order, only on membership, distinct keys and counts.
- Streams.Elems: a flat-mapped node records a `bound` that exceeds the rank of every inner stream it yields, which is what makes the denotation well-founded. Inner streams at or above the bound are skipped. `Operators.FlatMap` computes the bound so that none are skipped, and other values of the datatype are not Java streams.
- `toList` and `toSet` return mathematical sequences and sets, not `ArrayList` and `HashSet`. Set membership uses value equality in place of `equals`/`hashCode`. The Java reducers mutate and return their accumulator, which the model expresses as pure functions.
- Terminals.Reduce: exceptions thrown by user reducers, filters, mappers or comparators are not modelled; user functions are total functions.
- Infinite iterables are left out, because every stream yields a finite sequence.
- Changes to a source iterable or array between traversals are left out: a stream's source is an immutable sequence.
