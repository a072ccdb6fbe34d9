/** The factories and the wrapping operators of `Stream.java`. Each builds a
    new pipeline node around its upstream without traversing anything, and
    raises an invalid-argument error when a required argument is null (or a
    count is negative). The contracts state what the new node yields in
    terms of what its upstream yields. */
module Operators {

  import opened Wrappers
  import opened Int32
  import opened Values
  import opened Seqs
  import opened Sorting
  import opened Grouping
  import opened Streams

  const ArrayNullMessage := "Unable to create a stream from this array because it is null!"
  const IterableNullMessage := "Unable to create a stream from this iterable because it is null!"
  const CastNullMessage := "Unable to cast this stream because the class to cast to is null!"
  const FilterNullMessage := "Unable to filter this stream because the filter is null!"
  const FlatMapNullMessage := "Unable to flatMap this stream because the mapper is null!"
  const MapNullMessage := "Unable to map this stream because the mapper is null!"
  const SkipNegativeMessage := "Unable to skip a number of elements of this stream because the number is negative!"
  const SortNullMessage := "Unable to sort stream, comparator cannot be null!"
  const SortByNullMessage := "Unable to sort stream because the mapper is null!"
  const TakeNegativeMessage := "Unable to take a number of elements of this stream because the number is negative!"
  const GroupByNullMessage := "Unable to group this stream because the keyMapper is null!"

  /** `Stream.empty()`: a stream with no elements. */
  function Empty(): (r: Stream)
    ensures Elems(r) == []
  {
    EmptyStream
  }

  /** `Stream.singleton(element)`: exactly one element, which may be null. */
  function Singleton(element: Value): (r: Stream)
    ensures Elems(r) == [element]
  {
    SingletonStream(element)
  }

  /** `Stream.create(Iterable)`: the iterable's elements, read lazily. */
  function CreateFromIterable(iterable: Ref<seq<Value>>): (r: Result<Stream>)
    ensures iterable.NullRef? <==> r.Failure?
    ensures iterable.NullRef? ==> r.error == IllegalArgument(IterableNullMessage)
    ensures iterable.Ref? ==> Elems(r.value) == iterable.value
  {
    if iterable.NullRef? then Failure(IllegalArgument(IterableNullMessage))
    else Success(IterableStream(iterable.value))
  }

  /** `Stream.create(E[])`: rejects a null array, otherwise wraps the array as a list. */
  function CreateFromArray(source: Ref<seq<Value>>): (r: Result<Stream>)
    ensures source.NullRef? <==> r.Failure?
    ensures source.NullRef? ==> r.error == IllegalArgument(ArrayNullMessage)
    ensures source.Ref? ==> r == CreateFromIterable(source) && Elems(r.value) == source.value
  {
    if source.NullRef? then Failure(IllegalArgument(ArrayNullMessage))
    else CreateFromIterable(Ref(source.value))
  }

  /** `cast(clazz)`: the same elements under another static type. */
  function Cast(s: Stream, clazz: Ref<Class>): (r: Result<Stream>)
    ensures clazz.NullRef? <==> r.Failure?
    ensures clazz.NullRef? ==> r.error == IllegalArgument(CastNullMessage)
    ensures clazz.Ref? ==> Elems(r.value) == Elems(s)
  {
    if clazz.NullRef? then Failure(IllegalArgument(CastNullMessage))
    else Success(CastStream(s, clazz.value))
  }

  /** Flattening a two-element list of streams yields the first stream's
      elements and then the second's. */
  lemma FlattenPair(s: Stream, other: Stream)
    ensures InnerElems([s, other], MaxRank([s, other]) + 1) == Elems(s) + Elems(other)
  {
    var pair := [s, other];
    var b := MaxRank(pair) + 1;
    assert Rank(pair[0]) < b && Rank(pair[1]) < b;
    assert pair[1..] == [other] && pair[1..][1..] == [];
    assert InnerElems(pair[1..], b) == Elems(other) + [];
  }

  /** `concat(other)`: a flat stream over the two-element list [this, other]. */
  function Concat(s: Stream, other: Stream): (r: Stream)
    ensures Elems(r) == Elems(s) + Elems(other)
  {
    FlattenPair(s, other);
    FlatStream(StreamList([s, other]))
  }

  /** `filter(filter)`: exactly the elements that satisfy the filter, each
      as often as upstream yields it, in upstream order. */
  function Filter(s: Stream, filter: Ref<Value -> bool>): (r: Result<Stream>)
    ensures filter.NullRef? <==> r.Failure?
    ensures filter.NullRef? ==> r.error == IllegalArgument(FilterNullMessage)
    ensures filter.Ref? ==>
      && (forall x | x in Elems(r.value) :: filter.value(x))
      && (forall x :: multiset(Elems(r.value))[x] == if filter.value(x) then multiset(Elems(s))[x] else 0)
      && Subseq(Elems(r.value), Elems(s))
  {
    if filter.NullRef? then Failure(IllegalArgument(FilterNullMessage))
    else
      var p := filter.value;
      FilterIsSubseq(p, Elems(s));
      FilterCounts(p, Elems(s));
      Success(FilteredStream(s, p))
  }

  /** A filtered stream holds the filtered upstream. */
  lemma FilterElems(s: Stream, p: Value -> bool)
    ensures Elems(Filter(s, Ref(p)).value) == FilterSeq(p, Elems(s))
  {
  }

  /** The elements of `mapper(e)` for every `e` of `xs`, one after another:
      what flat-mapping `xs` means. */
  function ConcatElems(mapper: Value -> Stream, xs: seq<Value>): seq<Value> {
    if xs == [] then [] else Elems(mapper(xs[0])) + ConcatElems(mapper, xs[1..])
  }

  /** The reference concatenation distributes over appending. */
  lemma {:induction false} ConcatElemsAppend(mapper: Value -> Stream, xs: seq<Value>, ys: seq<Value>)
    ensures ConcatElems(mapper, xs + ys) == ConcatElems(mapper, xs) + ConcatElems(mapper, ys)
  {
    if xs == [] {
      assert xs + ys == ys;
    } else {
      assert (xs + ys)[0] == xs[0];
      assert (xs + ys)[1..] == xs[1..] + ys;
      ConcatElemsAppend(mapper, xs[1..], ys);
    }
  }

  /** Concatenating singletons is mapping. */
  lemma {:induction false} FlatMapSingletons(mapper: Value -> Value, xs: seq<Value>)
    ensures ConcatElems((v: Value) => Singleton(mapper(v)), xs) == MapSeq(mapper, xs)
  {
    if xs != [] {
      FlatMapSingletons(mapper, xs[1..]);
    }
  }

  /** Flattening the mapped streams, when every one is within the bound. */
  lemma {:induction false} FlattenWithinBound(mapper: Value -> Stream, xs: seq<Value>, b: nat)
    requires forall i | 0 <= i < |xs| :: Rank(mapper(xs[i])) < b
    ensures InnerElems(MapSeq(mapper, xs), b) == ConcatElems(mapper, xs)
  {
    if xs != [] {
      assert MapSeq(mapper, xs)[1..] == MapSeq(mapper, xs[1..]);
      FlattenWithinBound(mapper, xs[1..], b);
    }
  }

  /** `flatMap(mapper)`: a flat stream over the stream of mapped streams; it
      yields the elements of `mapper(e)` for each element `e`, in order. */
  function FlatMap(s: Stream, mapper: Ref<Value -> Stream>): (r: Result<Stream>)
    ensures mapper.NullRef? <==> r.Failure?
    ensures mapper.NullRef? ==> r.error == IllegalArgument(FlatMapNullMessage)
    ensures mapper.Ref? ==> Elems(r.value) == ConcatElems(mapper.value, Elems(s))
  {
    if mapper.NullRef? then Failure(IllegalArgument(FlatMapNullMessage))
    else
      var f := mapper.value;
      var bound := MaxRank(MapSeq(f, Elems(s))) + 1;
      FlattenWithinBound(f, Elems(s), bound);
      Success(FlatStream(MappedToStreams(s, f, bound)))
  }

  /** `map(mapper)`: the mapper applied to each element, in order. */
  function Map(s: Stream, mapper: Ref<Value -> Value>): (r: Result<Stream>)
    ensures mapper.NullRef? <==> r.Failure?
    ensures mapper.NullRef? ==> r.error == IllegalArgument(MapNullMessage)
    ensures mapper.Ref? ==>
      && |Elems(r.value)| == |Elems(s)|
      && forall i | 0 <= i < |Elems(s)| :: Elems(r.value)[i] == mapper.value(Elems(s)[i])
  {
    if mapper.NullRef? then Failure(IllegalArgument(MapNullMessage))
    else Success(MappedStream(s, mapper.value))
  }

  /** The filter `ofClass` builds: a runtime class test, false for null. */
  function InstanceFilter(clazz: Ref<Class>): Value -> bool {
    (e: Value) => clazz.Ref? && IsInstance(clazz.value, e)
  }

  /** `ofClass(clazz)`: filter by a class test, then cast. A null class is
      rejected by the cast, with the cast's message. */
  function OfClass(s: Stream, clazz: Ref<Class>): (r: Result<Stream>)
    ensures clazz.NullRef? ==> r == Failure(IllegalArgument(CastNullMessage))
    ensures clazz.Ref? ==> r.Success?
    ensures clazz.Ref? ==> forall x | x in Elems(r.value) :: IsInstance(clazz.value, x)
    ensures clazz.Ref? ==>
      forall x :: multiset(Elems(r.value))[x] == if IsInstance(clazz.value, x) then multiset(Elems(s))[x] else 0
  {
    // The filter argument is never null, so `filter` cannot throw here.
    var filtered := Filter(s, Ref(InstanceFilter(clazz))).value;
    Cast(filtered, clazz)
  }

  /** `skip(number)`: all but the first `number` elements. */
  function Skip(s: Stream, number: int32): (r: Result<Stream>)
    ensures number < 0 <==> r.Failure?
    ensures number < 0 ==> r.error == IllegalArgument(SkipNegativeMessage)
    ensures 0 <= number <= |Elems(s)| ==> Elems(r.value) == Elems(s)[number..]
    ensures number > |Elems(s)| ==> Elems(r.value) == []
  {
    if number < 0 then Failure(IllegalArgument(SkipNegativeMessage))
    else Success(SkipStream(s, number as nat))
  }

  /** `take(number)`: the first `number` elements, or all if there are fewer. */
  function Take(s: Stream, number: int32): (r: Result<Stream>)
    ensures number < 0 <==> r.Failure?
    ensures number < 0 ==> r.error == IllegalArgument(TakeNegativeMessage)
    ensures 0 <= number <= |Elems(s)| ==> Elems(r.value) == Elems(s)[..number]
    ensures number > |Elems(s)| ==> Elems(r.value) == Elems(s)
  {
    if number < 0 then Failure(IllegalArgument(TakeNegativeMessage))
    else Success(TakeStream(s, number as nat))
  }

  /** `sort(comparator)`: a permutation of the elements, ordered by the
      comparator whenever it obeys the `Comparator` contract. */
  function Sort(s: Stream, comparator: Ref<(Value, Value) -> int>): (r: Result<Stream>)
    ensures comparator.NullRef? <==> r.Failure?
    ensures comparator.NullRef? ==> r.error == IllegalArgument(SortNullMessage)
    ensures comparator.Ref? ==> multiset(Elems(r.value)) == multiset(Elems(s))
    ensures comparator.Ref? && IsComparator(comparator.value) ==> SortedBy(comparator.value, Elems(r.value))
  {
    if comparator.NullRef? then Failure(IllegalArgument(SortNullMessage))
    else
      var cmp := comparator.value;
      InsertionSortSortedUnderContract(cmp, Elems(s));
      Success(SortedStream(s, cmp))
  }

  /** A sorted stream holds the upstream in the sorted-buffer order. */
  lemma SortElems(s: Stream, cmp: (Value, Value) -> int)
    ensures Elems(Sort(s, Ref(cmp)).value) == InsertionSort(cmp, Elems(s))
  {
  }

  /** `sortBy(mapper)`: a permutation of the elements with ascending keys. */
  function SortBy(s: Stream, mapper: Ref<Value -> int>): (r: Result<Stream>)
    ensures mapper.NullRef? <==> r.Failure?
    ensures mapper.NullRef? ==> r.error == IllegalArgument(SortByNullMessage)
    ensures mapper.Ref? ==> multiset(Elems(r.value)) == multiset(Elems(s))
    ensures mapper.Ref? ==> var xs := Elems(r.value);
      forall i, j | 0 <= i < j < |xs| :: mapper.value(xs[i]) <= mapper.value(xs[j])
  {
    if mapper.NullRef? then Failure(IllegalArgument(SortByNullMessage))
    else
      var key := mapper.value;
      KeyComparatorsAreComparators(key);
      var r := Sort(s, Ref(KeyComparator(key)));
      SortedByKeyIffAscending(key, Elems(r.value));
      r
  }

  /** `sortByDescending(mapper)`: a permutation of the elements with descending keys. */
  function SortByDescending(s: Stream, mapper: Ref<Value -> int>): (r: Result<Stream>)
    ensures mapper.NullRef? <==> r.Failure?
    ensures mapper.NullRef? ==> r.error == IllegalArgument(SortByNullMessage)
    ensures mapper.Ref? ==> multiset(Elems(r.value)) == multiset(Elems(s))
    ensures mapper.Ref? ==> var xs := Elems(r.value);
      forall i, j | 0 <= i < j < |xs| :: mapper.value(xs[i]) >= mapper.value(xs[j])
  {
    if mapper.NullRef? then Failure(IllegalArgument(SortByNullMessage))
    else
      var key := mapper.value;
      KeyComparatorsAreComparators(key);
      var r := Sort(s, Ref(DescendingKeyComparator(key)));
      SortedByDescendingKeyIffDescending(key, Elems(r.value));
      r
  }

  /** Total number of members over a sequence of group values. */
  function GroupSizes(gs: seq<Value>): nat {
    if gs == [] then 0
    else (if gs[0].Group? then |gs[0].members| else 0) + GroupSizes(gs[1..])
  }

  /** `gs` is a grouping of `xs` by `key`: every element of `gs` is a
      non-empty group with a distinct key, whose members are elements of
      `xs` with that key; every element of `xs` lies in the group of its
      key; each group holds each element with its key exactly as often as
      `xs` does; and the groups hold as many members as `xs` has elements. */
  ghost predicate IsGrouping(key: Value -> Value, xs: seq<Value>, gs: seq<Value>) {
    && (forall i | 0 <= i < |gs| :: gs[i].Group? && gs[i].members != [])
    && (forall i, j | 0 <= i < j < |gs| && gs[i].Group? && gs[j].Group? :: gs[i].key != gs[j].key)
    && (forall i, x | 0 <= i < |gs| && gs[i].Group? && x in gs[i].members :: x in xs && key(x) == gs[i].key)
    && (forall x | x in xs :: exists i | 0 <= i < |gs| && gs[i].Group? :: gs[i].key == key(x) && x in gs[i].members)
    && (forall i, x | 0 <= i < |gs| && gs[i].Group? ::
          multiset(gs[i].members)[x] == if key(x) == gs[i].key then multiset(xs)[x] else 0)
    && GroupSizes(gs) == |xs|
  }

  lemma {:induction false} GroupSizesOfGroups(gs: seq<(Value, seq<Value>)>)
    ensures GroupSizes(MapSeq(AsGroup, gs)) == MemberCount(gs)
  {
    if gs != [] {
      var f := AsGroup;
      GroupSizesOfGroups(gs[1..]);
      MapAppend(f, [gs[0]], gs[1..]);
      assert gs == [gs[0]] + gs[1..];
      assert MapSeq(f, gs)[1..] == MapSeq(f, gs[1..]);
    }
  }

  /** The group objects built from the (key, members) pairs form a grouping. */
  lemma GroupValues(key: Value -> Value, xs: seq<Value>)
    ensures IsGrouping(key, xs, MapSeq(AsGroup, GroupSeq(key, xs)))
  {
    var ps := GroupSeq(key, xs);
    var gs := MapSeq(AsGroup, ps);
    GroupMembership(key, xs);
    GroupMultiplicity(key, xs);
    GroupsPartition(key, xs);
    GroupSizesOfGroups(ps);
    assert forall i | 0 <= i < |gs| :: gs[i].Group? && gs[i].key == ps[i].0 && gs[i].members == ps[i].1;
  }

  /** A grouped stream yields one group value per (key, members) pair. */
  lemma GroupedElems(s: Stream, key: Value -> Value)
    ensures Elems(GroupedStream(s, key)) == MapSeq(AsGroup, GroupSeq(key, Elems(s)))
  {
  }

  /** A grouped stream yields a grouping of its upstream. */
  lemma GroupedIsGrouping(s: Stream, key: Value -> Value)
    ensures IsGrouping(key, Elems(s), Elems(GroupedStream(s, key)))
  {
    GroupedElems(s, key);
    GroupValues(key, Elems(s));
  }

  /** `groupBy(keyMapper)`: the elements grouped by key. */
  function GroupBy(s: Stream, keyMapper: Ref<Value -> Value>): (r: Result<Stream>)
    ensures keyMapper.NullRef? <==> r.Failure?
    ensures keyMapper.NullRef? ==> r.error == IllegalArgument(GroupByNullMessage)
    ensures keyMapper.Ref? ==> IsGrouping(keyMapper.value, Elems(s), Elems(r.value))
  {
    if keyMapper.NullRef? then Failure(IllegalArgument(GroupByNullMessage))
    else
      var key := keyMapper.value;
      GroupedIsGrouping(s, key);
      Success(GroupedStream(s, key))
  }
}
