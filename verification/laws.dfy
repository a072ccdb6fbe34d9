/** Laws relating the operators and the terminal operations of
    `Stream.java` to each other: the derived operators agree with the
    primitives they are built from, and the terminal operations agree
    with each other. */
module Laws {

  import opened Wrappers
  import opened Int32
  import opened Values
  import opened Seqs
  import opened Sorting
  import opened Streams
  import opened Operators
  import opened Terminals

  /** `reduce` over a concatenation continues from where the first stream
      left off: the fold is sequential over traversal order. */
  lemma ReduceConcat<R>(a: Stream, b: Stream, reducer: (R, Value) -> R, initialValue: R)
    ensures Reduce(Concat(a, b), Ref(reducer), initialValue).value
         == Reduce(b, Ref(reducer), Reduce(a, Ref(reducer), initialValue).value).value
  {
    FoldLeftAppend(reducer, initialValue, Elems(a), Elems(b));
  }

  /** `reduce` is a left fold: the last element is combined last, with the
      result of reducing everything before it. */
  lemma ReduceIsLeftFold<R>(a: Stream, last: Value, reducer: (R, Value) -> R, initialValue: R)
    ensures Reduce(Concat(a, Singleton(last)), Ref(reducer), initialValue).value
         == reducer(Reduce(a, Ref(reducer), initialValue).value, last)
  {
    FoldLeftSnoc(reducer, initialValue, Elems(a), last);
  }

  /** `length` is additive over `concat`: exact while the total fits in a
      Java `int`, and wrapped past `MAX` (`Int32.WrappedCountsAdd` relates
      the wrapped total to the sum of the two wrapped lengths). */
  lemma ConcatLength(a: Stream, b: Stream)
    ensures Length(Concat(a, b)) == Wrap(|Elems(a)| + |Elems(b)|)
    ensures |Elems(a)| + |Elems(b)| <= MAX ==> Length(Concat(a, b)) == Length(a) + Length(b)
  {
    LengthOfAppend(Concat(a, b), a, b);
  }

  /** The same for any stream that yields as many elements as `a` and `b` together. */
  lemma LengthOfAppend(c: Stream, a: Stream, b: Stream)
    requires |Elems(c)| == |Elems(a)| + |Elems(b)|
    ensures Length(c) == Wrap(|Elems(a)| + |Elems(b)|)
    ensures |Elems(a)| + |Elems(b)| <= MAX ==> Length(c) == Length(a) + Length(b)
  {
  }

  /** `length` counts what `toList` collects. */
  lemma LengthIsListSize(s: Stream)
    ensures Length(s) == Wrap(|ToList(s)|)
    ensures |ToList(s)| <= MAX ==> Length(s) == |ToList(s)|
  {
  }

  /** `toSet` holds exactly the members of `toList`. */
  lemma SetOfList(s: Stream)
    ensures ToSet(s) == set x | x in ToList(s)
  {
  }

  /** For a non-negative count, `take(n)` followed by `skip(n)` gives back
      the whole stream, and `take(n)` has min(n, length) elements. */
  lemma TakeSkipReconstruct(s: Stream, n: int32)
    requires n >= 0
    ensures Take(s, n).Success? && Skip(s, n).Success?
    ensures ToList(Take(s, n).value) + ToList(Skip(s, n).value) == ToList(s)
    ensures |ToList(Take(s, n).value)| == if n <= |ToList(s)| then n as int else |ToList(s)|
  {
    TakeSkipSplit(n as nat, Elems(s));
  }

  /** `map` preserves length. */
  lemma MapLength(s: Stream, mapper: Value -> Value)
    ensures Map(s, Ref(mapper)).Success?
    ensures Length(Map(s, Ref(mapper)).value) == Length(s)
  {
  }

  /** `first` and `last` of the empty stream are `null`; of a singleton,
      both are its element. */
  lemma FirstLastEnds(v: Value)
    ensures First(Empty()) == Null && Last(Empty()) == Null
    ensures First(Singleton(v)) == v && Last(Singleton(v)) == v
  {
  }

  /** `first` and `last` of a concatenation. */
  lemma FirstLastConcat(a: Stream, b: Stream)
    ensures First(Concat(a, b)) == if Elems(a) == [] then First(b) else First(a)
    ensures Last(Concat(a, b)) == if Elems(b) == [] then Last(a) else Last(b)
  {
  }

  /** On a stream without `null` elements, `some` is plain existence. */
  lemma SomeWithoutNull(s: Stream, filter: Value -> bool)
    requires Null !in Elems(s)
    ensures Some(s, Ref(filter)).value <==> exists x | x in Elems(s) :: filter(x)
  {
    var xs := Elems(s);
    var k := FirstIndex(filter, xs);
    SomeIsFirstMatch(s, filter);
    if k < |xs| {
      assert xs[k] in xs;
    } else {
      forall x | x in xs
        ensures !filter(x)
      {
        var j :| 0 <= j < |xs| && xs[j] == x;
      }
    }
  }

  /** The `null` quirk of `some`: a stream whose first match is `null`
      answers false although an element satisfies the filter. */
  lemma SomeMissesNullMatch(rest: Stream)
    ensures Some(Concat(Singleton(Null), rest), Ref((v: Value) => true)) == Success(false)
  {
  }

  /** Flat-mapping distributes over concatenation. */
  lemma FlatMapConcat(a: Stream, b: Stream, mapper: Value -> Stream)
    ensures FlatMap(Concat(a, b), Ref(mapper)).Success?
    ensures ToList(FlatMap(Concat(a, b), Ref(mapper)).value)
         == ToList(FlatMap(a, Ref(mapper)).value) + ToList(FlatMap(b, Ref(mapper)).value)
  {
    ConcatElemsAppend(mapper, Elems(a), Elems(b));
  }

  /** Flat-mapping into singletons is mapping. */
  lemma FlatMapOfSingletonIsMap(s: Stream, mapper: Value -> Value)
    ensures ToList(FlatMap(s, Ref((v: Value) => Singleton(mapper(v)))).value)
         == ToList(Map(s, Ref(mapper)).value)
  {
    FlatMapSingletons(mapper, Elems(s));
  }

  lemma SortByKeys(s: Stream, key: Value -> int)
    ensures SortBy(s, Ref(key)).Success?
    ensures var ups := MapSeq(key, Elems(SortBy(s, Ref(key)).value));
      Ascending(ups) && multiset(ups) == multiset(MapSeq(key, Elems(s)))
  {
    var cmp := KeyComparator(key);
    var ys := Elems(SortBy(s, Ref(key)).value);
    assert ys == Elems(Sort(s, Ref(cmp)).value);
    SortElems(s, cmp);
    MapInsertionSort(key, cmp, Elems(s));
    AscendingKeys(key, ys);
  }

  lemma SortByDescendingKeys(s: Stream, key: Value -> int)
    ensures SortByDescending(s, Ref(key)).Success?
    ensures var downs := MapSeq(key, Elems(SortByDescending(s, Ref(key)).value));
      && (forall i, j | 0 <= i < j < |downs| :: downs[i] >= downs[j])
      && multiset(downs) == multiset(MapSeq(key, Elems(s)))
  {
    var cmp := DescendingKeyComparator(key);
    var ys := Elems(SortByDescending(s, Ref(key)).value);
    assert ys == Elems(Sort(s, Ref(cmp)).value);
    SortElems(s, cmp);
    MapInsertionSort(key, cmp, Elems(s));
  }

  /** `sortByDescending` puts the keys in exactly the reverse order of
      `sortBy`. Ties may be broken differently, so only the key sequences
      are related. */
  lemma SortByDescendingReversesKeys(s: Stream, key: Value -> int)
    ensures SortBy(s, Ref(key)).Success? && SortByDescending(s, Ref(key)).Success?
    ensures MapSeq(key, ToList(SortByDescending(s, Ref(key)).value))
         == Reverse(MapSeq(key, ToList(SortBy(s, Ref(key)).value)))
  {
    SortByKeys(s, key);
    SortByDescendingKeys(s, key);
    ReverseUnique(MapSeq(key, Elems(SortBy(s, Ref(key)).value)),
                  MapSeq(key, Elems(SortByDescending(s, Ref(key)).value)));
  }

  /** `ofClass` yields exactly the instances of the class: the same as
      filtering by the class test, so its cast never meets a mismatch. */
  lemma OfClassIsFilterByInstance(s: Stream, c: Class)
    ensures OfClass(s, Ref(c)).Success?
    ensures ToList(OfClass(s, Ref(c)).value) == FilterSeq((v: Value) => IsInstance(c, v), Elems(s))
  {
    var p := InstanceFilter(Ref(c));
    var filtered := Filter(s, Ref(p)).value;
    assert OfClass(s, Ref(c)) == Cast(filtered, Ref(c));
    FilterElems(s, p);
    FilterExtensional(p, (v: Value) => IsInstance(c, v), Elems(s));
  }
}
