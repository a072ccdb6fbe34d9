/** The consuming operations of `Stream.java`. `reduce` is the one generic
    consumer: a left fold over one traversal. `toList`, `toSet` and
    `length` are folds with a fixed reducer; `last` keeps the latest
    element; `first` looks at the first element only; `some` is `first`
    of the filtered stream compared against `null`. */
module Terminals {

  import opened Wrappers
  import opened Int32
  import opened Values
  import opened Seqs
  import opened Streams
  import Operators

  const ReduceNullMessage := "Unable to reduce this stream because the reducer is null!"
  const SomeNullMessage := "Unable to determine if some element satisfies this filter because the filter is null!"

  /** `reduce(reducer, initialValue)`: rejects a null reducer before any
      traversal, otherwise folds every element into the accumulator in
      traversal order. */
  function Reduce<R>(s: Stream, reducer: Ref<(R, Value) -> R>, initialValue: R): (r: Result<R>)
    ensures reducer.NullRef? ==> r == Failure(IllegalArgument(ReduceNullMessage))
    ensures reducer.Ref? ==> r.Success?
    ensures reducer.Ref? && Elems(s) == [] ==> r.value == initialValue
  {
    if reducer.NullRef? then Failure(IllegalArgument(ReduceNullMessage))
    else Success(FoldLeft(reducer.value, initialValue, Elems(s)))
  }

  /** The reducer `toList` uses: append the element to the list. */
  function AppendElement(list: seq<Value>, element: Value): seq<Value> {
    list + [element]
  }

  /** The reducer `toSet` uses: add the element to the set. */
  function AddElement(elements: set<Value>, element: Value): set<Value> {
    elements + {element}
  }

  /** The reducer `length` uses: Java `int` increment. */
  function CountElement(length: int32, element: Value): int32 {
    Increment(length)
  }

  /** The reducer `last` amounts to: keep the latest element. */
  function KeepLatest(last: Value, element: Value): Value {
    element
  }

  lemma {:induction false} FoldAppendElement(acc: seq<Value>, xs: seq<Value>)
    ensures FoldLeft(AppendElement, acc, xs) == acc + xs
    decreases |xs|
  {
    if xs != [] {
      FoldAppendElement(acc + [xs[0]], xs[1..]);
      assert acc + [xs[0]] + xs[1..] == acc + xs;
    }
  }

  lemma {:induction false} FoldAddElement(acc: set<Value>, xs: seq<Value>)
    ensures FoldLeft(AddElement, acc, xs) == acc + set x | x in xs
    decreases |xs|
  {
    if xs != [] {
      FoldAddElement(acc + {xs[0]}, xs[1..]);
      assert xs == [xs[0]] + xs[1..];
      assert (set x | x in xs) == {xs[0]} + set x | x in xs[1..];
    }
  }

  lemma {:induction false} FoldCountElement(acc: int32, xs: seq<Value>)
    ensures FoldLeft(CountElement, acc, xs) == Wrap(acc + |xs|)
    decreases |xs|
  {
    if xs != [] {
      FoldCountElement(Increment(acc), xs[1..]);
      WrapAdd(acc + 1, |xs| - 1);
    }
  }

  lemma {:induction false} FoldKeepLatest(acc: Value, xs: seq<Value>)
    ensures FoldLeft(KeepLatest, acc, xs) == if xs == [] then acc else xs[|xs| - 1]
    decreases |xs|
  {
    if xs != [] {
      FoldKeepLatest(xs[0], xs[1..]);
    }
  }

  /** `toList()`: exactly the elements, in traversal order. */
  function ToList(s: Stream): (r: seq<Value>)
    ensures r == Elems(s)
  {
    FoldAppendElement([], Elems(s));
    Reduce(s, Ref(AppendElement), []).value
  }

  /** `toSet()`: an element is in the set exactly when the stream yields it. */
  function ToSet(s: Stream): (r: set<Value>)
    ensures forall x :: x in r <==> x in Elems(s)
  {
    FoldAddElement({}, Elems(s));
    Reduce(s, Ref(AddElement), {}).value
  }

  /** `length()`: the number of elements, as a Java `int` (it wraps past `MAX`). */
  function Length(s: Stream): (r: int32)
    ensures r == Wrap(|Elems(s)|)
    ensures |Elems(s)| <= MAX ==> r == |Elems(s)|
  {
    FoldCountElement(0, Elems(s));
    Reduce(s, Ref(CountElement), 0).value
  }

  /** `first()`: the first element, or `null` when the stream is empty. */
  function First(s: Stream): (r: Value)
    ensures Elems(s) == [] ==> r == Null
    ensures Elems(s) != [] ==> r == Elems(s)[0]
  {
    var xs := Elems(s);
    if xs != [] then xs[0] else Null
  }

  /** `last()`: the final element, or `null` when the stream is empty. */
  function Last(s: Stream): (r: Value)
    ensures Elems(s) == [] ==> r == Null
    ensures Elems(s) != [] ==> r == Elems(s)[|Elems(s)| - 1]
  {
    FoldKeepLatest(Null, Elems(s));
    FoldLeft(KeepLatest, Null, Elems(s))
  }

  /** `some(filter)`: true exactly when the first element satisfying the
      filter exists and is not `null`. A stream whose first match is
      `null` answers false, because `first()` cannot tell that `null`
      from an empty stream. */
  function Some(s: Stream, filter: Ref<Value -> bool>): (r: Result<bool>)
    ensures filter.NullRef? ==> r == Failure(IllegalArgument(SomeNullMessage))
    ensures filter.Ref? ==> r.Success?
    ensures filter.Ref? ==> var xs := Elems(s); (r.value <==>
      exists i | 0 <= i < |xs| :: filter.value(xs[i]) && xs[i] != Null
                                 && forall j | 0 <= j < i :: !filter.value(xs[j]))
  {
    if filter.NullRef? then Failure(IllegalArgument(SomeNullMessage))
    else
      var p := filter.value;
      var filtered := Operators.Filter(s, filter).value;
      Operators.FilterElems(s, p);
      FirstMatch(p, Elems(s));
      Success(First(filtered) != Null)
  }

  /** The index of the first element satisfying `p`, or `|xs|` if there is none. */
  function FirstIndex(p: Value -> bool, xs: seq<Value>): (r: nat)
    ensures r <= |xs|
    ensures forall j | 0 <= j < r :: !p(xs[j])
    ensures r < |xs| ==> p(xs[r])
  {
    if xs == [] then 0 else if p(xs[0]) then 0 else FirstIndex(p, xs[1..]) + 1
  }

  /** Filtering starts with the first matching element. */
  lemma {:induction false} FilterHead(p: Value -> bool, xs: seq<Value>)
    ensures FirstIndex(p, xs) < |xs| <==> FilterSeq(p, xs) != []
    ensures FirstIndex(p, xs) < |xs| ==> FilterSeq(p, xs)[0] == xs[FirstIndex(p, xs)]
  {
    if xs != [] && !p(xs[0]) {
      FilterHead(p, xs[1..]);
    }
  }

  /** The first element of a filtered sequence is the first matching element. */
  lemma FirstMatch(p: Value -> bool, xs: seq<Value>)
    ensures var ys := FilterSeq(p, xs);
      (ys != [] && ys[0] != Null) <==>
      exists i | 0 <= i < |xs| :: p(xs[i]) && xs[i] != Null && forall j | 0 <= j < i :: !p(xs[j])
  {
    var k := FirstIndex(p, xs);
    FilterHead(p, xs);
    if exists i | 0 <= i < |xs| :: p(xs[i]) && xs[i] != Null && forall j | 0 <= j < i :: !p(xs[j]) {
      var i :| 0 <= i < |xs| && p(xs[i]) && xs[i] != Null && forall j | 0 <= j < i :: !p(xs[j]);
      assert k == i;
    }
  }

  /** `some` looks at the first matching element only. */
  lemma SomeIsFirstMatch(s: Stream, filter: Value -> bool)
    ensures var xs, k := Elems(s), FirstIndex(filter, Elems(s));
      Some(s, Ref(filter)) == Success(k < |xs| && xs[k] != Null)
  {
    Operators.FilterElems(s, filter);
    FilterHead(filter, Elems(s));
  }
}
