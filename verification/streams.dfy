/** The stream pipeline as a value: one constructor per kind of stream node
    (the subclasses that `Stream.java` instantiates), and the denotation
    `Elems` giving the elements one full traversal of a node yields.

    A node only records its upstream and its operator's argument; nothing
    is read at construction. Every traversal recomputes `Elems` from the
    source, which is what makes repeated traversals agree. */
module Streams {

  import opened Values
  import opened Seqs
  import Sorting
  import Grouping

  datatype Stream =
    | EmptyStream
    | SingletonStream(element: Value)
    | IterableStream(source: seq<Value>)
    | CastStream(upstream: Stream, clazz: Class)
    | FilteredStream(upstream: Stream, filter: Value -> bool)
    | MappedStream(upstream: Stream, mapper: Value -> Value)
    | SkipStream(upstream: Stream, number: nat)
    | TakeStream(upstream: Stream, number: nat)
    | SortedStream(upstream: Stream, comparator: (Value, Value) -> int)
    | GroupedStream(upstream: Stream, keyMapper: Value -> Value)
    | FlatStream(streams: StreamOfStreams)

  /** A stream whose elements are themselves streams, as a flat stream's
      upstream: the two-element iterable `concat` builds, or the mapped
      stream `flatMap` builds. `bound` exceeds the rank of every stream
      `mapper` yields on the upstream's elements; it is what lets the
      denotation recurse into those streams. */
  datatype StreamOfStreams =
    | StreamList(streams: seq<Stream>)
    | MappedToStreams(upstream: Stream, mapper: Value -> Stream, bound: nat)

  /** The nesting depth of a pipeline, counting the bound of a flat-mapped node. */
  function Rank(s: Stream): nat
    decreases s
  {
    match s
    case EmptyStream => 0
    case SingletonStream(_) => 0
    case IterableStream(_) => 0
    case CastStream(up, _) => Rank(up) + 1
    case FilteredStream(up, _) => Rank(up) + 1
    case MappedStream(up, _) => Rank(up) + 1
    case SkipStream(up, _) => Rank(up) + 1
    case TakeStream(up, _) => Rank(up) + 1
    case SortedStream(up, _) => Rank(up) + 1
    case GroupedStream(up, _) => Rank(up) + 1
    case FlatStream(o) => OuterRank(o) + 1
  }

  function OuterRank(o: StreamOfStreams): nat
    decreases o
  {
    match o
    case StreamList(ss) => MaxRank(ss) + 1
    case MappedToStreams(up, _, b) => (if Rank(up) < b then b else Rank(up)) + 1
  }

  /** The largest rank in `ss`. */
  function MaxRank(ss: seq<Stream>): (r: nat)
    ensures forall i | 0 <= i < |ss| :: Rank(ss[i]) <= r
    decreases ss
  {
    if ss == [] then 0
    else
      var head := Rank(ss[0]);
      var tail := MaxRank(ss[1..]);
      if head < tail then tail else head
  }

  /** Every inner stream of rank below this bound is traversed. */
  function InnerBound(o: StreamOfStreams): nat {
    match o
    case StreamList(ss) => MaxRank(ss) + 1
    case MappedToStreams(_, _, b) => b
  }

  /** The elements one full traversal of `s` yields, in traversal order. */
  function Elems(s: Stream): seq<Value>
    decreases Rank(s), 0
  {
    match s
    case EmptyStream => []
    case SingletonStream(e) => [e]
    case IterableStream(src) => src
    case CastStream(up, _) => Elems(up)
    case FilteredStream(up, p) => FilterSeq(p, Elems(up))
    case MappedStream(up, f) => MapSeq(f, Elems(up))
    case SkipStream(up, n) => SkipSeq(n, Elems(up))
    case TakeStream(up, n) => TakeSeq(n, Elems(up))
    case SortedStream(up, cmp) => Sorting.InsertionSort(cmp, Elems(up))
    case GroupedStream(up, k) =>
      MapSeq(AsGroup, Grouping.GroupSeq(k, Elems(up)))
    case FlatStream(o) => InnerElems(Members(o), InnerBound(o))
  }

  /** The streams the outer stream of a flat stream yields. */
  function Members(o: StreamOfStreams): seq<Stream>
    decreases OuterRank(o), 0
  {
    match o
    case StreamList(ss) => ss
    case MappedToStreams(up, f, _) => MapSeq(f, Elems(up))
  }

  /** A flattening cursor: exhausts each inner stream in turn (those whose
      rank is below `bound`, which is all of them for an operator-built
      pipeline). */
  function InnerElems(inner: seq<Stream>, bound: nat): seq<Value>
    decreases bound, |inner|
  {
    if inner == [] then []
    else (if Rank(inner[0]) < bound then Elems(inner[0]) else []) + InnerElems(inner[1..], bound)
  }
}
