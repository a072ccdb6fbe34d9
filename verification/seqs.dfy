/** Sequence-level meaning of the element-wise stream operators: what one
    full traversal of a mapped, filtered, skipped or taken
    stream yields, given what its upstream yields. Each operator is
    written the way its cursor pulls elements, one at a time, and its
    contract states the operator's meaning in declarative terms. */
module Seqs {

  /** `a` is `b` with some elements left out, in the same order. */
  ghost predicate Subseq<T>(a: seq<T>, b: seq<T>)
    decreases |b|
  {
    if a == [] then true
    else if b == [] then false
    else (a[0] == b[0] && Subseq(a[1..], b[1..])) || Subseq(a, b[1..])
  }

  /** A mapping cursor: each pull returns `f` of the next upstream element. */
  function MapSeq<T, U>(f: T -> U, xs: seq<T>): (r: seq<U>)
    ensures |r| == |xs|
    ensures forall i :: 0 <= i < |xs| ==> r[i] == f(xs[i])
  {
    if xs == [] then [] else [f(xs[0])] + MapSeq(f, xs[1..])
  }

  /** A filtering cursor: pulls upstream elements and passes on those that satisfy `p`. */
  function FilterSeq<T>(p: T -> bool, xs: seq<T>): (r: seq<T>)
    ensures |r| <= |xs|
    ensures forall i :: 0 <= i < |r| ==> p(r[i])
    ensures forall x | x in r :: x in xs
    ensures forall i | 0 <= i < |xs| :: p(xs[i]) ==> xs[i] in r
  {
    if xs == [] then []
    else if p(xs[0]) then [xs[0]] + FilterSeq(p, xs[1..])
    else FilterSeq(p, xs[1..])
  }

  /** A skipping cursor: discards up to `n` pulls, then passes through. */
  function SkipSeq<T>(n: nat, xs: seq<T>): (r: seq<T>)
    ensures n <= |xs| ==> r == xs[n..]
    ensures n > |xs| ==> r == []
  {
    if n == 0 || xs == [] then xs else SkipSeq(n - 1, xs[1..])
  }

  /** A taking cursor: passes through at most `n` pulls, then reports exhaustion. */
  function TakeSeq<T>(n: nat, xs: seq<T>): (r: seq<T>)
    ensures n <= |xs| ==> r == xs[..n]
    ensures n > |xs| ==> r == xs
  {
    if n == 0 || xs == [] then [] else [xs[0]] + TakeSeq(n - 1, xs[1..])
  }

  /** A left fold: `f` is applied to the accumulator and each element in order. */
  function FoldLeft<A, T>(f: (A, T) -> A, init: A, xs: seq<T>): A
  {
    if xs == [] then init else FoldLeft(f, f(init, xs[0]), xs[1..])
  }

  /** Folding a concatenation folds the second part from where the first left off. */
  lemma {:induction false} FoldLeftAppend<A, T>(f: (A, T) -> A, init: A, xs: seq<T>, ys: seq<T>)
    ensures FoldLeft(f, init, xs + ys) == FoldLeft(f, FoldLeft(f, init, xs), ys)
  {
    if xs == [] {
      assert xs + ys == ys;
    } else {
      assert (xs + ys)[1..] == xs[1..] + ys;
      FoldLeftAppend(f, f(init, xs[0]), xs[1..], ys);
    }
  }

  /** The last element is combined last: the fold is a left fold. */
  lemma FoldLeftSnoc<A, T>(f: (A, T) -> A, init: A, xs: seq<T>, x: T)
    ensures FoldLeft(f, init, xs + [x]) == f(FoldLeft(f, init, xs), x)
  {
    FoldLeftAppend(f, init, xs, [x]);
  }

  /** Filtering is a subsequence of its input. */
  lemma {:induction false} FilterIsSubseq<T>(p: T -> bool, xs: seq<T>)
    ensures Subseq(FilterSeq(p, xs), xs)
    decreases |xs|
  {
    var r := FilterSeq(p, xs);
    if xs == [] {
    } else if p(xs[0]) {
      FilterIsSubseq(p, xs[1..]);
      assert r[0] == xs[0] && r[1..] == FilterSeq(p, xs[1..]);
    } else {
      FilterIsSubseq(p, xs[1..]);
      if r != [] {
        assert r == FilterSeq(p, xs[1..]);
      }
    }
  }

  /** Filtering keeps every occurrence of a satisfying element and no other. */
  lemma {:induction false} FilterCount<T>(p: T -> bool, xs: seq<T>, x: T)
    ensures multiset(FilterSeq(p, xs))[x] == if p(x) then multiset(xs)[x] else 0
  {
    if xs != [] {
      FilterCount(p, xs[1..], x);
      assert xs == [xs[0]] + xs[1..];
      assert multiset(xs) == multiset([xs[0]]) + multiset(xs[1..]);
      if p(xs[0]) {
        assert multiset(FilterSeq(p, xs)) == multiset([xs[0]]) + multiset(FilterSeq(p, xs[1..]));
      }
    }
  }

  /** The same, for every element at once. */
  lemma FilterCounts<T>(p: T -> bool, xs: seq<T>)
    ensures forall x :: multiset(FilterSeq(p, xs))[x] == if p(x) then multiset(xs)[x] else 0
  {
    forall x {
      FilterCount(p, xs, x);
    }
  }

  /** Filtering distributes over concatenation, so relative order is kept. */
  lemma {:induction false} FilterAppend<T>(p: T -> bool, xs: seq<T>, ys: seq<T>)
    ensures FilterSeq(p, xs + ys) == FilterSeq(p, xs) + FilterSeq(p, ys)
  {
    if xs == [] {
      assert xs + ys == ys;
    } else {
      assert (xs + ys)[0] == xs[0];
      assert (xs + ys)[1..] == xs[1..] + ys;
      FilterAppend(p, xs[1..], ys);
    }
  }

  /** Filtering with two filters that agree everywhere gives the same result. */
  lemma {:induction false} FilterExtensional<T>(p: T -> bool, q: T -> bool, xs: seq<T>)
    requires forall v :: p(v) == q(v)
    ensures FilterSeq(p, xs) == FilterSeq(q, xs)
  {
    if xs != [] {
      FilterExtensional(p, q, xs[1..]);
    }
  }

  /** Mapping distributes over concatenation. */
  lemma {:induction false} MapAppend<T, U>(f: T -> U, xs: seq<T>, ys: seq<T>)
    ensures MapSeq(f, xs + ys) == MapSeq(f, xs) + MapSeq(f, ys)
  {
    assert |MapSeq(f, xs + ys)| == |MapSeq(f, xs) + MapSeq(f, ys)|;
    forall i | 0 <= i < |xs + ys|
      ensures MapSeq(f, xs + ys)[i] == (MapSeq(f, xs) + MapSeq(f, ys))[i]
    {
      if i < |xs| {
        assert (xs + ys)[i] == xs[i];
      } else {
        assert (xs + ys)[i] == ys[i - |xs|];
      }
    }
  }

  /** Taking `n` and skipping `n` split the sequence in two. */
  lemma TakeSkipSplit<T>(n: nat, xs: seq<T>)
    ensures TakeSeq(n, xs) + SkipSeq(n, xs) == xs
    ensures |TakeSeq(n, xs)| == if n <= |xs| then n else |xs|
  {
    if n <= |xs| {
      assert xs[..n] + xs[n..] == xs;
    } else {
      assert xs + [] == xs;
    }
  }

  /** `xs` back to front. */
  function Reverse<T>(xs: seq<T>): (r: seq<T>)
    ensures |r| == |xs|
    ensures forall i | 0 <= i < |xs| :: r[i] == xs[|xs| - 1 - i]
  {
    if xs == [] then [] else Reverse(xs[1..]) + [xs[0]]
  }

  /** Reversing permutes. */
  lemma {:induction false} ReversePermutes<T>(xs: seq<T>)
    ensures multiset(Reverse(xs)) == multiset(xs)
  {
    if xs != [] {
      ReversePermutes(xs[1..]);
      assert xs == [xs[0]] + xs[1..];
    }
  }
}
