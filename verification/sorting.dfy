/** What a sorted stream yields: its upstream's elements, permuted into the
    order a `java.util.Comparator` describes. The sorting algorithm itself
    is not promised by the stream, so the model uses a functional insertion
    sort and proves only that its result is a permutation and is ordered. */
module Sorting {

  import opened Seqs

  /** The sign of a comparison result. */
  function Sign(x: int): (r: int)
    ensures r == -1 || r == 0 || r == 1
    ensures (r < 0 <==> x < 0) && (r == 0 <==> x == 0)
  {
    if x < 0 then -1 else if x == 0 then 0 else 1
  }

  /** The general contract of `Comparator.compare`: antisymmetric in sign,
      transitive, and elements that compare equal compare alike to others. */
  ghost predicate IsComparator<T(!new)>(cmp: (T, T) -> int) {
    && (forall x, y :: Sign(cmp(x, y)) == -Sign(cmp(y, x)))
    && (forall x, y, z :: cmp(x, y) > 0 && cmp(y, z) > 0 ==> cmp(x, z) > 0)
    && (forall x, y, z :: cmp(x, y) == 0 ==> Sign(cmp(x, z)) == Sign(cmp(y, z)))
  }

  /** `xs` is in the order `cmp` asks for: no element compares greater than a later one. */
  ghost predicate SortedBy<T>(cmp: (T, T) -> int, xs: seq<T>) {
    forall i, j | 0 <= i < j < |xs| :: cmp(xs[i], xs[j]) <= 0
  }

  /** A comparator obeying the contract orders every pair, transitively. */
  lemma ComparatorIsTotalPreorder<T(!new)>(cmp: (T, T) -> int, x: T, y: T, z: T)
    requires IsComparator(cmp)
    ensures cmp(x, y) <= 0 || cmp(y, x) <= 0
    ensures cmp(x, y) <= 0 && cmp(y, z) <= 0 ==> cmp(x, z) <= 0
  {
    assert Sign(cmp(x, y)) == -Sign(cmp(y, x));
    if cmp(x, y) <= 0 && cmp(y, z) <= 0 {
      assert Sign(cmp(z, x)) == -Sign(cmp(x, z));
      if cmp(x, y) == 0 {
        assert Sign(cmp(x, z)) == Sign(cmp(y, z));
      } else if cmp(y, z) == 0 {
        assert Sign(cmp(y, x)) == Sign(cmp(z, x));
      } else {
        assert Sign(cmp(z, y)) == -Sign(cmp(y, z));
        assert cmp(z, y) > 0 && cmp(y, x) > 0 ==> cmp(z, x) > 0;
      }
    }
  }

  /** Inserts `x` before the first element it does not compare greater than. */
  function Insert<T>(cmp: (T, T) -> int, x: T, ys: seq<T>): (r: seq<T>)
    ensures multiset(r) == multiset(ys) + multiset{x}
  {
    if ys == [] then [x]
    else if cmp(x, ys[0]) <= 0 then [x] + ys
    else
      assert ys == [ys[0]] + ys[1..];
      [ys[0]] + Insert(cmp, x, ys[1..])
  }

  /** The sorted stream's buffer: a permutation of the upstream elements. */
  function InsertionSort<T>(cmp: (T, T) -> int, xs: seq<T>): (r: seq<T>)
    ensures multiset(r) == multiset(xs)
  {
    if xs == [] then []
    else
      assert xs == [xs[0]] + xs[1..];
      Insert(cmp, xs[0], InsertionSort(cmp, xs[1..]))
  }

  /** Inserting in front of an element that `x` does not exceed keeps the order. */
  lemma InsertFrontSorted<T(!new)>(cmp: (T, T) -> int, x: T, ys: seq<T>)
    requires IsComparator(cmp)
    requires SortedBy(cmp, ys)
    requires ys != [] && cmp(x, ys[0]) <= 0
    ensures SortedBy(cmp, [x] + ys)
  {
    var r := [x] + ys;
    forall j | 0 < j < |r|
      ensures cmp(r[0], r[j]) <= 0
    {
      if j > 1 {
        ComparatorIsTotalPreorder(cmp, x, ys[0], ys[j - 1]);
      }
    }
  }

  /** Prefixing an element that compares at most every later element keeps the order. */
  lemma ConsSorted<T>(cmp: (T, T) -> int, y: T, rest: seq<T>)
    requires SortedBy(cmp, rest)
    requires forall z | z in rest :: cmp(y, z) <= 0
    ensures SortedBy(cmp, [y] + rest)
  {
    var r := [y] + rest;
    forall i, j | 0 <= i < j < |r|
      ensures cmp(r[i], r[j]) <= 0
    {
      if i == 0 {
        assert r[j] in rest;
      } else {
        assert r[i] == rest[i - 1] && r[j] == rest[j - 1];
      }
    }
  }

  lemma {:induction false} InsertSorted<T(!new)>(cmp: (T, T) -> int, x: T, ys: seq<T>)
    requires IsComparator(cmp)
    requires SortedBy(cmp, ys)
    ensures SortedBy(cmp, Insert(cmp, x, ys))
  {
    if ys == [] {
    } else if cmp(x, ys[0]) <= 0 {
      InsertFrontSorted(cmp, x, ys);
    } else {
      var rest := Insert(cmp, x, ys[1..]);
      InsertSorted(cmp, x, ys[1..]);
      ComparatorIsTotalPreorder(cmp, x, ys[0], x);
      forall z | z in rest
        ensures cmp(ys[0], z) <= 0
      {
        assert z in multiset(rest);
        if z != x {
          assert z in multiset(ys[1..]);
          var k :| 0 <= k < |ys[1..]| && ys[1..][k] == z;
          assert ys[k + 1] == z;
        }
      }
      ConsSorted(cmp, ys[0], rest);
    }
  }

  /** Under the comparator contract, the sorted buffer is in comparator order. */
  lemma {:induction false} InsertionSortSorted<T(!new)>(cmp: (T, T) -> int, xs: seq<T>)
    requires IsComparator(cmp)
    ensures SortedBy(cmp, InsertionSort(cmp, xs))
  {
    if xs != [] {
      InsertionSortSorted(cmp, xs[1..]);
      InsertSorted(cmp, xs[0], InsertionSort(cmp, xs[1..]));
    }
  }

  /** The same, for a comparator that may or may not obey the contract. */
  lemma InsertionSortSortedUnderContract<T(!new)>(cmp: (T, T) -> int, xs: seq<T>)
    ensures IsComparator(cmp) ==> SortedBy(cmp, InsertionSort(cmp, xs))
  {
    if IsComparator(cmp) {
      InsertionSortSorted(cmp, xs);
    }
  }

  /** `Integer.compareTo`: -1, 0 or 1. */
  function IntegerCompare(a: int, b: int): (r: int)
    ensures r == Sign(a - b)
  {
    if a < b then -1 else if a == b then 0 else 1
  }

  /** The comparator `sortBy` builds: compares the keys of the two elements. */
  function KeyComparator<T>(key: T -> int): (T, T) -> int {
    (left: T, right: T) => IntegerCompare(key(left), key(right))
  }

  /** The comparator `sortByDescending` builds: the same comparison with the keys swapped. */
  function DescendingKeyComparator<T>(key: T -> int): (T, T) -> int {
    (left: T, right: T) => IntegerCompare(key(right), key(left))
  }

  /** Both key comparators obey the comparator contract. */
  lemma KeyComparatorsAreComparators<T(!new)>(key: T -> int)
    ensures IsComparator(KeyComparator(key))
    ensures IsComparator(DescendingKeyComparator(key))
  {
  }

  /** Ordered by the key comparator means the keys ascend. */
  lemma SortedByKeyIffAscending<T>(key: T -> int, xs: seq<T>)
    ensures SortedBy(KeyComparator(key), xs)
        <==> forall i, j | 0 <= i < j < |xs| :: key(xs[i]) <= key(xs[j])
  {
  }

  /** Ordered by the descending key comparator means the keys descend. */
  lemma SortedByDescendingKeyIffDescending<T>(key: T -> int, xs: seq<T>)
    ensures SortedBy(DescendingKeyComparator(key), xs)
        <==> forall i, j | 0 <= i < j < |xs| :: key(xs[i]) >= key(xs[j])
  {
  }

  /** Ascending integer sequences. */
  ghost predicate Ascending(xs: seq<int>) {
    forall i, j | 0 <= i < j < |xs| :: xs[i] <= xs[j]
  }

  /** Elements whose keys ascend have an ascending key sequence. */
  lemma AscendingKeys<T>(key: T -> int, xs: seq<T>)
    requires forall i, j | 0 <= i < j < |xs| :: key(xs[i]) <= key(xs[j])
    ensures Ascending(MapSeq(key, xs))
  {
  }

  /** The head of an ascending sequence is its least element. */
  lemma AscendingHeadIsLeast(a: seq<int>, x: int)
    requires Ascending(a) && a != []
    requires x in multiset(a)
    ensures a[0] <= x
  {
    assert x in a;
    var k :| 0 <= k < |a| && a[k] == x;
  }

  /** An ascending arrangement of a multiset of integers is unique. */
  lemma {:induction false} AscendingUnique(a: seq<int>, b: seq<int>)
    requires Ascending(a) && Ascending(b)
    requires multiset(a) == multiset(b)
    ensures a == b
  {
    if a == [] {
      assert |b| == |multiset(b)| == 0;
    } else {
      assert |b| == |multiset(b)| == |multiset(a)| == |a|;
      AscendingHeadIsLeast(a, b[0]);
      AscendingHeadIsLeast(b, a[0]);
      assert a[0] == b[0];
      var a', b' := a[1..], b[1..];
      assert a == [a[0]] + a';
      assert b == [b[0]] + b';
      assert multiset(a) == multiset{a[0]} + multiset(a');
      assert multiset(b) == multiset{a[0]} + multiset(b');
      assert multiset(a') == multiset(a) - multiset{a[0]};
      assert multiset(b') == multiset(b) - multiset{a[0]};
      AscendingUnique(a', b');
    }
  }

  /** Reversing a non-increasing sequence makes it ascending. */
  lemma ReverseDescending(downs: seq<int>)
    requires forall i, j | 0 <= i < j < |downs| :: downs[i] >= downs[j]
    ensures Ascending(Reverse(downs))
  {
    forall i, j | 0 <= i < j < |downs|
      ensures Reverse(downs)[i] <= Reverse(downs)[j]
    {
      assert Reverse(downs)[i] == downs[|downs| - 1 - i];
      assert Reverse(downs)[j] == downs[|downs| - 1 - j];
    }
  }

  /** An ascending and a non-increasing arrangement of the same integers
      are each other's reverse. */
  lemma ReverseUnique(ups: seq<int>, downs: seq<int>)
    requires Ascending(ups)
    requires forall i, j | 0 <= i < j < |downs| :: downs[i] >= downs[j]
    requires multiset(ups) == multiset(downs)
    ensures downs == Reverse(ups)
  {
    ReverseDescending(downs);
    ReversePermutes(downs);
    AscendingUnique(ups, Reverse(downs));
    assert Reverse(Reverse(downs)) == downs;
  }

  /** Inserting an element adds its image to the mapped multiset. */
  lemma {:induction false} MapInsert<T, U>(f: T -> U, cmp: (T, T) -> int, x: T, ys: seq<T>)
    ensures multiset(MapSeq(f, Insert(cmp, x, ys))) == multiset(MapSeq(f, ys)) + multiset{f(x)}
  {
    var r := Insert(cmp, x, ys);
    if ys == [] {
    } else if cmp(x, ys[0]) <= 0 {
      assert r[1..] == ys;
      assert MapSeq(f, r) == [f(x)] + MapSeq(f, ys);
    } else {
      var rest := Insert(cmp, x, ys[1..]);
      MapInsert(f, cmp, x, ys[1..]);
      assert r[0] == ys[0] && r[1..] == rest;
      assert MapSeq(f, r) == [f(ys[0])] + MapSeq(f, rest);
      assert MapSeq(f, ys) == [f(ys[0])] + MapSeq(f, ys[1..]);
    }
  }

  /** Sorting permutes the keys of the elements along with the elements. */
  lemma {:induction false} MapInsertionSort<T, U>(f: T -> U, cmp: (T, T) -> int, xs: seq<T>)
    ensures multiset(MapSeq(f, InsertionSort(cmp, xs))) == multiset(MapSeq(f, xs))
  {
    if xs != [] {
      MapInsertionSort(f, cmp, xs[1..]);
      MapInsert(f, cmp, xs[0], InsertionSort(cmp, xs[1..]));
      assert MapSeq(f, xs) == [f(xs[0])] + MapSeq(f, xs[1..]);
    }
  }
}
