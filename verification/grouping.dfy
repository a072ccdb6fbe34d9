/** What a grouped stream yields: one group per distinct key, each holding
    the upstream elements that map to that key. The model lists groups in
    the order their keys first occur and keeps members in upstream order. */
module Grouping {

  import opened Seqs

  /** The distinct keys of `xs`, in order of first occurrence. */
  function KeysOf<T, K(==)>(key: T -> K, xs: seq<T>): (ks: seq<K>)
    ensures forall i, j | 0 <= i < j < |ks| :: ks[i] != ks[j]
    ensures forall x | x in xs :: key(x) in ks
    ensures forall k | k in ks :: exists x | x in xs :: key(x) == k
  {
    if xs == [] then []
    else
      var init := xs[..|xs| - 1];
      var last := xs[|xs| - 1];
      assert xs == init + [last];
      var ks := KeysOf(key, init);
      if key(last) in ks then ks else ks + [key(last)]
  }

  /** The members of the group for key `k`, in upstream order. */
  function MembersOf<T, K(==)>(key: T -> K, xs: seq<T>, k: K): seq<T> {
    FilterSeq((x: T) => key(x) == k, xs)
  }

  /** Groups as (key, members) pairs. */
  function GroupSeq<T, K(==)>(key: T -> K, xs: seq<T>): (gs: seq<(K, seq<T>)>)
  {
    var ks := KeysOf(key, xs);
    seq(|ks|, i requires 0 <= i < |ks| => (ks[i], MembersOf(key, xs, ks[i])))
  }

  /** Total number of members over all groups. */
  function MemberCount<K, T>(gs: seq<(K, seq<T>)>): nat {
    if gs == [] then 0 else |gs[0].1| + MemberCount(gs[1..])
  }

  /** Every element lands in the group of its key, and only there; groups have
      distinct keys, and a group's members are exactly the elements with its key. */
  lemma GroupMembership<T, K>(key: T -> K, xs: seq<T>)
    ensures var gs := GroupSeq(key, xs);
      && (forall i, j | 0 <= i < j < |gs| :: gs[i].0 != gs[j].0)
      && (forall x | x in xs :: exists i | 0 <= i < |gs| :: gs[i].0 == key(x) && x in gs[i].1)
      && (forall i, x | 0 <= i < |gs| && x in gs[i].1 :: x in xs && key(x) == gs[i].0)
      && (forall i | 0 <= i < |gs| :: gs[i].1 != [])
  {
    var gs := GroupSeq(key, xs);
    var ks := KeysOf(key, xs);
    forall x | x in xs
      ensures exists i | 0 <= i < |gs| :: gs[i].0 == key(x) && x in gs[i].1
    {
      var i :| 0 <= i < |ks| && ks[i] == key(x);
      var j :| 0 <= j < |xs| && xs[j] == x;
      assert x in gs[i].1;
    }
    forall i | 0 <= i < |gs|
      ensures gs[i].1 != []
    {
      assert ks[i] in ks;
      var x :| x in xs && key(x) == ks[i];
      var j :| 0 <= j < |xs| && xs[j] == x;
      assert x in gs[i].1;
    }
  }

  /** Each group holds every element with its key exactly as often as the
      upstream does, and nothing else: no element is lost or duplicated. */
  lemma GroupMultiplicity<T, K>(key: T -> K, xs: seq<T>)
    ensures var gs := GroupSeq(key, xs);
      forall i, x | 0 <= i < |gs| ::
        multiset(gs[i].1)[x] == if key(x) == gs[i].0 then multiset(xs)[x] else 0
  {
    var gs := GroupSeq(key, xs);
    forall i, x | 0 <= i < |gs|
      ensures multiset(gs[i].1)[x] == if key(x) == gs[i].0 then multiset(xs)[x] else 0
    {
      FilterCount((z: T) => key(z) == gs[i].0, xs, x);
    }
  }

  /** Number of positions of `ks` holding `k`. */
  function Occurrences<K(==)>(ks: seq<K>, k: K): nat {
    if ks == [] then 0 else (if ks[0] == k then 1 else 0) + Occurrences(ks[1..], k)
  }

  /** Total size of the groups for keys `ks`. */
  function SizeOver<T, K(==)>(key: T -> K, xs: seq<T>, ks: seq<K>): nat {
    if ks == [] then 0 else |MembersOf(key, xs, ks[0])| + SizeOver(key, xs, ks[1..])
  }

  lemma {:induction false} OccurrencesDistinct<K>(ks: seq<K>, k: K)
    requires forall i, j | 0 <= i < j < |ks| :: ks[i] != ks[j]
    ensures Occurrences(ks, k) == if k in ks then 1 else 0
  {
    if ks != [] {
      OccurrencesDistinct(ks[1..], k);
      if ks[0] == k {
        assert k !in ks[1..];
      }
    }
  }

  lemma {:induction false} SizeOverSnoc<T, K>(key: T -> K, ys: seq<T>, x: T, ks: seq<K>)
    ensures SizeOver(key, ys + [x], ks) == SizeOver(key, ys, ks) + Occurrences(ks, key(x))
  {
    if ks != [] {
      FilterAppend((z: T) => key(z) == ks[0], ys, [x]);
      SizeOverSnoc(key, ys, x, ks[1..]);
    }
  }

  lemma {:induction false} SizeOverCovers<T, K>(key: T -> K, xs: seq<T>, ks: seq<K>)
    requires forall i, j | 0 <= i < j < |ks| :: ks[i] != ks[j]
    requires forall x | x in xs :: key(x) in ks
    ensures SizeOver(key, xs, ks) == |xs|
    decreases |xs|
  {
    if xs == [] {
      SizeOverEmpty(key, xs, ks);
    } else {
      var init, last := xs[..|xs| - 1], xs[|xs| - 1];
      assert xs == init + [last];
      SizeOverCovers(key, init, ks);
      SizeOverSnoc(key, init, last, ks);
      OccurrencesDistinct(ks, key(last));
    }
  }

  lemma {:induction false} SizeOverEmpty<T, K>(key: T -> K, xs: seq<T>, ks: seq<K>)
    requires xs == []
    ensures SizeOver(key, xs, ks) == 0
  {
    if ks != [] {
      SizeOverEmpty(key, xs, ks[1..]);
    }
  }

  lemma {:induction false} MemberCountIsSizeOver<T, K>(key: T -> K, xs: seq<T>, ks: seq<K>)
    ensures MemberCount(seq(|ks|, i requires 0 <= i < |ks| => (ks[i], MembersOf(key, xs, ks[i]))))
         == SizeOver(key, xs, ks)
  {
    var gs := seq(|ks|, i requires 0 <= i < |ks| => (ks[i], MembersOf(key, xs, ks[i])));
    if ks != [] {
      MemberCountIsSizeOver(key, xs, ks[1..]);
      assert gs[1..] == seq(|ks[1..]|, i requires 0 <= i < |ks[1..]| => (ks[1..][i], MembersOf(key, xs, ks[1..][i])));
    }
  }

  /** Grouping neither loses nor duplicates elements: the groups together
      hold as many members as the upstream has elements. */
  lemma GroupsPartition<T, K>(key: T -> K, xs: seq<T>)
    ensures MemberCount(GroupSeq(key, xs)) == |xs|
  {
    var ks := KeysOf(key, xs);
    MemberCountIsSizeOver(key, xs, ks);
    SizeOverCovers(key, xs, ks);
  }
}
