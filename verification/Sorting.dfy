/** A stable sort: what `sorted` and `list.sort` compute for a total preorder. */
module Sorting {

  ghost predicate TotalPreorder<T(!new)>(le: (T, T) -> bool) {
    && (forall x, y :: le(x, y) || le(y, x))
    && (forall x, y, z :: le(x, y) && le(y, z) ==> le(x, z))
  }

  ghost predicate SortedBy<T>(xs: seq<T>, le: (T, T) -> bool) {
    forall i, j | 0 <= i < j < |xs| :: le(xs[i], xs[j])
  }

  /** Places `x` behind every element that does not exceed it. */
  function Insert<T>(xs: seq<T>, x: T, le: (T, T) -> bool): seq<T> {
    if xs == [] then [x]
    else if le(xs[|xs| - 1], x) then xs + [x]
    else Insert(xs[..|xs| - 1], x, le) + [xs[|xs| - 1]]
  }

  function Sort<T>(xs: seq<T>, le: (T, T) -> bool): seq<T> {
    if xs == [] then [] else Insert(Sort(xs[..|xs| - 1], le), xs[|xs| - 1], le)
  }

  lemma MultisetSnoc<T>(xs: seq<T>, x: T)
    ensures multiset(xs + [x]) == multiset(xs) + multiset{x}
  {
  }

  lemma MultisetInit<T>(xs: seq<T>)
    requires xs != []
    ensures multiset(xs) == multiset(xs[..|xs| - 1]) + multiset{xs[|xs| - 1]}
  {
    assert xs == xs[..|xs| - 1] + [xs[|xs| - 1]];
  }

  lemma {:induction false} InsertKeeps<T>(xs: seq<T>, x: T, le: (T, T) -> bool)
    ensures multiset(Insert(xs, x, le)) == multiset(xs) + multiset{x}
  {
    if xs != [] {
      MultisetInit(xs);
      if !le(xs[|xs| - 1], x) {
        InsertKeeps(xs[..|xs| - 1], x, le);
        MultisetSnoc(Insert(xs[..|xs| - 1], x, le), xs[|xs| - 1]);
      }
    }
  }

  /** Sorting permutes. */
  lemma {:induction false} SortKeeps<T>(xs: seq<T>, le: (T, T) -> bool)
    ensures multiset(Sort(xs, le)) == multiset(xs)
  {
    if xs != [] {
      MultisetInit(xs);
      SortKeeps(xs[..|xs| - 1], le);
      InsertKeeps(Sort(xs[..|xs| - 1], le), xs[|xs| - 1], le);
    }
  }

  lemma MemberOf<T>(xs: seq<T>, ys: seq<T>, x: T)
    requires multiset(xs) == multiset(ys)
    ensures x in xs <==> x in ys
  {
    assert x in multiset(xs) <==> x in multiset(ys);
  }

  lemma {:induction false} InsertMembers<T>(xs: seq<T>, x: T, le: (T, T) -> bool, y: T)
    ensures y in Insert(xs, x, le) <==> y in xs || y == x
  {
    InsertKeeps(xs, x, le);
    assert y in Insert(xs, x, le) <==> y in multiset(Insert(xs, x, le));
    assert y in multiset(xs) + multiset{x} <==> y in multiset(xs) || y == x;
  }

  lemma SortMembers<T>(xs: seq<T>, le: (T, T) -> bool, y: T)
    ensures y in Sort(xs, le) <==> y in xs
  {
    SortKeeps(xs, le);
    MemberOf(Sort(xs, le), xs, y);
  }

  lemma {:induction false} InsertSorts<T(!new)>(xs: seq<T>, x: T, le: (T, T) -> bool)
    requires TotalPreorder(le) && SortedBy(xs, le)
    ensures SortedBy(Insert(xs, x, le), le)
  {
    if xs != [] && !le(xs[|xs| - 1], x) {
      var init, last := xs[..|xs| - 1], xs[|xs| - 1];
      InsertSorts(init, x, le);
      forall y | y in Insert(init, x, le)
        ensures le(y, last)
      {
        InsertMembers(init, x, le, y);
      }
      SortedSnoc(Insert(init, x, le), last, le);
    } else {
      forall y | y in xs
        ensures le(y, x)
      {
      }
      SortedSnoc(xs, x, le);
    }
  }

  lemma SortedSnoc<T>(xs: seq<T>, x: T, le: (T, T) -> bool)
    requires SortedBy(xs, le) && forall y | y in xs :: le(y, x)
    ensures SortedBy(xs + [x], le)
  {
  }

  lemma {:induction false} SortSorts<T(!new)>(xs: seq<T>, le: (T, T) -> bool)
    requires TotalPreorder(le)
    ensures SortedBy(Sort(xs, le), le)
  {
    if xs != [] {
      SortSorts(xs[..|xs| - 1], le);
      InsertSorts(Sort(xs[..|xs| - 1], le), xs[|xs| - 1], le);
    }
  }

  /** A list already in order is left as it is. */
  lemma {:induction false} SortIdentity<T>(xs: seq<T>, le: (T, T) -> bool)
    requires SortedBy(xs, le)
    ensures Sort(xs, le) == xs
  {
    if xs != [] {
      SortIdentity(xs[..|xs| - 1], le);
      if |xs| > 1 {
        assert le(xs[|xs| - 2], xs[|xs| - 1]);
      }
    }
  }

  // ---------------------------------------------------------------- stability

  /** `x`, if the order does not tell it apart from `k`. */
  function PeerOf<T>(x: T, k: T, le: (T, T) -> bool): seq<T> {
    if le(x, k) && le(k, x) then [x] else []
  }

  /** The elements that the order does not tell apart from `k`, in the order in which they stand. */
  function Peers<T>(xs: seq<T>, k: T, le: (T, T) -> bool): seq<T> {
    if xs == [] then [] else Peers(xs[..|xs| - 1], k, le) + PeerOf(xs[|xs| - 1], k, le)
  }

  lemma PeersSnoc<T>(xs: seq<T>, x: T, k: T, le: (T, T) -> bool)
    ensures Peers(xs + [x], k, le) == Peers(xs, k, le) + PeerOf(x, k, le)
  {
    assert (xs + [x])[..|xs|] == xs;
  }

  /** Elements that change places are not both peers. */
  lemma PeersSwap<T(!new)>(front: seq<T>, x: T, y: T, k: T, le: (T, T) -> bool)
    requires TotalPreorder(le) && !le(y, x)
    ensures front + PeerOf(x, k, le) + PeerOf(y, k, le) == front + PeerOf(y, k, le) + PeerOf(x, k, le)
  {
    assert le(y, k) && le(k, x) ==> le(y, x);
  }

  lemma {:induction false} InsertStable<T(!new)>(xs: seq<T>, x: T, k: T, le: (T, T) -> bool)
    requires TotalPreorder(le)
    ensures Peers(Insert(xs, x, le), k, le) == Peers(xs, k, le) + PeerOf(x, k, le)
  {
    if xs == [] {
      PeersSnoc([], x, k, le);
      assert [] + [x] == [x];
    } else if le(xs[|xs| - 1], x) {
      PeersSnoc(xs, x, k, le);
    } else {
      var init, last := xs[..|xs| - 1], xs[|xs| - 1];
      InsertStable(init, x, k, le);
      PeersSnoc(Insert(init, x, le), last, k, le);
      PeersSwap(Peers(init, k, le), x, last, k, le);
    }
  }

  /** Sorting leaves elements that the order does not tell apart in their places relative to each other. */
  lemma {:induction false} SortStable<T(!new)>(xs: seq<T>, k: T, le: (T, T) -> bool)
    requires TotalPreorder(le)
    ensures Peers(Sort(xs, le), k, le) == Peers(xs, k, le)
  {
    if xs != [] {
      SortStable(xs[..|xs| - 1], k, le);
      InsertStable(Sort(xs[..|xs| - 1], le), xs[|xs| - 1], k, le);
    }
  }
}
