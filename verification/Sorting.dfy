/** Stable sorting by a comparison, as `sort_by` does it. */
module Sorting {

  /** What makes a comparison fit to sort by. */
  ghost predicate TotalPreorder<T(!new)>(le: (T, T) -> bool)
  {
    && (forall x, y :: le(x, y) || le(y, x))
    && (forall x, y, z :: le(x, y) && le(y, z) ==> le(x, z))
  }

  ghost predicate Ordered<T>(s: seq<T>, le: (T, T) -> bool)
  {
    forall i, j | 0 <= i < j < |s| :: le(s[i], s[j])
  }

  function Insert<T>(s: seq<T>, x: T, le: (T, T) -> bool): (r: seq<T>)
    ensures |r| == |s| + 1
  {
    if s == [] || le(s[|s| - 1], x) then s + [x]
    else Insert(s[..|s| - 1], x, le) + [s[|s| - 1]]
  }

  function SortBy<T>(s: seq<T>, le: (T, T) -> bool): (r: seq<T>)
    ensures |r| == |s|
  {
    if s == [] then [] else Insert(SortBy(s[..|s| - 1], le), s[|s| - 1], le)
  }

  lemma SplitLast<T>(s: seq<T>)
    requires s != []
    ensures multiset(s) == multiset(s[..|s| - 1]) + multiset{s[|s| - 1]}
  {
    assert s == s[..|s| - 1] + [s[|s| - 1]];
  }

  lemma {:induction false} InsertKeeps<T>(s: seq<T>, x: T, le: (T, T) -> bool)
    ensures multiset(Insert(s, x, le)) == multiset(s) + multiset{x}
  {
    if s != [] && !le(s[|s| - 1], x) {
      InsertKeeps(s[..|s| - 1], x, le);
      SplitLast(s);
    }
  }

  /** Sorting only reorders. */
  lemma {:induction false} SortKeeps<T>(s: seq<T>, le: (T, T) -> bool)
    ensures multiset(SortBy(s, le)) == multiset(s)
  {
    hide Insert;
    if s == [] {
    } else {
      SortKeeps(s[..|s| - 1], le);
      InsertKeeps(SortBy(s[..|s| - 1], le), s[|s| - 1], le);
      SplitLast(s);
    }
  }

  lemma SameMembers<T>(s: seq<T>, t: seq<T>)
    requires multiset(s) == multiset(t)
    ensures forall x :: x in s <==> x in t
  {
    forall x
      ensures x in s <==> x in t
    {
      assert x in multiset(s) <==> x in multiset(t);
    }
  }

  /** `y` is at least every element. */
  ghost predicate Bounds<T>(s: seq<T>, y: T, le: (T, T) -> bool)
  {
    forall z | z in s :: le(z, y)
  }

  lemma OrderedGrows<T>(s: seq<T>, y: T, le: (T, T) -> bool)
    requires Ordered(s, le) && Bounds(s, y, le)
    ensures Ordered(s + [y], le)
  {
    forall i, j | 0 <= i < j < |s + [y]|
      ensures le((s + [y])[i], (s + [y])[j])
    {
      assert (s + [y])[i] == s[i] && s[i] in s;
    }
  }

  lemma OrderedParts<T(!new)>(s: seq<T>, le: (T, T) -> bool)
    requires TotalPreorder(le) && Ordered(s, le) && s != []
    ensures Ordered(s[..|s| - 1], le) && Bounds(s[..|s| - 1], s[|s| - 1], le) && Bounds(s, s[|s| - 1], le)
  {
    var last := s[|s| - 1];
    assert le(last, last);
    forall z | z in s
      ensures le(z, last)
    {
      var i :| 0 <= i < |s| && s[i] == z;
    }
  }

  lemma BoundsRise<T(!new)>(s: seq<T>, y: T, x: T, le: (T, T) -> bool)
    requires TotalPreorder(le) && Bounds(s, y, le) && le(y, x)
    ensures Bounds(s, x, le)
  {
  }

  lemma BoundsInsert<T>(s: seq<T>, x: T, y: T, le: (T, T) -> bool)
    requires Bounds(s, y, le) && le(x, y)
    ensures Bounds(Insert(s, x, le), y, le)
  {
    hide Insert;
    InsertKeeps(s, x, le);
    assert multiset(s + [x]) == multiset(s) + multiset{x};
    forall z | z in Insert(s, x, le)
      ensures le(z, y)
    {
      assert z in multiset(Insert(s, x, le));
      assert z in multiset(s + [x]);
      assert z in s + [x];
    }
  }

  /** Inserting keeps the order, and any bound of what it inserts into and of what it inserts. */
  lemma {:induction false} InsertOrders<T(!new)>(s: seq<T>, x: T, le: (T, T) -> bool)
    requires TotalPreorder(le) && Ordered(s, le)
    ensures Ordered(Insert(s, x, le), le)
    ensures forall y | Bounds(s, y, le) && le(x, y) :: Bounds(Insert(s, x, le), y, le)
  {
    hide Bounds, Ordered;
    forall y | Bounds(s, y, le) && le(x, y)
      ensures Bounds(Insert(s, x, le), y, le)
    {
      BoundsInsert(s, x, y, le);
    }
    if s == [] {
      NoneBounded(x, le);
      OrderedGrows(s, x, le);
    } else {
      var last := s[|s| - 1];
      OrderedParts(s, le);
      if le(last, x) {
        BoundsRise(s, last, x, le);
        OrderedGrows(s, x, le);
      } else {
        InsertOrders(s[..|s| - 1], x, le);
        assert le(x, last);
        OrderedGrows(Insert(s[..|s| - 1], x, le), last, le);
      }
    }
  }

  lemma NoneBounded<T>(y: T, le: (T, T) -> bool)
    ensures Bounds([], y, le)
  {
  }

  lemma {:induction false} SortOrders<T(!new)>(s: seq<T>, le: (T, T) -> bool)
    requires TotalPreorder(le)
    ensures Ordered(SortBy(s, le), le)
  {
    hide Insert, Ordered;
    if s != [] {
      SortOrders(s[..|s| - 1], le);
      InsertOrders(SortBy(s[..|s| - 1], le), s[|s| - 1], le);
    } else {
      EmptyOrdered(le);
    }
  }

  lemma EmptyOrdered<T>(le: (T, T) -> bool)
    ensures Ordered([], le)
  {
  }
}
