/** Python's `sorted`, as insertion sort: any stable sort under a total order gives the same list. */
module Sorting {

  ghost predicate TotalOrder<T(!new)>(le: (T, T) -> bool) {
    && (forall a, b :: le(a, b) || le(b, a))
    && (forall a, b :: le(a, b) && le(b, a) ==> a == b)
    && (forall a, b, c :: le(a, b) && le(b, c) ==> le(a, c))
  }

  ghost predicate Ascending<T>(s: seq<T>, le: (T, T) -> bool) {
    forall i, j :: 0 <= i < j < |s| ==> le(s[i], s[j])
  }

  function Insert<T>(e: T, s: seq<T>, le: (T, T) -> bool): (r: seq<T>)
    ensures multiset(r) == multiset(s) + multiset{e}
  {
    if s == [] || le(e, s[0]) then assert s == [] || s == [s[0]] + s[1..]; [e] + s
    else
      assert s == [s[0]] + s[1..];
      [s[0]] + Insert(e, s[1..], le)
  }

  function Sorted<T>(s: seq<T>, le: (T, T) -> bool): (r: seq<T>)
    ensures multiset(r) == multiset(s)
  {
    if s == [] then [] else
      assert s == [s[0]] + s[1..];
      Insert(s[0], Sorted(s[1..], le), le)
  }

  lemma SortedMembers<T>(s: seq<T>, le: (T, T) -> bool)
    ensures forall x :: x in Sorted(s, le) <==> x in s
  {
    forall x ensures x in Sorted(s, le) <==> x in s {
      assert x in Sorted(s, le) <==> x in multiset(Sorted(s, le));
    }
  }

  lemma {:induction false} InsertAscending<T(!new)>(e: T, s: seq<T>, le: (T, T) -> bool)
    requires TotalOrder(le) && Ascending(s, le)
    ensures Ascending(Insert(e, s, le), le)
  {
    if s == [] {
    } else if le(e, s[0]) {
      forall i | 0 <= i < |s| ensures le(e, s[i]) { assert le(s[0], s[i]); }
    } else {
      InsertAscending(e, s[1..], le);
      var rest := Insert(e, s[1..], le);
      forall x | x in rest ensures le(s[0], x) {
        assert x in multiset(rest);
        if x != e { assert x in multiset(s[1..]); }
      }
    }
  }

  lemma {:induction false} SortedAscending<T(!new)>(s: seq<T>, le: (T, T) -> bool)
    requires TotalOrder(le)
    ensures Ascending(Sorted(s, le), le)
  {
    if s != [] {
      SortedAscending(s[1..], le);
      InsertAscending(s[0], Sorted(s[1..], le), le);
    }
  }

  lemma LeastFirst<T(!new)>(a: seq<T>, b: seq<T>, le: (T, T) -> bool)
    requires TotalOrder(le) && Ascending(a, le) && multiset(a) == multiset(b) && b != [] && a != []
    ensures le(a[0], b[0])
  {
    assert b[0] in multiset(b);
    var i :| 0 <= i < |a| && a[i] == b[0];
  }

  lemma TailMultiset<T>(s: seq<T>)
    requires s != []
    ensures multiset(s[1..]) == multiset(s) - multiset{s[0]}
  {
    assert s == [s[0]] + s[1..];
  }

  lemma SameFirst<T(!new)>(a: seq<T>, b: seq<T>, le: (T, T) -> bool)
    requires TotalOrder(le) && Ascending(a, le) && Ascending(b, le) && multiset(a) == multiset(b)
    requires a != [] && b != []
    ensures a[0] == b[0] && multiset(a[1..]) == multiset(b[1..])
  {
    LeastFirst(a, b, le);
    LeastFirst(b, a, le);
    TailMultiset(a);
    TailMultiset(b);
  }

  lemma AscendingTail<T>(s: seq<T>, le: (T, T) -> bool)
    requires s != [] && Ascending(s, le)
    ensures Ascending(s[1..], le)
  {}

  /** One multiset has one ascending list. */
  lemma {:induction false} AscendingUnique<T(!new)>(a: seq<T>, b: seq<T>, le: (T, T) -> bool)
    requires TotalOrder(le) && Ascending(a, le) && Ascending(b, le) && multiset(a) == multiset(b)
    ensures a == b
  {
    assert |a| == |multiset(a)| == |multiset(b)| == |b|;
    if a != [] {
      SameFirst(a, b, le);
      AscendingTail(a, le);
      AscendingTail(b, le);
      AscendingUnique(a[1..], b[1..], le);
      assert a == [a[0]] + a[1..] && b == [b[0]] + b[1..];
    }
  }

  /** Sorting forgets the order it was given. */
  lemma SortedIgnoresOrder<T(!new)>(s: seq<T>, shuffled: seq<T>, le: (T, T) -> bool)
    requires TotalOrder(le) && multiset(s) == multiset(shuffled)
    ensures Sorted(s, le) == Sorted(shuffled, le)
  {
    SortedAscending(s, le);
    SortedAscending(shuffled, le);
    AscendingUnique(Sorted(s, le), Sorted(shuffled, le), le);
  }

  lemma SortedAlready<T(!new)>(s: seq<T>, le: (T, T) -> bool)
    requires TotalOrder(le) && Ascending(s, le)
    ensures Sorted(s, le) == s
  {
    SortedAscending(s, le);
    AscendingUnique(Sorted(s, le), s, le);
  }
}
