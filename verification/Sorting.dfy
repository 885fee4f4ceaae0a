/**
 * Enumerable#sort for a total preorder given as a predicate. Where the order is also
 * antisymmetric, the sorted list is determined by the multiset of elements alone.
 */
module Sorting {
  import opened Bytes

  ghost predicate TotalPreorder<T(!new)>(leq: (T, T) -> bool) {
    && (forall x, y :: leq(x, y) || leq(y, x))
    && (forall x, y, z :: leq(x, y) && leq(y, z) ==> leq(x, z))
  }

  ghost predicate TotalOrder<T(!new)>(leq: (T, T) -> bool) {
    && TotalPreorder(leq)
    && (forall x, y :: leq(x, y) && leq(y, x) ==> x == y)
  }

  ghost predicate Sorted<T>(leq: (T, T) -> bool, s: seq<T>) {
    forall i, j :: 0 <= i < j < |s| ==> leq(s[i], s[j])
  }

  function Insert<T>(leq: (T, T) -> bool, x: T, s: seq<T>): (r: seq<T>)
    ensures multiset(r) == multiset{x} + multiset(s)
  {
    if s == [] then [x]
    else if leq(x, s[0]) then [x] + s
    else
      assert s == [s[0]] + s[1..];
      [s[0]] + Insert(leq, x, s[1..])
  }

  function Sort<T>(leq: (T, T) -> bool, s: seq<T>): (r: seq<T>)
    ensures multiset(r) == multiset(s)
    ensures |r| == |s|
  {
    if s == [] then []
    else
      assert s == [s[0]] + s[1..];
      var r := Insert(leq, s[0], Sort(leq, s[1..]));
      assert |multiset(r)| == |multiset(s)|;
      r
  }

  lemma {:induction false} InsertSorted<T(!new)>(leq: (T, T) -> bool, x: T, s: seq<T>)
    requires TotalPreorder(leq) && Sorted(leq, s)
    ensures Sorted(leq, Insert(leq, x, s))
  {
    if s != [] && !leq(x, s[0]) {
      InsertSorted(leq, x, s[1..]);
      var rest := Insert(leq, x, s[1..]);
      forall j | 0 <= j < |rest|
        ensures leq(s[0], rest[j])
      {
        assert rest[j] in multiset(rest);
        assert rest[j] == x || rest[j] in s[1..];
      }
    }
  }

  lemma {:induction false} SortSorted<T(!new)>(leq: (T, T) -> bool, s: seq<T>)
    requires TotalPreorder(leq)
    ensures Sorted(leq, Sort(leq, s))
  {
    if s != [] {
      SortSorted(leq, s[1..]);
      InsertSorted(leq, s[0], Sort(leq, s[1..]));
    }
  }

  /** Elements of a list that the order cannot tell apart are the same. */
  ghost predicate Antisymmetric<T(!new)>(leq: (T, T) -> bool, s: seq<T>) {
    forall x, y :: x in s && y in s && leq(x, y) && leq(y, x) ==> x == y
  }

  lemma FirstOfSorted<T(!new)>(leq: (T, T) -> bool, a: seq<T>, b: seq<T>)
    requires TotalPreorder(leq) && Antisymmetric(leq, a) && Sorted(leq, a) && Sorted(leq, b)
    requires a != [] && b != [] && multiset(a) == multiset(b)
    ensures a[0] == b[0]
  {
    assert a[0] in multiset(b) && b[0] in multiset(a);
    assert leq(a[0], a[0]);
  }

  lemma SameTails<T>(a: seq<T>, b: seq<T>)
    requires a != [] && b != [] && a[0] == b[0] && multiset(a) == multiset(b)
    ensures multiset(a[1..]) == multiset(b[1..])
  {
    assert a == [a[0]] + a[1..] && b == [b[0]] + b[1..];
    assert multiset(a[1..]) == multiset(a) - multiset{a[0]};
    assert multiset(b[1..]) == multiset(b) - multiset{b[0]};
  }

  /** Two sorted lists with the same elements are the same list. */
  lemma {:induction false} SortedUnique<T(!new)>(leq: (T, T) -> bool, a: seq<T>, b: seq<T>)
    requires TotalPreorder(leq) && Antisymmetric(leq, a) && Sorted(leq, a) && Sorted(leq, b)
    requires multiset(a) == multiset(b)
    ensures a == b
  {
    assert |a| == |multiset(a)| == |multiset(b)| == |b|;
    if a != [] {
      FirstOfSorted(leq, a, b);
      SameTails(a, b);
      SortedUnique(leq, a[1..], b[1..]);
    }
  }

  /** A sort depends on nothing but the multiset of elements, and determines it. */
  lemma SortDetermined<T(!new)>(leq: (T, T) -> bool, a: seq<T>, b: seq<T>)
    requires TotalOrder(leq)
    ensures Sort(leq, a) == Sort(leq, b) <==> multiset(a) == multiset(b)
  {
    SortSorted(leq, a);
    SortSorted(leq, b);
    if multiset(a) == multiset(b) {
      SortedUnique(leq, Sort(leq, a), Sort(leq, b));
    }
  }

  /** A sorted permutation of a list is its sort. */
  lemma SortIs<T(!new)>(leq: (T, T) -> bool, sorted: seq<T>, s: seq<T>)
    requires TotalOrder(leq) && Sorted(leq, sorted) && multiset(sorted) == multiset(s)
    ensures Sort(leq, s) == sorted
  {
    SortSorted(leq, s);
    SortedUnique(leq, Sort(leq, s), sorted);
  }

  lemma {:induction false} InsertMap<T, U>(
    leq: (T, T) -> bool, leq': (U, U) -> bool, f: T -> U, x: T, s: seq<T>)
    requires forall i :: 0 <= i < |s| ==> leq(x, s[i]) == leq'(f(x), f(s[i]))
    ensures Map(f, Insert(leq, x, s)) == Insert(leq', f(x), Map(f, s))
  {
    if s != [] {
      if leq(x, s[0]) {
        assert Map(f, [x] + s) == [f(x)] + Map(f, s);
      } else {
        InsertMap(leq, leq', f, x, s[1..]);
        var rest := Insert(leq, x, s[1..]);
        assert ([s[0]] + rest)[1..] == rest;
      }
    }
  }

  /** Sorting commutes with a map that carries one order to the other on the elements. */
  lemma {:induction false} SortMap<T, U>(
    leq: (T, T) -> bool, leq': (U, U) -> bool, f: T -> U, s: seq<T>)
    requires forall x, y :: x in s && y in s ==> leq(x, y) == leq'(f(x), f(y))
    ensures Map(f, Sort(leq, s)) == Sort(leq', Map(f, s))
  {
    if s != [] {
      SortMap(leq, leq', f, s[1..]);
      var rest := Sort(leq, s[1..]);
      forall i | 0 <= i < |rest|
        ensures leq(s[0], rest[i]) == leq'(f(s[0]), f(rest[i]))
      {
        assert rest[i] in multiset(rest);
        assert rest[i] in s[1..];
      }
      InsertMap(leq, leq', f, s[0], rest);
      assert Map(f, s)[1..] == Map(f, s[1..]);
    }
  }

  // ---------------------------------------------------------------- the byte order

  lemma {:induction false} LeqTotal(a: Bytes, b: Bytes)
    ensures Leq(a, b) || Leq(b, a)
    ensures Leq(a, b) && Leq(b, a) ==> a == b
  {
    if a != [] && b != [] && a[0] == b[0] {
      LeqTotal(a[1..], b[1..]);
      assert a == [a[0]] + a[1..] && b == [b[0]] + b[1..];
    }
  }

  lemma {:induction false} LeqTransitive(a: Bytes, b: Bytes, c: Bytes)
    requires Leq(a, b) && Leq(b, c)
    ensures Leq(a, c)
  {
    if a != [] && a[0] == b[0] && b[0] == c[0] {
      LeqTransitive(a[1..], b[1..], c[1..]);
    }
  }

  lemma LeqIsTotalOrder()
    ensures TotalOrder(Leq)
  {
    forall a, b
      ensures Leq(a, b) || Leq(b, a)
      ensures Leq(a, b) && Leq(b, a) ==> a == b
    {
      LeqTotal(a, b);
    }
    forall a, b, c | Leq(a, b) && Leq(b, c)
      ensures Leq(a, c)
    {
      LeqTransitive(a, b, c);
    }
  }
}
