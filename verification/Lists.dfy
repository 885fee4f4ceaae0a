/** How mapping and flattening act on the multiset of a list's elements. */
module Lists {
  import opened Bytes

  function FlatMap<T, U>(f: T -> seq<U>, s: seq<T>): (r: seq<U>)
  {
    if s == [] then [] else f(s[0]) + FlatMap(f, s[1..])
  }

  lemma {:induction false} FlatMapConcat<T, U>(f: T -> seq<U>, a: seq<T>, b: seq<T>)
    ensures FlatMap(f, a + b) == FlatMap(f, a) + FlatMap(f, b)
  {
    if a == [] {
      assert a + b == b;
    } else {
      FlatMapConcat(f, a[1..], b);
      assert (a + b)[0] == a[0] && (a + b)[1..] == a[1..] + b;
      Assoc(f(a[0]), FlatMap(f, a[1..]), FlatMap(f, b));
    }
  }

  lemma FlatMapOne<T, U>(f: T -> seq<U>, x: T)
    ensures FlatMap(f, [x]) == f(x)
  {
    var one := [x];
    assert one[1..] == [] && FlatMap(f, one[1..]) == [];
    assert f(x) + [] == f(x);
  }

  lemma FlatMapLast<T, U>(f: T -> seq<U>, s: seq<T>)
    requires s != []
    ensures FlatMap(f, s) == FlatMap(f, s[..|s| - 1]) + f(s[|s| - 1])
  {
    var n := |s| - 1;
    assert s == s[..n] + [s[n]];
    FlatMapConcat(f, s[..n], [s[n]]);
    FlatMapOne(f, s[n]);
  }

  /** Where `x` sits in a list that contains it. */
  lemma Locate<T>(x: T, s: seq<T>) returns (i: nat)
    requires x in multiset(s)
    ensures i < |s| && s[i] == x
    ensures s == s[..i] + [x] + s[i + 1..]
    ensures multiset(s) == multiset(s[..i] + s[i + 1..]) + multiset{x}
  {
    i :| 0 <= i < |s| && s[i] == x;
    assert s == s[..i] + [x] + s[i + 1..];
  }

  lemma TwoPlaces<T>(b: seq<T>, x: nat, y: nat)
    requires x < y < |b|
    ensures multiset{b[x], b[y]} <= multiset(b)
  {
    assert b == b[..x] + [b[x]] + b[x + 1..y] + [b[y]] + b[y + 1..];
  }

  /** Two places of a permutation come from two different places of the original. */
  lemma LocateTwo<T>(a: seq<T>, b: seq<T>, x: nat, y: nat) returns (i: nat, j: nat)
    requires multiset(a) == multiset(b) && x < y < |b|
    ensures i < |a| && j < |a| && i != j && a[i] == b[x] && a[j] == b[y]
  {
    TwoPlaces(b, x, y);
    i := Locate(b[x], a);
    var rest := a[..i] + a[i + 1..];
    assert multiset(rest) == multiset(a) - multiset{b[x]};
    assert b[y] in multiset(rest);
    var k := Locate(b[y], rest);
    j := if k < i then k else k + 1;
  }

  lemma FlatMapRemove<T, U>(f: T -> seq<U>, s: seq<T>, i: nat)
    requires i < |s|
    ensures multiset(FlatMap(f, s)) == multiset(f(s[i])) + multiset(FlatMap(f, s[..i] + s[i + 1..]))
  {
    FlatMapConcat(f, s[..i], s[i..]);
    FlatMapConcat(f, s[..i], s[i + 1..]);
    assert s == s[..i] + s[i..] && s[i..][1..] == s[i + 1..];
  }

  lemma {:induction false} FlatMapMultiset<T, U>(f: T -> seq<U>, a: seq<T>, b: seq<T>)
    requires multiset(a) == multiset(b)
    ensures multiset(FlatMap(f, a)) == multiset(FlatMap(f, b))
  {
    if a == [] {
      assert |b| == |multiset(b)| == 0;
    } else {
      assert a == [a[0]] + a[1..];
      assert multiset(a[1..]) == multiset(a) - multiset{a[0]};
      assert a[0] in multiset(a);
      var i := Locate(a[0], b);
      FlatMapRemove(f, b, i);
      FlatMapMultiset(f, a[1..], b[..i] + b[i + 1..]);
    }
  }

  lemma {:induction false} MapAsFlatMap<T, U>(f: T -> U, s: seq<T>)
    ensures Map(f, s) == FlatMap(x => [f(x)], s)
  {
    if s != [] {
      MapAsFlatMap(f, s[1..]);
    }
  }

  lemma MapMultiset<T, U>(f: T -> U, a: seq<T>, b: seq<T>)
    requires multiset(a) == multiset(b)
    ensures multiset(Map(f, a)) == multiset(Map(f, b))
  {
    MapAsFlatMap(f, a);
    MapAsFlatMap(f, b);
    FlatMapMultiset(x => [f(x)], a, b);
  }

  /** A map with a left inverse keeps and reflects equality of multisets. */
  lemma MapMultisetExact<T, U>(f: T -> U, g: U -> T, a: seq<T>, b: seq<T>)
    requires forall x :: x in a || x in b ==> g(f(x)) == x
    ensures multiset(Map(f, a)) == multiset(Map(f, b)) <==> multiset(a) == multiset(b)
  {
    if multiset(a) == multiset(b) {
      MapMultiset(f, a, b);
    }
    if multiset(Map(f, a)) == multiset(Map(f, b)) {
      MapMultiset(g, Map(f, a), Map(f, b));
      assert Map(g, Map(f, a)) == a && Map(g, Map(f, b)) == b;
    }
  }

  lemma SameLength<T>(a: seq<T>, b: seq<T>)
    requires multiset(a) == multiset(b)
    ensures |a| == |b|
  {
    assert |a| == |multiset(a)| == |multiset(b)| == |b|;
  }

  /** Lists of at most one element are told apart by their multisets. */
  lemma SmallMultisets<T>(x: seq<T>, y: seq<T>)
    requires |y| <= 1
    ensures multiset(x) == multiset(y) <==> x == y
  {
    if multiset(x) == multiset(y) {
      SameLength(x, y);
      if |y| == 1 {
        assert y[0] in multiset(y);
        assert y[0] in multiset(x);
        assert x == [x[0]];
      }
    }
  }
}
