/** Stable sorting by a key, as `list.sort` and `sorted` do it.

    The comparison is a parameter; `le(x, y)` reads "x may stand before y".
    What the rest of the project needs is that the result is ordered, that it
    is a permutation of the input, and that for an antisymmetric comparison
    nothing but the multiset of elements decides it. */
module Sorting {
  ghost predicate TotalPreorder<T(!new)>(le: (T, T) -> bool) {
    && (forall x, y :: le(x, y) || le(y, x))
    && (forall x, y, z :: le(x, y) && le(y, z) ==> le(x, z))
  }

  ghost predicate TotalOrder<T(!new)>(le: (T, T) -> bool) {
    && TotalPreorder(le)
    && (forall x, y :: le(x, y) && le(y, x) ==> x == y)
  }

  ghost predicate Ordered<T>(le: (T, T) -> bool, s: seq<T>) {
    forall i, j :: 0 <= i < j < |s| ==> le(s[i], s[j])
  }

  /** `x` goes in front of everything it may stand before, so equal elements
      keep their order. */
  function Insert<T>(le: (T, T) -> bool, x: T, s: seq<T>): (r: seq<T>)
    ensures multiset(r) == multiset{x} + multiset(s)
  {
    if s == [] then [x]
    else if le(x, s[0]) then [x] + s
    else
      assert s == [s[0]] + s[1..];
      [s[0]] + Insert(le, x, s[1..])
  }

  function Sort<T(!new)>(le: (T, T) -> bool, s: seq<T>): (r: seq<T>)
    ensures multiset(r) == multiset(s)
    ensures |r| == |s|
    ensures forall x :: x in r <==> x in s
  {
    if s == [] then []
    else
      assert s == [s[0]] + s[1..];
      var r := Insert(le, s[0], Sort(le, s[1..]));
      SameMultiset(r, s);
      r
  }

  lemma SameMultiset<T(!new)>(a: seq<T>, b: seq<T>)
    requires multiset(a) == multiset(b)
    ensures |a| == |b|
    ensures forall x :: x in a <==> x in b
  {
    assert |multiset(a)| == |multiset(b)|;
    forall x
      ensures x in a <==> x in b
    {
      assert x in a <==> x in multiset(a);
      assert x in b <==> x in multiset(b);
    }
  }

  lemma {:induction false} InsertOrdered<T(!new)>(le: (T, T) -> bool, x: T, s: seq<T>)
    requires TotalPreorder(le) && Ordered(le, s)
    ensures Ordered(le, Insert(le, x, s))
  {
    if s == [] || le(x, s[0]) {
    } else {
      InsertOrdered(le, x, s[1..]);
      var rest := Insert(le, x, s[1..]);
      SameMultiset(rest, [x] + s[1..]);
      forall j | 0 <= j < |rest|
        ensures le(s[0], rest[j])
      {
        assert rest[j] in [x] + s[1..];
      }
    }
  }

  lemma {:induction false} SortIsIdentity<T(!new)>(le: (T, T) -> bool, s: seq<T>)
    requires Ordered(le, s)
    ensures Sort(le, s) == s
  {
    if s == [] {
    } else {
      SortIsIdentity(le, s[1..]);
      assert s == [s[0]] + s[1..];
      assert |s| > 1 ==> le(s[0], s[1]);
    }
  }

  lemma {:induction false} SortOrdered<T(!new)>(le: (T, T) -> bool, s: seq<T>)
    requires TotalPreorder(le)
    ensures Ordered(le, Sort(le, s))
  {
    if s == [] {
    } else {
      SortOrdered(le, s[1..]);
      InsertOrdered(le, s[0], Sort(le, s[1..]));
    }
  }

  lemma SameFirst<T(!new)>(le: (T, T) -> bool, a: seq<T>, b: seq<T>)
    requires TotalOrder(le) && Ordered(le, a) && Ordered(le, b)
    requires a != [] && b != [] && a[0] in b && b[0] in a
    ensures a[0] == b[0]
  {}

  lemma SameTails<T>(a: seq<T>, b: seq<T>)
    requires a != [] && b != [] && a[0] == b[0] && multiset(a) == multiset(b)
    ensures multiset(a[1..]) == multiset(b[1..])
  {
    assert a == [a[0]] + a[1..] && b == [b[0]] + b[1..];
    assert multiset(a[1..]) == multiset(a) - multiset{a[0]};
    assert multiset(b[1..]) == multiset(b) - multiset{b[0]};
  }

  /** Two ordered arrangements of the same elements are the same sequence. */
  lemma {:induction false} OrderedUnique<T(!new)>(le: (T, T) -> bool, a: seq<T>, b: seq<T>)
    requires TotalOrder(le)
    requires Ordered(le, a) && Ordered(le, b)
    requires multiset(a) == multiset(b)
    ensures a == b
  {
    SameMultiset(a, b);
    if a == [] {
    } else {
      SameFirst(le, a, b);
      SameTails(a, b);
      OrderedUnique(le, a[1..], b[1..]);
      assert a == [a[0]] + a[1..] && b == [b[0]] + b[1..];
    }
  }
}
