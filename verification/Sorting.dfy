/**
 The library sort (`Array.prototype.sort`) as the scripts use it: a stable sort
 by a strict comparison. The comparison is a parameter, because `localeCompare`
 is not part of this model.
 */
module Sorting {

  /** `less` is a strict order on the elements of `domain` that leaves no two of them tied. */
  ghost predicate StrictTotalOrderOn<T>(less: (T, T) -> bool, domain: set<T>) {
    && (forall x, y | x in domain && y in domain :: !(less(x, y) && less(y, x)))
    && (forall x, y | x in domain && y in domain :: x != y ==> less(x, y) || less(y, x))
    && (forall x, y, z | x in domain && y in domain && z in domain ::
          less(x, y) && less(y, z) ==> less(x, z))
  }

  /** No later element goes before an earlier one. */
  ghost predicate Ordered<T>(less: (T, T) -> bool, s: seq<T>) {
    forall i, j | 0 <= i < j < |s| :: !less(s[j], s[i])
  }

  function Insert<T>(less: (T, T) -> bool, x: T, s: seq<T>): (r: seq<T>)
    ensures multiset(r) == multiset{x} + multiset(s)
  {
    if s == [] then [x]
    else if less(s[0], x) then
      assert s == [s[0]] + s[1..];
      [s[0]] + Insert(less, x, s[1..])
    else [x] + s
  }

  /** The elements of `s`, none lost and none added, in `less` order. */
  function Sort<T>(less: (T, T) -> bool, s: seq<T>): (r: seq<T>)
    ensures multiset(r) == multiset(s)
    ensures |r| == |s|
  {
    if s == [] then []
    else
      assert s == [s[0]] + s[1..];
      var r := Insert(less, s[0], Sort(less, s[1..]));
      assert |r| == |multiset(r)|;
      r
  }

  lemma {:induction false} InsertKeepsOrder<T>(less: (T, T) -> bool, x: T, s: seq<T>, domain: set<T>)
    requires StrictTotalOrderOn(less, domain)
    requires x in domain && forall y | y in s :: y in domain
    requires Ordered(less, s)
    ensures Ordered(less, Insert(less, x, s))
  {
    hide Sort;
    if s != [] && less(s[0], x) {
      InsertKeepsOrder(less, x, s[1..], domain);
      var r := Insert(less, x, s[1..]);
      forall j | 0 <= j < |r|
        ensures !less(r[j], s[0])
      {
        assert r[j] in multiset(r);
        assert r[j] == x || r[j] in multiset(s[1..]);
      }
    } else if s != [] {
      forall j | 0 <= j < |s|
        ensures !less(s[j], x)
      {
        assert !less(s[0], x);
        assert j > 0 ==> !less(s[j], s[0]);
        assert s[0] in domain && s[j] in domain;
      }
    }
  }

  lemma {:induction false} SortOrders<T>(less: (T, T) -> bool, s: seq<T>, domain: set<T>)
    requires StrictTotalOrderOn(less, domain)
    requires forall y | y in s :: y in domain
    ensures Ordered(less, Sort(less, s))
  {
    if s != [] {
      SortOrders(less, s[1..], domain);
      var r := Sort(less, s[1..]);
      forall y | y in r
        ensures y in domain
      {
        assert y in multiset(r);
      }
      InsertKeepsOrder(less, s[0], r, domain);
    }
  }

  /** An ordered listing is the only one with its elements. */
  lemma {:induction false} OrderedIsUnique<T>(less: (T, T) -> bool, a: seq<T>, b: seq<T>, domain: set<T>)
    requires StrictTotalOrderOn(less, domain)
    requires forall y | y in a :: y in domain
    requires Ordered(less, a) && Ordered(less, b)
    requires multiset(a) == multiset(b)
    ensures a == b
  {
    hide StrictTotalOrderOn, Ordered;
    assert |multiset(a)| == |a| && |multiset(b)| == |b|;
    if a != [] {
      FirstIsShared(less, a, b, domain);
      DropFirst(a);
      DropFirst(b);
      RestIsOrdered(less, a);
      RestIsOrdered(less, b);
      OrderedIsUnique(less, a[1..], b[1..], domain);
      assert a == [a[0]] + a[1..] && b == [b[0]] + b[1..];
    }
  }

  lemma RestIsOrdered<T>(less: (T, T) -> bool, a: seq<T>)
    requires Ordered(less, a) && a != []
    ensures Ordered(less, a[1..])
  {
  }

  lemma DropFirst<T>(a: seq<T>)
    requires a != []
    ensures multiset(a[1..]) == multiset(a) - multiset{a[0]}
  {
    assert a == [a[0]] + a[1..];
  }

  lemma FirstIsShared<T>(less: (T, T) -> bool, a: seq<T>, b: seq<T>, domain: set<T>)
    requires StrictTotalOrderOn(less, domain) && forall y | y in a :: y in domain
    requires Ordered(less, a) && Ordered(less, b) && multiset(a) == multiset(b)
    requires a != [] && b != []
    ensures a[0] == b[0]
  {
    assert a[0] in multiset(b) && b[0] in multiset(a);
    var i :| 0 <= i < |a| && a[i] == b[0];
    var j :| 0 <= j < |b| && b[j] == a[0];
    assert a[0] in domain && b[0] in domain;
  }

  /** Sorting forgets the order the elements were listed in. */
  lemma SortIgnoresListingOrder<T>(less: (T, T) -> bool, a: seq<T>, b: seq<T>, domain: set<T>)
    requires StrictTotalOrderOn(less, domain)
    requires forall y | y in a :: y in domain
    requires multiset(a) == multiset(b)
    ensures Sort(less, a) == Sort(less, b)
  {
    forall y | y in b
      ensures y in domain
    {
      assert y in multiset(b);
    }
    SortOrders(less, a, domain);
    SortOrders(less, b, domain);
    forall y | y in Sort(less, a)
      ensures y in domain
    {
      assert y in multiset(Sort(less, a));
    }
    OrderedIsUnique(less, Sort(less, a), Sort(less, b), domain);
  }
}
