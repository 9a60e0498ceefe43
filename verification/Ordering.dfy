// Total orders and sorted listings: what Python's `sorted` promises about strings, tuples and sets.
module Ordering {

  ghost predicate TotalOrder<T(!new)>(le: (T, T) -> bool) {
    && (forall a, b :: le(a, b) || le(b, a))
    && (forall a, b :: le(a, b) && le(b, a) ==> a == b)
    && (forall a, b, c :: le(a, b) && le(b, c) ==> le(a, c))
  }

  // Comparison of str values, code point by code point.
  predicate StringLe(a: string, b: string) {
    a == "" || (b != "" && (a[0] < b[0] || (a[0] == b[0] && StringLe(a[1..], b[1..]))))
  }

  lemma StringLeTotal(a: string, b: string)
    ensures StringLe(a, b) || StringLe(b, a)
  {
    if a != "" && b != "" && a[0] == b[0] {
      StringLeTotal(a[1..], b[1..]);
    }
  }

  lemma {:induction false} StringLeAntisymmetric(a: string, b: string)
    requires StringLe(a, b) && StringLe(b, a)
    ensures a == b
  {
    if a != "" {
      StringLeAntisymmetric(a[1..], b[1..]);
      assert a == [a[0]] + a[1..] && b == [b[0]] + b[1..];
    }
  }

  lemma {:induction false} StringLeTransitive(a: string, b: string, c: string)
    requires StringLe(a, b) && StringLe(b, c)
    ensures StringLe(a, c)
  {
    if a != "" && a[0] == b[0] == c[0] {
      StringLeTransitive(a[1..], b[1..], c[1..]);
    }
  }

  lemma StringLeIsTotalOrder()
    ensures TotalOrder(StringLe)
  {
    forall a, b ensures StringLe(a, b) || StringLe(b, a) { StringLeTotal(a, b); }
    forall a, b | StringLe(a, b) && StringLe(b, a) ensures a == b { StringLeAntisymmetric(a, b); }
    forall a, b, c | StringLe(a, b) && StringLe(b, c) ensures StringLe(a, c) { StringLeTransitive(a, b, c); }
  }

  // a precedes b: it is the beginning of b, or has the lesser character where the two first differ.
  ghost predicate IsBefore(a: string, b: string) {
    a <= b || exists i :: 0 <= i < |a| && i < |b| && a[..i] == b[..i] && a[i] < b[i]
  }

  lemma SamePrefixStarts(a: string, b: string, k: nat)
    requires k <= |a| && k <= |b| && a[..k] == b[..k]
    ensures k == 0 || a[0] == b[0]
  {
    assert k == 0 || a[..k][0] == a[0];
  }

  lemma BeforeByFirst(a: string, b: string)
    requires a != "" && b != "" && a[0] != b[0]
    ensures IsBefore(a, b) <==> a[0] < b[0]
  {
    if a[0] < b[0] {
      assert a[..0] == b[..0];
    }
    forall k: nat | k < |a| && k < |b| && a[..k] == b[..k] ensures k == 0 || a[0] == b[0] {
      SamePrefixStarts(a, b, k);
    }
  }

  lemma BeforeByRest(c: char, x: string, y: string)
    ensures IsBefore([c] + x, [c] + y) <==> IsBefore(x, y)
  {
    var a, b := [c] + x, [c] + y;
    assert a <= b <==> x <= y by {
      assert x <= y ==> a == b[..|a|];
      if a <= b {
        assert x == b[..|a|][1..] == y[..|x|];
      }
    }
    if i :| 0 <= i < |x| && i < |y| && x[..i] == y[..i] && x[i] < y[i] {
      var k := i + 1;
      assert a[..k] == [c] + x[..i] && b[..k] == [c] + y[..i] && a[k] < b[k];
    }
    if k :| 0 <= k < |a| && k < |b| && a[..k] == b[..k] && a[k] < b[k] {
      var i := k - 1;
      assert x[..i] == a[..k][1..] && y[..i] == b[..k][1..] && x[i] < y[i];
    }
  }

  lemma {:induction false} StringLeIsLexicographic(a: string, b: string)
    ensures StringLe(a, b) <==> IsBefore(a, b)
  {
    if a != "" && b != "" {
      if a[0] == b[0] {
        hide IsBefore;
        StringLeIsLexicographic(a[1..], b[1..]);
        BeforeByRest(a[0], a[1..], b[1..]);
        assert a == [a[0]] + a[1..] && b == [a[0]] + b[1..];
      } else {
        BeforeByFirst(a, b);
      }
    }
  }

  // r lists every element of s exactly once, in ascending order.
  ghost predicate SortedListing<T(!new)>(r: seq<T>, s: set<T>, le: (T, T) -> bool) {
    && (forall x :: x in r <==> x in s)
    && (forall i, j :: 0 <= i < j < |r| ==> r[i] != r[j] && le(r[i], r[j]))
  }

  lemma {:induction false} MinimumExists<T(!new)>(s: set<T>, le: (T, T) -> bool) returns (least: T)
    requires s != {} && TotalOrder(le)
    ensures least in s && forall y :: y in s ==> le(least, y)
  {
    var x :| x in s;
    if s == {x} {
      least := x;
    } else {
      assert s - {x} != {};
      var rest := MinimumExists(s - {x}, le);
      least := if le(x, rest) then x else rest;
    }
  }

  // sorted(s): a total order leaves no freedom, see SortedListingIsUnique.
  method SortSet<T(==, !new)>(s: set<T>, le: (T, T) -> bool) returns (r: seq<T>)
    requires TotalOrder(le)
    ensures SortedListing(r, s, le)
  {
    r := [];
    var rest := s;
    while rest != {}
      invariant rest <= s
      invariant SortedListing(r, s - rest, le)
      invariant forall x, y :: x in r && y in rest ==> le(x, y)
      decreases rest
    {
      ghost var least := MinimumExists(rest, le);
      var x :| x in rest && forall y :: y in rest ==> le(x, y);
      r, rest := r + [x], rest - {x};
    }
  }

  // Going through a listing one element at a time.
  lemma NextListed<T(!new)>(r: seq<T>, s: set<T>, le: (T, T) -> bool, i: nat)
    requires SortedListing(r, s, le) && i < |r|
    ensures r[i] in s && r[i] !in r[..i] && r[..i + 1] == r[..i] + [r[i]]
  {
    assert r[i] in r;
  }

  lemma AllListed<T(!new)>(r: seq<T>, s: set<T>, le: (T, T) -> bool)
    requires SortedListing(r, s, le)
    ensures forall x :: x in r[..|r|] <==> x in s
  {
    assert r[..|r|] == r;
  }

  lemma HasElement<T>(r: seq<T>)
    ensures r == [] || exists x :: x in r
  {
    if r != [] {
      assert r[0] in r;
    }
  }

  lemma RestIsListing<T(!new)>(r: seq<T>, s: set<T>, le: (T, T) -> bool)
    requires SortedListing(r, s, le) && r != []
    ensures SortedListing(r[1..], s - {r[0]}, le)
  {
    forall y ensures y in r[1..] <==> y in s - {r[0]} {
      assert y in r <==> y == r[0] || y in r[1..];
    }
  }

  lemma {:induction false} SortedListingIsUnique<T(!new)>(r: seq<T>, q: seq<T>, s: set<T>, le: (T, T) -> bool)
    requires TotalOrder(le) && SortedListing(r, s, le) && SortedListing(q, s, le)
    ensures r == q
  {
    if s == {} {
      HasElement(r);
      HasElement(q);
    } else {
      var x :| x in s;
      assert x in r && x in q;
      assert r[0] in s && q[0] in s;
      assert r[0] in q && q[0] in r;
      assert r[0] == q[0];
      RestIsListing(r, s, le);
      RestIsListing(q, s, le);
      hide SortedListing;
      SortedListingIsUnique(r[1..], q[1..], s - {r[0]}, le);
      assert r == [r[0]] + r[1..] && q == [q[0]] + q[1..];
    }
  }
}
