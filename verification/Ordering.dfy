/**
 * Orders used wherever the program calls sort.Strings, sort.Slice or
 * sort.SliceStable: strings by code point, map keys in ascending order, and
 * records by a comparison.
 */
module Ordering {

  /** Strict lexicographic order by code point. */
  predicate Below(a: string, b: string) {
    if a == "" then b != ""
    else if b == "" then false
    else a[0] < b[0] || (a[0] == b[0] && Below(a[1..], b[1..]))
  }

  lemma {:induction false} BelowTransitive(a: string, b: string, c: string)
    requires Below(a, b) && Below(b, c)
    ensures Below(a, c)
  {
    if a != "" && a[0] == b[0] == c[0] {
      BelowTransitive(a[1..], b[1..], c[1..]);
    }
  }

  lemma {:induction false} BelowTotal(a: string, b: string)
    ensures Below(a, b) || a == b || Below(b, a)
    ensures !(Below(a, b) && (a == b || Below(b, a)))
  {
    if a != "" && b != "" && a[0] == b[0] {
      BelowTotal(a[1..], b[1..]);
      assert a == b <==> a[1..] == b[1..] by {
        assert a == [a[0]] + a[1..] && b == [b[0]] + b[1..];
      }
    }
  }

  /** Before another string comes a proper beginning of it, or one with a lower code where they first differ. */
  predicate ComesBefore(a: string, b: string) {
    || a < b
    || exists n :: 0 <= n < |a| && n < |b| && a[..n] == b[..n] && (a[n] as int) < (b[n] as int)
  }

  lemma ComesLater(c: char, a: string, b: string)
    ensures ComesBefore(a, b) <==> ComesBefore([c] + a, [c] + b)
  {
    var x, y := [c] + a, [c] + b;
    if n :| 0 <= n < |a| && n < |b| && a[..n] == b[..n] && (a[n] as int) < (b[n] as int) {
      assert x[..n + 1] == [c] + a[..n] && y[..n + 1] == [c] + b[..n] && x[n + 1] == a[n] && y[n + 1] == b[n];
    }
    if n :| 0 <= n < |x| && n < |y| && x[..n] == y[..n] && (x[n] as int) < (y[n] as int) {
      assert n > 0 && a[..n - 1] == x[..n][1..] && b[..n - 1] == y[..n][1..];
      assert a[n - 1] == x[n] && b[n - 1] == y[n];
    }
    if a < b { assert x < y; }
    if x < y { assert a == x[1..] && b == y[1..] && a < b; }
  }

  lemma {:induction false} BelowIff(a: string, b: string)
    ensures Below(a, b) <==> ComesBefore(a, b)
  {
    if a != "" && b != "" {
      if a[0] == b[0] {
        BelowIff(a[1..], b[1..]);
        ComesLater(a[0], a[1..], b[1..]);
        assert a == [a[0]] + a[1..] && b == [b[0]] + b[1..];
      } else {
        assert !(a <= b);
        if a[0] < b[0] { assert a[..0] == b[..0]; }
        if n :| 0 <= n < |a| && n < |b| && a[..n] == b[..n] && (a[n] as int) < (b[n] as int) {
          if n > 0 { assert a[..n][0] == b[..n][0]; }
        }
      }
    }
  }

  predicate IsLeast(k: string, keys: set<string>) {
    k in keys && forall other | other in keys :: other == k || Below(k, other)
  }

  lemma LeastExists(keys: set<string>)
    requires keys != {}
    ensures exists k :: IsLeast(k, keys)
  {
    var k :| k in keys;
    var rest := keys - {k};
    if rest == {} {
      assert keys == {k};
      assert IsLeast(k, keys);
    } else {
      LeastExists(rest);
      var l :| IsLeast(l, rest);
      BelowTotal(k, l);
      if Below(k, l) {
        forall other | other in keys ensures other == k || Below(k, other) {
          if other != k && other != l { BelowTransitive(k, l, other); }
        }
        assert IsLeast(k, keys);
      } else {
        assert IsLeast(l, keys);
      }
    }
  }

  function Least(keys: set<string>): (k: string)
    requires keys != {}
    ensures IsLeast(k, keys)
  {
    LeastExists(keys);
    LeastUnique(keys);
    var k :| IsLeast(k, keys);
    k
  }

  lemma LeastUnique(keys: set<string>)
    ensures forall a, b :: IsLeast(a, keys) && IsLeast(b, keys) ==> a == b
  {
    forall a, b | IsLeast(a, keys) && IsLeast(b, keys) ensures a == b { BelowTotal(a, b); }
  }

  predicate Ascending(s: seq<string>) {
    forall i, j :: 0 <= i < j < |s| ==> Below(s[i], s[j])
  }

  /** The keys of a map or set in the order sort.Strings gives them. */
  function Sorted(keys: set<string>): (r: seq<string>)
    ensures forall k :: k in r <==> k in keys
    ensures |r| == |keys|
  {
    if keys == {} then [] else
      var k := Least(keys);
      [k] + Sorted(keys - {k})
  }

  lemma {:induction false} SortedAscending(keys: set<string>)
    ensures Ascending(Sorted(keys))
  {
    if keys != {} {
      var k := Least(keys);
      var rest := Sorted(keys - {k});
      SortedAscending(keys - {k});
      forall j | 0 <= j < |rest| ensures Below(k, rest[j]) {
        assert rest[j] in rest;
      }
    }
  }

  lemma AscendingDistinct(s: seq<string>)
    requires Ascending(s)
    ensures forall i, j :: 0 <= i < j < |s| ==> s[i] != s[j]
  {
    forall i, j | 0 <= i < j < |s| ensures s[i] != s[j] { BelowTotal(s[i], s[j]); }
  }

  // ------------------------------------------------------- sorting of records

  /** Places x before the first element it is less than. */
  function Insert<T>(x: T, s: seq<T>, less: (T, T) -> bool): seq<T> {
    if s == [] then [x]
    else if less(x, s[0]) then [x] + s
    else [s[0]] + Insert(x, s[1..], less)
  }

  /** Stable sort: equal elements keep their order. */
  function SortBy<T>(s: seq<T>, less: (T, T) -> bool): seq<T> {
    if s == [] then [] else Insert(s[|s| - 1], SortBy(s[..|s| - 1], less), less)
  }

  ghost predicate StrictlyOrdered<T>(s: seq<T>, less: (T, T) -> bool) {
    forall i, j :: 0 <= i < j < |s| ==> less(s[i], s[j])
  }

  ghost predicate StrictOrder<T(!new)>(less: (T, T) -> bool) {
    && (forall a, b :: less(a, b) ==> !less(b, a))
    && (forall a, b, c :: less(a, b) && less(b, c) ==> less(a, c))
  }

  /** Every two elements at different places of s compare. */
  ghost predicate Comparable<T>(s: seq<T>, less: (T, T) -> bool) {
    forall i, j :: 0 <= i < j < |s| ==> less(s[i], s[j]) || less(s[j], s[i])
  }

  lemma {:induction false} InsertPermutes<T>(x: T, s: seq<T>, less: (T, T) -> bool)
    ensures multiset(Insert(x, s, less)) == multiset(s) + multiset{x}
  {
    if s != [] && !less(x, s[0]) {
      InsertPermutes(x, s[1..], less);
      assert s == [s[0]] + s[1..];
    }
  }

  lemma {:induction false} SortPermutes<T>(s: seq<T>, less: (T, T) -> bool)
    ensures multiset(SortBy(s, less)) == multiset(s)
    ensures |SortBy(s, less)| == |s|
  {
    if s != [] {
      var last, rest := s[|s| - 1], s[..|s| - 1];
      SortPermutes(rest, less);
      InsertPermutes(last, SortBy(rest, less), less);
      assert s == rest + [last];
    }
    assert |multiset(SortBy(s, less))| == |multiset(s)|;
  }

  lemma SameElements<T>(a: seq<T>, b: seq<T>)
    requires multiset(a) == multiset(b)
    ensures |a| == |b|
    ensures forall x :: x in a <==> x in b
  {
    assert |multiset(a)| == |a| && |multiset(b)| == |b|;
    forall x ensures x in a <==> x in b {
      assert x in a <==> multiset(a)[x] > 0;
      assert x in b <==> multiset(b)[x] > 0;
    }
  }

  lemma {:induction false} InsertElements<T>(x: T, s: seq<T>, less: (T, T) -> bool)
    ensures forall y :: y in Insert(x, s, less) <==> y == x || y in s
  {
    if s != [] && !less(x, s[0]) {
      InsertElements(x, s[1..], less);
      assert forall y :: y in s <==> y == s[0] || y in s[1..];
    }
  }

  lemma {:induction false} InsertOrders<T(!new)>(x: T, s: seq<T>, less: (T, T) -> bool)
    requires StrictOrder(less) && StrictlyOrdered(s, less)
    requires forall y :: y in s ==> less(x, y) || less(y, x)
    ensures StrictlyOrdered(Insert(x, s, less), less)
  {
    if s != [] && !less(x, s[0]) {
      InsertOrders(x, s[1..], less);
      InsertElements(x, s[1..], less);
      var rest := Insert(x, s[1..], less);
      forall j | 0 <= j < |rest| ensures less(s[0], rest[j]) {
        assert rest[j] in rest;
      }
    }
  }

  lemma {:induction false} SortOrders<T(!new)>(s: seq<T>, less: (T, T) -> bool)
    requires StrictOrder(less) && Comparable(s, less)
    ensures StrictlyOrdered(SortBy(s, less), less)
  {
    if s != [] {
      var n := |s| - 1;
      SortOrders(s[..n], less);
      SortPermutes(s[..n], less);
      SameElements(SortBy(s[..n], less), s[..n]);
      forall y | y in SortBy(s[..n], less) ensures less(s[n], y) || less(y, s[n]) {
        var k :| 0 <= k < n && s[k] == y;
      }
      InsertOrders(s[n], SortBy(s[..n], less), less);
    }
  }

  lemma FirstAgrees<T(!new)>(a: seq<T>, b: seq<T>, less: (T, T) -> bool)
    requires StrictOrder(less) && a != [] && b != []
    requires StrictlyOrdered(a, less) && StrictlyOrdered(b, less)
    requires a[0] in b && b[0] in a
    ensures a[0] == b[0]
  {
    var i :| 0 <= i < |b| && b[i] == a[0];
    var j :| 0 <= j < |a| && a[j] == b[0];
  }

  /** Two strictly ordered arrangements of the same elements are the same. */
  lemma {:induction false} OrderUnique<T(!new)>(a: seq<T>, b: seq<T>, less: (T, T) -> bool)
    requires multiset(a) == multiset(b) && StrictOrder(less)
    requires StrictlyOrdered(a, less) && StrictlyOrdered(b, less)
    ensures a == b
  {
    SameElements(a, b);
    if a != [] {
      FirstAgrees(a, b, less);
      TailsPermuted(a, b);
      OrderUnique(a[1..], b[1..], less);
    }
  }

  lemma TailsPermuted<T>(a: seq<T>, b: seq<T>)
    requires multiset(a) == multiset(b) && a != [] && b != [] && a[0] == b[0]
    ensures multiset(a[1..]) == multiset(b[1..])
  {
    assert a == [a[0]] + a[1..] && b == [b[0]] + b[1..];
    assert multiset(a[1..]) == multiset(a) - multiset{a[0]};
    assert multiset(b[1..]) == multiset(b) - multiset{b[0]};
  }

  lemma EmptyOrNot<T>(s: seq<T>)
    ensures s == [] || exists x :: x in s
  {
    if s != [] { assert s[0] in s; }
  }

  /** Two strictly ordered sequences with the same members are the same. */
  lemma {:induction false} OrderedMembers<T(!new)>(a: seq<T>, b: seq<T>, less: (T, T) -> bool)
    requires StrictOrder(less) && StrictlyOrdered(a, less) && StrictlyOrdered(b, less)
    requires forall x :: x in a <==> x in b
    ensures a == b
  {
    if a == [] {
      EmptyOrNot(b);
    } else {
      assert a[0] in a && b != [] && b[0] in b;
      FirstAgrees(a, b, less);
      var s, t := a[1..], b[1..];
      assert a == [a[0]] + s && b == [b[0]] + t;
      forall x ensures x in s <==> x in t {
        assert x in a <==> x == a[0] || x in s;
        assert x in b <==> x == a[0] || x in t;
      }
      OrderedMembers(s, t, less);
    }
  }

  /** A strictly ordered sequence is its own sort, whatever arrangement is sorted. */
  lemma SortReaches<T(!new)>(s: seq<T>, target: seq<T>, less: (T, T) -> bool)
    requires StrictOrder(less) && multiset(s) == multiset(target)
    requires StrictlyOrdered(target, less)
    ensures SortBy(s, less) == target
  {
    ArrangementComparable(target, s, less);
    SortOrders(s, less);
    SortPermutes(s, less);
    OrderUnique(SortBy(s, less), target, less);
  }

  /** Comparability of places does not depend on the arrangement. */
  lemma {:induction false} ArrangementComparable<T(!new)>(a: seq<T>, b: seq<T>, less: (T, T) -> bool)
    requires StrictOrder(less) && multiset(a) == multiset(b) && Comparable(a, less)
    ensures Comparable(b, less)
  {
    forall i, j | 0 <= i < j < |b| ensures less(b[i], b[j]) || less(b[j], b[i]) {
      TwoPlaces(a, b, i, j, less);
    }
  }

  lemma TwoPlaces<T(!new)>(a: seq<T>, b: seq<T>, i: nat, j: nat, less: (T, T) -> bool)
    requires StrictOrder(less) && multiset(a) == multiset(b) && Comparable(a, less) && i < j < |b|
    ensures less(b[i], b[j]) || less(b[j], b[i])
  {
    SameElements(a, b);
    assert b[i] in a && b[j] in a;
    var p :| 0 <= p < |a| && a[p] == b[i];
    if b[j] == b[i] {
      CountsTwice(b, i, j);
      CountsOnce(a, p, less);
    } else {
      var q :| 0 <= q < |a| && a[q] == b[j];
    }
  }

  lemma CountsTwice<T>(s: seq<T>, i: nat, j: nat)
    requires i < j < |s| && s[i] == s[j]
    ensures multiset(s)[s[i]] >= 2
  {
    assert s == s[..i] + [s[i]] + s[i + 1..j] + [s[j]] + s[j + 1..];
  }

  lemma CountsOnce<T(!new)>(s: seq<T>, p: nat, less: (T, T) -> bool)
    requires StrictOrder(less) && Comparable(s, less) && p < |s|
    ensures multiset(s)[s[p]] == 1
  {
    assert s == s[..p] + [s[p]] + s[p + 1..];
    assert s[p] !in s[..p] && s[p] !in s[p + 1..];
  }
}
