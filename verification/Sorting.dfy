/** Strict orders, and the sorted list of a set. */
module Sorting {
  import opened Sets

  ghost predicate Order<T(!new)>(before: (T, T) -> bool) {
    && (forall a, b :: before(a, b) ==> !before(b, a))
    && (forall a, b, c :: before(a, b) && before(b, c) ==> before(a, c))
    && forall a, b :: a == b || before(a, b) || before(b, a)
  }

  predicate First<T(!new)>(s: set<T>, before: (T, T) -> bool, m: T) {
    m in s && forall x :: x in s && x != m ==> before(m, x)
  }

  lemma {:induction false} FirstExists<T(!new)>(s: set<T>, before: (T, T) -> bool)
    requires Order(before) && s != {}
    ensures exists m :: First(s, before, m)
    decreases |s|
  {
    var y := HasElement(s);
    var rest := s - {y};
    if rest == {} {
      assert s == {y};
      assert First(s, before, y);
    } else {
      FirstExists(rest, before);
      var m :| First(rest, before, m);
      var top := if before(m, y) then m else y;
      assert First(s, before, top);
    }
  }

  function FirstOf<T(!new)>(s: set<T>, before: (T, T) -> bool): (m: T)
    requires Order(before) && s != {}
    ensures First(s, before, m)
  {
    FirstExists(s, before);
    var m :| m in s && First(s, before, m);
    m
  }

  predicate InOrder<T(!new)>(r: seq<T>, before: (T, T) -> bool) {
    forall i, j :: 0 <= i < j < |r| ==> before(r[i], r[j])
  }

  /** The elements of s in order, each once. */
  function Sorted<T(!new)>(s: set<T>, before: (T, T) -> bool): (r: seq<T>)
    requires Order(before)
    ensures |r| == |s| && (forall x :: x in r <==> x in s) && InOrder(r, before)
    decreases |s|
  {
    if s == {} then []
    else
      var m := FirstOf(s, before);
      var rest := Sorted(s - {m}, before);
      assert forall j :: 0 <= j < |rest| ==> rest[j] in rest;
      [m] + rest
  }

  /** There is only one such list. */
  lemma {:induction false} SortedUnique<T(!new)>(r: seq<T>, q: seq<T>, before: (T, T) -> bool)
    requires Order(before) && InOrder(r, before) && InOrder(q, before)
    requires forall x :: x in r <==> x in q
    ensures r == q
  {
    SameSize(r, q);
    if r != [] {
      assert r[0] in r && q[0] in q;
      HeadIsFirst(r, q[0], before);
      HeadIsFirst(q, r[0], before);
      TailHas(r, before);
      TailHas(q, before);
      SortedUnique(r[1..], q[1..], before);
      assert r == [r[0]] + r[1..] && q == [q[0]] + q[1..];
    }
  }

  lemma SameSize<T>(r: seq<T>, q: seq<T>)
    requires forall x :: x in r <==> x in q
    ensures r == [] <==> q == []
  {
    if |r| > 0 {
      assert r[0] in r;
    }
    if |q| > 0 {
      assert q[0] in q;
    }
  }

  lemma HeadIsFirst<T(!new)>(r: seq<T>, x: T, before: (T, T) -> bool)
    requires Order(before) && InOrder(r, before) && x in r
    ensures x == r[0] || before(r[0], x)
  {
  }

  lemma TailHas<T(!new)>(r: seq<T>, before: (T, T) -> bool)
    requires Order(before) && InOrder(r, before) && r != []
    ensures InOrder(r[1..], before)
    ensures forall x :: x in r[1..] <==> x in r && x != r[0]
  {
    forall x
      ensures x in r[1..] <==> x in r && x != r[0]
    {
      if x in r && x != r[0] {
        var i :| 0 <= i < |r| && r[i] == x;
        assert r[1..][i - 1] == x;
      }
      if x in r[1..] {
        var i :| 0 <= i < |r[1..]| && r[1..][i] == x;
        assert r[i + 1] == x && before(r[0], r[i + 1]);
      }
    }
  }

  /** Two orders sort a set into the same list exactly when they agree on its elements. */
  lemma SameOrderIff<T(!new)>(s: set<T>, p: (T, T) -> bool, q: (T, T) -> bool)
    requires Order(p) && Order(q)
    ensures Sorted(s, p) == Sorted(s, q) <==> forall a, b :: a in s && b in s && p(a, b) ==> q(a, b)
  {
    hide Sorted;
    var r := Sorted(s, p);
    if r == Sorted(s, q) {
      forall a, b | a in s && b in s && p(a, b)
        ensures q(a, b)
      {
        var i :| 0 <= i < |r| && r[i] == a;
        var j :| 0 <= j < |r| && r[j] == b;
        assert !p(r[j], r[i]);
      }
    }
    if forall a, b :: a in s && b in s && p(a, b) ==> q(a, b) {
      forall i, j | 0 <= i < j < |r|
        ensures q(r[i], r[j])
      {
        assert r[i] in r && r[j] in r && p(r[i], r[j]);
      }
      SortedUnique(r, Sorted(s, q), q);
    }
  }

  // ----- Numbers -----

  predicate Above(a: int, b: int) {
    a > b
  }

  lemma AboveIsOrder()
    ensures Order(Above)
  {
  }

  /** The elements of s from the greatest to the least. */
  function Descending(s: set<int>): (r: seq<int>)
    ensures |r| == |s|
    ensures forall x :: x in r <==> x in s
    ensures forall i, j :: 0 <= i < j < |r| ==> r[i] > r[j]
  {
    AboveIsOrder();
    var r := Sorted(s, Above);
    assert forall i, j :: 0 <= i < j < |r| ==> Above(r[i], r[j]);
    r
  }

  /** A list that falls from at most n to at least 1 in n steps is n, n - 1, ..., 1. */
  lemma {:induction false} FallingByOne(r: seq<int>, n: nat)
    requires |r| == n && forall i :: 0 <= i < n ==> 1 <= r[i] <= n
    requires forall i, j :: 0 <= i < j < n ==> r[i] > r[j]
    ensures forall i :: 0 <= i < n ==> r[i] == n - i
  {
    if n > 0 {
      forall i | 0 <= i < n - 1
        ensures 1 <= r[1..][i] <= n - 1
      {
        assert r[0] > r[i + 1];
      }
      FallingByOne(r[1..], n - 1);
      forall i | 0 < i < n
        ensures r[i] == n - i
      {
        assert r[i] == r[1..][i - 1];
      }
      assert n > 1 ==> r[0] > r[1];
    }
  }

  /** The numbers from 1 to n, from the greatest on. */
  lemma DescendingRange(s: set<int>, n: nat)
    requires forall x :: x in s <==> 1 <= x <= n
    ensures |Descending(s)| == n && forall i :: 0 <= i < n ==> Descending(s)[i] == n - i
  {
    hide Descending;
    RangeSize(s, n);
    var r := Descending(s);
    forall i | 0 <= i < n
      ensures 1 <= r[i] <= n
    {
      assert r[i] in r;
    }
    FallingByOne(r, n);
  }

  // ----- Strings -----

  /** a comes strictly before b, byte by byte: the order in which Go sorts strings. */
  predicate Before(a: string, b: string) {
    if b == [] then false
    else if a == [] then true
    else if a[0] != b[0] then a[0] < b[0]
    else Before(a[1..], b[1..])
  }

  /** Up to k the strings are the same, and there a ends or has the smaller character. */
  predicate LessAt(a: string, b: string, k: nat) {
    k <= |a| && k < |b| && (forall i :: 0 <= i < k ==> a[i] == b[i]) && (k == |a| || a[k] < b[k])
  }

  lemma {:induction false} BeforeIff(a: string, b: string)
    ensures Before(a, b) <==> exists k: nat :: LessAt(a, b, k)
  {
    if a != [] && b != [] {
      BeforeIff(a[1..], b[1..]);
      if k: nat :| LessAt(a, b, k) && k > 0 {
        assert LessAt(a[1..], b[1..], k - 1);
      }
      if k: nat :| LessAt(a[1..], b[1..], k) && a[0] == b[0] {
        assert LessAt(a, b, k + 1);
      }
    }
    assert LessAt(a, b, 0) <==> b != [] && (a == [] || a[0] < b[0]);
  }

  lemma {:induction false} OneBefore(a: string, b: string)
    ensures Before(a, b) ==> !Before(b, a) && a != b
    ensures a == b || Before(a, b) || Before(b, a)
  {
    if a != [] && b != [] && a[0] == b[0] {
      OneBefore(a[1..], b[1..]);
      assert a == [a[0]] + a[1..] && b == [b[0]] + b[1..];
    }
  }

  lemma {:induction false} BeforeTrans(a: string, b: string, c: string)
    requires Before(a, b) && Before(b, c)
    ensures Before(a, c)
  {
    if a != [] && a[0] == b[0] && b[0] == c[0] {
      BeforeTrans(a[1..], b[1..], c[1..]);
    }
  }

  lemma BeforeIsOrder()
    ensures Order(Before)
  {
    forall a, b
      ensures Before(a, b) ==> !Before(b, a)
      ensures a == b || Before(a, b) || Before(b, a)
    {
      OneBefore(a, b);
    }
    forall a, b, c | Before(a, b) && Before(b, c)
      ensures Before(a, c)
    {
      BeforeTrans(a, b, c);
    }
  }

  /** sort.Strings of the elements of s. */
  function Ascending(s: set<string>): seq<string> {
    BeforeIsOrder();
    Sorted(s, Before)
  }

  lemma AscendingIs(s: set<string>)
    ensures InOrder(Ascending(s), Before) && forall x :: x in Ascending(s) <==> x in s
  {
    BeforeIsOrder();
  }
}
