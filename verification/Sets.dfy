/** Facts about finite sets and duplicate-free lists that several modules need. */
module Sets {
  lemma HasElement<T>(s: set<T>) returns (x: T)
    requires s != {}
    ensures x in s
  {
    x :| x in s;
  }

  lemma SubsetSize<T>(a: set<T>, b: set<T>)
    requires a <= b
    ensures |a| <= |b|
    ensures |a| == |b| ==> a == b
  {
    assert b == a + (b - a);
  }

  lemma SizeOfSum<T>(a: set<T>, b: set<T>)
    ensures |a + b| <= |a| + |b|
    ensures |a + b| == |a| + |b| <==> a !! b
  {
    assert |a + b| == |a| + |b| - |a * b|;
    if a !! b {
      assert a * b == {};
    } else {
      var x :| x in a && x in b;
      assert x in a * b;
    }
  }

  function Image<T, U>(s: set<T>, f: T -> U): set<U> {
    set x | x in s :: f(x)
  }

  /** A function that never takes the same value twice keeps the size of a set. */
  lemma {:induction false} SizeOfImage<T, U>(s: set<T>, f: T -> U)
    requires forall x, y :: x in s && y in s && f(x) == f(y) ==> x == y
    ensures |Image(s, f)| == |s|
    decreases |s|
  {
    if s != {} {
      var x := HasElement(s);
      var rest := s - {x};
      SizeOfImage(rest, f);
      assert Image(s, f) == Image(rest, f) + {f(x)};
    }
  }

  /** No element occurs twice. */
  predicate Distinct<T(==)>(s: seq<T>) {
    forall i, j :: 0 <= i < j < |s| ==> s[i] != s[j]
  }

  lemma DistinctJoin<T>(a: seq<T>, b: seq<T>)
    requires Distinct(a) && Distinct(b) && forall x :: x in b ==> x !in a
    ensures Distinct(a + b)
  {
    forall i, j | 0 <= i < j < |a + b|
      ensures (a + b)[i] != (a + b)[j]
    {
      if i < |a| && j >= |a| {
        assert b[j - |a|] in b && a[i] in a;
      }
    }
  }

  lemma DistinctLast<T>(s: seq<T>, x: T)
    ensures Distinct(s + [x]) <==> Distinct(s) && x !in s
  {
    var t := s + [x];
    assert forall i :: 0 <= i < |s| ==> t[i] == s[i];
    assert t[|s|] == x;
    if x in s {
      var i :| 0 <= i < |s| && s[i] == x;
      assert t[i] == t[|s|];
    }
  }

  /** A duplicate-free list has as many elements as its set. */
  lemma {:induction false} SizeOfList(s: seq<int>)
    ensures |set x | x in s| <= |s|
    ensures Distinct(s) ==> |set x | x in s| == |s|
  {
    if s != [] {
      var init, last := s[..|s| - 1], s[|s| - 1];
      SizeOfList(init);
      assert (set x | x in s) == (set x | x in init) + {last};
    }
  }

  lemma {:induction false} RangeSize(s: set<int>, n: nat)
    requires forall x :: x in s <==> 1 <= x <= n
    ensures |s| == n
  {
    if n == 0 {
      assert forall x :: x !in s;
    } else {
      RangeSize(s - {n}, n - 1);
    }
  }
}
