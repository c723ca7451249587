/** Sequence helpers: order-preserving filtering and duplicate-free enumerations. */
module Seqs {

  /** The elements of `s` that satisfy `p`, in the order of `s`. */
  function Filter<T>(p: T -> bool, s: seq<T>): seq<T>
    decreases |s|
  {
    if |s| == 0 then []
    else var k := |s| - 1; Filter(p, s[..k]) + (if p(s[k]) then [s[k]] else [])
  }

  /** An element is kept by `Filter` exactly when it occurs in `s` and satisfies `p`. */
  lemma {:induction false} FilterMembers<T>(p: T -> bool, s: seq<T>, x: T)
    ensures x in Filter(p, s) <==> x in s && p(x)
    decreases |s|
  {
    if |s| > 0 {
      var k := |s| - 1;
      FilterMembers(p, s[..k], x);
      assert s == s[..k] + [s[k]];
    }
  }

  /** Filtering distributes over concatenation, so it keeps the relative order of `s`. */
  lemma {:induction false} FilterAppend<T>(p: T -> bool, a: seq<T>, b: seq<T>)
    ensures Filter(p, a + b) == Filter(p, a) + Filter(p, b)
    decreases |b|
  {
    if |b| > 0 {
      var k := |b| - 1;
      assert (a + b)[..|a + b| - 1] == a + b[..k];
      FilterAppend(p, a, b[..k]);
    } else {
      assert a + b == a;
    }
  }

  /**
   * Two sequences of one length whose elements pass their filters at the same
   * positions keep the same number of elements.
   */
  lemma {:induction false} FilterCountMapped<A, B>(q: A -> bool, p: B -> bool, xs: seq<A>, ys: seq<B>)
    requires |xs| == |ys|
    requires forall j :: 0 <= j < |xs| ==> p(ys[j]) == q(xs[j])
    ensures |Filter(p, ys)| == |Filter(q, xs)|
    decreases |xs|
  {
    if |xs| > 0 {
      var k := |xs| - 1;
      FilterCountMapped(q, p, xs[..k], ys[..k]);
    }
  }

  /** Filtering by `p` and then by `q` is filtering by their conjunction `pq`. */
  lemma {:induction false} FilterOfFilter<T>(p: T -> bool, q: T -> bool, pq: T -> bool, s: seq<T>)
    requires forall x :: pq(x) == (p(x) && q(x))
    ensures Filter(q, Filter(p, s)) == Filter(pq, s)
    decreases |s|
  {
    if |s| > 0 {
      var k := |s| - 1;
      var x := s[k];
      FilterOfFilter(p, q, pq, s[..k]);
      var tail := if p(x) then [x] else [];
      FilterAppend(q, Filter(p, s[..k]), tail);
      if p(x) {
        assert [x][..0] == [];
      }
    }
  }

  /** Without duplicates, `Filter` keeps one element per member of `s` that satisfies `p`. */
  lemma {:induction false} FilterCountDistinct<T>(p: T -> bool, s: seq<T>)
    requires NoDuplicates(s)
    ensures |Filter(p, s)| == |set x | x in s && p(x)|
    decreases |s|
  {
    if |s| > 0 {
      var k := |s| - 1;
      var x := s[k];
      var before := s[..k];
      assert NoDuplicates(before);
      FilterCountDistinct(p, before);
      assert x !in before;
      assert s == before + [x];
      var kept := set y | y in before && p(y);
      var all := set y | y in s && p(y);
      forall y
        ensures y in all <==> y in kept || (y == x && p(x))
      {
        assert y in s <==> y in before || y == x;
      }
      if p(x) {
        assert all == kept + {x};
      } else {
        assert all == kept;
      }
    }
  }

  /** No element occurs twice in `s`. */
  predicate NoDuplicates<T(==)>(s: seq<T>) {
    forall i, j :: 0 <= i < j < |s| ==> s[i] != s[j]
  }

  /** `s` lists every element of `keys` exactly once, in some order. */
  predicate Enumerates<T(==)>(s: seq<T>, keys: set<T>) {
    && NoDuplicates(s)
    && (forall i :: 0 <= i < |s| ==> s[i] in keys)
    && (forall x :: x in keys ==> x in s)
  }

  /** Filtering an enumeration of `keys` keeps one element per key that satisfies `p`. */
  lemma FilterCountOfEnumeration<T>(p: T -> bool, s: seq<T>, keys: set<T>)
    requires Enumerates(s, keys)
    ensures |Filter(p, s)| == |set x | x in keys && p(x)|
  {
    FilterCountDistinct(p, s);
    var listed := set x | x in s && p(x);
    forall x
      ensures x in listed <==> x in keys && p(x)
    {
      if x in s {
        var i :| 0 <= i < |s| && s[i] == x;
      }
    }
    assert listed == set x | x in keys && p(x);
  }

  /** Filtering an enumeration of `keys` in which exactly `x` and `y` satisfy `p` keeps two elements. */
  lemma FilterCountTwo<T>(p: T -> bool, s: seq<T>, keys: set<T>, x: T, y: T)
    requires Enumerates(s, keys)
    requires x in keys && y in keys && x != y && p(x) && p(y)
    requires forall n :: n in keys && p(n) ==> n == x || n == y
    ensures |Filter(p, s)| == 2
  {
    FilterCountOfEnumeration(p, s, keys);
    assert (set n | n in keys && p(n)) == {x, y};
    assert |{x, y}| == 2 by {
      assert {x, y} == {x} + {y};
    }
  }

  /** An enumeration is empty exactly when the set it lists is. */
  lemma EnumeratesNothing<T>(s: seq<T>, keys: set<T>)
    requires Enumerates(s, keys)
    ensures s == [] <==> keys == {}
  {
    if s != [] {
      assert s[0] in keys;
    }
    if keys != {} {
      var x :| x in keys;
      assert x in s;
    }
  }

  /** A prefix one longer is the prefix and the next element. */
  lemma PrefixStep<T>(s: seq<T>, i: nat)
    requires i < |s|
    ensures s[..i + 1] == s[..i] + [s[i]]
  {
  }
}
