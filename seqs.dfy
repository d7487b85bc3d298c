/**
 * Generic operations on sequences that the feature table is built from:
 * counting and filtering by a predicate (pandas boolean masks and
 * `value_counts`), and the first-seen list of distinct values
 * (`Series.unique`).
 */
module Seqs {

  /** Number of elements of `s` that satisfy `p`. */
  function Count<T>(s: seq<T>, p: T -> bool): (c: nat)
    ensures c <= |s|
  {
    if s == [] then 0 else Count(s[..|s| - 1], p) + (if p(s[|s| - 1]) then 1 else 0)
  }

  /** The positions of the elements of `s` that satisfy `p`: all of them, ascending. */
  function Positions<T>(s: seq<T>, p: T -> bool): (ps: seq<nat>)
    ensures |ps| == Count(s, p)
    ensures forall j :: 0 <= j < |ps| ==> ps[j] < |s| && p(s[ps[j]])
    ensures forall j, j' :: 0 <= j < j' < |ps| ==> ps[j] < ps[j']
    ensures forall k :: 0 <= k < |s| && p(s[k]) ==> k in ps
  {
    if s == [] then []
    else
      var ps := Positions(s[..|s| - 1], p);
      if p(s[|s| - 1]) then ps + [|s| - 1] else ps
  }

  /**
   * The elements of `s` that satisfy `p`, in their original order: element
   * i of the result is the element at the i-th satisfying position.
   */
  function Filter<T>(s: seq<T>, p: T -> bool): (r: seq<T>)
    ensures |r| == Count(s, p) == |Positions(s, p)|
    ensures forall i :: 0 <= i < |r| ==> r[i] == s[Positions(s, p)[i]]
    ensures forall i :: 0 <= i < |r| ==> r[i] in s && p(r[i])
    ensures forall i :: 0 <= i < |s| && p(s[i]) ==> s[i] in r
  {
    if s == [] then []
    else Filter(s[..|s| - 1], p) + (if p(s[|s| - 1]) then [s[|s| - 1]] else [])
  }

  /** Position of the first occurrence of `x` in `s`. */
  function IndexOf<T(==)>(s: seq<T>, x: T): (i: nat)
    requires x in s
    ensures i < |s| && s[i] == x
    ensures forall j :: 0 <= j < i ==> s[j] != x
  {
    if s[0] == x then 0 else 1 + IndexOf(s[1..], x)
  }

  /** No value occurs twice in `s`. */
  predicate NoDuplicates<T(==)>(s: seq<T>) {
    forall i, j :: 0 <= i < j < |s| ==> s[i] != s[j]
  }

  /** The distinct values of `s` in order of first appearance. */
  function Distinct<T(==)>(s: seq<T>): (d: seq<T>)
    ensures forall i :: 0 <= i < |d| ==> d[i] in s
    ensures forall i :: 0 <= i < |s| ==> s[i] in d
    ensures NoDuplicates(d)
  {
    if s == [] then []
    else
      var d := Distinct(s[..|s| - 1]);
      if s[|s| - 1] in d then d else d + [s[|s| - 1]]
  }

  // ---------------------------------------------------------------------
  // Counting

  lemma CountSnoc<T>(s: seq<T>, x: T, p: T -> bool)
    ensures Count(s + [x], p) == Count(s, p) + (if p(x) then 1 else 0)
  {
    assert (s + [x])[..|s|] == s;
  }

  lemma {:induction false} CountAppend<T>(a: seq<T>, b: seq<T>, p: T -> bool)
    ensures Count(a + b, p) == Count(a, p) + Count(b, p)
    decreases |b|
  {
    if b == [] {
      assert a + b == a;
    } else {
      var b' := b[..|b| - 1];
      assert (a + b)[..|a + b| - 1] == a + b';
      CountAppend(a, b', p);
    }
  }

  /** Counting depends only on the multiset of elements, not on their order. */
  lemma {:induction false} CountPermutation<T>(a: seq<T>, b: seq<T>, p: T -> bool)
    requires multiset(a) == multiset(b)
    ensures Count(a, p) == Count(b, p)
    decreases |a|
  {
    if a == [] {
      assert |b| == |multiset(b)| == 0;
    } else {
      var x := a[|a| - 1];
      var a' := a[..|a| - 1];
      assert a == a' + [x];
      assert x in multiset(b);
      var k :| 0 <= k < |b| && b[k] == x;
      var b' := b[..k] + b[k + 1..];
      assert b == b[..k] + [x] + b[k + 1..];
      assert multiset(b') == multiset(b) - multiset{x};
      assert multiset(a') == multiset(a) - multiset{x};
      CountPermutation(a', b', p);
      CountAppend(b[..k], [x], p);
      CountAppend(b[..k] + [x], b[k + 1..], p);
      CountAppend(b[..k], b[k + 1..], p);
      assert Count([x], p) == (if p(x) then 1 else 0) by {
        assert [x][..0] == [];
      }
    }
  }

  /** Counts of two predicates that agree along two parallel sequences are equal. */
  lemma {:induction false} CountCorrespondence<A, B>(a: seq<A>, b: seq<B>, p: A -> bool, q: B -> bool)
    requires |a| == |b|
    requires forall i :: 0 <= i < |a| ==> p(a[i]) == q(b[i])
    ensures Count(a, p) == Count(b, q)
    decreases |a|
  {
    if a != [] {
      CountCorrespondence(a[..|a| - 1], b[..|b| - 1], p, q);
    }
  }

  /** Counting `q` among the elements kept by `p` is counting `p && q` overall. */
  lemma {:induction false} CountFilter<T>(s: seq<T>, p: T -> bool, q: T -> bool, pq: T -> bool)
    requires forall i :: 0 <= i < |s| ==> pq(s[i]) == (p(s[i]) && q(s[i]))
    ensures Count(Filter(s, p), q) == Count(s, pq)
    decreases |s|
  {
    if s != [] {
      var s' := s[..|s| - 1];
      var x := s[|s| - 1];
      CountFilter(s', p, q, pq);
      CountAppend(Filter(s', p), if p(x) then [x] else [], q);
      assert Count([x], q) == (if q(x) then 1 else 0) by {
        assert [x][..0] == [];
      }
    }
  }

  /** A count strictly below the count of a weaker predicate that some element separates. */
  lemma {:induction false} CountStrictlyBelow<T>(s: seq<T>, p: T -> bool, q: T -> bool, k: nat)
    requires forall i :: 0 <= i < |s| ==> p(s[i]) ==> q(s[i])
    requires k < |s| && q(s[k]) && !p(s[k])
    ensures Count(s, p) <= Count(s, q) - 1
    decreases |s|
  {
    var s' := s[..|s| - 1];
    if k < |s| - 1 {
      CountStrictlyBelow(s', p, q, k);
    } else {
      CountMonotone(s', p, q);
    }
  }

  lemma {:induction false} CountMonotone<T>(s: seq<T>, p: T -> bool, q: T -> bool)
    requires forall i :: 0 <= i < |s| ==> p(s[i]) ==> q(s[i])
    ensures Count(s, p) <= Count(s, q)
    decreases |s|
  {
    if s != [] {
      CountMonotone(s[..|s| - 1], p, q);
    }
  }

  /** An element that satisfies `p` is counted. */
  lemma {:induction false} CountPositive<T>(s: seq<T>, p: T -> bool, k: nat)
    requires k < |s| && p(s[k])
    ensures Count(s, p) >= 1
    decreases |s|
  {
    if k < |s| - 1 {
      CountPositive(s[..|s| - 1], p, k);
    }
  }

  /** The count is 0 exactly when no element satisfies `p`. */
  lemma {:induction false} CountZero<T>(s: seq<T>, p: T -> bool)
    ensures Count(s, p) == 0 <==> forall k :: 0 <= k < |s| ==> !p(s[k])
    decreases |s|
  {
    if s != [] {
      CountZero(s[..|s| - 1], p);
    }
  }

  /** A positive count has a witness. */
  lemma {:induction false} CountWitness<T>(s: seq<T>, p: T -> bool) returns (k: nat)
    requires Count(s, p) > 0
    ensures k < |s| && p(s[k])
    decreases |s|
  {
    if p(s[|s| - 1]) {
      k := |s| - 1;
    } else {
      k := CountWitness(s[..|s| - 1], p);
    }
  }

  /** When at most one position satisfies `p`, the count is at most 1. */
  lemma {:induction false} CountAtMostOne<T>(s: seq<T>, p: T -> bool)
    requires forall i, j :: 0 <= i < |s| && 0 <= j < |s| && p(s[i]) && p(s[j]) ==> i == j
    ensures Count(s, p) <= 1
    decreases |s|
  {
    if s != [] {
      var s' := s[..|s| - 1];
      CountAtMostOne(s', p);
      if p(s[|s| - 1]) && Count(s', p) > 0 {
        var k := CountWitness(s', p);
      }
    }
  }

  // ---------------------------------------------------------------------
  // First-seen order of distinct values

  lemma {:induction false} IndexOfAppend<T>(a: seq<T>, b: seq<T>, x: T)
    requires x in a
    ensures IndexOf(a + b, x) == IndexOf(a, x)
  {
    var i, j := IndexOf(a + b, x), IndexOf(a, x);
    assert (a + b)[j] == x;
  }

  /** The first value of a non-empty sequence is the first distinct value. */
  lemma {:induction false} DistinctHead<T>(s: seq<T>)
    requires |s| > 0
    ensures |Distinct(s)| > 0 && Distinct(s)[0] == s[0]
    decreases |s|
  {
    if |s| > 1 {
      var s' := s[..|s| - 1];
      DistinctHead(s');
      assert s'[0] == s[0];
    } else {
      assert s[..0] == [];
    }
  }

  /**
   * Distinct keeps values in the order of their first occurrence: one value
   * comes before another in `Distinct(s)` exactly when it first occurs
   * earlier in `s`.
   */
  lemma {:induction false} DistinctFirstSeenOrder<T>(s: seq<T>, x: T, y: T)
    requires x in s && y in s
    ensures IndexOf(Distinct(s), x) < IndexOf(Distinct(s), y) <==> IndexOf(s, x) < IndexOf(s, y)
    decreases |s|
  {
    var s' := s[..|s| - 1];
    var z := s[|s| - 1];
    assert s == s' + [z];
    var d' := Distinct(s');
    if x in s' && y in s' {
      DistinctFirstSeenOrder(s', x, y);
      IndexOfAppend(s', [z], x);
      IndexOfAppend(s', [z], y);
      if z !in d' {
        IndexOfAppend(d', [z], x);
        IndexOfAppend(d', [z], y);
      }
    } else if x in s' {
      // y occurs only at the last position, after x's first occurrence
      IndexOfAppend(s', [z], x);
      IndexOfAppend(d', [z], x);
      assert (d' + [z])[|d'|] == y;
    } else if y in s' {
      IndexOfAppend(s', [z], y);
      IndexOfAppend(d', [z], y);
      assert (d' + [z])[|d'|] == x;
    } else {
      assert x == y;
    }
  }
}
