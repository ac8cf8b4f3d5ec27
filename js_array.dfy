/**
 * The two JavaScript array methods the collection logic is written with,
 * `Array.prototype.map` and `Array.prototype.filter`, as functions on
 * sequences. Both visit the elements front to back and build a new array;
 * neither touches the array they are called on.
 */
module JsArray {

  /** `s.map(f)`: the same number of elements, each one transformed by `f`. */
  function Map<T, U>(s: seq<T>, f: T -> U): (r: seq<U>)
    ensures |r| == |s|
    ensures forall i :: 0 <= i < |s| ==> r[i] == f(s[i])
  {
    if s == [] then [] else [f(s[0])] + Map(s[1..], f)
  }

  /** `s.filter(p)`: the elements of `s` for which `p` holds, in their order. */
  function Filter<T(==,!new)>(s: seq<T>, p: T -> bool): (r: seq<T>)
    ensures |r| <= |s|
    ensures forall x :: x in r <==> x in s && p(x)
  {
    if s == [] then []
    else if p(s[0]) then [s[0]] + Filter(s[1..], p)
    else Filter(s[1..], p)
  }

  /**
   * `a` is obtained from `b` by deleting elements, keeping the order of the
   * rest. Matching greedily from the front decides this exactly.
   */
  predicate IsSubsequence<T(==)>(a: seq<T>, b: seq<T>)
  {
    if a == [] then true
    else if b == [] then false
    else if a[0] == b[0] then IsSubsequence(a[1..], b[1..])
    else IsSubsequence(a, b[1..])
  }

  /** A filter keeps the order of what it keeps. */
  lemma {:induction false} FilterIsSubsequence<T(!new)>(s: seq<T>, p: T -> bool)
    ensures IsSubsequence(Filter(s, p), s)
  {
    if s != [] {
      FilterIsSubsequence(s[1..], p);
      var r := Filter(s[1..], p);
      if p(s[0]) {
        assert Filter(s, p) == [s[0]] + r;
        assert ([s[0]] + r)[1..] == r;
      } else if r != [] {
        // r's head satisfies p, and s's head does not, so they differ
        assert r[0] in r;
        assert r[0] != s[0];
      }
    }
  }

  /**
   * A filter keeps every occurrence of an element that satisfies the
   * predicate and no occurrence of one that does not. Together with
   * FilterIsSubsequence this pins the result down: it is exactly the
   * subsequence of the elements satisfying `p`.
   */
  lemma {:induction false} FilterOccurrences<T(!new)>(s: seq<T>, p: T -> bool, x: T)
    ensures multiset(Filter(s, p))[x] == if p(x) then multiset(s)[x] else 0
  {
    if s != [] {
      FilterOccurrences(s[1..], p, x);
      assert s == [s[0]] + s[1..];
      assert multiset(s) == multiset{s[0]} + multiset(s[1..]);
      if p(s[0]) {
        assert multiset(Filter(s, p)) == multiset{s[0]} + multiset(Filter(s[1..], p));
      }
    }
  }

  /** FilterOccurrences for every element at once. */
  lemma FilterCounts<T(!new)>(s: seq<T>, p: T -> bool)
    ensures forall x :: multiset(Filter(s, p))[x] == if p(x) then multiset(s)[x] else 0
  {
    forall x ensures multiset(Filter(s, p))[x] == if p(x) then multiset(s)[x] else 0 {
      FilterOccurrences(s, p, x);
    }
  }

  /** When every element satisfies the predicate, the filter returns its input. */
  lemma {:induction false} FilterKeepsAll<T(!new)>(s: seq<T>, p: T -> bool)
    requires forall x :: x in s ==> p(x)
    ensures Filter(s, p) == s
  {
    if s != [] {
      assert s[0] in s;
      FilterKeepsAll(s[1..], p);
      assert s == [s[0]] + s[1..];
    }
  }

  /** Filtering twice by the same predicate is filtering once. */
  lemma FilterIdempotent<T(!new)>(s: seq<T>, p: T -> bool)
    ensures Filter(Filter(s, p), p) == Filter(s, p)
  {
    FilterKeepsAll(Filter(s, p), p);
  }

  /** Two predicates that agree on the elements of `s` filter it alike. */
  lemma {:induction false} FilterAgreeing<T(!new)>(s: seq<T>, p: T -> bool, q: T -> bool)
    requires forall x :: x in s ==> p(x) == q(x)
    ensures Filter(s, p) == Filter(s, q)
  {
    if s != [] {
      assert s[0] in s;
      FilterAgreeing(s[1..], p, q);
    }
  }

  /**
   * A predicate and its negation split a sequence: the two filters' lengths
   * add up to the length of the whole.
   */
  lemma {:induction false} FilterPartition<T(!new)>(s: seq<T>, p: T -> bool, q: T -> bool)
    requires forall x :: q(x) == !p(x)
    ensures |Filter(s, p)| + |Filter(s, q)| == |s|
  {
    if s != [] {
      FilterPartition(s[1..], p, q);
    }
  }

  /**
   * When exactly one position fails the predicate, the filter is one
   * shorter than its input.
   */
  lemma {:induction false} FilterDropsOne<T(!new)>(s: seq<T>, p: T -> bool, k: nat)
    requires k < |s| && !p(s[k])
    requires forall i :: 0 <= i < |s| && i != k ==> p(s[i])
    ensures |Filter(s, p)| == |s| - 1
  {
    if k == 0 {
      forall x | x in s[1..] ensures p(x) {
        var i :| 0 <= i < |s[1..]| && s[1..][i] == x;
        assert s[i + 1] == x;
      }
      FilterKeepsAll(s[1..], p);
    } else {
      assert p(s[0]);
      FilterDropsOne(s[1..], p, k - 1);
    }
  }

  /** A map whose function leaves every element alone returns its input. */
  lemma MapFixes<T(!new)>(s: seq<T>, f: T -> T)
    requires forall x :: x in s ==> f(x) == x
    ensures Map(s, f) == s
  {
    forall i | 0 <= i < |s| ensures Map(s, f)[i] == s[i] {
      assert s[i] in s;
    }
  }

  /** Mapping twice with a function that undoes itself restores the input. */
  lemma MapInvolution<T(!new)>(s: seq<T>, f: T -> T)
    requires forall x :: f(f(x)) == x
    ensures Map(Map(s, f), f) == s
  {
    var once := Map(s, f);
    forall i | 0 <= i < |s| ensures Map(once, f)[i] == s[i] {
      assert once[i] == f(s[i]);
    }
  }
}
