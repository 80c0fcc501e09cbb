/** Sequence helpers shared by every page: the `Array.prototype.filter` and
    `Array.prototype.some` idioms the TypeScript code leans on, stated once. */
module Seqs {

  datatype Option<+T> = None | Some(value: T)

  /** `s.filter(p)`: the elements of `s` satisfying `p`, in their original order. */
  function Filter<T>(p: T -> bool, s: seq<T>): (r: seq<T>)
    ensures |r| <= |s|
    ensures forall x | x in r :: x in s && p(x)
    ensures forall i | 0 <= i < |s| :: p(s[i]) ==> s[i] in r
  {
    if s == [] then []
    else Filter(p, s[..|s| - 1]) + (if p(s[|s| - 1]) then [s[|s| - 1]] else [])
  }

  /** `s.some(p)`. */
  predicate Any<T>(p: T -> bool, s: seq<T>)
  {
    exists i | 0 <= i < |s| :: p(s[i])
  }

  /** No element occurs twice. */
  predicate Distinct<T(==)>(s: seq<T>)
  {
    forall i, j | 0 <= i < j < |s| :: s[i] != s[j]
  }

  /** Filtering distributes over concatenation: each element is kept or dropped
      on its own, and the survivors keep their relative order. */
  lemma {:induction false} FilterConcat<T>(p: T -> bool, a: seq<T>, b: seq<T>)
    ensures Filter(p, a + b) == Filter(p, a) + Filter(p, b)
    decreases |b|
  {
    if b == [] {
      assert a + b == a;
    } else {
      var ab, init, last := a + b, b[..|b| - 1], b[|b| - 1];
      var tail := if p(last) then [last] else [];
      assert ab[..|ab| - 1] == a + init;
      assert ab[|ab| - 1] == last;
      calc {
        Filter(p, ab);
        Filter(p, a + init) + tail;
        { FilterConcat(p, a, init); }
        Filter(p, a) + Filter(p, init) + tail;
        Filter(p, a) + (Filter(p, init) + tail);
      }
    }
  }

  /** Filtering keeps every copy of an element that passes and no copy of one that fails. */
  lemma {:induction false} FilterMultiplicity<T>(p: T -> bool, s: seq<T>, x: T)
    ensures multiset(Filter(p, s))[x] == if p(x) then multiset(s)[x] else 0
    decreases |s|
  {
    if s != [] {
      var init := s[..|s| - 1];
      assert s == init + [s[|s| - 1]];
      FilterMultiplicity(p, init, x);
    }
  }

  /** A predicate and its negation split a sequence: the two filtered lengths add up. */
  lemma {:induction false} FilterSplit<T>(p: T -> bool, q: T -> bool, s: seq<T>)
    requires forall x :: q(x) == !p(x)
    ensures |Filter(p, s)| + |Filter(q, s)| == |s|
    decreases |s|
  {
    if s != [] {
      FilterSplit(p, q, s[..|s| - 1]);
    }
  }

  /** Two sequences holding the same elements with the same multiplicities filter
      to sequences of the same length. */
  lemma FilterPermutation<T>(p: T -> bool, a: seq<T>, b: seq<T>)
    requires multiset(a) == multiset(b)
    ensures multiset(Filter(p, a)) == multiset(Filter(p, b))
    ensures |Filter(p, a)| == |Filter(p, b)|
  {
    var fa, fb := multiset(Filter(p, a)), multiset(Filter(p, b));
    forall x
      ensures fa[x] == fb[x]
    {
      FilterMultiplicity(p, a, x);
      FilterMultiplicity(p, b, x);
    }
    MultisetExtensional(fa, fb);
    assert |fa| == |Filter(p, a)| && |fb| == |Filter(p, b)|;
  }

  /** Multisets that agree on every multiplicity are equal. */
  lemma MultisetExtensional<T>(a: multiset<T>, b: multiset<T>)
    requires forall x :: a[x] == b[x]
    ensures a == b
  {
  }

  /** `some` holds exactly when the filter is non-empty. */
  lemma AnyIffFilterNonEmpty<T>(p: T -> bool, s: seq<T>)
    ensures Any(p, s) <==> |Filter(p, s)| > 0
  {
    if Any(p, s) {
      var i :| 0 <= i < |s| && p(s[i]);
      assert s[i] in Filter(p, s);
    }
  }

  /** `some` depends only on which elements are present, not on their order. */
  lemma AnyPermutation<T>(p: T -> bool, a: seq<T>, b: seq<T>)
    requires multiset(a) == multiset(b)
    ensures Any(p, a) <==> Any(p, b)
  {
    AnyIffFilterNonEmpty(p, a);
    AnyIffFilterNonEmpty(p, b);
    FilterPermutation(p, a, b);
  }

  /** Filtering a list without repeats leaves a list without repeats. */
  lemma {:induction false} FilterKeepsDistinct<T>(p: T -> bool, s: seq<T>)
    requires Distinct(s)
    ensures Distinct(Filter(p, s))
    decreases |s|
  {
    if s != [] {
      FilterKeepsDistinct(p, s[..|s| - 1]);
      assert s[|s| - 1] !in s[..|s| - 1];
    }
  }

  /** Each element is smaller than the next: in order and without repeats. */
  predicate Increasing(s: seq<int>)
  {
    forall i, j | 0 <= i < j < |s| :: s[i] < s[j]
  }

  /** Filtering with a test every element passes keeps the list as it is. */
  lemma {:induction false} FilterKeepsAll<T>(p: T -> bool, s: seq<T>)
    requires forall i | 0 <= i < |s| :: p(s[i])
    ensures Filter(p, s) == s
  {
    if s != [] {
      var init, last := s[..|s| - 1], s[|s| - 1];
      FilterKeepsAll(p, init);
      assert p(last);
      assert Filter(p, s) == init + [last];
      assert forall i | 0 <= i < |s| :: (init + [last])[i] == s[i];
    }
  }

  /** The larger of two integers: `Math.max`. */
  function Max(a: int, b: int): int
  {
    if a < b then b else a
  }

  /** The smaller of two integers: `Math.min`. */
  function Min(a: int, b: int): int
  {
    if a < b then a else b
  }
}
