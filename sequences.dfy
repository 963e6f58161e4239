/** Sequence operations the view uses through JavaScript's Array methods:
    `filter`, `map`, and the relations (subsequence, multiset) that state
    what they preserve. */
module Sequences {

  /** `s.filter(p)`: the elements of `s` that satisfy `p`, in their original order. */
  function Filter<T>(s: seq<T>, p: T -> bool): (r: seq<T>)
    ensures |r| <= |s|
    ensures forall k :: 0 <= k < |r| ==> r[k] in s && p(r[k])
    ensures forall k :: 0 <= k < |s| && p(s[k]) ==> s[k] in r
  {
    if s == [] then []
    else if p(s[0]) then [s[0]] + Filter(s[1..], p)
    else Filter(s[1..], p)
  }

  /** `s.map(f)`. */
  function Map<T, U>(f: T -> U, s: seq<T>): (r: seq<U>)
    ensures |r| == |s|
  {
    if s == [] then [] else [f(s[0])] + Map(f, s[1..])
  }

  /** The `k`-th element of `s.map(f)` is `f` of the `k`-th element of `s`. */
  lemma {:induction false} MapAt<T, U>(f: T -> U, s: seq<T>, k: nat)
    requires k < |s|
    ensures Map(f, s)[k] == f(s[k])
  {
    if k > 0 {
      MapAt(f, s[1..], k - 1);
    }
  }

  /** `xs` is obtained from `ys` by deleting elements, keeping the order of the rest. */
  predicate IsSubsequence<T(==)>(xs: seq<T>, ys: seq<T>)
    decreases |ys|
  {
    if xs == [] then true
    else if ys == [] then false
    else if xs[0] == ys[0] then IsSubsequence(xs[1..], ys[1..])
    else IsSubsequence(xs, ys[1..])
  }

  /** Each element keeps its multiplicity if it passes the predicate and disappears otherwise. */
  lemma {:induction false} FilterMultiset<T>(s: seq<T>, p: T -> bool, x: T)
    ensures multiset(Filter(s, p))[x] == if p(x) then multiset(s)[x] else 0
  {
    if s != [] {
      FilterMultiset(s[1..], p, x);
      assert s == [s[0]] + s[1..];
    }
  }

  /** Filtering keeps the survivors in their original relative order. */
  lemma {:induction false} FilterIsSubsequence<T>(s: seq<T>, p: T -> bool)
    ensures IsSubsequence(Filter(s, p), s)
  {
    if s != [] {
      FilterIsSubsequence(s[1..], p);
      if p(s[0]) {
        assert Filter(s, p)[0] == s[0];
        assert Filter(s, p)[1..] == Filter(s[1..], p);
      } else {
        SubsequenceSkip(Filter(s, p), s);
      }
    }
  }

  /** If `xs` is a subsequence of the tail of `ys`, it is a subsequence of `ys`. */
  lemma {:induction false} SubsequenceSkip<T>(xs: seq<T>, ys: seq<T>)
    requires |ys| > 0 && IsSubsequence(xs, ys[1..])
    ensures IsSubsequence(xs, ys)
    decreases |ys|, |xs|
  {
    if xs != [] && xs[0] == ys[0] {
      // ys[0] matches xs[0]; the rest of xs is still a subsequence of ys[1..].
      SubsequenceTail(xs, ys[1..]);
    }
  }

  /** Dropping the head of a non-empty subsequence keeps it a subsequence. */
  lemma {:induction false} SubsequenceTail<T>(xs: seq<T>, ys: seq<T>)
    requires |xs| > 0 && IsSubsequence(xs, ys)
    ensures IsSubsequence(xs[1..], ys)
    decreases |ys|, |xs|
  {
    if ys != [] {
      if xs[0] == ys[0] {
        SubsequenceSkip(xs[1..], ys);
      } else {
        SubsequenceTail(xs, ys[1..]);
        SubsequenceSkip(xs[1..], ys);
      }
    }
  }

  /** A subsequence is never longer and contains only elements of the whole. */
  lemma {:induction false} SubsequenceBounds<T>(xs: seq<T>, ys: seq<T>)
    requires IsSubsequence(xs, ys)
    ensures |xs| <= |ys|
    ensures forall x :: x in xs ==> x in ys
    decreases |ys|
  {
    if xs != [] && ys != [] {
      if xs[0] == ys[0] {
        SubsequenceBounds(xs[1..], ys[1..]);
        assert forall x :: x in xs ==> x == xs[0] || x in xs[1..];
      } else {
        SubsequenceBounds(xs, ys[1..]);
      }
    }
  }

  /** A filter whose predicate holds everywhere is the identity. */
  lemma {:induction false} FilterKeepsAll<T>(s: seq<T>, p: T -> bool)
    requires forall x :: x in s ==> p(x)
    ensures Filter(s, p) == s
  {
    if s != [] {
      assert s == [s[0]] + s[1..];
      assert p(s[0]);
      FilterKeepsAll(s[1..], p);
    }
  }

  /** Two predicates that agree on the elements of `s` filter it alike. */
  lemma {:induction false} FilterAgrees<T>(s: seq<T>, p: T -> bool, q: T -> bool)
    requires forall x :: x in s ==> p(x) == q(x)
    ensures Filter(s, p) == Filter(s, q)
  {
    if s != [] {
      FilterAgrees(s[1..], p, q);
    }
  }

  /** Filtering twice is filtering once by the conjunction. */
  lemma {:induction false} FilterFuse<T>(s: seq<T>, p: T -> bool, q: T -> bool)
    ensures Filter(Filter(s, p), q) == Filter(s, x => p(x) && q(x))
  {
    if s != [] {
      FilterFuse(s[1..], p, q);
      if p(s[0]) {
        assert Filter(s, p) == [s[0]] + Filter(s[1..], p);
        assert Filter(s, p)[1..] == Filter(s[1..], p);
      }
    }
  }

  /** A filter stage after a filter by `p` is one filter by the conjunction `pq`. */
  lemma FilterThen<T>(s: seq<T>, p: T -> bool, q: T -> bool, pq: T -> bool)
    requires forall x :: pq(x) == (p(x) && q(x))
    ensures Filter(Filter(s, p), q) == Filter(s, pq)
  {
    FilterFuse(s, p, q);
    FilterAgrees(s, x => p(x) && q(x), pq);
  }

  /** A relation that holds between every earlier and later element still
      holds after filtering. */
  lemma {:induction false} FilterKeepsPairwise<T>(s: seq<T>, p: T -> bool, rel: (T, T) -> bool)
    requires forall i, j :: 0 <= i < j < |s| ==> rel(s[i], s[j])
    ensures forall i, j :: 0 <= i < j < |Filter(s, p)| ==> rel(Filter(s, p)[i], Filter(s, p)[j])
  {
    if s != [] {
      FilterKeepsPairwise(s[1..], p, rel);
      var t := Filter(s[1..], p);
      forall k | 0 <= k < |t|
        ensures rel(s[0], t[k])
      {
        var m := IndexOf(s[1..], t[k]);
        assert s[1..][m] == s[m + 1];
      }
    }
  }

  /** Filtering by the same predicate twice gives the same result as once. */
  lemma FilterIdempotent<T>(s: seq<T>, p: T -> bool)
    ensures Filter(Filter(s, p), p) == Filter(s, p)
  {
    FilterKeepsAll(Filter(s, p), p);
  }

  /** Filtering commutes: the order of two filter stages does not matter. */
  lemma FilterCommutes<T>(s: seq<T>, p: T -> bool, q: T -> bool)
    ensures Filter(Filter(s, p), q) == Filter(Filter(s, q), p)
  {
    FilterFuse(s, p, q);
    FilterFuse(s, q, p);
    FilterAgrees(s, x => p(x) && q(x), x => q(x) && p(x));
  }

  /** Two permutations of each other filter to permutations of each other. */
  lemma FilterPermutation<T>(s: seq<T>, t: seq<T>, p: T -> bool)
    requires multiset(s) == multiset(t)
    ensures multiset(Filter(s, p)) == multiset(Filter(t, p))
    ensures |Filter(s, p)| == |Filter(t, p)|
  {
    forall x
      ensures multiset(Filter(s, p))[x] == multiset(Filter(t, p))[x]
    {
      FilterMultiset(s, p, x);
      FilterMultiset(t, p, x);
    }
    assert multiset(Filter(s, p)) == multiset(Filter(t, p));
    assert |multiset(Filter(s, p))| == |multiset(Filter(t, p))|;
  }

  /** Membership in a filter's result: in the input and passing the test. */
  lemma FilterContains<T>(s: seq<T>, p: T -> bool)
    ensures forall x :: x in Filter(s, p) <==> x in s && p(x)
  {
    forall x
      ensures x in Filter(s, p) <==> x in s && p(x)
    {
      FilterMultiset(s, p, x);
    }
  }

  /** The number of elements kept by a test "the key is `k`" is the
      multiplicity of `k` among the keys. */
  lemma {:induction false} FilterCountsKey<T, K>(s: seq<T>, key: T -> K, k: K, p: T -> bool)
    requires forall x :: p(x) == (key(x) == k)
    ensures |Filter(s, p)| == multiset(Map(key, s))[k]
  {
    if s != [] {
      FilterCountsKey(s[1..], key, k, p);
      assert Map(key, s) == [key(s[0])] + Map(key, s[1..]);
    }
  }

  /** A test and its negation split the input between them. */
  lemma {:induction false} FilterSplits<T>(s: seq<T>, p: T -> bool, q: T -> bool)
    requires forall x :: q(x) == !p(x)
    ensures |Filter(s, p)| + |Filter(s, q)| == |s|
  {
    if s != [] {
      FilterSplits(s[1..], p, q);
    }
  }

  lemma Cancel<T>(a: multiset<T>, b: multiset<T>, x: T)
    requires a + multiset{x} == b + multiset{x}
    ensures a == b
  {
    forall y
      ensures a[y] == b[y]
    {
      assert (a + multiset{x})[y] == (b + multiset{x})[y];
    }
  }

  /** An element of the multiset of `t` sits at some index of `t`. */
  lemma IndexOf<T>(t: seq<T>, x: T) returns (k: nat)
    requires x in multiset(t)
    ensures k < |t| && t[k] == x
  {
    assert x in t;
    k :| 0 <= k < |t| && t[k] == x;
  }

  /** Permuted inputs give every value the same number of preimages. */
  lemma MapCountsAgree<T, U>(f: T -> U, s: seq<T>, t: seq<T>, y: U)
    requires multiset(s) == multiset(t)
    ensures multiset(Map(f, s))[y] == multiset(Map(f, t))[y]
  {
    var p := (x: T) => f(x) == y;
    FilterCountsKey(s, f, y, p);
    FilterCountsKey(t, f, y, p);
    FilterPermutation(s, t, p);
  }

  /** `map` sends permutations to permutations. */
  lemma MapPermutation<T, U>(f: T -> U, s: seq<T>, t: seq<T>)
    requires multiset(s) == multiset(t)
    ensures multiset(Map(f, s)) == multiset(Map(f, t))
  {
    forall y
      ensures multiset(Map(f, s))[y] == multiset(Map(f, t))[y]
    {
      MapCountsAgree(f, s, t, y);
    }
    MultisetExt(multiset(Map(f, s)), multiset(Map(f, t)));
  }

  lemma MultisetExt<U>(ms: multiset<U>, mt: multiset<U>)
    requires forall y :: ms[y] == mt[y]
    ensures ms == mt
  {
  }

  /** Mapping a subsequence gives a subsequence of the mapped whole. */
  lemma {:induction false} MapSubsequence<T, U>(f: T -> U, xs: seq<T>, ys: seq<T>)
    requires IsSubsequence(xs, ys)
    ensures IsSubsequence(Map(f, xs), Map(f, ys))
    decreases |ys|
  {
    if xs != [] && ys != [] {
      if xs[0] == ys[0] {
        MapSubsequence(f, xs[1..], ys[1..]);
        assert Map(f, xs)[0] == Map(f, ys)[0];
        assert Map(f, xs)[1..] == Map(f, xs[1..]);
        assert Map(f, ys)[1..] == Map(f, ys[1..]);
      } else {
        MapSubsequence(f, xs, ys[1..]);
        assert Map(f, ys)[1..] == Map(f, ys[1..]);
        SubsequenceSkip(Map(f, xs), Map(f, ys));
      }
    }
  }
}
