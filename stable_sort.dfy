/** The stable sort that opens `applyFilter`: every row is paired with its
    input index, the pairs are sorted in place with the row comparator, ties
    being broken by the index, and the rows are read back out of the pairs. */
module StableSort {
  import opened Sequences

  /** The comparator `applyFilter` hands to `Array.prototype.sort`: the row
      comparator first, the input index when the rows compare equal. */
  function StableCompare<T>(cmp: (T, T) -> int, a: (T, nat), b: (T, nat)): int {
    var order := cmp(a.0, b.0);
    if order != 0 then order else a.1 - b.1
  }

  /** What a row comparator must be for the sort to be meaningful: a total
      preorder, given as the sign of its result. `cmp(x, y)` is negative
      exactly when `cmp(y, x)` is positive, and "not after" is transitive. */
  ghost predicate TotalPreorder<T(!new)>(cmp: (T, T) -> int) {
    && (forall x, y :: cmp(x, y) < 0 <==> cmp(y, x) > 0)
    && (forall x, y, z :: cmp(x, y) <= 0 && cmp(y, z) <= 0 ==> cmp(x, z) <= 0)
  }

  /** `a` may stand before `b` in the sorted array. */
  predicate InOrder<T>(cmp: (T, T) -> int, a: (T, nat), b: (T, nat)) {
    StableCompare(cmp, a, b) <= 0
  }

  predicate Sorted<T>(cmp: (T, T) -> int, p: seq<(T, nat)>) {
    forall i, j :: 0 <= i < j < |p| ==> InOrder(cmp, p[i], p[j])
  }

  /** Each row paired with its input index. */
  function Decorate<T>(s: seq<T>): seq<(T, nat)> {
    seq(|s|, i requires 0 <= i < |s| => (s[i], i))
  }

  /** The rows read back out of the pairs. */
  function Undecorate<T>(p: seq<(T, nat)>): seq<T> {
    Map((x: (T, nat)) => x.0, p)
  }

  /** The input index carried by each pair. */
  function Indices<T>(p: seq<(T, nat)>): seq<nat> {
    Map((x: (T, nat)) => x.1, p)
  }

  /** Every pair of `p` is a pair of `Decorate(s)`. */
  ghost predicate Genuine<T>(p: seq<(T, nat)>, s: seq<T>) {
    forall k :: 0 <= k < |p| ==> p[k].1 < |s| && p[k].0 == s[p[k].1]
  }

  // ---------------------------------------------------------------------
  // A reference definition of the sorted arrangement: insertion sort on
  // the decorated sequence.

  function Insert<T>(cmp: (T, T) -> int, x: (T, nat), p: seq<(T, nat)>): (r: seq<(T, nat)>)
    ensures multiset(r) == multiset(p) + multiset{x}
  {
    if p == [] then [x]
    else if InOrder(cmp, x, p[0]) then [x] + p
    else
      assert p == [p[0]] + p[1..];
      [p[0]] + Insert(cmp, x, p[1..])
  }

  function SortPairs<T>(cmp: (T, T) -> int, p: seq<(T, nat)>): (r: seq<(T, nat)>)
    ensures multiset(r) == multiset(p)
  {
    if p == [] then []
    else
      assert p == [p[0]] + p[1..];
      Insert(cmp, p[0], SortPairs(cmp, p[1..]))
  }

  /** The rows of `s` in the order `applyFilter`'s sort leaves them. */
  function StableSorted<T>(s: seq<T>, cmp: (T, T) -> int): seq<T> {
    Undecorate(SortPairs(cmp, Decorate(s)))
  }

  /** For each position of `StableSorted(s, cmp)`, the input index of the row there. */
  function StableOrder<T>(s: seq<T>, cmp: (T, T) -> int): seq<nat> {
    Indices(SortPairs(cmp, Decorate(s)))
  }

  // ---------------------------------------------------------------------
  // The tie-breaking comparator is a total order on decorated rows.

  lemma InOrderTotal<T(!new)>(cmp: (T, T) -> int, a: (T, nat), b: (T, nat))
    requires TotalPreorder(cmp)
    ensures InOrder(cmp, a, b) || InOrder(cmp, b, a)
  {
    assert cmp(a.0, b.0) < 0 <==> cmp(b.0, a.0) > 0;
    assert cmp(b.0, a.0) < 0 <==> cmp(a.0, b.0) > 0;
  }

  lemma InOrderAntisymmetric<T(!new)>(cmp: (T, T) -> int, a: (T, nat), b: (T, nat))
    requires TotalPreorder(cmp)
    requires InOrder(cmp, a, b) && InOrder(cmp, b, a)
    ensures cmp(a.0, b.0) == 0 && a.1 == b.1
  {
    assert cmp(a.0, b.0) < 0 <==> cmp(b.0, a.0) > 0;
    assert cmp(b.0, a.0) < 0 <==> cmp(a.0, b.0) > 0;
  }

  lemma InOrderReflexive<T(!new)>(cmp: (T, T) -> int, a: (T, nat))
    requires TotalPreorder(cmp)
    ensures InOrder(cmp, a, a)
  {
    assert cmp(a.0, a.0) < 0 <==> cmp(a.0, a.0) > 0;
  }

  lemma InOrderTransitiveAt<T(!new)>(cmp: (T, T) -> int, a: (T, nat), b: (T, nat), c: (T, nat))
    requires TotalPreorder(cmp)
    requires InOrder(cmp, a, b) && InOrder(cmp, b, c)
    ensures InOrder(cmp, a, c)
  {
    var x, y, z := a.0, b.0, c.0;
    assert cmp(x, y) <= 0 && cmp(y, z) <= 0;
    assert cmp(x, z) <= 0;
    assert cmp(x, z) < 0 <==> cmp(z, x) > 0;
    assert cmp(x, y) < 0 <==> cmp(y, x) > 0;
    assert cmp(y, z) < 0 <==> cmp(z, y) > 0;
    if cmp(x, z) == 0 {
      // z is not after x, so neither of the two steps can be strict.
      assert cmp(z, x) <= 0;
      assert cmp(z, y) <= 0 by { assert cmp(z, x) <= 0 && cmp(x, y) <= 0; }
      assert cmp(y, x) <= 0 by { assert cmp(y, z) <= 0 && cmp(z, x) <= 0; }
    }
  }

  // ---------------------------------------------------------------------
  // The reference definition sorts.

  /** A pair that goes before every pair of a sorted sequence can be put in front of it. */
  lemma ConsSorted<T>(cmp: (T, T) -> int, y: (T, nat), q: seq<(T, nat)>)
    requires Sorted(cmp, q)
    requires forall k :: 0 <= k < |q| ==> InOrder(cmp, y, q[k])
    ensures Sorted(cmp, [y] + q)
  {
    var r := [y] + q;
    forall i, j | 0 <= i < j < |r|
      ensures InOrder(cmp, r[i], r[j])
    {
      assert r[j] == q[j - 1];
      if i > 0 {
        assert r[i] == q[i - 1];
      }
    }
  }

  lemma {:induction false} InsertSorted<T(!new)>(cmp: (T, T) -> int, x: (T, nat), p: seq<(T, nat)>)
    requires TotalPreorder(cmp) && Sorted(cmp, p)
    ensures Sorted(cmp, Insert(cmp, x, p))
  {
    if p != [] {
      if InOrder(cmp, x, p[0]) {
        forall k | 0 <= k < |p|
          ensures InOrder(cmp, x, p[k])
        {
          if k > 0 {
            InOrderTransitiveAt(cmp, x, p[0], p[k]);
          }
        }
        ConsSorted(cmp, x, p);
      } else {
        InOrderTotal(cmp, x, p[0]);
        var tail := p[1..];
        assert Sorted(cmp, tail);
        InsertSorted(cmp, x, tail);
        var q := Insert(cmp, x, tail);
        forall k | 0 <= k < |q|
          ensures InOrder(cmp, p[0], q[k])
        {
          assert q[k] in multiset(q);
          if q[k] != x {
            var m := IndexOf(tail, q[k]);
            assert q[k] == p[m + 1];
          }
        }
        ConsSorted(cmp, p[0], q);
      }
    }
  }

  lemma {:induction false} SortPairsSorted<T(!new)>(cmp: (T, T) -> int, p: seq<(T, nat)>)
    requires TotalPreorder(cmp)
    ensures Sorted(cmp, SortPairs(cmp, p))
  {
    if p != [] {
      SortPairsSorted(cmp, p[1..]);
      InsertSorted(cmp, p[0], SortPairs(cmp, p[1..]));
    }
  }

  // ---------------------------------------------------------------------
  // Facts about decorated sequences.

  lemma UndecorateDecorate<T>(s: seq<T>)
    ensures Undecorate(Decorate(s)) == s
  {
    forall k | 0 <= k < |s|
      ensures Undecorate(Decorate(s))[k] == s[k]
    {
      MapAt((x: (T, nat)) => x.0, Decorate(s), k);
    }
  }

  /** No decorated pair occurs twice. */
  lemma DecorateOnce<T>(s: seq<T>, x: (T, nat))
    ensures multiset(Decorate(s))[x] <= 1
  {
    var d := Decorate(s);
    if x.1 < |s| {
      var m := x.1;
      assert d == d[..m] + [d[m]] + d[m + 1..];
      assert x !in d[..m];
      assert x !in d[m + 1..];
    } else {
      assert x !in d;
    }
  }

  lemma GenuineFromPermutation<T>(p: seq<(T, nat)>, s: seq<T>)
    requires multiset(p) == multiset(Decorate(s))
    ensures Genuine(p, s)
  {
    forall k | 0 <= k < |p|
      ensures p[k].1 < |s| && p[k].0 == s[p[k].1]
    {
      assert p[k] in multiset(Decorate(s));
      var i := IndexOf(Decorate(s), p[k]);
    }
  }

  /** Two occurrences of one value at different indices count twice. */
  lemma TwoOccurrences<T>(p: seq<T>, i: nat, j: nat)
    requires i < j < |p|
    ensures p[i] == p[j] ==> multiset(p)[p[i]] >= 2
  {
    assert p == p[..j] + p[j..];
    assert p[i] in p[..j];
    assert p[j] in p[j..];
  }

  /** A permutation of the decorated input carries every input index exactly once. */
  lemma IndicesDistinct<T>(p: seq<(T, nat)>, s: seq<T>)
    requires multiset(p) == multiset(Decorate(s))
    ensures forall i, j :: 0 <= i < j < |p| ==> p[i].1 != p[j].1
    ensures forall i :: 0 <= i < |s| ==> (s[i], i) in p
  {
    GenuineFromPermutation(p, s);
    forall i, j | 0 <= i < j < |p|
      ensures p[i].1 != p[j].1
    {
      TwoOccurrences(p, i, j);
      DecorateOnce(s, p[i]);
    }
    forall i | 0 <= i < |s|
      ensures (s[i], i) in p
    {
      assert Decorate(s)[i] == (s[i], i);
      assert (s[i], i) in multiset(p);
    }
  }

  /** Two sorted permutations of the decorated input start with the same pair. */
  lemma SortedSameHead<T(!new)>(cmp: (T, T) -> int, p: seq<(T, nat)>, q: seq<(T, nat)>, s: seq<T>)
    requires TotalPreorder(cmp)
    requires Sorted(cmp, p) && Sorted(cmp, q)
    requires multiset(p) == multiset(q) && |p| > 0
    requires Genuine(p, s)
    ensures |q| > 0 && p[0] == q[0]
  {
    assert |multiset(q)| == |p|;
    var i := IndexOf(q, p[0]);
    var j := IndexOf(p, q[0]);
    assert InOrder(cmp, p[0], q[0]) by {
      if j > 0 { assert InOrder(cmp, p[0], p[j]); } else { InOrderReflexive(cmp, p[0]); }
    }
    assert InOrder(cmp, q[0], p[0]) by {
      if i > 0 { assert InOrder(cmp, q[0], q[i]); } else { InOrderReflexive(cmp, q[0]); }
    }
    InOrderAntisymmetric(cmp, p[0], q[0]);
    assert p[0].0 == s[p[0].1] && p[j].0 == s[p[j].1];
  }

  /** Removing the common head of two permutations of each other leaves permutations. */
  lemma TailsPermutation<T>(p: seq<T>, q: seq<T>)
    requires |p| > 0 && |q| > 0 && p[0] == q[0] && multiset(p) == multiset(q)
    ensures multiset(p[1..]) == multiset(q[1..])
  {
    assert p == [p[0]] + p[1..];
    assert q == [q[0]] + q[1..];
    var mp, mq := multiset(p[1..]), multiset(q[1..]);
    assert multiset(p) == mp + multiset{p[0]};
    assert multiset(q) == mq + multiset{p[0]};
    Cancel(mp, mq, p[0]);
  }

  /** A sorted permutation of the decorated input is unique: the tie-break
      on the index leaves the sort no freedom. */
  lemma {:induction false} SortedUnique<T(!new)>(cmp: (T, T) -> int, p: seq<(T, nat)>, q: seq<(T, nat)>, s: seq<T>)
    requires TotalPreorder(cmp)
    requires Sorted(cmp, p) && Sorted(cmp, q)
    requires multiset(p) == multiset(q)
    requires Genuine(p, s)
    ensures p == q
  {
    if p == [] {
      assert |multiset(q)| == 0;
    } else {
      SortedSameHead(cmp, p, q, s);
      TailsPermutation(p, q);
      SortedUnique(cmp, p[1..], q[1..], s);
      assert p == [p[0]] + p[1..];
      assert q == [q[0]] + q[1..];
    }
  }

  /** Any sorted permutation of the decorated input is the reference arrangement. */
  lemma SortedArrangementIsUnique<T(!new)>(cmp: (T, T) -> int, p: seq<(T, nat)>, s: seq<T>)
    requires TotalPreorder(cmp)
    requires Sorted(cmp, p) && multiset(p) == multiset(Decorate(s))
    ensures p == SortPairs(cmp, Decorate(s))
  {
    SortPairsSorted(cmp, Decorate(s));
    GenuineFromPermutation(p, s);
    SortedUnique(cmp, p, SortPairs(cmp, Decorate(s)), s);
  }

  // ---------------------------------------------------------------------
  // What the sort promises about the rows.

  /** The sorted rows are a permutation of the input rows. */
  lemma StableSortedIsPermutation<T>(s: seq<T>, cmp: (T, T) -> int)
    ensures |StableSorted(s, cmp)| == |s|
    ensures multiset(StableSorted(s, cmp)) == multiset(s)
  {
    MapPermutation((x: (T, nat)) => x.0, SortPairs(cmp, Decorate(s)), Decorate(s));
    UndecorateDecorate(s);
    assert |multiset(SortPairs(cmp, Decorate(s)))| == |multiset(Decorate(s))|;
  }

  /** The sorted rows are ordered by the row comparator. */
  lemma StableSortedIsOrdered<T(!new)>(s: seq<T>, cmp: (T, T) -> int)
    requires TotalPreorder(cmp)
    ensures forall i, j :: 0 <= i < j < |StableSorted(s, cmp)| ==>
      cmp(StableSorted(s, cmp)[i], StableSorted(s, cmp)[j]) <= 0
  {
    var p := SortPairs(cmp, Decorate(s));
    SortPairsSorted(cmp, Decorate(s));
    forall i, j | 0 <= i < j < |p|
      ensures cmp(StableSorted(s, cmp)[i], StableSorted(s, cmp)[j]) <= 0
    {
      MapAt((x: (T, nat)) => x.0, p, i);
      MapAt((x: (T, nat)) => x.0, p, j);
      assert InOrder(cmp, p[i], p[j]);
    }
  }

  /** Position `k` of the sorted rows and of the sort order read the row and
      the index of the `k`-th sorted pair. */
  lemma StableSortAt<T>(s: seq<T>, cmp: (T, T) -> int)
    ensures |StableOrder(s, cmp)| == |StableSorted(s, cmp)| == |SortPairs(cmp, Decorate(s))| == |s|
    ensures forall k :: 0 <= k < |s| ==>
      StableSorted(s, cmp)[k] == SortPairs(cmp, Decorate(s))[k].0 && StableOrder(s, cmp)[k] == SortPairs(cmp, Decorate(s))[k].1
  {
    var p := SortPairs(cmp, Decorate(s));
    StableSortedIsPermutation(s, cmp);
    forall k | 0 <= k < |p|
      ensures StableSorted(s, cmp)[k] == p[k].0 && StableOrder(s, cmp)[k] == p[k].1
    {
      MapAt((x: (T, nat)) => x.0, p, k);
      MapAt((x: (T, nat)) => x.1, p, k);
    }
  }

  /** Stability: `StableOrder` is a permutation of the input indices that
      says where each sorted row came from, and rows the comparator ties
      keep their input order. */
  lemma StableSortIsStable<T(!new)>(s: seq<T>, cmp: (T, T) -> int)
    requires TotalPreorder(cmp)
    ensures |StableOrder(s, cmp)| == |StableSorted(s, cmp)| == |s|
    ensures forall k :: 0 <= k < |s| ==>
      StableOrder(s, cmp)[k] < |s| && StableSorted(s, cmp)[k] == s[StableOrder(s, cmp)[k]]
    ensures forall i, j :: 0 <= i < j < |s| ==> StableOrder(s, cmp)[i] != StableOrder(s, cmp)[j]
    ensures forall i :: 0 <= i < |s| ==> i in StableOrder(s, cmp)
    ensures forall i, j :: 0 <= i < j < |s| && cmp(StableSorted(s, cmp)[i], StableSorted(s, cmp)[j]) == 0 ==>
      StableOrder(s, cmp)[i] < StableOrder(s, cmp)[j]
  {
    var p := SortPairs(cmp, Decorate(s));
    var r, ord := StableSorted(s, cmp), StableOrder(s, cmp);
    StableSortAt(s, cmp);
    SortPairsSorted(cmp, Decorate(s));
    GenuineFromPermutation(p, s);
    IndicesDistinct(p, s);
    forall i | 0 <= i < |s|
      ensures i in ord
    {
      var k := IndexOf(p, (s[i], i));
    }
    forall i, j | 0 <= i < j < |s| && cmp(r[i], r[j]) == 0
      ensures ord[i] < ord[j]
    {
      assert InOrder(cmp, p[i], p[j]);
    }
  }

  // ---------------------------------------------------------------------
  // The in-place sort.

  /** The pairs up to `i`, leaving out position `j`, are in order. */
  predicate OrderedExcept<T>(cmp: (T, T) -> int, s: seq<(T, nat)>, j: nat, i: nat)
    requires i < |s|
  {
    forall k, l :: 0 <= k < l <= i && k != j && l != j ==> InOrder(cmp, s[k], s[l])
  }

  /** The pair at `j` goes before every pair after it, up to `i`. */
  predicate BelowRest<T>(cmp: (T, T) -> int, s: seq<(T, nat)>, j: nat, i: nat)
    requires j <= i < |s|
  {
    forall l :: j < l <= i ==> InOrder(cmp, s[j], s[l])
  }

  /** Swapping the moving pair with an out-of-order left neighbour moves the
      gap one place left. */
  lemma SwapLeft<T(!new)>(cmp: (T, T) -> int, s: seq<(T, nat)>, j: nat, i: nat)
    requires TotalPreorder(cmp)
    requires 0 < j <= i < |s|
    requires OrderedExcept(cmp, s, j, i) && BelowRest(cmp, s, j, i)
    requires StableCompare(cmp, s[j - 1], s[j]) > 0
    ensures OrderedExcept(cmp, s[j - 1 := s[j]][j := s[j - 1]], j - 1, i)
    ensures BelowRest(cmp, s[j - 1 := s[j]][j := s[j - 1]], j - 1, i)
  {
    var t := s[j - 1 := s[j]][j := s[j - 1]];
    InOrderTotal(cmp, s[j - 1], s[j]);
    forall k, l | 0 <= k < l <= i && k != j - 1 && l != j - 1
      ensures InOrder(cmp, t[k], t[l])
    {
      if l == j {
        assert InOrder(cmp, s[k], s[j - 1]);
      } else if k == j {
        assert InOrder(cmp, s[j - 1], s[l]);
      } else {
        assert InOrder(cmp, s[k], s[l]);
      }
    }
    forall l | j - 1 < l <= i
      ensures InOrder(cmp, t[j - 1], t[l])
    {
      if l > j {
        assert InOrder(cmp, s[j], s[l]);
      }
    }
  }

  /** Once the left neighbour is in order with the moving pair, the whole
      prefix up to `i` is in order. */
  lemma CloseGap<T(!new)>(cmp: (T, T) -> int, s: seq<(T, nat)>, j: nat, i: nat)
    requires TotalPreorder(cmp)
    requires j <= i < |s|
    requires OrderedExcept(cmp, s, j, i) && BelowRest(cmp, s, j, i)
    requires j == 0 || InOrder(cmp, s[j - 1], s[j])
    ensures forall k, l :: 0 <= k < l <= i ==> InOrder(cmp, s[k], s[l])
  {
    forall k, l | 0 <= k < l <= i
      ensures InOrder(cmp, s[k], s[l])
    {
      if l == j && k < j - 1 {
        InOrderTransitiveAt(cmp, s[k], s[j - 1], s[j]);
      }
    }
  }

  /** The state of the insertion loop: `s` is `original` with the pair that
      started at `i` moved down to `j`, the other pairs up to `i` in order, the
      moving pair before every pair after it, and the rest untouched. */
  ghost predicate Inserting<T>(cmp: (T, T) -> int, s: seq<(T, nat)>, original: seq<(T, nat)>, j: nat, i: nat) {
    && j <= i < |s| == |original|
    && OrderedExcept(cmp, s, j, i)
    && BelowRest(cmp, s, j, i)
    && s[i + 1..] == original[i + 1..]
    && multiset(s) == multiset(original)
  }

  /** One swap of the loop keeps its state, one place further left. */
  lemma InsertStep<T(!new)>(cmp: (T, T) -> int, s: seq<(T, nat)>, original: seq<(T, nat)>, j: nat, i: nat)
    requires TotalPreorder(cmp)
    requires Inserting(cmp, s, original, j, i) && 0 < j
    requires StableCompare(cmp, s[j - 1], s[j]) > 0
    ensures Inserting(cmp, s[j - 1 := s[j]][j := s[j - 1]], original, j - 1, i)
  {
    SwapLeft(cmp, s, j, i);
    SwapInPrefix(s, j, i);
  }

  /** When the loop stops, the prefix up to `i` is sorted and holds the
      pairs it held before, and the rest is untouched. */
  lemma InsertDone<T(!new)>(cmp: (T, T) -> int, s: seq<(T, nat)>, original: seq<(T, nat)>, j: nat, i: nat)
    requires TotalPreorder(cmp)
    requires Inserting(cmp, s, original, j, i)
    requires j == 0 || StableCompare(cmp, s[j - 1], s[j]) <= 0
    ensures forall k, l :: 0 <= k < l <= i ==> InOrder(cmp, s[k], s[l])
    ensures s[i + 1..] == original[i + 1..]
    ensures multiset(s[..i + 1]) == multiset(original[..i + 1])
    ensures multiset(s) == multiset(original)
  {
    CloseGap(cmp, s, j, i);
    PrefixMultiset(original, s, i + 1);
  }

  /** Moves `a[i]` left into the sorted prefix `a[..i]`. */
  method InsertIntoPrefix<T(!new)>(a: array<(T, nat)>, i: nat, cmp: (T, T) -> int)
    requires TotalPreorder(cmp)
    requires i < a.Length
    requires forall k, l :: 0 <= k < l < i ==> InOrder(cmp, a[k], a[l])
    modifies a
    ensures forall k, l :: 0 <= k < l <= i ==> InOrder(cmp, a[k], a[l])
    ensures a[i + 1..] == old(a[i + 1..])
    ensures multiset(a[..i + 1]) == multiset(old(a[..i + 1]))
    ensures multiset(a[..]) == multiset(old(a[..]))
  {
    ghost var original := a[..];
    var j: nat := i;
    assert Inserting(cmp, a[..], original, j, i);
    while 0 < j && StableCompare(cmp, a[j - 1], a[j]) > 0
      invariant Inserting(cmp, a[..], original, j, i)
    {
      ghost var before := a[..];
      InsertStep(cmp, before, original, j, i);
      a[j - 1], a[j] := a[j], a[j - 1];
      assert a[..] == before[j - 1 := before[j]][j := before[j - 1]];
      j := j - 1;
    }
    InsertDone(cmp, a[..], original, j, i);
  }

  /** Swapping two neighbours inside the prefix keeps the suffix and the contents. */
  lemma SwapInPrefix<T>(s: seq<T>, j: nat, i: nat)
    requires 0 < j <= i < |s|
    ensures s[j - 1 := s[j]][j := s[j - 1]][i + 1..] == s[i + 1..]
    ensures multiset(s[j - 1 := s[j]][j := s[j - 1]]) == multiset(s)
  {
  }

  /** Two sequences with the same multiset and the same suffix from `n` on
      have the same multiset before `n`. */
  lemma PrefixMultiset<T>(s: seq<T>, t: seq<T>, n: nat)
    requires n <= |s| == |t|
    requires multiset(s) == multiset(t) && s[n..] == t[n..]
    ensures multiset(s[..n]) == multiset(t[..n])
  {
    assert s == s[..n] + s[n..];
    assert t == t[..n] + t[n..];
    assert multiset(s) == multiset(s[..n]) + multiset(s[n..]);
    assert multiset(t) == multiset(t[..n]) + multiset(t[n..]);
    forall x
      ensures multiset(s[..n])[x] == multiset(t[..n])[x]
    {
      assert multiset(s)[x] == multiset(s[..n])[x] + multiset(s[n..])[x];
      assert multiset(t)[x] == multiset(t[..n])[x] + multiset(t[n..])[x];
    }
    MultisetExt(multiset(s[..n]), multiset(t[..n]));
  }

  /** `stabilizedThis.sort(...)`: sorts the pairs in place (by insertion here;
      with a consistent comparator the engine's algorithm cannot be told apart
      by its result). */
  method SortInPlace<T(!new)>(a: array<(T, nat)>, cmp: (T, T) -> int)
    requires TotalPreorder(cmp)
    modifies a
    ensures Sorted(cmp, a[..])
    ensures multiset(a[..]) == multiset(old(a[..]))
  {
    var i := 0;
    while i < a.Length
      invariant 0 <= i <= a.Length
      invariant forall k, l :: 0 <= k < l < i ==> InOrder(cmp, a[k], a[l])
      invariant multiset(a[..]) == multiset(old(a[..]))
    {
      InsertIntoPrefix(a, i, cmp);
      i := i + 1;
    }
  }

  /** Lines 391 to 403 of `applyFilter`: decorate, sort in place, undecorate. */
  method SortRows<T(!new)>(rows: seq<T>, cmp: (T, T) -> int) returns (sorted: seq<T>)
    requires TotalPreorder(cmp)
    ensures sorted == StableSorted(rows, cmp)
  {
    var stabilized := new (T, nat)[|rows|](i requires 0 <= i < |rows| => (rows[i], i));
    assert stabilized[..] == Decorate(rows);
    SortInPlace(stabilized, cmp);
    SortedArrangementIsUnique(cmp, stabilized[..], rows);
    sorted := Undecorate(stabilized[..]);
  }
}
