/**
 * Sequence helpers shared by the schema merge and the group repository:
 * order-preserving selection (a SQL `WHERE` over a table kept in key
 * order) and the stable in-place sort behind Rust's `sort_by` on a
 * string key.
 */
module Sorting {
  import opened Strings

  /** The elements of `s` that satisfy `p`, in their original order. */
  function Filter<T(==,!new)>(s: seq<T>, p: T -> bool): (r: seq<T>)
    ensures |r| <= |s|
    ensures forall x :: x in r <==> x in s && p(x)
  {
    if s == [] then []
    else (if p(s[0]) then [s[0]] else []) + Filter(s[1..], p)
  }

  /** A relation that holds between every earlier and every later element. */
  ghost predicate Pairwise<T>(s: seq<T>, rel: (T, T) -> bool) {
    forall i, j :: 0 <= i < j < |s| ==> rel(s[i], s[j])
  }

  /** Selecting elements keeps every pairwise ordering fact of the input. */
  lemma {:induction false} FilterPairwise<T(!new)>(s: seq<T>, p: T -> bool, rel: (T, T) -> bool)
    requires Pairwise(s, rel)
    ensures Pairwise(Filter(s, p), rel)
  {
    if s != [] {
      FilterPairwise(s[1..], p, rel);
      var tail := Filter(s[1..], p);
      if p(s[0]) {
        forall j | 0 <= j < |tail| ensures rel(s[0], tail[j]) {
          assert tail[j] in s[1..];
        }
      }
    }
  }

  lemma {:induction false} FilterAppend<T(!new)>(a: seq<T>, b: seq<T>, p: T -> bool)
    ensures Filter(a + b, p) == Filter(a, p) + Filter(b, p)
  {
    if a == [] {
      assert a + b == b;
    } else {
      assert (a + b)[0] == a[0];
      assert (a + b)[1..] == a[1..] + b;
      FilterAppend(a[1..], b, p);
    }
  }

  /** Dropping an element makes the selection shorter than its input. */
  lemma {:induction false} FilterDrops<T(!new)>(s: seq<T>, p: T -> bool, i: int)
    requires 0 <= i < |s| && !p(s[i])
    ensures |Filter(s, p)| < |s|
  {
    if i > 0 {
      assert s[1..][i - 1] == s[i];
      FilterDrops(s[1..], p, i - 1);
    }
  }

  /** Two selections that agree on every element select the same elements. */
  lemma {:induction false} FilterCongruent<T(!new)>(s: seq<T>, p: T -> bool, q: T -> bool)
    requires forall x :: x in s ==> p(x) == q(x)
    ensures Filter(s, p) == Filter(s, q)
  {
    if s != [] {
      FilterCongruent(s[1..], p, q);
    }
  }

  /** A selection every element passes keeps the sequence; one none passes empties it. */
  lemma {:induction false} FilterAllOrNone<T(!new)>(s: seq<T>, p: T -> bool)
    ensures (forall x :: x in s ==> p(x)) ==> Filter(s, p) == s
    ensures (forall x :: x in s ==> !p(x)) ==> Filter(s, p) == []
  {
    if s != [] {
      FilterAllOrNone(s[1..], p);
    }
  }

  /** Selecting with `q` after `p` is selecting with `q` alone, when `q` implies `p`. */
  lemma {:induction false} FilterNested<T(!new)>(s: seq<T>, p: T -> bool, q: T -> bool)
    requires forall x :: x in s && q(x) ==> p(x)
    ensures Filter(Filter(s, p), q) == Filter(s, q)
  {
    if s != [] {
      FilterNested(s[1..], p, q);
      var head := if p(s[0]) then [s[0]] else [];
      assert Filter(s, p) == head + Filter(s[1..], p);
      FilterAppend(head, Filter(s[1..], p), q);
    }
  }

  /** A slice whose elements all pass (or all fail) is kept whole (or dropped). */
  lemma FilterSlice<T(!new)>(s: seq<T>, p: T -> bool, lo: int, hi: int, pass: bool)
    requires 0 <= lo <= hi <= |s|
    requires forall m :: lo <= m < hi ==> p(s[m]) == pass
    ensures Filter(s[lo..hi], p) == if pass then s[lo..hi] else []
  {
    var slice := s[lo..hi];
    forall x | x in slice ensures p(x) == pass {
      var m :| 0 <= m < |slice| && slice[m] == x;
      assert s[lo + m] == x;
    }
    FilterAllOrNone(slice, p);
  }

  lemma SplitAt<T>(s: seq<T>, lo: int, hi: int)
    requires 0 <= lo <= hi <= |s|
    ensures s == (s[0..lo] + s[lo..hi]) + s[hi..|s|]
  {
  }

  /** When exactly the elements of `s[lo..hi]` pass, the selection is that slice. */
  lemma FilterBlock<T(!new)>(s: seq<T>, p: T -> bool, lo: int, hi: int)
    requires 0 <= lo <= hi <= |s|
    requires forall m :: 0 <= m < |s| ==> (p(s[m]) <==> lo <= m < hi)
    ensures Filter(s, p) == s[lo..hi]
  {
    var before, block, after := s[0..lo], s[lo..hi], s[hi..|s|];
    assert Filter(before + block, p) == block by {
      FilterSlice(s, p, 0, lo, false);
      FilterSlice(s, p, lo, hi, true);
      FilterAppend(before, block, p);
    }
    assert Filter(after, p) == [] by {
      FilterSlice(s, p, hi, |s|, false);
    }
    assert Filter(s, p) == Filter(before + block, p) + Filter(after, p) by {
      SplitAt(s, lo, hi);
      FilterAppend(before + block, after, p);
    }
  }

  /** `s` is ordered by `key` (ties allowed). */
  ghost predicate SortedBy<T>(s: seq<T>, key: T -> string) {
    forall i, j :: 0 <= i < j < |s| ==> LexLe(key(s[i]), key(s[j]))
  }

  /**
   * Stable insertion sort of `a` by `key`: an element moves left only past
   * elements whose key is strictly greater, so equal keys keep their order.
   */
  method SortBy<T(==,!new)>(a: array<T>, key: T -> string)
    modifies a
    ensures SortedBy(a[..], key)
    ensures multiset(a[..]) == old(multiset(a[..]))
    ensures StableFor(a[..], old(a[..]), key)
  {
    if a.Length == 0 {
      return;
    }
    var i := 1;
    while i < a.Length
      invariant 1 <= i <= a.Length
      invariant SortedBy(a[..i], key)
      invariant multiset(a[..]) == old(multiset(a[..]))
      invariant StableFor(a[..], old(a[..]), key)
    {
      InsertAt(a, key, i);
      i := i + 1;
    }
    assert a[..i] == a[..];
  }

  /** One pass of the insertion sort: `a[i]` moves left into the sorted prefix `a[..i]`. */
  method InsertAt<T(==,!new)>(a: array<T>, key: T -> string, i: int)
    requires 0 < i < a.Length && SortedBy(a[..i], key)
    modifies a
    ensures SortedBy(a[..i + 1], key)
    ensures multiset(a[..]) == old(multiset(a[..]))
    ensures StableFor(a[..], old(a[..]), key)
  {
    var j := i;
    SiftStart(a[..], key, i);
    while j > 0 && !LexLe(key(a[j - 1]), key(a[j]))
      invariant Sifting(a[..], key, i, j)
      invariant multiset(a[..]) == old(multiset(a[..]))
      invariant StableFor(a[..], old(a[..]), key)
    {
      ghost var before := a[..];
      SiftStep(before, key, i, j);
      a[j - 1], a[j] := a[j], a[j - 1];
      assert a[..] == before[j - 1 := before[j]][j := before[j - 1]];
      StableTransitive(a[..], before, old(a[..]), key);
      j := j - 1;
    }
    SiftDone(a[..], key, i, j);
  }

  /**
   * Within one insertion pass over `s[..i + 1]`: every pair not involving
   * the moving element at `j` is in order, and so is the moving element
   * with everything after it.
   */
  ghost predicate Sifting<T>(s: seq<T>, key: T -> string, i: int, j: int) {
    && 0 <= j <= i < |s|
    && (forall m, n :: 0 <= m < n <= i && m != j && n != j ==> LexLe(key(s[m]), key(s[n])))
    && (forall n :: j < n <= i ==> LexLe(key(s[j]), key(s[n])))
  }

  lemma SiftStart<T>(s: seq<T>, key: T -> string, i: int)
    requires 0 < i < |s| && SortedBy(s[..i], key)
    ensures Sifting(s, key, i, i)
  {
    forall m, n | 0 <= m < n <= i && m != i && n != i ensures LexLe(key(s[m]), key(s[n])) {
      assert s[..i][m] == s[m] && s[..i][n] == s[n];
    }
  }

  /** Swapping the moving element with a greater left neighbour keeps the pass going. */
  lemma SiftStep<T(!new)>(s: seq<T>, key: T -> string, i: int, j: int)
    requires Sifting(s, key, i, j) && 0 < j && !LexLe(key(s[j - 1]), key(s[j]))
    ensures Sifting(s[j - 1 := s[j]][j := s[j - 1]], key, i, j - 1)
    ensures multiset(s[j - 1 := s[j]][j := s[j - 1]]) == multiset(s)
    ensures StableFor(s[j - 1 := s[j]][j := s[j - 1]], s, key)
  {
    LexLeTotal(key(s[j - 1]), key(s[j]));
    LexLeReflexive(key(s[j]));
    SwapStable(s, key, j);
  }

  /** Whether an element's key is `k`. */
  function HasKey<T>(key: T -> string, k: string): T -> bool {
    (x: T) => key(x) == k
  }

  /**
   * `s` keeps the relative order that `t` gives to elements with equal
   * keys: for every key, the elements carrying it come in the same order.
   */
  ghost predicate StableFor<T(!new)>(s: seq<T>, t: seq<T>, key: T -> string) {
    forall k :: Filter(s, HasKey(key, k)) == Filter(t, HasKey(key, k))
  }

  lemma StableTransitive<T(!new)>(s: seq<T>, t: seq<T>, u: seq<T>, key: T -> string)
    requires StableFor(s, t, key) && StableFor(t, u, key)
    ensures StableFor(s, u, key)
  {
  }

  /** Exchanging two neighbours that a selection cannot both pass does not change the selection. */
  lemma FilterPairSwap<T(!new)>(x: T, y: T, rest: seq<T>, p: T -> bool)
    requires !(p(x) && p(y))
    ensures Filter([x, y] + rest, p) == Filter([y, x] + rest, p)
  {
    assert ([x, y] + rest)[1..] == [y] + rest;
    assert ([y, x] + rest)[1..] == [x] + rest;
    assert ([y] + rest)[1..] == rest;
    assert ([x] + rest)[1..] == rest;
  }

  /** Swapping two neighbours with different keys keeps the order among equal keys. */
  lemma SwapStable<T(!new)>(s: seq<T>, key: T -> string, j: int)
    requires 0 < j < |s| && key(s[j - 1]) != key(s[j])
    ensures StableFor(s[j - 1 := s[j]][j := s[j - 1]], s, key)
  {
    var t := s[j - 1 := s[j]][j := s[j - 1]];
    var rest := s[j + 1..];
    assert s == s[..j - 1] + ([s[j - 1], s[j]] + rest);
    assert t == s[..j - 1] + ([s[j], s[j - 1]] + rest);
    forall k ensures Filter(t, HasKey(key, k)) == Filter(s, HasKey(key, k)) {
      var p := HasKey(key, k);
      FilterAppend(s[..j - 1], [s[j - 1], s[j]] + rest, p);
      FilterAppend(s[..j - 1], [s[j], s[j - 1]] + rest, p);
      FilterPairSwap(s[j - 1], s[j], rest, p);
    }
  }

  /** Both sides are empty or neither is, when they keep the same order among equal keys. */
  lemma StableNonEmpty<T(!new)>(s: seq<T>, t: seq<T>, key: T -> string)
    requires StableFor(s, t, key) && t != []
    ensures s != []
  {
    var p := HasKey(key, key(t[0]));
    assert t[0] in Filter(t, p);
    assert t[0] in Filter(s, p);
  }

  /** An element of a sorted sequence has a key no smaller than the first one's. */
  lemma HeadIsLeast<T>(s: seq<T>, key: T -> string, x: T)
    requires SortedBy(s, key) && x in s
    ensures LexLe(key(s[0]), key(x))
  {
    var i :| 0 <= i < |s| && s[i] == x;
    if i == 0 {
      LexLeReflexive(key(x));
    }
  }

  /** Selecting by a key the first element has puts that element first. */
  lemma FilterHead<T(!new)>(s: seq<T>, p: T -> bool)
    requires s != []
    ensures Filter(s, p) == (if p(s[0]) then [s[0]] else []) + Filter(s[1..], p)
  {
  }

  /**
   * A stable sort has one possible result: two sequences sorted by `key`
   * that keep the same order among equal keys are equal.
   */
  lemma {:induction false} SortedStableUnique<T(!new)>(s: seq<T>, t: seq<T>, key: T -> string)
    requires SortedBy(s, key) && SortedBy(t, key) && StableFor(s, t, key)
    ensures s == t
    decreases |s|
  {
    if s != [] {
      StableNonEmpty(t, s, key);
      var p := HasKey(key, key(s[0]));
      var q := HasKey(key, key(t[0]));
      assert s[0] in Filter(s, p) && t[0] in Filter(t, q);
      assert s[0] in Filter(t, p) && t[0] in Filter(s, q);
      HeadIsLeast(t, key, s[0]);
      HeadIsLeast(s, key, t[0]);
      LexLeAntisymmetric(key(s[0]), key(t[0]));
      assert p(t[0]) && Filter(s, p) == Filter(t, p);
      FilterHead(s, p);
      FilterHead(t, p);
      assert Filter(s, p)[0] == s[0] && Filter(t, p)[0] == t[0];
      forall k ensures Filter(s[1..], HasKey(key, k)) == Filter(t[1..], HasKey(key, k)) {
        var pk := HasKey(key, k);
        var head := if pk(s[0]) then [s[0]] else [];
        FilterHead(s, pk);
        FilterHead(t, pk);
        assert Filter(s, pk) == Filter(t, pk);
        assert Filter(s[1..], pk) == Filter(s, pk)[|head|..];
        assert Filter(t[1..], pk) == Filter(t, pk)[|head|..];
      }
      SortedTail(s, key);
      SortedTail(t, key);
      SortedStableUnique(s[1..], t[1..], key);
      assert s == [s[0]] + s[1..] && t == [t[0]] + t[1..];
    } else {
      if t != [] {
        StableNonEmpty(s, t, key);
      }
    }
  }

  /** A pass that stops at the front, or at a left neighbour that is not greater, leaves the prefix sorted. */
  lemma SiftDone<T>(s: seq<T>, key: T -> string, i: int, j: int)
    requires Sifting(s, key, i, j) && (j == 0 || LexLe(key(s[j - 1]), key(s[j])))
    ensures SortedBy(s[..i + 1], key)
  {
    forall m, n | 0 <= m < n <= i ensures LexLe(key(s[m]), key(s[n])) {
      if n == j && m < j - 1 {
        LexLeTransitive(key(s[m]), key(s[j - 1]), key(s[j]));
      }
    }
  }

  /** No two elements of `s` share a key. */
  ghost predicate DistinctKeys<T>(s: seq<T>, key: T -> string) {
    forall i, j :: 0 <= i < |s| && 0 <= j < |s| && i != j ==> key(s[i]) != key(s[j])
  }

  /** The first elements of two sorted permutations with distinct keys agree. */
  lemma SortedPermutationHeads<T>(s: seq<T>, t: seq<T>, key: T -> string)
    requires SortedBy(s, key) && SortedBy(t, key)
    requires multiset(s) == multiset(t)
    requires DistinctKeys(s, key)
    requires s != []
    ensures t != [] && s[0] == t[0]
  {
    assert s[0] in multiset(t);
    assert t != [];
    assert t[0] in multiset(s);
    var i :| 0 <= i < |s| && s[i] == t[0];
    var j :| 0 <= j < |t| && t[j] == s[0];
    if i != 0 && j != 0 {
      assert LexLe(key(s[0]), key(s[i]));
      assert LexLe(key(t[0]), key(t[j]));
      LexLeAntisymmetric(key(s[0]), key(t[0]));
    }
  }

  lemma SortedTail<T>(s: seq<T>, key: T -> string)
    requires SortedBy(s, key) && s != []
    ensures SortedBy(s[1..], key)
  {
    forall a, b | 0 <= a < b < |s| - 1 ensures LexLe(key(s[1..][a]), key(s[1..][b])) {
      assert s[1..][a] == s[a + 1] && s[1..][b] == s[b + 1];
    }
  }

  lemma DistinctTail<T>(s: seq<T>, key: T -> string)
    requires DistinctKeys(s, key) && s != []
    ensures DistinctKeys(s[1..], key)
  {
    forall a, b | 0 <= a < |s| - 1 && 0 <= b < |s| - 1 && a != b ensures key(s[1..][a]) != key(s[1..][b]) {
      assert s[1..][a] == s[a + 1] && s[1..][b] == s[b + 1];
    }
  }

  lemma MultisetTail<T>(s: seq<T>, t: seq<T>)
    requires multiset(s) == multiset(t) && s != [] && t != [] && s[0] == t[0]
    ensures multiset(s[1..]) == multiset(t[1..])
  {
    assert s == [s[0]] + s[1..] && t == [t[0]] + t[1..];
    assert multiset(s[1..]) == multiset(s) - multiset{s[0]};
    assert multiset(t[1..]) == multiset(t) - multiset{t[0]};
  }

  /**
   * With distinct keys, being sorted and being a permutation of a given
   * collection fixes a sequence completely: whatever order the sort saw
   * its input in, the result is the same.
   */
  lemma {:induction false} SortedPermutationUnique<T>(s: seq<T>, t: seq<T>, key: T -> string)
    requires SortedBy(s, key) && SortedBy(t, key)
    requires multiset(s) == multiset(t)
    requires DistinctKeys(s, key)
    ensures s == t
    decreases |s|
  {
    if s == [] {
      assert |multiset(t)| == 0;
    } else {
      SortedPermutationHeads(s, t, key);
      MultisetTail(s, t);
      SortedTail(s, key);
      SortedTail(t, key);
      DistinctTail(s, key);
      SortedPermutationUnique(s[1..], t[1..], key);
      assert s == [s[0]] + s[1..] && t == [t[0]] + t[1..];
    }
  }

  /** A rearrangement of a sequence with distinct keys has distinct keys. */
  lemma DistinctInPermutation<T>(m: seq<T>, all: seq<T>, key: T -> string, i: int, j: int)
    requires multiset(m) == multiset(all) && DistinctKeys(all, key)
    requires 0 <= i < |m| && 0 <= j < |m| && i != j
    ensures key(m[i]) != key(m[j])
  {
    assert m[i] in multiset(all) && m[j] in multiset(all);
    var x :| 0 <= x < |all| && all[x] == m[i];
    var y :| 0 <= y < |all| && all[y] == m[j];
    if m[i] == m[j] {
      assert multiset(m)[m[i]] >= 2 by {
        assert m == m[..i] + [m[i]] + m[i+1..];
        if i < j {
          assert m[j] in m[i+1..];
        } else {
          assert m[j] in m[..i];
        }
      }
      CountAtMostOne(all, key, m[i]);
    }
  }

  /** Distinct keys make every element occur at most once. */
  lemma {:induction false} CountAtMostOne<T>(all: seq<T>, key: T -> string, a: T)
    requires DistinctKeys(all, key)
    ensures multiset(all)[a] <= 1
  {
    if all != [] {
      assert all == [all[0]] + all[1..];
      DistinctTail(all, key);
      CountAtMostOne(all[1..], key, a);
      if all[0] == a {
        assert a !in all[1..] by {
          forall k | 0 <= k < |all[1..]| ensures all[1..][k] != a {
            assert all[1..][k] == all[k + 1];
          }
        }
      }
    }
  }
}
