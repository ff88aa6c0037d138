/** The orders on sequences that the list and vector algorithms promise:
    reversal (vector_operations/src/vector_ops.h `reverse`, list/src/list.h
    `list::reverse`), filtering out one value (`list::remove`), collapsing
    runs of equal elements (`list::unique`), the stable merge of two sorted
    sequences (`list::merge`) and the top-down merge sort built on it
    (`list::sort`). Merging and sorting compare elements through a `key`,
    so that the same definitions describe the list's nodes (compared by
    their values) and the values themselves. */
module Sequences {

  // ---------------------------------------------------------------------
  // Reversal

  /** The elements of `s` in the opposite order. */
  ghost function Reversed<T>(s: seq<T>): (r: seq<T>)
    ensures |r| == |s|
    ensures forall i :: 0 <= i < |s| ==> r[i] == s[|s| - 1 - i]
  {
    seq(|s|, i requires 0 <= i < |s| => s[|s| - 1 - i])
  }

  /** Reversing twice gives the sequence back. */
  lemma ReversedInvolutive<T>(s: seq<T>)
    ensures Reversed(Reversed(s)) == s
  {
  }

  /** Reversal only reorders the elements. */
  lemma {:induction false} ReversedPermutes<T>(s: seq<T>)
    ensures multiset(Reversed(s)) == multiset(s)
  {
    if s != [] {
      var n := |s| - 1;
      ReversedPermutes(s[..n]);
      assert Reversed(s) == [s[n]] + Reversed(s[..n]);
      assert s == s[..n] + [s[n]];
    }
  }

  // ---------------------------------------------------------------------
  // Removing one value

  /** `xs` without the elements equal to `v`, the others in their order. */
  ghost function Filtered(xs: seq<int>, v: int): seq<int>
  {
    if xs == [] then []
    else Filtered(xs[..|xs| - 1], v) + (if xs[|xs| - 1] == v then [] else [xs[|xs| - 1]])
  }

  /** An element survives the filter exactly when it differs from `v` and
      was there before. */
  lemma {:induction false} FilteredMembers(xs: seq<int>, v: int, x: int)
    ensures x in Filtered(xs, v) <==> x in xs && x != v
  {
    if xs != [] {
      var n := |xs| - 1;
      FilteredMembers(xs[..n], v, x);
      assert xs == xs[..n] + [xs[n]];
    }
  }

  /** The filter drops every occurrence of `v` and nothing else. */
  lemma {:induction false} FilteredCount(xs: seq<int>, v: int)
    ensures multiset(Filtered(xs, v)) == multiset(xs)[v := 0]
  {
    if xs != [] {
      var n := |xs| - 1;
      FilteredCount(xs[..n], v);
      assert xs == xs[..n] + [xs[n]];
    }
  }

  /** Filtering a second time changes nothing. */
  lemma {:induction false} FilteredIdempotent(xs: seq<int>, v: int)
    ensures Filtered(Filtered(xs, v), v) == Filtered(xs, v)
  {
    if xs != [] {
      var n := |xs| - 1;
      FilteredIdempotent(xs[..n], v);
      var f := Filtered(xs[..n], v);
      if xs[n] != v {
        var g := f + [xs[n]];
        assert Filtered(xs, v) == g;
        assert g[..|g| - 1] == f && g[|g| - 1] == xs[n];
        assert Filtered(g, v) == Filtered(f, v) + [xs[n]];
      } else {
        assert Filtered(xs, v) == f + [] == f;
      }
    }
  }

  /** Filtering one more element appends it unless it equals `v`. */
  lemma FilterStep(xs: seq<int>, p: nat, v: int)
    requires p < |xs|
    ensures Filtered(xs[..p + 1], v) == Filtered(xs[..p], v) + (if xs[p] == v then [] else [xs[p]])
  {
    assert xs[..p + 1][..p] == xs[..p];
  }

  // ---------------------------------------------------------------------
  // Collapsing runs

  /** `xs` with every run of equal neighbours cut down to its first
      element. */
  ghost function Dedup(xs: seq<int>): seq<int>
  {
    if |xs| < 2 then xs
    else if xs[|xs| - 1] == xs[|xs| - 2] then Dedup(xs[..|xs| - 1])
    else Dedup(xs[..|xs| - 1]) + [xs[|xs| - 1]]
  }

  /** No two neighbours of `xs` are equal. */
  ghost predicate NoAdjacentDuplicates(xs: seq<int>)
  {
    forall i, j :: 0 <= i && j == i + 1 < |xs| ==> xs[i] != xs[j]
  }

  /** A non-empty sequence keeps its last value when collapsed. */
  lemma {:induction false} DedupLast(xs: seq<int>)
    requires xs != []
    ensures Dedup(xs) != [] && Dedup(xs)[|Dedup(xs)| - 1] == xs[|xs| - 1]
  {
    if |xs| >= 2 {
      DedupLast(xs[..|xs| - 1]);
    }
  }

  /** After collapsing, no two neighbours are equal. */
  lemma {:induction false} DedupNoAdjacent(xs: seq<int>)
    ensures NoAdjacentDuplicates(Dedup(xs))
  {
    if |xs| >= 2 {
      var n := |xs| - 1;
      DedupNoAdjacent(xs[..n]);
      DedupLast(xs[..n]);
    }
  }

  /** Collapsing keeps every value that occurs and adds none. */
  lemma {:induction false} DedupMembers(xs: seq<int>, x: int)
    ensures x in Dedup(xs) <==> x in xs
  {
    if |xs| >= 2 {
      var n := |xs| - 1;
      DedupMembers(xs[..n], x);
      assert xs == xs[..n] + [xs[n]];
      assert xs[n - 1] in xs[..n];
    }
  }

  /** A sequence without equal neighbours is its own collapse; so collapsing
      twice is collapsing once. */
  lemma {:induction false} DedupFixed(xs: seq<int>)
    requires NoAdjacentDuplicates(xs)
    ensures Dedup(xs) == xs
  {
    if |xs| >= 2 {
      var n := |xs| - 1;
      assert xs[n - 1] != xs[n];
      DedupFixed(xs[..n]);
      assert xs == xs[..n] + [xs[n]];
    }
  }

  /** Collapsing one more element appends it unless it repeats its
      predecessor. */
  lemma DedupStep(xs: seq<int>, p: nat)
    requires 1 <= p < |xs|
    ensures Dedup(xs[..p + 1]) == Dedup(xs[..p]) + (if xs[p] == xs[p - 1] then [] else [xs[p]])
  {
    assert xs[..p + 1][..p] == xs[..p];
  }

  // ---------------------------------------------------------------------
  // Walking a sequence

  /** A walk that has produced `done` from the first `p` elements of `xs`
      looks next at `xs[p]`; dropping it or keeping it leaves the walk in
      the same form one element further on. */
  lemma WalkStep<T>(done: seq<T>, xs: seq<T>, p: nat)
    requires p < |xs|
    ensures |done| < |done + xs[p..]| && (done + xs[p..])[|done|] == xs[p]
    ensures (done + xs[p..])[..|done|] + (done + xs[p..])[|done| + 1..] == done + xs[p + 1..]
    ensures done + xs[p..] == (done + [xs[p]]) + xs[p + 1..]
  {
    var c := done + xs[p..];
    assert c[..|done|] == done && c[|done| + 1..] == xs[p + 1..];
    assert xs[p..] == [xs[p]] + xs[p + 1..];
  }

  /** A walk whose output already has the length of everything it will
      produce has consumed all of `xs`. */
  lemma WalkDone<T>(done: seq<T>, xs: seq<T>, p: nat)
    requires p <= |xs| && |done + xs[p..]| == |done|
    ensures p == |xs| && xs[..p] == xs && done + xs[p..] == done
  {
  }

  // ---------------------------------------------------------------------
  // Merging and sorting

  /** The keys of `xs` never decrease. */
  ghost predicate Sorted<T>(xs: seq<T>, key: T -> int)
  {
    forall i, j :: 0 <= i < j < |xs| ==> key(xs[i]) <= key(xs[j])
  }

  /** The elements of `xs` whose key is `k`, in their order. */
  ghost function WithKey<T>(xs: seq<T>, key: T -> int, k: int): seq<T>
  {
    if xs == [] then [] else (if key(xs[0]) == k then [xs[0]] else []) + WithKey(xs[1..], key, k)
  }

  /** The merge of `list::merge`: repeatedly the front of `ys` when its key
      is strictly smaller than that of the front of `xs`, and the front of
      `xs` otherwise, so that on equal keys the element of `xs` comes
      first. */
  ghost function Merged<T>(xs: seq<T>, ys: seq<T>, key: T -> int): (r: seq<T>)
    ensures |r| == |xs| + |ys|
    decreases |xs| + |ys|
  {
    if ys == [] then xs
    else if xs == [] then ys
    else if key(ys[0]) < key(xs[0]) then [ys[0]] + Merged(xs, ys[1..], key)
    else [xs[0]] + Merged(xs[1..], ys, key)
  }

  /** The key of a sequence of plain integers: the integer itself. */
  function IntKey(x: int): int
  {
    x
  }

  /** Concatenation regroups freely. */
  lemma AppendAssoc<T>(a: seq<T>, b: seq<T>, c: seq<T>)
    ensures (a + b) + c == a + (b + c)
  {
  }

  /** One step of the merge: which front is taken first. */
  lemma MergedFirst<T>(xs: seq<T>, ys: seq<T>, key: T -> int)
    requires xs != [] || ys != []
    ensures xs != [] && (ys == [] || !(key(ys[0]) < key(xs[0]))) ==> Merged(xs, ys, key) == [xs[0]] + Merged(xs[1..], ys, key)
    ensures ys != [] && (xs == [] || key(ys[0]) < key(xs[0])) ==> Merged(xs, ys, key) == [ys[0]] + Merged(xs, ys[1..], key)
  {
    if ys == [] {
      assert xs == [xs[0]] + xs[1..];
    }
  }

  /** The sort of `list::sort`: the first `n / 2` elements and the rest are
      sorted separately and then merged. */
  ghost function MergeSorted<T>(xs: seq<T>, key: T -> int): (r: seq<T>)
    ensures |r| == |xs|
    decreases |xs|
  {
    if |xs| < 2 then xs
    else Merged(MergeSorted(xs[..|xs| / 2], key), MergeSorted(xs[|xs| / 2..], key), key)
  }

  /** A sequence is its two halves laid end to end. */
  lemma Halves<T>(xs: seq<T>, h: nat)
    requires h <= |xs|
    ensures xs == xs[..h] + xs[h..]
  {
  }

  /** The filter by key distributes over concatenation. */
  lemma {:induction false} WithKeyAppend<T>(a: seq<T>, b: seq<T>, key: T -> int, k: int)
    ensures WithKey(a + b, key, k) == WithKey(a, key, k) + WithKey(b, key, k)
  {
    if a != [] {
      WithKeyAppend(a[1..], b, key, k);
      assert (a + b)[0] == a[0] && (a + b)[1..] == a[1..] + b;
    } else {
      assert a + b == b;
    }
  }

  /** A sorted sequence whose first key exceeds `k` has no element with key
      `k`. */
  lemma {:induction false} WithKeyAbove<T>(xs: seq<T>, key: T -> int, k: int)
    requires Sorted(xs, key) && xs != [] && k < key(xs[0])
    ensures WithKey(xs, key, k) == []
  {
    if |xs| > 1 {
      WithKeyAbove(xs[1..], key, k);
    }
  }

  /** Merging only interleaves: every element of both inputs, each as often
      as it occurs. */
  lemma {:induction false} MergedPermutes<T>(xs: seq<T>, ys: seq<T>, key: T -> int)
    ensures multiset(Merged(xs, ys, key)) == multiset(xs) + multiset(ys)
    decreases |xs| + |ys|
  {
    if ys != [] && xs != [] {
      if key(ys[0]) < key(xs[0]) {
        MergedPermutes(xs, ys[1..], key);
        assert Merged(xs, ys, key) == [ys[0]] + Merged(xs, ys[1..], key);
        assert ys == [ys[0]] + ys[1..];
        assert multiset(ys) == multiset([ys[0]]) + multiset(ys[1..]);
      } else {
        MergedPermutes(xs[1..], ys, key);
        assert Merged(xs, ys, key) == [xs[0]] + Merged(xs[1..], ys, key);
        assert xs == [xs[0]] + xs[1..];
        assert multiset(xs) == multiset([xs[0]]) + multiset(xs[1..]);
      }
    }
  }

  /** A bound below every key of both inputs is below every key of their
      merge. */
  lemma MergedAbove<T>(xs: seq<T>, ys: seq<T>, key: T -> int, b: int)
    requires forall i :: 0 <= i < |xs| ==> b <= key(xs[i])
    requires forall i :: 0 <= i < |ys| ==> b <= key(ys[i])
    ensures forall i :: 0 <= i < |Merged(xs, ys, key)| ==> b <= key(Merged(xs, ys, key)[i])
  {
    var r := Merged(xs, ys, key);
    MergedPermutes(xs, ys, key);
    forall i | 0 <= i < |r|
      ensures b <= key(r[i])
    {
      assert r[i] in multiset(xs) + multiset(ys);
    }
  }

  /** An element whose key is at most every key of a sorted sequence can be
      put in front of it. */
  lemma SortedCons<T>(x: T, r: seq<T>, key: T -> int)
    requires Sorted(r, key) && forall i :: 0 <= i < |r| ==> key(x) <= key(r[i])
    ensures Sorted([x] + r, key)
  {
  }

  /** The merge of two sorted sequences is sorted. */
  lemma {:induction false} MergedSorted<T>(xs: seq<T>, ys: seq<T>, key: T -> int)
    requires Sorted(xs, key) && Sorted(ys, key)
    ensures Sorted(Merged(xs, ys, key), key)
    decreases |xs| + |ys|
  {
    if ys != [] && xs != [] {
      if key(ys[0]) < key(xs[0]) {
        var rest := Merged(xs, ys[1..], key);
        MergedSorted(xs, ys[1..], key);
        MergedAbove(xs, ys[1..], key, key(ys[0]));
        SortedCons(ys[0], rest, key);
      } else {
        var rest := Merged(xs[1..], ys, key);
        MergedSorted(xs[1..], ys, key);
        MergedAbove(xs[1..], ys, key, key(xs[0]));
        SortedCons(xs[0], rest, key);
      }
    }
  }

  /** Ties are taken from `xs`: when no key of `ys` is below a key of `xs`,
      the merge is `xs` followed by `ys`. */
  lemma {:induction false} MergedTies<T>(xs: seq<T>, ys: seq<T>, key: T -> int)
    requires forall i, j :: 0 <= i < |xs| && 0 <= j < |ys| ==> key(xs[i]) <= key(ys[j])
    ensures Merged(xs, ys, key) == xs + ys
  {
    if ys != [] && xs != [] {
      assert key(xs[0]) <= key(ys[0]);
      MergedTies(xs[1..], ys, key);
      assert xs + ys == [xs[0]] + (xs[1..] + ys);
    }
  }

  /** The merge is stable: among the elements sharing any one key, those of
      `xs` come first and each input keeps its own order. */
  lemma {:induction false} MergedStable<T>(xs: seq<T>, ys: seq<T>, key: T -> int, k: int)
    requires Sorted(xs, key) && Sorted(ys, key)
    ensures WithKey(Merged(xs, ys, key), key, k) == WithKey(xs, key, k) + WithKey(ys, key, k)
    decreases |xs| + |ys|
  {
    if ys != [] && xs != [] {
      if key(ys[0]) < key(xs[0]) {
        MergedStable(xs, ys[1..], key, k);
        WithKeyAppend([ys[0]], Merged(xs, ys[1..], key), key, k);
        if key(ys[0]) == k {
          WithKeyAbove(xs, key, k);
        }
        assert WithKey(ys, key, k) == WithKey([ys[0]], key, k) + WithKey(ys[1..], key, k);
      } else {
        MergedStable(xs[1..], ys, key, k);
      }
    }
  }

  /** The sort orders the keys. */
  lemma {:induction false} MergeSortedSorted<T>(xs: seq<T>, key: T -> int)
    ensures Sorted(MergeSorted(xs, key), key)
    decreases |xs|
  {
    if |xs| >= 2 {
      MergeSortedSorted(xs[..|xs| / 2], key);
      MergeSortedSorted(xs[|xs| / 2..], key);
      MergedSorted(MergeSorted(xs[..|xs| / 2], key), MergeSorted(xs[|xs| / 2..], key), key);
    }
  }

  /** The sort only reorders. */
  lemma {:induction false} MergeSortedPermutes<T>(xs: seq<T>, key: T -> int)
    ensures multiset(MergeSorted(xs, key)) == multiset(xs)
    decreases |xs|
  {
    if |xs| >= 2 {
      var h := |xs| / 2;
      var l, r := xs[..h], xs[h..];
      MergeSortedPermutes(l, key);
      MergeSortedPermutes(r, key);
      MergedPermutes(MergeSorted(l, key), MergeSorted(r, key), key);
      Halves(xs, h);
      assert multiset(xs) == multiset(l) + multiset(r);
    }
  }

  /** The sort is stable: the elements sharing any one key keep their
      order. */
  lemma {:induction false} MergeSortedStable<T>(xs: seq<T>, key: T -> int, k: int)
    ensures WithKey(MergeSorted(xs, key), key, k) == WithKey(xs, key, k)
    decreases |xs|
  {
    if |xs| >= 2 {
      var h := |xs| / 2;
      MergeSortedStable(xs[..h], key, k);
      MergeSortedStable(xs[h..], key, k);
      MergeSortedSorted(xs[..h], key);
      MergeSortedSorted(xs[h..], key);
      MergedStable(MergeSorted(xs[..h], key), MergeSorted(xs[h..], key), key, k);
      WithKeyAppend(xs[..h], xs[h..], key, k);
      assert xs == xs[..h] + xs[h..];
    }
  }

  /** A sequence that is already sorted comes out of the sort unchanged. */
  lemma {:induction false} MergeSortedFixed<T>(xs: seq<T>, key: T -> int)
    requires Sorted(xs, key)
    ensures MergeSorted(xs, key) == xs
    decreases |xs|
  {
    if |xs| >= 2 {
      var h := |xs| / 2;
      var l, r := xs[..h], xs[h..];
      MergeSortedFixed(l, key);
      MergeSortedFixed(r, key);
      MergedTies(l, r, key);
      Halves(xs, h);
    }
  }
}
