/**
 * `sorted(slot_counts.items(), key=lambda x: len(x[1]))` in prefer_sparse.py:
 * Python's sort is stable, so the (slot, requesters) pairs end up ordered by
 * the length of their requester list, pairs of equal length keeping the
 * order they had. Modelled as an insertion sort that puts each new pair
 * after every pair whose list is not longer.
 */
module StableSort {

  /** The sort key: the length of the requester list. */
  function Size<T, K>(item: (T, seq<K>)): nat {
    |item.1|
  }

  predicate SortedBySize<T, K>(ys: seq<(T, seq<K>)>) {
    forall a, b :: 0 <= a < b < |ys| ==> Size(ys[a]) <= Size(ys[b])
  }

  /** `x` placed before the first pair of `ys` with a longer list. */
  function Insert<T, K>(ys: seq<(T, seq<K>)>, x: (T, seq<K>)): (r: seq<(T, seq<K>)>)
    ensures |r| == |ys| + 1
  {
    if ys == [] then [x]
    else if Size(ys[0]) > Size(x) then [x] + ys
    else [ys[0]] + Insert(ys[1..], x)
  }

  /** The stable sort by list length. */
  function Sort<T, K>(xs: seq<(T, seq<K>)>): (r: seq<(T, seq<K>)>)
    ensures |r| == |xs|
  {
    if xs == [] then []
    else Insert(Sort(xs[..|xs| - 1]), xs[|xs| - 1])
  }

  /** The pairs whose list has length `c`, in order: what stability preserves. */
  function WithSize<T, K>(xs: seq<(T, seq<K>)>, c: nat): seq<(T, seq<K>)> {
    if xs == [] then []
    else WithSize(xs[..|xs| - 1], c) + (if Size(xs[|xs| - 1]) == c then [xs[|xs| - 1]] else [])
  }

  lemma WithSizeAppend<T, K>(xs: seq<(T, seq<K>)>, ys: seq<(T, seq<K>)>, c: nat)
    ensures WithSize(xs + ys, c) == WithSize(xs, c) + WithSize(ys, c)
    decreases |ys|
  {
    if ys != [] {
      var n := |ys| - 1;
      assert (xs + ys)[..|xs + ys| - 1] == xs + ys[..n];
      WithSizeAppend(xs, ys[..n], c);
    } else {
      assert xs + ys == xs;
    }
  }

  /** Inserting into a sorted sequence keeps it sorted. */
  lemma {:induction false} InsertSorted<T, K>(ys: seq<(T, seq<K>)>, x: (T, seq<K>))
    requires SortedBySize(ys)
    ensures SortedBySize(Insert(ys, x))
  {
    if ys != [] && Size(ys[0]) <= Size(x) {
      InsertSorted(ys[1..], x);
      InsertLowerBound(ys[1..], x, Size(ys[0]));
    }
  }

  /** Every pair of `Insert(ys, x)` is at least as long as a common lower bound of `ys` and `x`. */
  lemma {:induction false} InsertLowerBound<T, K>(ys: seq<(T, seq<K>)>, x: (T, seq<K>), lo: nat)
    requires lo <= Size(x) && forall k :: 0 <= k < |ys| ==> lo <= Size(ys[k])
    ensures forall k :: 0 <= k < |Insert(ys, x)| ==> lo <= Size(Insert(ys, x)[k])
  {
    if ys != [] && Size(ys[0]) <= Size(x) {
      InsertLowerBound(ys[1..], x, lo);
    }
  }

  /** Inserting adds exactly `x`. */
  lemma {:induction false} InsertPermutes<T, K>(ys: seq<(T, seq<K>)>, x: (T, seq<K>))
    ensures multiset(Insert(ys, x)) == multiset(ys) + multiset{x}
  {
    if ys != [] && Size(ys[0]) <= Size(x) {
      InsertPermutes(ys[1..], x);
      assert ys == [ys[0]] + ys[1..];
    }
  }

  lemma WithSizeSingle<T, K>(x: (T, seq<K>), c: nat)
    ensures WithSize([x], c) == if Size(x) == c then [x] else []
  {
    assert [x][..0] == [];
  }

  /** Into a sorted sequence, `x` lands after every pair of its own length. */
  lemma {:induction false} InsertWithSize<T, K>(ys: seq<(T, seq<K>)>, x: (T, seq<K>), c: nat)
    requires SortedBySize(ys)
    ensures WithSize(Insert(ys, x), c) == WithSize(ys, c) + (if Size(x) == c then [x] else [])
  {
    if ys == [] {
      WithSizeSingle(x, c);
    } else if Size(ys[0]) > Size(x) {
      InsertFrontWithSize(ys, x, c);
    } else {
      assert SortedBySize(ys[1..]);
      InsertWithSize(ys[1..], x, c);
      InsertLaterWithSize(ys, x, c);
    }
  }

  lemma InsertFrontWithSize<T, K>(ys: seq<(T, seq<K>)>, x: (T, seq<K>), c: nat)
    requires SortedBySize(ys) && ys != [] && Size(ys[0]) > Size(x)
    ensures WithSize([x] + ys, c) == WithSize(ys, c) + (if Size(x) == c then [x] else [])
  {
    WithSizeAppend([x], ys, c);
    WithSizeSingle(x, c);
    if Size(x) == c {
      NoneWithSize(ys, c);
    }
  }

  lemma InsertLaterWithSize<T, K>(ys: seq<(T, seq<K>)>, x: (T, seq<K>), c: nat)
    requires ys != [] && Size(ys[0]) <= Size(x)
    requires WithSize(Insert(ys[1..], x), c) == WithSize(ys[1..], c) + (if Size(x) == c then [x] else [])
    ensures WithSize(Insert(ys, x), c) == WithSize(ys, c) + (if Size(x) == c then [x] else [])
  {
    assert Insert(ys, x) == [ys[0]] + Insert(ys[1..], x);
    WithSizeAppend([ys[0]], Insert(ys[1..], x), c);
    WithSizeAppend([ys[0]], ys[1..], c);
    assert [ys[0]] + ys[1..] == ys;
  }

  /** A sorted sequence whose first pair is longer than `c` has no pair of length `c`. */
  lemma NoneWithSize<T, K>(ys: seq<(T, seq<K>)>, c: nat)
    requires SortedBySize(ys) && ys != [] && Size(ys[0]) > c
    ensures WithSize(ys, c) == []
  {
    NoneWithSizeAbove(ys, c);
  }

  lemma {:induction false} NoneWithSizeAbove<T, K>(ys: seq<(T, seq<K>)>, c: nat)
    requires forall k :: 0 <= k < |ys| ==> Size(ys[k]) > c
    ensures WithSize(ys, c) == []
  {
    if ys != [] {
      NoneWithSizeAbove(ys[..|ys| - 1], c);
    }
  }

  /** The result is ordered by list length. */
  lemma {:induction false} SortSorted<T, K>(xs: seq<(T, seq<K>)>)
    ensures SortedBySize(Sort(xs))
  {
    if xs != [] {
      SortSorted(xs[..|xs| - 1]);
      InsertSorted(Sort(xs[..|xs| - 1]), xs[|xs| - 1]);
    }
  }

  /** The result is a rearrangement of the input. */
  lemma {:induction false} SortPermutes<T, K>(xs: seq<(T, seq<K>)>)
    ensures multiset(Sort(xs)) == multiset(xs)
  {
    if xs != [] {
      var n := |xs| - 1;
      SortPermutes(xs[..n]);
      InsertPermutes(Sort(xs[..n]), xs[n]);
      assert xs == xs[..n] + [xs[n]];
    }
  }

  /** Stability: the pairs of each length keep their relative order. */
  lemma {:induction false} SortStable<T, K>(xs: seq<(T, seq<K>)>, c: nat)
    ensures WithSize(Sort(xs), c) == WithSize(xs, c)
  {
    if xs != [] {
      var n := |xs| - 1;
      SortStable(xs[..n], c);
      SortSorted(xs[..n]);
      InsertWithSize(Sort(xs[..n]), xs[n], c);
    }
  }
}
