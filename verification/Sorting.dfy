/** Stable sorting by a numeric key: the meaning of `sort_by_key` / `sort_by` in the source.
    A stable sort is pinned down completely by the two facts proved here: its result is ordered,
    and for every key value the elements with that key appear in their original order. */
module Sorting {

  function Insert<T>(key: T -> real, x: T, ys: seq<T>): seq<T> {
    if ys == [] then [x]
    else if key(x) <= key(ys[0]) then [x] + ys
    else [ys[0]] + Insert(key, x, ys[1..])
  }

  function StableSort<T>(key: T -> real, xs: seq<T>): seq<T> {
    if xs == [] then [] else Insert(key, xs[0], StableSort(key, xs[1..]))
  }

  ghost predicate Ordered<T>(key: T -> real, xs: seq<T>) {
    forall i, j :: 0 <= i < j < |xs| ==> key(xs[i]) <= key(xs[j])
  }

  /** The elements whose key is exactly `k`, in order. */
  function WithKey<T>(key: T -> real, k: real, xs: seq<T>): seq<T> {
    if xs == [] then []
    else (if key(xs[0]) == k then [xs[0]] else []) + WithKey(key, k, xs[1..])
  }

  lemma {:induction false} InsertIsPermutation<T>(key: T -> real, x: T, ys: seq<T>)
    ensures multiset(Insert(key, x, ys)) == multiset([x] + ys)
    ensures |Insert(key, x, ys)| == |ys| + 1
  {
    if ys != [] && key(x) > key(ys[0]) {
      InsertIsPermutation(key, x, ys[1..]);
      assert ys == [ys[0]] + ys[1..];
    }
  }

  lemma {:induction false} InsertKeepsOrder<T>(key: T -> real, x: T, ys: seq<T>)
    requires Ordered(key, ys)
    ensures Ordered(key, Insert(key, x, ys))
  {
    if ys != [] && key(x) > key(ys[0]) {
      var rest := Insert(key, x, ys[1..]);
      InsertKeepsOrder(key, x, ys[1..]);
      InsertIsPermutation(key, x, ys[1..]);
      forall j | 0 <= j < |rest| ensures key(ys[0]) <= key(rest[j]) {
        assert rest[j] in multiset(rest);
        assert rest[j] in multiset([x] + ys[1..]);
        assert rest[j] == x || rest[j] in ys[1..];
      }
    }
  }

  lemma {:induction false} InsertIsStable<T>(key: T -> real, k: real, x: T, ys: seq<T>)
    requires Ordered(key, ys)
    ensures WithKey(key, k, Insert(key, x, ys)) == WithKey(key, k, [x] + ys)
  {
    if ys != [] {
      if key(x) <= key(ys[0]) {
      } else {
        var rest := Insert(key, x, ys[1..]);
        InsertIsStable(key, k, x, ys[1..]);
        assert ([x] + ys)[1..] == ys && ([ys[0]] + rest)[1..] == rest;
        assert ([x] + ys[1..])[1..] == ys[1..];
      }
    }
  }

  /** The three defining facts of a stable sort. */
  lemma {:induction false} StableSortSpec<T>(key: T -> real, xs: seq<T>)
    ensures |StableSort(key, xs)| == |xs|
    ensures multiset(StableSort(key, xs)) == multiset(xs)
    ensures Ordered(key, StableSort(key, xs))
    ensures forall k :: WithKey(key, k, StableSort(key, xs)) == WithKey(key, k, xs)
  {
    if xs != [] {
      var tail := StableSort(key, xs[1..]);
      StableSortSpec(key, xs[1..]);
      InsertIsPermutation(key, xs[0], tail);
      InsertKeepsOrder(key, xs[0], tail);
      assert xs == [xs[0]] + xs[1..];
      forall k ensures WithKey(key, k, Insert(key, xs[0], tail)) == WithKey(key, k, xs) {
        InsertIsStable(key, k, xs[0], tail);
        assert ([xs[0]] + tail)[1..] == tail;
      }
    }
  }

  /** The head of a stable sort is the earliest element with the smallest key. */
  lemma {:induction false} HeadIsEarliestMinimum<T>(key: T -> real, xs: seq<T>) returns (i: nat)
    requires xs != []
    ensures i < |xs| && StableSort(key, xs) != [] && StableSort(key, xs)[0] == xs[i]
    ensures forall j :: 0 <= j < |xs| ==> key(xs[i]) <= key(xs[j])
    ensures forall j :: 0 <= j < i ==> key(xs[i]) < key(xs[j])
  {
    StableSortSpec(key, xs[1..]);
    var tail := StableSort(key, xs[1..]);
    if |xs| == 1 {
      assert tail == [];
      i := 0;
    } else {
      var k := HeadIsEarliestMinimum(key, xs[1..]);
      assert tail[0] == xs[1..][k];
      forall j | 1 <= j < |xs| ensures key(tail[0]) <= key(xs[j]) && (j < k + 1 ==> key(tail[0]) < key(xs[j])) {
        assert xs[j] == xs[1..][j - 1];
      }
      i := if key(xs[0]) <= key(tail[0]) then 0 else k + 1;
    }
  }

  /** Every element of the sorted list comes from the original one, and conversely. */
  lemma SameElements<T>(key: T -> real, xs: seq<T>)
    ensures |StableSort(key, xs)| == |xs|
    ensures forall x :: x in StableSort(key, xs) <==> x in xs
  {
    StableSortSpec(key, xs);
    forall x ensures x in StableSort(key, xs) <==> x in xs {
      assert x in StableSort(key, xs) <==> x in multiset(StableSort(key, xs));
      assert x in xs <==> x in multiset(xs);
    }
  }
}
