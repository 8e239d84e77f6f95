/** Ordering by a real-valued key: the insertion sort used for the order
    statistics of the quantile and for `sort_index` after the merge, with the
    facts the rest of the model relies on (sorted, a permutation, and unique
    when the keys are distinct). */
module Sorting {

  /** Keys are non-decreasing along `xs`. */
  ghost predicate SortedBy<T>(xs: seq<T>, key: T -> real)
  {
    forall i, j :: 0 <= i < j < |xs| ==> key(xs[i]) <= key(xs[j])
  }

  /** Keys are strictly increasing along `xs` (sorted, no two equal keys). */
  ghost predicate StrictlyIncreasingBy<T>(xs: seq<T>, key: T -> real)
  {
    forall i, j :: 0 <= i < j < |xs| ==> key(xs[i]) < key(xs[j])
  }

  /** Inserts `x` into `ys` before the first element whose key is not smaller. */
  function Insert<T>(x: T, ys: seq<T>, key: T -> real): seq<T>
  {
    if ys == [] then [x]
    else if key(x) <= key(ys[0]) then [x] + ys
    else [ys[0]] + Insert(x, ys[1..], key)
  }

  /** Insertion sort of `xs` by `key`. */
  function SortBy<T>(xs: seq<T>, key: T -> real): seq<T>
  {
    if xs == [] then [] else Insert(xs[0], SortBy(xs[1..], key), key)
  }

  lemma {:induction false} InsertPermutes<T>(x: T, ys: seq<T>, key: T -> real)
    ensures multiset(Insert(x, ys, key)) == multiset(ys) + multiset{x}
  {
    if ys != [] && key(ys[0]) < key(x) {
      InsertPermutes(x, ys[1..], key);
      assert ys == [ys[0]] + ys[1..];
    }
  }

  lemma {:induction false} InsertSorted<T>(x: T, ys: seq<T>, key: T -> real)
    requires SortedBy(ys, key)
    ensures SortedBy(Insert(x, ys, key), key)
  {
    if ys != [] && key(ys[0]) < key(x) {
      var rest := Insert(x, ys[1..], key);
      InsertSorted(x, ys[1..], key);
      InsertPermutes(x, ys[1..], key);
      forall k | 0 <= k < |rest|
        ensures key(ys[0]) <= key(rest[k])
      {
        assert rest[k] in multiset(ys[1..]) + multiset{x};
        if rest[k] != x {
          var j :| 0 <= j < |ys[1..]| && ys[1..][j] == rest[k];
          assert ys[1..][j] == ys[j + 1];
        }
      }
    }
  }

  /** The insertion sort returns a sorted permutation of its input. */
  lemma {:induction false} SortByCorrect<T>(xs: seq<T>, key: T -> real)
    ensures multiset(SortBy(xs, key)) == multiset(xs)
    ensures SortedBy(SortBy(xs, key), key)
  {
    if xs != [] {
      SortByCorrect(xs[1..], key);
      InsertPermutes(xs[0], SortBy(xs[1..], key), key);
      InsertSorted(xs[0], SortBy(xs[1..], key), key);
      assert xs == [xs[0]] + xs[1..];
    }
  }

  /** A sorted sequence and a strictly increasing one holding the same
      elements are equal: with distinct keys the sorted order is unique,
      whichever way ties would have been broken. */
  lemma {:induction false} SortedPermutationUnique<T>(a: seq<T>, b: seq<T>, key: T -> real)
    requires SortedBy(a, key) && StrictlyIncreasingBy(b, key)
    requires multiset(a) == multiset(b)
    ensures a == b
  {
    assert |a| == |multiset(a)| == |multiset(b)| == |b|;
    if a != [] {
      assert b[0] in multiset(a);
      var j :| 0 <= j < |a| && a[j] == b[0];
      assert a[0] in multiset(b);
      var k :| 0 <= k < |b| && b[k] == a[0];
      assert key(a[0]) <= key(a[j]);
      assert k == 0;
      assert a == [a[0]] + a[1..];
      assert b == [b[0]] + b[1..];
      calc {
        multiset(a[1..]);
        multiset(a) - multiset{a[0]};
        multiset(b) - multiset{b[0]};
        multiset(b[1..]);
      }
      SortedPermutationUnique(a[1..], b[1..], key);
    }
  }
}
