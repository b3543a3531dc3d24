/**
 * `Array.prototype.sort` with a numeric comparator `(a, b) => key(a) - key(b)`:
 * a stable insertion sort by an integer key, ascending, and `slice(0, n)`.
 */
module Ranking {
  import opened Practice

  predicate SortedBy<T>(xs: seq<T>, key: T -> int) {
    forall i, j :: 0 <= i < j < |xs| ==> key(xs[i]) <= key(xs[j])
  }

  /**
   * Inserts `x` in front of the first element whose key is not smaller. Sorting inserts each
   * element into the sorted rest of the list, so `x` precedes the equal keys that follow it
   * in the input: equal keys keep their input order.
   */
  function InsertBy<T>(x: T, xs: seq<T>, key: T -> int): (r: seq<T>)
    requires SortedBy(xs, key)
    ensures SortedBy(r, key)
    ensures multiset(r) == multiset(xs) + multiset{x}
    ensures |r| == |xs| + 1
  {
    if xs == [] then [x]
    else if key(x) <= key(xs[0]) then
      InsertFront(x, xs, key);
      [x] + xs
    else
      TailSorted(xs, key);
      var rest := InsertBy(x, xs[1..], key);
      InsertBehind(x, xs, rest, key);
      [xs[0]] + rest
  }

  lemma TailSorted<T>(xs: seq<T>, key: T -> int)
    requires xs != [] && SortedBy(xs, key)
    ensures SortedBy(xs[1..], key)
  {
    var tail := xs[1..];
    forall i, j | 0 <= i < j < |tail| ensures key(tail[i]) <= key(tail[j]) {
      assert tail[i] == xs[i + 1] && tail[j] == xs[j + 1];
    }
  }

  /** A key not above the head goes in front. */
  lemma InsertFront<T>(x: T, xs: seq<T>, key: T -> int)
    requires xs != [] && SortedBy(xs, key) && key(x) <= key(xs[0])
    ensures SortedBy([x] + xs, key)
  {
    var l := [x] + xs;
    forall i, j | 0 <= i < j < |l| ensures key(l[i]) <= key(l[j]) {
      assert l[j] == xs[j - 1];
      if i > 0 {
        assert l[i] == xs[i - 1];
      } else {
        assert key(xs[0]) <= key(xs[j - 1]);
      }
    }
  }

  /** The head stays in front of the insertion into the tail when its key is smaller. */
  lemma InsertBehind<T>(x: T, xs: seq<T>, rest: seq<T>, key: T -> int)
    requires xs != [] && SortedBy(xs, key) && key(xs[0]) < key(x)
    requires SortedBy(rest, key) && multiset(rest) == multiset(xs[1..]) + multiset{x}
    ensures SortedBy([xs[0]] + rest, key)
    ensures multiset([xs[0]] + rest) == multiset(xs) + multiset{x}
  {
    assert xs == [xs[0]] + xs[1..];
    forall k | 0 <= k < |rest| ensures key(xs[0]) <= key(rest[k]) {
      assert rest[k] in multiset(rest);
      if rest[k] != x {
        assert rest[k] in multiset(xs[1..]);
        var j :| 0 <= j < |xs[1..]| && xs[1..][j] == rest[k];
        assert key(xs[0]) <= key(xs[j + 1]);
      }
    }
    var l := [xs[0]] + rest;
    forall i, j | 0 <= i < j < |l| ensures key(l[i]) <= key(l[j]) {
      assert l[j] == rest[j - 1];
      if i > 0 {
        assert l[i] == rest[i - 1];
      }
    }
  }

  /** The elements of `xs` in ascending key order; a permutation of `xs`. */
  function SortBy<T>(xs: seq<T>, key: T -> int): (r: seq<T>)
    ensures SortedBy(r, key)
    ensures multiset(r) == multiset(xs)
    ensures |r| == |xs|
  {
    if xs == [] then [] else
      assert xs == [xs[0]] + xs[1..];
      InsertBy(xs[0], SortBy(xs[1..], key), key)
  }

  /**
   * Stability of insertion: among the elements with key `k`, an inserted `x` of that key
   * comes first, because it goes in front of every element whose key is not smaller.
   */
  lemma {:induction false} InsertByKeyOrder<T(!new)>(x: T, xs: seq<T>, key: T -> int, k: int, p: T -> bool)
    requires SortedBy(xs, key)
    requires forall y :: p(y) == (key(y) == k)
    ensures Filter(InsertBy(x, xs, key), p) == (if p(x) then [x] else []) + Filter(xs, p)
  {
    if xs == [] {
      assert InsertBy(x, xs, key) == [x];
      assert [x][1..] == [];
    } else if key(x) <= key(xs[0]) {
      assert ([x] + xs)[1..] == xs;
    } else {
      TailSorted(xs, key);
      InsertByKeyOrder(x, xs[1..], key, k, p);
      var rest := InsertBy(x, xs[1..], key);
      assert ([xs[0]] + rest)[1..] == rest;
      if p(x) {
        assert !p(xs[0]);
      }
    }
  }

  /**
   * `SortBy` is stable: the elements with any one key appear in the sorted list in the
   * order they have in the input.
   */
  lemma {:induction false} SortByStable<T(!new)>(xs: seq<T>, key: T -> int, k: int, p: T -> bool)
    requires forall y :: p(y) == (key(y) == k)
    ensures Filter(SortBy(xs, key), p) == Filter(xs, p)
  {
    if xs != [] {
      SortByStable(xs[1..], key, k, p);
      InsertByKeyOrder(xs[0], SortBy(xs[1..], key), key, k, p);
    }
  }

  /**
   * The first `n` of a stably sorted list, restricted to one key, are the first elements of
   * that key in input order.
   */
  lemma TakeSortedStable<T(!new)>(xs: seq<T>, n: int, key: T -> int, k: int, p: T -> bool)
    requires forall y :: p(y) == (key(y) == k)
    ensures Filter(Take(SortBy(xs, key), n), p) <= Filter(xs, p)
  {
    var sorted := SortBy(xs, key);
    var r := Take(sorted, n);
    assert sorted == r + sorted[|r|..];
    FilterAppend(r, sorted[|r|..], p);
    SortByStable(xs, key, k, p);
  }

  /** The length `xs.slice(0, n)` keeps: `n` clamped to `[0, |xs|]`, counting from the end when negative. */
  function SliceEnd(n: int, len: nat): (r: nat)
    ensures r <= len
    ensures 0 <= n ==> r == if n < len then n else len
  {
    if n >= 0 then (if n < len then n else len)
    else if len + n > 0 then len + n else 0
  }

  /** `xs.slice(0, n)`. */
  function Take<T>(xs: seq<T>, n: int): (r: seq<T>)
    ensures |r| == SliceEnd(n, |xs|)
    ensures r == xs[..|r|]
  {
    xs[..SliceEnd(n, |xs|)]
  }

  /** A prefix of a sorted list holds the smallest keys: nothing left out has a smaller key. */
  lemma TakeSorted<T>(xs: seq<T>, n: int, key: T -> int)
    requires SortedBy(xs, key)
    ensures SortedBy(Take(xs, n), key)
    ensures multiset(Take(xs, n)) <= multiset(xs)
    ensures forall x, y :: x in Take(xs, n) && y in multiset(xs) - multiset(Take(xs, n)) ==> key(x) <= key(y)
  {
    var r := Take(xs, n);
    var rest := xs[|r|..];
    assert xs == r + rest;
    assert multiset(xs) == multiset(r) + multiset(rest);
    forall x, y | x in r && y in multiset(xs) - multiset(r) ensures key(x) <= key(y) {
      assert y in multiset(rest);
      var i :| 0 <= i < |r| && r[i] == x;
      var j :| 0 <= j < |rest| && rest[j] == y;
      assert xs[i] == x && xs[|r| + j] == y;
    }
  }

  /** The first `k` of the sorted list: at most `k` of the smallest keys, in order, all of them when fewer remain. */
  lemma TakeSmallest<T>(xs: seq<T>, k: nat, key: T -> int)
    ensures var r := Take(SortBy(xs, key), k);
      && |r| == (if k < |xs| then k else |xs|)
      && SortedBy(r, key)
      && multiset(r) <= multiset(xs)
      && (forall x, y :: x in r && y in multiset(xs) - multiset(r) ==> key(x) <= key(y))
      && (|xs| <= k ==> multiset(r) == multiset(xs))
  {
    var sorted := SortBy(xs, key);
    TakeSorted(sorted, k, key);
    if |xs| <= k {
      assert Take(sorted, k) == sorted;
    }
  }
}
