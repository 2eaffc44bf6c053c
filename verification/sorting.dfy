/**
 The ORDER BY clauses of the handlers: a sort on an integer key, largest key
 first. The database leaves the order of equal keys open, so the contract
 promises only what every ORDER BY result satisfies: the same rows, in
 non-increasing key order. Rows read in the order of a unique key, such as an
 id, are in strictly ascending key order and so hold no row twice.
 */
module Sorting {

  /** `xs` is ordered by `key`, largest first (ORDER BY key DESC). */
  predicate NonIncreasing<T>(xs: seq<T>, key: T -> int) {
    forall i, j | 0 <= i < j < |xs| :: key(xs[i]) >= key(xs[j])
  }

  /** `xs` is in strictly ascending `key` order, as rows read in the order of a
      unique key are. */
  predicate StrictlyIncreasing<T>(xs: seq<T>, key: T -> int) {
    forall i, j | 0 <= i < j < |xs| :: key(xs[i]) < key(xs[j])
  }

  /** Rows in strictly ascending key order hold each row at most once. */
  lemma {:induction false} IncreasingHasNoRepeats<T>(xs: seq<T>, key: T -> int)
    requires StrictlyIncreasing(xs, key)
    ensures forall x :: multiset(xs)[x] <= 1
  {
    if |xs| > 0 {
      var n := |xs| - 1;
      IncreasingHasNoRepeats(xs[..n], key);
      assert xs == xs[..n] + [xs[n]];
      assert xs[n] !in xs[..n] by {
        forall i | 0 <= i < n ensures xs[..n][i] != xs[n] {
          assert key(xs[..n][i]) < key(xs[n]);
        }
      }
    }
  }

  /** Every row of `ys` is `x` or a row of `xs`. */
  lemma RowsFrom<T>(ys: seq<T>, x: T, xs: seq<T>)
    requires multiset(ys) == multiset(xs) + multiset{x}
    ensures forall k | 0 <= k < |ys| :: ys[k] == x || ys[k] in xs
  {
    forall k | 0 <= k < |ys| ensures ys[k] == x || ys[k] in xs {
      assert ys[k] in multiset(ys);
    }
  }

  function Insert<T>(x: T, xs: seq<T>, key: T -> int): (r: seq<T>)
    requires NonIncreasing(xs, key)
    ensures NonIncreasing(r, key)
    ensures multiset(r) == multiset(xs) + multiset{x}
  {
    if |xs| == 0 then [x]
    else if key(x) >= key(xs[0]) then [x] + xs
    else
      var tail := Insert(x, xs[1..], key);
      InsertBehind(x, xs, tail, key);
      [xs[0]] + tail
  }

  /** Putting the head of `xs` in front of `x` inserted into the rest of `xs`
      keeps the order and the rows. */
  lemma InsertBehind<T>(x: T, xs: seq<T>, tail: seq<T>, key: T -> int)
    requires |xs| > 0 && NonIncreasing(xs, key) && key(x) < key(xs[0])
    requires NonIncreasing(tail, key) && multiset(tail) == multiset(xs[1..]) + multiset{x}
    ensures NonIncreasing([xs[0]] + tail, key)
    ensures multiset([xs[0]] + tail) == multiset(xs) + multiset{x}
  {
    assert xs == [xs[0]] + xs[1..];
    RowsFrom(tail, x, xs[1..]);
    assert forall k | 0 <= k < |tail| :: key(tail[k]) <= key(xs[0]);
  }

  /** The rows of `xs`, each as often as in `xs`, ordered by `key` largest first. */
  function Sort<T>(xs: seq<T>, key: T -> int): (r: seq<T>)
    ensures NonIncreasing(r, key)
    ensures multiset(r) == multiset(xs)
  {
    if |xs| == 0 then []
    else
      assert xs == [xs[0]] + xs[1..];
      Insert(xs[0], Sort(xs[1..], key), key)
  }
}
