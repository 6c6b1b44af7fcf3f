/** Python's `list.sort(key=...)` for string keys, as a stable insertion sort
    on sequences. */
module Sorting {
  import opened PyText

  ghost predicate SortedBy<T>(xs: seq<T>, key: T -> string) {
    forall i, j :: 0 <= i < j < |xs| ==> LexLe(key(xs[i]), key(xs[j]))
  }

  /** Every element of `xs` has a key at least `k`. */
  ghost predicate AllAtLeast<T>(k: string, xs: seq<T>, key: T -> string) {
    forall i :: 0 <= i < |xs| ==> LexLe(k, key(xs[i]))
  }

  lemma AllAtLeastOfSameElements<T>(k: string, xs: seq<T>, ys: seq<T>, key: T -> string)
    requires AllAtLeast(k, xs, key)
    requires multiset(ys) <= multiset(xs)
    ensures AllAtLeast(k, ys, key)
  {
    forall i | 0 <= i < |ys|
      ensures LexLe(k, key(ys[i]))
    {
      assert ys[i] in multiset(xs);
      var j :| 0 <= j < |xs| && xs[j] == ys[i];
    }
  }

  /** Inserts `x` before the first element whose key is not below `x`'s. */
  function Insert<T>(x: T, xs: seq<T>, key: T -> string): (r: seq<T>)
    requires SortedBy(xs, key)
    ensures SortedBy(r, key)
    ensures multiset(r) == multiset(xs) + multiset{x}
    decreases |xs|
  {
    if |xs| == 0 then [x]
    else if LexLe(key(x), key(xs[0])) then
      InsertFront(x, xs, key);
      [x] + xs
    else
      TailSorted(xs, key);
      var rest := Insert(x, xs[1..], key);
      InsertBehind(x, xs, rest, key);
      [xs[0]] + rest
  }

  lemma TailSorted<T>(xs: seq<T>, key: T -> string)
    requires |xs| > 0 && SortedBy(xs, key)
    ensures SortedBy(xs[1..], key)
  {
    forall i, j | 0 <= i < j < |xs| - 1
      ensures LexLe(key(xs[1..][i]), key(xs[1..][j]))
    {
      assert xs[1..][i] == xs[i + 1] && xs[1..][j] == xs[j + 1];
    }
  }

  /** When `x` sorts after the head, the head stays in front of the rest
      with `x` inserted. */
  lemma InsertBehind<T>(x: T, xs: seq<T>, rest: seq<T>, key: T -> string)
    requires |xs| > 0 && SortedBy(xs, key) && !LexLe(key(x), key(xs[0]))
    requires SortedBy(rest, key) && multiset(rest) == multiset(xs[1..]) + multiset{x}
    ensures SortedBy([xs[0]] + rest, key)
    ensures multiset([xs[0]] + rest) == multiset(xs) + multiset{x}
  {
    LexLeTotal(key(x), key(xs[0]));
    assert xs == [xs[0]] + xs[1..];
    var ys := xs[1..] + [x];
    forall i | 0 <= i < |ys|
      ensures LexLe(key(xs[0]), key(ys[i]))
    {
      if i < |xs| - 1 {
        assert ys[i] == xs[i + 1];
      }
    }
    assert multiset(rest) == multiset(ys);
    AllAtLeastOfSameElements(key(xs[0]), ys, rest, key);
    var r := [xs[0]] + rest;
    forall i, j | 0 <= i < j < |r|
      ensures LexLe(key(r[i]), key(r[j]))
    {
      if i == 0 {
        assert r[j] == rest[j - 1];
      } else {
        assert r[i] == rest[i - 1] && r[j] == rest[j - 1];
      }
    }
  }

  lemma InsertFront<T>(x: T, xs: seq<T>, key: T -> string)
    requires SortedBy(xs, key)
    requires |xs| > 0 && LexLe(key(x), key(xs[0]))
    ensures SortedBy([x] + xs, key)
  {
    var r := [x] + xs;
    forall i, j | 0 <= i < j < |r|
      ensures LexLe(key(r[i]), key(r[j]))
    {
      if i == 0 && j > 1 {
        LexLeTransitive(key(x), key(xs[0]), key(xs[j - 1]));
      }
    }
  }

  /** `sorted(xs, key=key)`: a sorted permutation of `xs`. */
  function SortBy<T>(xs: seq<T>, key: T -> string): (r: seq<T>)
    ensures SortedBy(r, key)
    ensures multiset(r) == multiset(xs)
  {
    if |xs| == 0 then []
    else
      assert xs == [xs[0]] + xs[1..];
      Insert(xs[0], SortBy(xs[1..], key), key)
  }
}
