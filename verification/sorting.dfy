/** `list.sort(key=...)`: a stable sort by an integer key.

    Python's sort is stable, so its result is the one insertion sort
    produces: each element goes after every earlier element whose key is
    not larger.
 */
module Sorting {

  /** `xs` is ordered by `key`. */
  predicate SortedBy<T>(xs: seq<T>, key: T -> int) {
    forall i, j :: 0 <= i < j < |xs| ==> key(xs[i]) <= key(xs[j])
  }

  /** Put `x` after the last element of `xs` whose key is at most `x`'s. */
  function Insert<T>(xs: seq<T>, x: T, key: T -> int): (r: seq<T>)
    ensures |r| == |xs| + 1
  {
    if |xs| == 0 then [x]
    else if key(xs[|xs| - 1]) <= key(x) then xs + [x]
    else Insert(xs[..|xs| - 1], x, key) + [xs[|xs| - 1]]
  }

  /** `sorted(xs, key=key)`. */
  function SortBy<T>(xs: seq<T>, key: T -> int): (r: seq<T>)
    ensures |r| == |xs|
  {
    if |xs| == 0 then []
    else Insert(SortBy(xs[..|xs| - 1], key), xs[|xs| - 1], key)
  }

  /** Inserting adds exactly the one element. */
  lemma {:induction false} InsertPermutes<T>(xs: seq<T>, x: T, key: T -> int)
    ensures multiset(Insert(xs, x, key)) == multiset(xs) + multiset{x}
  {
    if |xs| > 0 {
      var init := xs[..|xs| - 1];
      assert xs == init + [xs[|xs| - 1]];
      if key(xs[|xs| - 1]) > key(x) {
        InsertPermutes(init, x, key);
      }
    }
  }

  /** The result of the sort is a permutation of its input. */
  lemma {:induction false} SortByPermutes<T>(xs: seq<T>, key: T -> int)
    ensures multiset(SortBy(xs, key)) == multiset(xs)
  {
    if |xs| > 0 {
      var init := xs[..|xs| - 1];
      assert xs == init + [xs[|xs| - 1]];
      SortByPermutes(init, key);
      InsertPermutes(SortBy(init, key), xs[|xs| - 1], key);
    }
  }

  lemma {:induction false} InsertSorted<T>(xs: seq<T>, x: T, key: T -> int)
    requires SortedBy(xs, key)
    ensures SortedBy(Insert(xs, x, key), key)
  {
    if |xs| > 0 && key(xs[|xs| - 1]) > key(x) {
      var init, last := xs[..|xs| - 1], xs[|xs| - 1];
      InsertSorted(init, x, key);
      var r := Insert(init, x, key);
      InsertPermutes(init, x, key);
      assert forall y | y in multiset(r) :: key(y) <= key(last) by {
        forall y | y in multiset(r) ensures key(y) <= key(last) {
          assert y in multiset(init) || y == x;
          if y in multiset(init) {
            var i :| 0 <= i < |init| && init[i] == y;
          }
        }
      }
      forall i | 0 <= i < |r| ensures key(r[i]) <= key(last) {
        assert r[i] in multiset(r);
      }
    }
  }

  /** The result of the sort is sorted by the key. */
  lemma {:induction false} SortBySorted<T>(xs: seq<T>, key: T -> int)
    ensures SortedBy(SortBy(xs, key), key)
  {
    if |xs| > 0 {
      SortBySorted(xs[..|xs| - 1], key);
      InsertSorted(SortBy(xs[..|xs| - 1], key), xs[|xs| - 1], key);
    }
  }

  /** Sorting a list that is already in key order leaves it unchanged. */
  lemma {:induction false} SortByOfSorted<T>(xs: seq<T>, key: T -> int)
    requires SortedBy(xs, key)
    ensures SortBy(xs, key) == xs
  {
    if |xs| > 0 {
      var init := xs[..|xs| - 1];
      SortByOfSorted(init, key);
      assert xs == init + [xs[|xs| - 1]];
    }
  }

  /** Inserting into a sorted list puts the element after exactly the
      elements whose keys are at most its own. */
  lemma {:induction false} InsertAt<T>(xs: seq<T>, x: T, key: T -> int, p: nat)
    requires SortedBy(xs, key) && p <= |xs|
    requires forall i :: 0 <= i < p ==> key(xs[i]) <= key(x)
    requires forall i :: p <= i < |xs| ==> key(x) < key(xs[i])
    ensures Insert(xs, x, key) == xs[..p] + [x] + xs[p..]
  {
    if |xs| > 0 {
      var init, last := xs[..|xs| - 1], xs[|xs| - 1];
      if p == |xs| {
        assert xs[..p] == xs && xs[p..] == [];
      } else {
        InsertAt(init, x, key, p);
        assert init[..p] == xs[..p];
        assert init[p..] + [last] == xs[p..];
      }
    }
  }
}
