/**
 * Sorting by a key, best first, and the order facts it rests on.  The C++
 * sources sort with `std::stable_sort` over reversed iterators, which leaves
 * a range in descending order of the comparator; the analysis script sorts
 * ascending, which is the same with the comparator's arguments swapped.
 */
module Sorting {

  /** `less` is a strict weak ordering: what `std::sort` and `std::max_element` demand of a comparator. */
  ghost predicate StrictWeakOrder<K(!new)>(less: (K, K) -> bool) {
    && (forall a :: !less(a, a))
    && (forall a, b, c :: less(a, b) && less(b, c) ==> less(a, c))
    && (forall a, b, c :: !less(a, b) && !less(b, c) ==> !less(a, c))
  }

  /** No later element is strictly greater than an earlier one. */
  ghost predicate SortedDesc<T, K>(s: seq<T>, key: T -> K, less: (K, K) -> bool) {
    forall i, j :: 0 <= i < j < |s| ==> !less(key(s[i]), key(s[j]))
  }

  predicate Distinct<T(==)>(s: seq<T>) {
    forall i, j :: 0 <= i < j < |s| ==> s[i] != s[j]
  }

  /** Puts `x` in front of the first element that is not greater than it. */
  function Insert<T, K>(x: T, s: seq<T>, key: T -> K, less: (K, K) -> bool): (r: seq<T>)
    ensures |r| == |s| + 1
  {
    if s == [] then [x]
    else if less(key(x), key(s[0])) then
      assert s == [s[0]] + s[1..];
      [s[0]] + Insert(x, s[1..], key, less)
    else [x] + s
  }

  /** Insertion sort into descending order of `key` under `less`. */
  function SortDesc<T, K>(s: seq<T>, key: T -> K, less: (K, K) -> bool): (r: seq<T>)
    ensures |r| == |s|
  {
    if s == [] then []
    else Insert(s[0], SortDesc(s[1..], key, less), key, less)
  }

  lemma {:induction false} InsertPermutation<T, K>(x: T, s: seq<T>, key: T -> K, less: (K, K) -> bool)
    ensures multiset(Insert(x, s, key, less)) == multiset(s) + multiset{x}
  {
    if s != [] && less(key(x), key(s[0])) {
      assert s == [s[0]] + s[1..];
      InsertPermutation(x, s[1..], key, less);
    }
  }

  /** Sorting only reorders: the result is a permutation of the input. */
  lemma {:induction false} SortDescPermutation<T, K>(s: seq<T>, key: T -> K, less: (K, K) -> bool)
    ensures multiset(SortDesc(s, key, less)) == multiset(s)
  {
    if s != [] {
      assert s == [s[0]] + s[1..];
      SortDescPermutation(s[1..], key, less);
      InsertPermutation(s[0], SortDesc(s[1..], key, less), key, less);
    }
  }

  lemma {:induction false} InsertSorted<T, K(!new)>(x: T, s: seq<T>, key: T -> K, less: (K, K) -> bool)
    requires StrictWeakOrder(less)
    requires SortedDesc(s, key, less)
    ensures SortedDesc(Insert(x, s, key, less), key, less)
  {
    if s != [] && less(key(x), key(s[0])) {
      var rest := Insert(x, s[1..], key, less);
      InsertSorted(x, s[1..], key, less);
      HeadFirst(x, s, key, less);
      var r := [s[0]] + rest;
      assert forall j :: 0 < j < |r| ==> r[j] == rest[j - 1];
    }
  }

  /** The head of `s` may stay in front of `x` inserted into the rest of `s`. */
  lemma HeadFirst<T, K(!new)>(x: T, s: seq<T>, key: T -> K, less: (K, K) -> bool)
    requires StrictWeakOrder(less)
    requires SortedDesc(s, key, less)
    requires s != [] && less(key(x), key(s[0]))
    ensures forall j :: 0 <= j < |Insert(x, s[1..], key, less)| ==>
      !less(key(s[0]), key(Insert(x, s[1..], key, less)[j]))
  {
    var rest := Insert(x, s[1..], key, less);
    InsertPermutation(x, s[1..], key, less);
    forall j | 0 <= j < |rest|
      ensures !less(key(s[0]), key(rest[j]))
    {
      assert rest[j] in multiset(rest);
      if rest[j] != x {
        assert rest[j] in multiset(s[1..]);
        var m :| 0 <= m < |s[1..]| && s[1..][m] == rest[j];
        assert s[m + 1] == rest[j];
      }
    }
  }

  /** The result of `SortDesc` is in descending order whenever `less` is a strict weak ordering. */
  lemma {:induction false} SortDescSorted<T, K(!new)>(s: seq<T>, key: T -> K, less: (K, K) -> bool)
    requires StrictWeakOrder(less)
    ensures SortedDesc(SortDesc(s, key, less), key, less)
  {
    if s != [] {
      SortDescSorted(s[1..], key, less);
      InsertSorted(s[0], SortDesc(s[1..], key, less), key, less);
    }
  }

  lemma {:induction false} DistinctCounts<T>(s: seq<T>)
    requires Distinct(s)
    ensures forall x :: multiset(s)[x] <= 1
  {
    if s != [] {
      DistinctCounts(s[1..]);
      assert s == [s[0]] + s[1..];
      assert s[0] !in s[1..];
    }
  }

  /** A permutation of a sequence without repetitions has none either. */
  lemma PermutationDistinct<T>(s: seq<T>, t: seq<T>)
    requires Distinct(s) && multiset(s) == multiset(t)
    ensures Distinct(t)
  {
    DistinctCounts(s);
    forall i, j | 0 <= i < j < |t|
      ensures t[i] != t[j]
    {
      assert t == t[..j] + t[j..];
      assert t[i] in multiset(t[..j]);
      assert t[j] in multiset(t[j..]);
      assert multiset(t)[t[i]] == multiset(t[..j])[t[i]] + multiset(t[j..])[t[i]];
    }
  }
}
