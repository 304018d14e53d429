/** std::sort on a key, as an insertion sort: the ordering and the
    permutation the sorted sequence satisfies. */
module Sorting {

  predicate SortedBy<T>(key: T -> real, s: seq<T>) {
    forall i, j :: 0 <= i < j < |s| ==> key(s[i]) <= key(s[j])
  }

  /** x placed before the first element whose key is not below its own. */
  function InsertBy<T>(key: T -> real, x: T, s: seq<T>): (r: seq<T>)
    ensures |r| == |s| + 1 && multiset(r) == multiset(s) + multiset{x}
  {
    if s == [] || key(x) <= key(s[0]) then [x] + s
    else
      assert s == [s[0]] + s[1..];
      [s[0]] + InsertBy(key, x, s[1..])
  }

  function SortBy<T>(key: T -> real, s: seq<T>): (r: seq<T>)
    ensures |r| == |s| && multiset(r) == multiset(s)
  {
    if s == [] then []
    else
      assert s == [s[0]] + s[1..];
      InsertBy(key, s[0], SortBy(key, s[1..]))
  }

  /** Inserting keeps every key at or above a bound b. */
  lemma {:induction false} InsertByAbove<T>(key: T -> real, x: T, s: seq<T>, b: real)
    requires b <= key(x) && forall i :: 0 <= i < |s| ==> b <= key(s[i])
    ensures forall i :: 0 <= i < |s| + 1 ==> b <= key(InsertBy(key, x, s)[i])
  {
    if s != [] && key(x) > key(s[0]) {
      InsertByAbove(key, x, s[1..], b);
    }
  }

  lemma {:induction false} InsertBySorted<T>(key: T -> real, x: T, s: seq<T>)
    requires SortedBy(key, s)
    ensures SortedBy(key, InsertBy(key, x, s))
  {
    if s != [] && key(x) > key(s[0]) {
      var tail := s[1..];
      InsertBySorted(key, x, tail);
      InsertByAbove(key, x, tail, key(s[0]));
    }
  }

  lemma {:induction false} SortBySorted<T>(key: T -> real, s: seq<T>)
    ensures SortedBy(key, SortBy(key, s))
  {
    if s != [] {
      SortBySorted(key, s[1..]);
      InsertBySorted(key, s[0], SortBy(key, s[1..]));
    }
  }

  /** Every element of the sorted sequence comes from the input. */
  lemma SortByFrom<T>(key: T -> real, s: seq<T>, i: nat)
    requires i < |s|
    ensures SortBy(key, s)[i] in s
  {
    assert SortBy(key, s)[i] in multiset(SortBy(key, s));
  }
}
