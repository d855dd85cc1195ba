/** The `sort({ field: 1 })` stage of a query: a stable insertion sort on an integer key.
    The store promises only that the result is ordered by the key and holds the same
    documents; ties keep natural order here. */
module Sorting {

  ghost predicate SortedBy<T>(s: seq<T>, key: T -> int) {
    forall i, j :: 0 <= i < j < |s| ==> key(s[i]) <= key(s[j])
  }

  /** A lower bound of a sorted sequence can go in front of it. */
  lemma PrependSorted<T>(h: T, t: seq<T>, key: T -> int)
    requires SortedBy(t, key)
    requires forall y :: y in t ==> key(h) <= key(y)
    ensures SortedBy([h] + t, key)
  {
    forall i, j | 0 <= i < j < |[h] + t|
      ensures key(([h] + t)[i]) <= key(([h] + t)[j])
    {
      if i == 0 {
        assert ([h] + t)[j] == t[j - 1];
      }
    }
  }

  /** The head of a sorted sequence bounds its tail. */
  lemma HeadIsLeast<T>(s: seq<T>, key: T -> int)
    requires SortedBy(s, key) && s != []
    ensures forall y :: y in s[1..] ==> key(s[0]) <= key(y)
  {
    forall y | y in s[1..]
      ensures key(s[0]) <= key(y)
    {
      var k :| 0 <= k < |s[1..]| && s[1..][k] == y;
      assert s[k + 1] == y;
    }
  }

  function InsertBy<T>(x: T, s: seq<T>, key: T -> int): (r: seq<T>)
    requires SortedBy(s, key)
    ensures SortedBy(r, key)
    ensures forall y :: y in r ==> y == x || y in s
    ensures multiset(r) == multiset(s) + multiset{x}
  {
    if s == [] then [x]
    else if key(x) <= key(s[0]) then
      PrependSorted(x, s, key);
      [x] + s
    else
      var rest := InsertBy(x, s[1..], key);
      HeadIsLeast(s, key);
      PrependSorted(s[0], rest, key);
      assert s == [s[0]] + s[1..];
      [s[0]] + rest
  }

  /** Ascending by key, and a permutation of the input. */
  function SortBy<T>(s: seq<T>, key: T -> int): (r: seq<T>)
    ensures SortedBy(r, key)
    ensures multiset(r) == multiset(s)
    ensures |r| == |s|
  {
    if s == [] then []
    else
      assert s == [s[0]] + s[1..];
      InsertBy(s[0], SortBy(s[1..], key), key)
  }
}
