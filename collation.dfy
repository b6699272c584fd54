/**
 * Sorting under a collation. `localeCompare(a, b, "ja")` is not modelled
 * character by character: it is a relation `le(a, b)` ("a sorts no later
 * than b", that is `localeCompare(a, b) <= 0`) that is assumed total and,
 * where pairwise order is claimed, transitive. The sort is an insertion sort;
 * only the order it gives and that it permutes its input are stated.
 */
module Collation {

  ghost predicate Total<T(!new)>(le: (T, T) -> bool)
  {
    forall a, b :: le(a, b) || le(b, a)
  }

  ghost predicate Transitive<T(!new)>(le: (T, T) -> bool)
  {
    forall a, b, c :: le(a, b) && le(b, c) ==> le(a, c)
  }

  /** Adjacent elements are in non-decreasing order. */
  predicate AdjacentSorted<T>(le: (T, T) -> bool, s: seq<T>)
  {
    forall i :: 0 <= i < |s| - 1 ==> le(s[i], s[i + 1])
  }

  /** Every earlier element sorts no later than every later one. */
  ghost predicate Sorted<T>(le: (T, T) -> bool, s: seq<T>)
  {
    forall i, j :: 0 <= i < j < |s| ==> le(s[i], s[j])
  }

  /** Puts `x` in front of the first element it sorts no later than. */
  function Insert<T(!new)>(le: (T, T) -> bool, x: T, s: seq<T>): (r: seq<T>)
    requires Total(le)
    requires AdjacentSorted(le, s)
    ensures AdjacentSorted(le, r)
    ensures multiset(r) == multiset(s) + multiset{x}
    ensures r != [] && (r[0] == x || (s != [] && r[0] == s[0]))
  {
    if s == [] || le(x, s[0]) then [x] + s
    else
      var rest := Insert(le, x, s[1..]);
      assert s == [s[0]] + s[1..];
      [s[0]] + rest
  }

  /** The sort: a permutation of its input, in non-decreasing order. */
  function Sort<T(!new)>(le: (T, T) -> bool, s: seq<T>): (r: seq<T>)
    requires Total(le)
    ensures AdjacentSorted(le, r)
    ensures multiset(r) == multiset(s)
    ensures |r| == |s|
  {
    if s == [] then []
    else
      assert s == [s[0]] + s[1..];
      Insert(le, s[0], Sort(le, s[1..]))
  }

  /** With a transitive collation, adjacent order gives order between every pair. */
  lemma {:induction false} AdjacentSortedIsSorted<T(!new)>(le: (T, T) -> bool, s: seq<T>)
    requires Transitive(le)
    requires AdjacentSorted(le, s)
    ensures Sorted(le, s)
  {
    if |s| > 1 {
      AdjacentSortedIsSorted(le, s[1..]);
      forall j | 1 < j < |s|
        ensures le(s[0], s[j])
      {
        assert le(s[1], s[j]);
      }
    }
  }

  /** The sort neither adds nor drops elements. */
  lemma SortMembers<T(!new)>(le: (T, T) -> bool, s: seq<T>, x: T)
    requires Total(le)
    ensures x in Sort(le, s) <==> x in s
  {
    var r := Sort(le, s);
    assert x in r <==> x in multiset(r);
    assert x in s <==> x in multiset(s);
  }
}
