/// Python's `sorted` on a list of integer keys, as an insertion sort: the
/// keys in ascending order, the same keys as often as before.
module Sorting {
  /** Strictly increasing: sorted and without repetition. */
  predicate Increasing(s: seq<int>)
  {
    forall i, j :: 0 <= i < j < |s| ==> s[i] < s[j]
  }

  /** Sorted, repetitions allowed. */
  predicate Ascending(s: seq<int>)
  {
    forall i, j :: 0 <= i < j < |s| ==> s[i] <= s[j]
  }

  /** No key occurs twice. */
  predicate NoRepeats(s: seq<int>)
  {
    forall k | k in s :: multiset(s)[k] <= 1
  }

  /** `k` put into its place in the sorted `s`. */
  function InsertSorted(k: int, s: seq<int>): (r: seq<int>)
    requires Ascending(s)
    ensures Ascending(r) && multiset(r) == multiset(s) + multiset{k}
    ensures r != [] && (r[0] == k || (s != [] && r[0] == s[0]))
  {
    if s == [] || k <= s[0] then [k] + s
    else
      assert s == [s[0]] + s[1..];
      [s[0]] + InsertSorted(k, s[1..])
  }

  /** `sorted`: the keys in ascending order. */
  function Sorted(s: seq<int>): (r: seq<int>)
    ensures Ascending(r) && multiset(r) == multiset(s)
  {
    if s == [] then []
    else
      assert s == [s[0]] + s[1..];
      InsertSorted(s[0], Sorted(s[1..]))
  }

  /** Sorting keys none of which occurs twice gives them strictly increasing. */
  lemma SortedIncreasing(s: seq<int>)
    requires NoRepeats(s)
    ensures Increasing(Sorted(s))
  {
    var r := Sorted(s);
    forall i, j | 0 <= i < j < |r|
      ensures r[i] < r[j]
    {
      if r[i] == r[j] {
        assert r[i] in multiset(r) && r[i] in s;
        Twice(r, i, j);
      }
    }
  }

  /** A key at two positions occurs at least twice. */
  lemma Twice(r: seq<int>, i: nat, j: nat)
    requires i < j < |r| && r[i] == r[j]
    ensures multiset(r)[r[i]] >= 2
  {
    assert r == r[..j] + r[j..];
    assert r[i] in r[..j] && r[j] in r[j..];
    assert multiset(r) == multiset(r[..j]) + multiset(r[j..]);
  }

  /** Sorting keeps the set of keys. */
  lemma SortedKeys(s: seq<int>)
    ensures forall k :: k in Sorted(s) <==> k in s
  {
    var r := Sorted(s);
    forall k
      ensures k in r <==> k in s
    {
      assert k in r <==> k in multiset(r);
      assert k in s <==> k in multiset(s);
    }
  }
}
