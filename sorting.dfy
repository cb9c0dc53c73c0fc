/**
 * Sorted sequences of items and the sort that `rebalance`, `successor` and
 * `predecessor` apply to the in-order list (Python's built-in `sorted`).
 */
module Sorting {

  /** Non-decreasing order. */
  predicate Sorted(s: seq<int>) {
    forall i, j :: 0 <= i < j < |s| ==> s[i] <= s[j]
  }

  /** Inserts `x` in front of the first element that is not smaller than it. */
  function InsertSorted(x: int, s: seq<int>): (r: seq<int>)
    ensures multiset(r) == multiset(s) + multiset{x}
    ensures |r| == |s| + 1
    ensures r[0] == if s != [] && s[0] < x then s[0] else x
    ensures Sorted(s) ==> Sorted(r)
  {
    if s == [] || x <= s[0] then
      SortedCons(x, s);
      [x] + s
    else
      assert s == [s[0]] + s[1..];
      var rest := InsertSorted(x, s[1..]);
      SortedCons(s[0], rest);
      SortedCons(s[0], s[1..]);
      [s[0]] + rest
  }

  /** Putting `a` in front keeps a list sorted exactly when `a` is at most its first element. */
  lemma {:induction false} SortedCons(a: int, s: seq<int>)
    ensures Sorted([a] + s) <==> Sorted(s) && (s != [] ==> a <= s[0])
  {
    var r := [a] + s;
    if Sorted(s) && (s != [] ==> a <= s[0]) {
      forall i, j | 0 <= i < j < |r| ensures r[i] <= r[j] {
        if i > 0 {
          assert r[i] == s[i - 1] && r[j] == s[j - 1];
        } else if j > 1 {
          assert r[j] == s[j - 1] && s[0] <= s[j - 1];
        }
      }
    }
    if Sorted(r) {
      if s != [] {
        assert r[0] == a && r[1] == s[0];
      }
      forall i, j | 0 <= i < j < |s| ensures s[i] <= s[j] {
        assert s[i] == r[i + 1] && s[j] == r[j + 1];
      }
    }
  }

  /** The sorted permutation of `s`. */
  function Sort(s: seq<int>): (r: seq<int>)
    ensures multiset(r) == multiset(s)
    ensures Sorted(r)
  {
    if s == [] then []
    else
      assert s == [s[0]] + s[1..];
      InsertSorted(s[0], Sort(s[1..]))
  }

  /** Sorting a sequence that is already sorted changes nothing. */
  lemma {:induction false} SortOfSorted(s: seq<int>)
    requires Sorted(s)
    ensures Sort(s) == s
  {
    if s != [] {
      SortOfSorted(s[1..]);
      assert s == [s[0]] + s[1..];
    }
  }
}
