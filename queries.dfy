/**
 * Range and neighbour queries, computed over the list of items: the in-order
 * list for `range_find`, the sorted in-order list for `successor` and
 * `predecessor`.  List positions are found with Python's `list.index`, which
 * gives the first occurrence.
 */
module Queries {
  import opened Sorting

  datatype Option<T> = None | Some(value: T)

  /** The exceptions the modelled operations let escape. */
  datatype Exception = KeyError | IndexError

  /** A Python call either returns a value or raises. */
  datatype Outcome<T> = Returned(value: T) | Raised(error: Exception)

  /** `list.index`: the first position of `x`. */
  function IndexOf(s: seq<int>, x: int): (i: nat)
    requires x in s
    ensures i < |s| && s[i] == x
    ensures x !in s[..i]
  {
    if s[0] == x then 0
    else
      assert s == [s[0]] + s[1..];
      1 + IndexOf(s[1..], x)
  }

  /** The items of `s` in [lo, hi), in their order. */
  function Between(s: seq<int>, lo: int, hi: int): seq<int> {
    if s == [] then []
    else (if lo <= s[0] < hi then [s[0]] else []) + Between(s[1..], lo, hi)
  }

  /**
   * `range_find` on the list `nodes`: empty unless both bounds occur, and then
   * the slice from the first `low` to the first `high`, both included (empty
   * when that `high` comes before that `low`).
   */
  function RangeFind(nodes: seq<int>, low: int, high: int): (r: seq<int>)
    ensures low !in nodes || high !in nodes ==> r == []
    ensures r != [] ==> r[0] == low && r[|r| - 1] == high
    ensures |r| <= |nodes|
  {
    if low !in nodes || high !in nodes then []
    else
      var i, j := IndexOf(nodes, low), IndexOf(nodes, high) + 1;
      if i <= j then nodes[i..j] else []
  }

  /**
   * `successor` given the tree height and the sorted list: no answer for a
   * single node, the last item when `item` is absent (an IndexError when
   * there is none), otherwise the item after the first occurrence of `item`.
   */
  function SuccessorIn(height: int, nodes: seq<int>, item: int): (r: Outcome<Option<int>>)
    ensures r.Raised? ==> r.error == IndexError && nodes == [] && height != 0
  {
    if height == 0 then Returned(None)
    else if item !in nodes then
      if nodes == [] then Raised(IndexError) else Returned(Some(nodes[|nodes| - 1]))
    else
      var i := IndexOf(nodes, item);
      if i + 1 < |nodes| then Returned(Some(nodes[i + 1])) else Returned(None)
  }

  /**
   * `predecessor` given the tree height and the sorted list: no answer for a
   * single node, for an absent item, or for an item at the front; otherwise
   * the item before the first occurrence of `item`.
   */
  function PredecessorIn(height: int, nodes: seq<int>, item: int): (r: Option<int>)
    ensures r.Some? ==> item in nodes && r.value in nodes
  {
    if height == 0 || item !in nodes then None
    else
      var i := IndexOf(nodes, item);
      if i - 1 == -1 then None else Some(nodes[i - 1])
  }

  // ---------------------------------------------------------------------------

  lemma {:induction false} BetweenAppend(a: seq<int>, b: seq<int>, lo: int, hi: int)
    ensures Between(a + b, lo, hi) == Between(a, lo, hi) + Between(b, lo, hi)
  {
    if a == [] {
      assert a + b == b;
    } else {
      var h := if lo <= a[0] < hi then [a[0]] else [];
      calc {
        Between(a + b, lo, hi);
      == { assert (a + b)[0] == a[0] && (a + b)[1..] == a[1..] + b; }
        h + Between(a[1..] + b, lo, hi);
      == { BetweenAppend(a[1..], b, lo, hi); }
        h + (Between(a[1..], lo, hi) + Between(b, lo, hi));
      ==
        (h + Between(a[1..], lo, hi)) + Between(b, lo, hi);
      }
    }
  }

  lemma {:induction false} BetweenNone(s: seq<int>, lo: int, hi: int)
    requires forall k | 0 <= k < |s| :: !(lo <= s[k] < hi)
    ensures Between(s, lo, hi) == []
  {
    if s != [] {
      BetweenNone(s[1..], lo, hi);
    }
  }

  lemma {:induction false} BetweenAll(s: seq<int>, lo: int, hi: int)
    requires forall k | 0 <= k < |s| :: lo <= s[k] < hi
    ensures Between(s, lo, hi) == s
  {
    if s != [] {
      BetweenAll(s[1..], lo, hi);
    }
  }

  lemma {:induction false} BeforeFirst(s: seq<int>, x: int)
    requires Sorted(s) && x in s
    ensures forall k | 0 <= k < IndexOf(s, x) :: s[k] < x
  {
    var i := IndexOf(s, x);
    forall k | 0 <= k < i ensures s[k] < x {
      assert s[k] in s[..i];
    }
  }

  lemma {:induction false} BetweenSlice(s: seq<int>, i: nat, j: nat, lo: int, hi: int)
    requires i <= j <= |s|
    requires forall k | 0 <= k < i :: !(lo <= s[k] < hi)
    requires forall k | i <= k < j :: lo <= s[k] < hi
    requires forall k | j <= k < |s| :: !(lo <= s[k] < hi)
    ensures Between(s, lo, hi) == s[i..j]
  {
    var a, m, c := s[..i], s[i..j], s[j..];
    assert s == a + m + c;
    BetweenAppend(a + m, c, lo, hi);
    BetweenAppend(a, m, lo, hi);
    BetweenNone(a, lo, hi);
    BetweenAll(m, lo, hi);
    BetweenNone(c, lo, hi);
  }

  lemma {:induction false} BoundsInOrder(nodes: seq<int>, low: int, high: int)
    requires Sorted(nodes) && low in nodes && high in nodes && low <= high
    ensures IndexOf(nodes, low) <= IndexOf(nodes, high)
    ensures forall k | 0 <= k < IndexOf(nodes, low) :: nodes[k] < low
    ensures forall k | IndexOf(nodes, low) <= k < IndexOf(nodes, high) :: low <= nodes[k] < high
    ensures forall k | IndexOf(nodes, high) <= k < |nodes| :: high <= nodes[k]
  {
    var i, j := IndexOf(nodes, low), IndexOf(nodes, high);
    BeforeFirst(nodes, low);
    BeforeFirst(nodes, high);
  }

  /**
   * On a sorted list holding both bounds with low <= high, `range_find`
   * returns every item in [low, high) followed by `high` itself.
   */
  lemma {:induction false} RangeFindSorted(nodes: seq<int>, low: int, high: int)
    requires Sorted(nodes) && low in nodes && high in nodes && low <= high
    ensures RangeFind(nodes, low, high) == Between(nodes, low, high) + [high]
  {
    var i, j := IndexOf(nodes, low), IndexOf(nodes, high);
    BoundsInOrder(nodes, low, high);
    BetweenSlice(nodes, i, j, low, high);
    SliceSnoc(nodes, i, j);
  }

  lemma SliceSnoc(s: seq<int>, i: nat, j: nat)
    requires i <= j < |s|
    ensures s[i..j + 1] == s[i..j] + [s[j]]
  {
  }

  /** On a sorted list, bounds given the wrong way round select nothing. */
  lemma {:induction false} RangeFindCrossed(nodes: seq<int>, low: int, high: int)
    requires Sorted(nodes) && high < low
    ensures RangeFind(nodes, low, high) == []
  {
    if low in nodes && high in nodes {
      assert IndexOf(nodes, high) < IndexOf(nodes, low);
    }
  }

  /** On a sorted list, everything `range_find` returns lies between the bounds. */
  lemma {:induction false} RangeFindWithin(nodes: seq<int>, low: int, high: int)
    requires Sorted(nodes)
    ensures forall e | e in RangeFind(nodes, low, high) :: low <= e <= high
  {
    if low in nodes && high in nodes {
      var i, j := IndexOf(nodes, low), IndexOf(nodes, high);
      BeforeFirst(nodes, high);
      forall e | e in RangeFind(nodes, low, high) ensures low <= e <= high {
        var r := RangeFind(nodes, low, high);
        var k :| 0 <= k < |r| && r[k] == e;
        assert e == nodes[i + k];
      }
    }
  }

  /**
   * On a sorted list holding `item`, with more than one node in the tree:
   * the successor is at least `item` and at most every larger item, and there
   * is one whenever some item is larger (`SuccessorCount` says when it is
   * strictly larger).
   */
  lemma {:induction false} SuccessorSorted(height: int, nodes: seq<int>, item: int)
    requires Sorted(nodes) && height != 0 && item in nodes
    ensures SuccessorIn(height, nodes, item).Returned?
    ensures SuccessorIn(height, nodes, item).value.None? ==> forall e | e in nodes :: e <= item
    ensures SuccessorIn(height, nodes, item).value.Some? ==>
      var v := SuccessorIn(height, nodes, item).value.value;
      && v in nodes && item <= v
      && (forall e | e in nodes && item < e :: v <= e)
  {
    var i := IndexOf(nodes, item);
    if i + 1 == |nodes| {
      forall e | e in nodes ensures e <= item {
        var k :| 0 <= k < |nodes| && nodes[k] == e;
      }
    } else {
      var v := nodes[i + 1];
      forall e | e in nodes && item < e ensures v <= e {
        var k :| 0 <= k < |nodes| && nodes[k] == e;
        assert k > i;
      }
    }
  }

  /** When `item` is absent, the successor is the largest item, or an IndexError on an empty list. */
  lemma {:induction false} SuccessorAbsent(height: int, nodes: seq<int>, item: int)
    requires Sorted(nodes) && height != 0 && item !in nodes
    ensures nodes == [] ==> SuccessorIn(height, nodes, item) == Raised(IndexError)
    ensures nodes != [] ==>
      && SuccessorIn(height, nodes, item).Returned?
      && SuccessorIn(height, nodes, item).value.Some?
      && SuccessorIn(height, nodes, item).value.value in nodes
      && (forall e | e in nodes :: e <= SuccessorIn(height, nodes, item).value.value)
  {
    if nodes != [] {
      forall e | e in nodes ensures e <= nodes[|nodes| - 1] {
        var k :| 0 <= k < |nodes| && nodes[k] == e;
      }
    }
  }

  /**
   * The successor of an item present in a sorted list, by how often it
   * occurs: a second copy follows the first occurrence, so a repeated item
   * is its own successor; a single copy is followed by a strictly larger
   * entry, or by nothing when it is the maximum.
   */
  lemma {:induction false} SuccessorCount(height: int, nodes: seq<int>, item: int)
    requires Sorted(nodes) && height != 0 && item in nodes
    ensures multiset(nodes)[item] >= 2 ==> SuccessorIn(height, nodes, item) == Returned(Some(item))
    ensures multiset(nodes)[item] == 1 && SuccessorIn(height, nodes, item).value.Some? ==>
      item < SuccessorIn(height, nodes, item).value.value
  {
    var i := IndexOf(nodes, item);
    var after := nodes[i + 1..];
    CountAround(nodes, i);
    assert multiset(nodes)[item] == 1 + multiset(after)[item];
    if i + 1 < |nodes| && nodes[i + 1] != item {
      forall k | 0 <= k < |after| ensures after[k] != item {
        assert item <= nodes[i + 1] <= nodes[i + 1 + k];
      }
      assert item !in multiset(after);
    } else if i + 1 < |nodes| {
      assert after[0] == item;
    }
  }

  /** The copies of the entry at position `i` split into those before it, itself, and those after it. */
  lemma CountAround(s: seq<int>, i: nat)
    requires i < |s| && s[i] !in s[..i]
    ensures multiset(s)[s[i]] == 1 + multiset(s[i + 1..])[s[i]]
  {
    assert s == s[..i] + [s[i]] + s[i + 1..];
  }

  /**
   * On a sorted list holding `item`, with more than one node in the tree: the
   * predecessor is strictly smaller than `item` and at least every smaller
   * item, and there is none exactly when no item is smaller.  Duplicates
   * cannot make it equal to `item`, since the first occurrence is used.
   */
  lemma {:induction false} PredecessorSorted(height: int, nodes: seq<int>, item: int)
    requires Sorted(nodes) && height != 0 && item in nodes
    ensures PredecessorIn(height, nodes, item).None? <==> forall e | e in nodes :: item <= e
    ensures PredecessorIn(height, nodes, item).Some? ==>
      var v := PredecessorIn(height, nodes, item).value;
      && v < item
      && (forall e | e in nodes && e < item :: e <= v)
  {
    var i := IndexOf(nodes, item);
    if i == 0 {
      forall e | e in nodes ensures item <= e {
        var k :| 0 <= k < |nodes| && nodes[k] == e;
      }
    } else {
      var v := nodes[i - 1];
      assert v in nodes[..i];
      assert v != item;
      forall e | e in nodes && e < item ensures e <= v {
        var k :| 0 <= k < |nodes| && nodes[k] == e;
        assert k < i;
      }
    }
  }
}
