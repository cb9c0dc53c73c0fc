/**
 * The tree `rebalance` builds from a list: the item at index len/2 becomes
 * the root, the items before it the left subtree and the items after it the
 * right subtree, recursively.
 */
module Rebuild {
  import opened Sorting
  import opened Trees

  function Build(s: seq<int>): Tree
    decreases |s|
  {
    if |s| == 0 then Leaf
    else if |s| == 1 then Node(Leaf, s[0], Leaf)
    else
      var p := |s| / 2;
      Node(Build(s[..p]), s[p], Build(s[p + 1..]))
  }

  /**
   * How many times the builder bumps the size counter for a list of length
   * n: once per call on a sub-list of length two or more.
   */
  function Branching(n: nat): nat {
    if n < 2 then 0 else 1 + Branching(n / 2) + Branching(n - n / 2 - 1)
  }

  /** Floor of the base-2 logarithm. */
  function Log2(n: nat): nat
    requires n >= 1
  {
    if n == 1 then 0 else 1 + Log2(n / 2)
  }

  /** The built tree lists the input, in order, as its in-order list. */
  lemma {:induction false} BuildInOrder(s: seq<int>)
    ensures InOrder(Build(s)) == s
    decreases |s|
  {
    if |s| == 1 {
      assert s == [s[0]];
    } else if |s| >= 2 {
      var p := |s| / 2;
      calc {
        InOrder(Build(s));
      ==
        InOrder(Build(s[..p])) + [s[p]] + InOrder(Build(s[p + 1..]));
      == { BuildInOrder(s[..p]); BuildInOrder(s[p + 1..]); }
        s[..p] + [s[p]] + s[p + 1..];
      == { assert s == s[..p] + [s[p]] + s[p + 1..]; }
        s;
      }
    }
  }

  /** The built tree holds exactly the input's items, one node each. */
  lemma {:induction false} BuildElems(s: seq<int>)
    ensures Elems(Build(s)) == multiset(s)
    ensures Count(Build(s)) == |s|
  {
    BuildInOrder(s);
    InOrderElems(Build(s));
  }

  /** Built from a sorted list, the tree is ordered. */
  lemma {:induction false} BuildOrdered(s: seq<int>)
    requires Sorted(s)
    ensures Ordered(Build(s))
  {
    BuildInOrder(s);
    OrderedIffSorted(Build(s));
  }

  lemma {:induction false} Log2Bounds(n: nat)
    requires n >= 1
    ensures Pow2(Log2(n)) <= n < Pow2(Log2(n) + 1)
  {
    if n > 1 {
      Log2Bounds(n / 2);
    }
  }

  lemma {:induction false} Log2Monotone(a: nat, b: nat)
    requires 1 <= a <= b
    ensures Log2(a) <= Log2(b)
  {
    if a > 1 {
      Log2Monotone(a / 2, b / 2);
    }
  }

  /** A non-empty list of n items builds a tree of height floor(log2 n). */
  lemma {:induction false} BuildHeight(s: seq<int>)
    ensures |s| == 0 ==> Height(Build(s)) == -1
    ensures |s| >= 1 ==> Height(Build(s)) == Log2(|s|)
    decreases |s|
  {
    if |s| >= 2 {
      var p := |s| / 2;
      var q := |s| - p - 1;
      BuildHeight(s[..p]);
      BuildHeight(s[p + 1..]);
      assert |s[..p]| == p && |s[p + 1..]| == q;
      if q >= 1 {
        Log2Monotone(q, p);
      }
    }
  }

  /** A tree of height h holding n >= 1 items has the least possible height: 2^h <= n < 2^(h+1). */
  predicate MinimalHeight(h: int, n: nat) {
    0 <= h && Pow2(h) <= n < Pow2(h + 1)
  }

  lemma {:induction false} BuildHeightBounds(s: seq<int>)
    requires |s| >= 1
    ensures Height(Build(s)) >= 0
    ensures Pow2(Height(Build(s))) <= |s| < Pow2(Height(Build(s)) + 1)
  {
    BuildHeight(s);
    Log2Bounds(|s|);
  }

  /** No tree with as many nodes is lower than the built one. */
  lemma {:induction false} BuildMinimal(s: seq<int>, t: Tree)
    requires Count(t) == |s|
    ensures Height(Build(s)) <= Height(t)
  {
    BuildHeight(s);
    HeightCorrect(t);
    if |s| >= 1 {
      Log2Bounds(|s|);
      if Height(t) + 1 <= Log2(|s|) {
        Pow2Monotone(Height(t) + 1, Log2(|s|));
      }
    }
  }

  /**
   * The size counter ends at the number of built nodes that have a child,
   * which for a non-empty list is below the number of items.
   */
  lemma {:induction false} BranchingCountsInternal(s: seq<int>)
    ensures Branching(|s|) == Internal(Build(s))
    ensures |s| >= 1 ==> Branching(|s|) < |s|
    decreases |s|
  {
    BranchingBound(|s|);
    if |s| >= 2 {
      var p := |s| / 2;
      BranchingCountsInternal(s[..p]);
      BranchingCountsInternal(s[p + 1..]);
      InternalStep(s);
    }
  }

  /** The built tree of two or more items has an internal root above the trees of the two halves. */
  lemma {:induction false} InternalStep(s: seq<int>)
    requires |s| >= 2
    ensures var p := |s| / 2;
      && Internal(Build(s)) == Internal(Build(s[..p])) + 1 + Internal(Build(s[p + 1..]))
      && Branching(|s|) == Branching(|s[..p]|) + 1 + Branching(|s[p + 1..]|)
  {
    var p := |s| / 2;
    var a, b := s[..p], s[p + 1..];
    assert |a| == p && |b| == |s| - p - 1;
    assert Build(s) == Node(Build(a), s[p], Build(b));
    assert Build(a).Node?;
  }

  /** A list of n >= 1 items bumps the counter fewer than n times. */
  lemma {:induction false} BranchingBound(n: nat)
    ensures n >= 1 ==> Branching(n) < n
  {
    if n >= 2 {
      var p, q := n / 2, n - n / 2 - 1;
      BranchingBound(p);
      BranchingBound(q);
      assert Branching(n) == 1 + Branching(p) + Branching(q);
    }
  }
}
