/**
 * The abstract value of a linked binary search tree and the specification of
 * each operation of `LinkedBST` on that value.  Items are integers; an item
 * less than a node's item goes left, an item greater than or equal to it goes
 * right, so duplicates collect in right subtrees.
 */
module Trees {
  import opened Sorting

  datatype Tree = Leaf | Node(left: Tree, data: int, right: Tree)

  function Max(a: int, b: int): int { if a < b then b else a }

  function Pow2(n: nat): (p: nat)
    ensures p >= 1
  {
    if n == 0 then 1 else 2 * Pow2(n - 1)
  }

  /** The multiset of stored items. */
  function Elems(t: Tree): multiset<int> {
    match t
    case Leaf => multiset{}
    case Node(l, d, r) => Elems(l) + multiset{d} + Elems(r)
  }

  /** Number of nodes. */
  function Count(t: Tree): nat {
    match t
    case Leaf => 0
    case Node(l, _, r) => Count(l) + 1 + Count(r)
  }

  /** Number of nodes that have at least one child. */
  function Internal(t: Tree): nat {
    match t
    case Leaf => 0
    case Node(l, _, r) => Internal(l) + (if l == Leaf && r == Leaf then 0 else 1) + Internal(r)
  }

  /** Left-root-right order. */
  function InOrder(t: Tree): seq<int> {
    match t
    case Leaf => []
    case Node(l, d, r) => InOrder(l) + [d] + InOrder(r)
  }

  /** Root-left-right order. */
  function PreOrder(t: Tree): seq<int> {
    match t
    case Leaf => []
    case Node(l, d, r) => [d] + PreOrder(l) + PreOrder(r)
  }

  /** -1 for the empty tree, so a single node has height 0. */
  function Height(t: Tree): int {
    match t
    case Leaf => -1
    case Node(l, _, r) => 1 + Max(Height(l), Height(r))
  }

  /**
   * The search-tree ordering: every item of the left subtree is at most the
   * node's item and every item of the right subtree at least it.  The
   * left side is not strict: removing a node with two children lifts the
   * maximum of its left subtree, and other copies of that maximum stay there.
   */
  predicate Ordered(t: Tree) {
    match t
    case Leaf => true
    case Node(l, d, r) =>
      && Ordered(l) && Ordered(r)
      && (forall e | e in Elems(l) :: e <= d)
      && (forall e | e in Elems(r) :: d <= e)
  }

  /** The descent of `find`: stop on an equal item, go left when smaller, right otherwise. */
  predicate Search(t: Tree, x: int) {
    match t
    case Leaf => false
    case Node(l, d, r) => x == d || (if x < d then Search(l, x) else Search(r, x))
  }

  /** `add`: a new leaf at the end of the path that goes left when smaller, right otherwise. */
  function Insert(t: Tree, x: int): Tree {
    match t
    case Leaf => Node(Leaf, x, Leaf)
    case Node(l, d, r) => if x < d then Node(Insert(l, x), d, r) else Node(l, d, Insert(r, x))
  }

  /** The item reached by following right links from the root. */
  function Rightmost(t: Tree): int
    requires t.Node?
  {
    if t.right == Leaf then t.data else Rightmost(t.right)
  }

  /** The tree with its rightmost node spliced out (its left child takes its place). */
  function DropRightmost(t: Tree): Tree
    requires t.Node?
  {
    if t.right == Leaf then t.left else Node(t.left, t.data, DropRightmost(t.right))
  }

  /**
   * Removal of the root node: with two children the root takes the
   * rightmost item of its left subtree, otherwise its only child (or
   * nothing) takes its place.
   */
  function RemoveRoot(t: Tree): Tree
    requires t.Node?
  {
    if t.left != Leaf && t.right != Leaf then Node(DropRightmost(t.left), Rightmost(t.left), t.right)
    else if t.left == Leaf then t.right
    else t.left
  }

  /** `remove`: removes the first node holding `x` on the search path. */
  function Delete(t: Tree, x: int): Tree {
    match t
    case Leaf => Leaf
    case Node(l, d, r) =>
      if d == x then RemoveRoot(t)
      else if d > x then Node(Delete(l, x), d, r)
      else Node(l, d, Delete(r, x))
  }

  /** `replace`: overwrites the first node holding `x` on the search path with `y`. */
  function ReplaceAt(t: Tree, x: int, y: int): Tree {
    match t
    case Leaf => Leaf
    case Node(l, d, r) =>
      if d == x then Node(l, y, r)
      else if d > x then Node(ReplaceAt(l, x, y), d, r)
      else Node(l, d, ReplaceAt(r, x, y))
  }

  /** Same links, possibly different items. */
  predicate SameShape(a: Tree, b: Tree) {
    match a
    case Leaf => b == Leaf
    case Node(l, _, r) => b.Node? && SameShape(l, b.left) && SameShape(r, b.right)
  }

  // ---------------------------------------------------------------------------
  // Traversals

  /** The in-order list holds every stored item exactly once. */
  lemma {:induction false} InOrderElems(t: Tree)
    ensures multiset(InOrder(t)) == Elems(t)
    ensures |InOrder(t)| == Count(t)
  {
    match t
    case Leaf =>
    case Node(l, d, r) =>
      InOrderElems(l);
      InOrderElems(r);
  }

  /** The pre-order list holds every stored item exactly once. */
  lemma {:induction false} PreOrderElems(t: Tree)
    ensures multiset(PreOrder(t)) == Elems(t)
    ensures |PreOrder(t)| == Count(t)
  {
    match t
    case Leaf =>
    case Node(l, d, r) =>
      PreOrderElems(l);
      PreOrderElems(r);
  }

  /** A list split around one item is sorted exactly when both sides are and the item lies between them. */
  lemma {:induction false} SortedAround(a: seq<int>, d: int, b: seq<int>)
    ensures Sorted(a + [d] + b) <==>
      && Sorted(a) && Sorted(b)
      && (forall e | e in a :: e <= d)
      && (forall e | e in b :: d <= e)
  {
    if Sorted(a + [d] + b) {
      SortedSplit(a, d, b);
    }
    if && Sorted(a) && Sorted(b)
       && (forall e | e in a :: e <= d)
       && (forall e | e in b :: d <= e)
    {
      SortedJoin(a, d, b);
    }
  }

  lemma {:induction false} SortedSplit(a: seq<int>, d: int, b: seq<int>)
    requires Sorted(a + [d] + b)
    ensures Sorted(a) && Sorted(b)
    ensures forall e | e in a :: e <= d
    ensures forall e | e in b :: d <= e
  {
    var s := a + [d] + b;
    assert forall i | 0 <= i < |a| :: s[i] == a[i];
    assert forall i | 0 <= i < |b| :: s[|a| + 1 + i] == b[i];
    assert s[|a|] == d;
    forall e | e in b ensures d <= e {
      var k :| 0 <= k < |b| && b[k] == e;
      assert s[|a| + 1 + k] == e;
    }
  }

  lemma {:induction false} SortedJoin(a: seq<int>, d: int, b: seq<int>)
    requires Sorted(a) && Sorted(b)
    requires forall e | e in a :: e <= d
    requires forall e | e in b :: d <= e
    ensures Sorted(a + [d] + b)
  {
    var s := a + [d] + b;
    forall i, j | 0 <= i < j < |s| ensures s[i] <= s[j] {
      if j < |a| {
        assert s[i] == a[i] && s[j] == a[j];
      } else if i < |a| {
        assert s[i] == a[i] && s[i] in a;
        if j > |a| { assert s[j] == b[j - |a| - 1]; assert s[j] in b; }
      } else if i == |a| {
        assert s[j] == b[j - |a| - 1]; assert s[j] in b;
      } else {
        assert s[i] == b[i - |a| - 1] && s[j] == b[j - |a| - 1];
      }
    }
  }

  /** A tree is ordered exactly when its in-order list is non-decreasing. */
  lemma {:induction false} OrderedIffSorted(t: Tree)
    ensures Ordered(t) <==> Sorted(InOrder(t))
  {
    match t
    case Leaf =>
    case Node(l, d, r) =>
      OrderedIffSorted(l);
      OrderedIffSorted(r);
      InOrderElems(l);
      InOrderElems(r);
      SortedAround(InOrder(l), d, InOrder(r));
      assert forall e :: e in Elems(l) <==> e in InOrder(l);
      assert forall e :: e in Elems(r) <==> e in InOrder(r);
  }

  // ---------------------------------------------------------------------------
  // Search

  /**
   * A successful search finds a stored item; in an ordered tree every stored
   * item is found.
   */
  lemma {:induction false} SearchCorrect(t: Tree, x: int)
    ensures Search(t, x) ==> x in Elems(t)
    ensures Ordered(t) ==> (Search(t, x) <==> x in Elems(t))
  {
    if Search(t, x) {
      SearchSound(t, x);
    }
    if Ordered(t) && x in Elems(t) {
      SearchComplete(t, x);
    }
  }

  lemma {:induction false} SearchSound(t: Tree, x: int)
    requires Search(t, x)
    ensures x in Elems(t)
  {
    if x != t.data {
      if x < t.data {
        SearchSound(t.left, x);
      } else {
        SearchSound(t.right, x);
      }
    }
  }

  lemma {:induction false} SearchComplete(t: Tree, x: int)
    requires Ordered(t) && x in Elems(t)
    ensures Search(t, x)
  {
    var l, d, r := t.left, t.data, t.right;
    if x < d {
      assert x !in Elems(r);
      SearchComplete(l, x);
    } else if x > d {
      assert x !in Elems(l);
      SearchComplete(r, x);
    }
  }

  // ---------------------------------------------------------------------------
  // Insertion

  /** Insertion adds one node, holding `x`. */
  lemma {:induction false} InsertElems(t: Tree, x: int)
    ensures Elems(Insert(t, x)) == Elems(t) + multiset{x}
    ensures Count(Insert(t, x)) == Count(t) + 1
  {
    match t
    case Leaf =>
    case Node(l, d, r) =>
      if x < d {
        InsertElems(l, x);
        assert Insert(t, x) == Node(Insert(l, x), d, r);
      } else {
        InsertElems(r, x);
        assert Insert(t, x) == Node(l, d, Insert(r, x));
      }
      AddInside(Elems(l), d, Elems(r), x);
  }

  lemma AddInside(a: multiset<int>, d: int, c: multiset<int>, x: int)
    ensures (a + multiset{x}) + multiset{d} + c == a + multiset{d} + c + multiset{x}
    ensures a + multiset{d} + (c + multiset{x}) == a + multiset{d} + c + multiset{x}
  {
  }

  /** Insertion keeps the ordering. */
  lemma {:induction false} InsertOrdered(t: Tree, x: int)
    requires Ordered(t)
    ensures Ordered(Insert(t, x))
  {
    match t
    case Leaf =>
    case Node(l, d, r) =>
      if x < d {
        var l' := Insert(l, x);
        InsertOrdered(l, x);
        InsertElems(l, x);
        forall e | e in Elems(l') ensures e <= d {
          if e != x {
            assert e in Elems(l);
          }
        }
        assert Insert(t, x) == Node(l', d, r);
      } else {
        var r' := Insert(r, x);
        InsertOrdered(r, x);
        InsertElems(r, x);
        forall e | e in Elems(r') ensures d <= e {
          if e != x {
            assert e in Elems(r);
          }
        }
        assert Insert(t, x) == Node(l, d, r');
      }
  }

  /** The inserted item is found afterwards, whatever the tree held before. */
  lemma {:induction false} InsertFindable(t: Tree, x: int)
    ensures Search(Insert(t, x), x)
  {
    match t
    case Leaf =>
    case Node(l, d, r) =>
      if x < d {
        InsertFindable(l, x);
      } else if x != d {
        InsertFindable(r, x);
      }
  }

  // ---------------------------------------------------------------------------
  // Removal

  /** The rightmost item closes the in-order list. */
  lemma {:induction false} RightmostLast(t: Tree)
    requires t.Node?
    ensures InOrder(t) == InOrder(DropRightmost(t)) + [Rightmost(t)]
    ensures Elems(t) == Elems(DropRightmost(t)) + multiset{Rightmost(t)}
    ensures Count(DropRightmost(t)) == Count(t) - 1
  {
    if t.right != Leaf {
      RightmostLast(t.right);
    }
  }

  /** In an ordered tree the rightmost item is the maximum, and splicing it out keeps the ordering. */
  lemma {:induction false} RightmostMax(t: Tree)
    requires t.Node? && Ordered(t)
    ensures Ordered(DropRightmost(t))
    ensures forall e | e in Elems(t) :: e <= Rightmost(t)
  {
    var l, d, r := t.left, t.data, t.right;
    assert Elems(t) == Elems(l) + multiset{d} + Elems(r);
    if r == Leaf {
      assert DropRightmost(t) == l && Rightmost(t) == d;
      forall e | e in Elems(t) ensures e <= d {
        if e in Elems(l) {
        }
      }
    } else {
      var r', m := DropRightmost(r), Rightmost(r);
      RightmostMax(r);
      RightmostLast(r);
      assert Rightmost(t) == m && m in Elems(r) && d <= m;
      assert DropRightmost(t) == Node(l, d, r');
      forall e | e in Elems(r') ensures d <= e {
        assert e in Elems(r);
      }
      forall e | e in Elems(t) ensures e <= m {
        if e in Elems(l) {
          assert e <= d;
        }
      }
    }
  }

  /** Removing the root drops exactly its item from the in-order list. */
  lemma {:induction false} RemoveRootElems(t: Tree)
    requires t.Node?
    ensures InOrder(RemoveRoot(t)) == InOrder(t.left) + InOrder(t.right)
    ensures Elems(RemoveRoot(t)) == Elems(t) - multiset{t.data}
    ensures Count(RemoveRoot(t)) == Count(t) - 1
  {
    var l, d, r := t.left, t.data, t.right;
    if l != Leaf && r != Leaf {
      LiftRootElems(t);
    } else if l == Leaf {
      assert RemoveRoot(t) == r && InOrder(l) == [] && Elems(l) == multiset{};
    } else {
      assert RemoveRoot(t) == l && InOrder(r) == [] && Elems(r) == multiset{};
    }
    assert Elems(t) == Elems(l) + multiset{d} + Elems(r);
    DropInside(Elems(l), d, Elems(r));
  }

  /** With two children, the root's place goes to the rightmost item of the left subtree. */
  lemma {:induction false} LiftRootElems(t: Tree)
    requires t.Node? && t.left != Leaf && t.right != Leaf
    ensures InOrder(RemoveRoot(t)) == InOrder(t.left) + InOrder(t.right)
    ensures Elems(RemoveRoot(t)) == Elems(t.left) + Elems(t.right)
    ensures Count(RemoveRoot(t)) == Count(t.left) + Count(t.right)
  {
    var l, r := t.left, t.right;
    RightmostLast(l);
    var l', m := DropRightmost(l), Rightmost(l);
    assert RemoveRoot(t) == Node(l', m, r);
    assert InOrder(RemoveRoot(t)) == (InOrder(l') + [m]) + InOrder(r);
    assert Elems(RemoveRoot(t)) == (Elems(l') + multiset{m}) + Elems(r);
  }

  /** Removing the root keeps the ordering. */
  lemma {:induction false} RemoveRootOrdered(t: Tree)
    requires t.Node? && Ordered(t)
    ensures Ordered(RemoveRoot(t))
  {
    var l, d, r := t.left, t.data, t.right;
    if l != Leaf && r != Leaf {
      RightmostLast(l);
      RightmostMax(l);
      var m := Rightmost(l);
      assert m in Elems(l);
      assert m <= d;
      assert RemoveRoot(t) == Node(DropRightmost(l), m, r);
      assert forall e | e in Elems(DropRightmost(l)) :: e in Elems(l);
    }
  }

  /** Taking one `x` out of a node's subtree takes it out of the node's items. */
  lemma DropInside(a: multiset<int>, d: int, c: multiset<int>)
    ensures a + multiset{d} + c - multiset{d} == a + c
  {
  }

  lemma MinusInside(a: multiset<int>, d: int, c: multiset<int>, x: int)
    ensures x in a ==> (a - multiset{x}) + multiset{d} + c == a + multiset{d} + c - multiset{x}
    ensures x in c ==> a + multiset{d} + (c - multiset{x}) == a + multiset{d} + c - multiset{x}
  {
  }

  /** Removing an item the search finds takes away one node and one occurrence of it. */
  lemma {:induction false} DeleteElems(t: Tree, x: int)
    requires Search(t, x)
    ensures Elems(Delete(t, x)) == Elems(t) - multiset{x}
    ensures Count(Delete(t, x)) == Count(t) - 1
  {
    match t
    case Node(l, d, r) =>
      if d == x {
        RemoveRootElems(t);
      } else if d > x {
        DeleteElems(l, x);
        SearchSound(l, x);
        MinusInside(Elems(l), d, Elems(r), x);
      } else {
        DeleteElems(r, x);
        SearchSound(r, x);
        MinusInside(Elems(l), d, Elems(r), x);
      }
  }

  /** Removal keeps the ordering, duplicates included. */
  lemma {:induction false} DeleteOrdered(t: Tree, x: int)
    requires Ordered(t)
    ensures Ordered(Delete(t, x))
  {
    match t
    case Leaf =>
    case Node(l, d, r) =>
      if d == x {
        RemoveRootOrdered(t);
      } else if d > x {
        DeleteOrdered(l, x);
        DeleteShrinks(l, x);
      } else {
        DeleteOrdered(r, x);
        DeleteShrinks(r, x);
      }
  }

  /** Removal never brings in an item. */
  lemma {:induction false} DeleteShrinks(t: Tree, x: int)
    ensures Elems(Delete(t, x)) <= Elems(t)
  {
    if Search(t, x) {
      DeleteElems(t, x);
    } else {
      DeleteAbsent(t, x);
    }
  }

  /** Removing an item the search does not find changes nothing. */
  lemma {:induction false} DeleteAbsent(t: Tree, x: int)
    requires !Search(t, x)
    ensures Delete(t, x) == t
  {
    match t
    case Leaf =>
    case Node(l, d, r) =>
      if d > x {
        DeleteAbsent(l, x);
      } else {
        DeleteAbsent(r, x);
      }
  }

  // ---------------------------------------------------------------------------
  // Replacement

  lemma {:induction false} SameShapeReflexive(t: Tree)
    ensures SameShape(t, t)
  {
    if t.Node? {
      SameShapeReflexive(t.left);
      SameShapeReflexive(t.right);
    }
  }

  /** Replacement keeps the links, the node count and the height. */
  lemma {:induction false} ReplaceShape(t: Tree, x: int, y: int)
    ensures SameShape(t, ReplaceAt(t, x, y))
    ensures Count(ReplaceAt(t, x, y)) == Count(t)
    ensures Height(ReplaceAt(t, x, y)) == Height(t)
  {
    match t
    case Leaf =>
    case Node(l, d, r) =>
      if d == x {
        SameShapeReflexive(l);
        SameShapeReflexive(r);
      } else if d > x {
        SameShapeReflexive(r);
        ReplaceShape(l, x, y);
      } else {
        SameShapeReflexive(l);
        ReplaceShape(r, x, y);
      }
  }

  /**
   * Replacement swaps one occurrence of `x` for `y` when the search finds
   * `x`, and changes nothing otherwise.
   */
  lemma {:induction false} ReplaceElems(t: Tree, x: int, y: int)
    ensures Search(t, x) ==> Elems(ReplaceAt(t, x, y)) == Elems(t) - multiset{x} + multiset{y}
    ensures !Search(t, x) ==> ReplaceAt(t, x, y) == t
  {
    match t
    case Leaf =>
    case Node(l, d, r) =>
      if d == x {
        assert ReplaceAt(t, x, y) == Node(l, y, r);
        SwapInside(Elems(l), d, Elems(r), x, y);
      } else if d > x {
        ReplaceElems(l, x, y);
        assert ReplaceAt(t, x, y) == Node(ReplaceAt(l, x, y), d, r);
        if Search(t, x) {
          assert Search(l, x);
          SearchSound(l, x);
          SwapInside(Elems(l), d, Elems(r), x, y);
        }
      } else {
        ReplaceElems(r, x, y);
        assert ReplaceAt(t, x, y) == Node(l, d, ReplaceAt(r, x, y));
        if Search(t, x) {
          assert Search(r, x);
          SearchSound(r, x);
          SwapInside(Elems(l), d, Elems(r), x, y);
        }
      }
  }

  lemma SwapInside(a: multiset<int>, d: int, c: multiset<int>, x: int, y: int)
    ensures a + multiset{y} + c == a + multiset{x} + c - multiset{x} + multiset{y}
    ensures x in a ==> (a - multiset{x} + multiset{y}) + multiset{d} + c == a + multiset{d} + c - multiset{x} + multiset{y}
    ensures x in c ==> a + multiset{d} + (c - multiset{x} + multiset{y}) == a + multiset{d} + c - multiset{x} + multiset{y}
  {
  }

  // ---------------------------------------------------------------------------
  // Height

  lemma {:induction false} Pow2Monotone(a: nat, b: nat)
    requires a <= b
    ensures Pow2(a) <= Pow2(b)
  {
    if a < b {
      Pow2Monotone(a, b - 1);
    }
  }

  /**
   * Height is -1 exactly for the empty tree and 0 exactly for a single node,
   * and a tree of height h has fewer than 2^(h+1) nodes.
   */
  lemma {:induction false} HeightCorrect(t: Tree)
    ensures Height(t) >= -1
    ensures Height(t) == -1 <==> t == Leaf
    ensures Height(t) == 0 <==> t.Node? && t.left == Leaf && t.right == Leaf
    ensures Count(t) < Pow2(Height(t) + 1)
  {
    HeightShape(t);
    CountBelowPow2(t);
  }

  lemma {:induction false} HeightShape(t: Tree)
    ensures Height(t) >= -1
    ensures Height(t) == -1 <==> t == Leaf
    ensures Height(t) == 0 <==> t.Node? && t.left == Leaf && t.right == Leaf
  {
    match t
    case Leaf =>
    case Node(l, d, r) =>
      HeightShape(l);
      HeightShape(r);
  }

  lemma {:induction false} CountBelowPow2(t: Tree)
    ensures Height(t) >= -1 && Count(t) < Pow2(Height(t) + 1)
  {
    HeightShape(t);
    match t
    case Leaf =>
    case Node(l, d, r) =>
      CountBelowPow2(l);
      CountBelowPow2(r);
      var h := Height(t);
      Pow2Monotone(Height(l) + 1, h);
      Pow2Monotone(Height(r) + 1, h);
      assert Pow2(h + 1) == 2 * Pow2(h);
  }

}
