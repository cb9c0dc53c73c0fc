/**
 * `LinkedBST`: a binary search tree of linked nodes with a size counter.
 *
 * The object holds `root` and `size`; the ghost field `shape` records the
 * linked nodes below `root`, and `Contents()` is the tree value they spell.
 * The size counter is what `isEmpty()` consults.  It equals the number of
 * nodes as long as only `add`, `add_while` (on a non-empty tree) and
 * `remove` are used, but `rebalance` sets it to fewer, so the invariant only
 * keeps it between zero and the number of nodes.
 */
module LinkedBst {
  import opened Sorting
  import opened Trees
  import opened Rebuild
  import opened Queries
  import opened Links
  import opened Neighbours

  /** Which link of `parent` leads to the node `remove` is looking at. */
  datatype Direction = L | R

  /** The recursive helper of `find`. */
  function FindFrom(node: BSTNode?, ghost s: Shape, item: int): (r: BSTNode?)
    reads Nodes(s)
    requires Matches(node, s)
    ensures r == FindNode(s, item)
    decreases s
  {
    if node == null then null
    else if item == node.data then node
    else if item < node.data then FindFrom(node.left, s.left, item)
    else FindFrom(node.right, s.right, item)
  }

  /** The recursive helper of `height`. */
  function HeightFrom(top: BSTNode?, ghost s: Shape): (h: int)
    reads Nodes(s)
    requires Matches(top, s)
    ensures h == Trees.Height(Erase(s))
    decreases s
  {
    if top == null then -1
    else 1 + Max(HeightFrom(top.left, s.left), HeightFrom(top.right, s.right))
  }

  /** The recursive helper of `inorder`: appends the items below `node` to `lyst`. */
  method InorderFrom(node: BSTNode?, ghost s: Shape, lyst: seq<int>) returns (out: seq<int>)
    requires Matches(node, s)
    ensures out == lyst + InOrder(Erase(s))
    decreases s
  {
    out := lyst;
    if node != null {
      NodesAllocated(s);
      assert Matches(node.right, s.right) && Nodes(s.right) <= Nodes(s);
      out := InorderFrom(node.left, s.left, out);
      out := out + [node.data];
      out := InorderFrom(node.right, s.right, out);
    }
  }

  /** One call of `builder` on two or more items, in terms of the calls on the two halves. */
  lemma {:induction false} BuilderStep(lst: seq<int>, ls: Shape, node: BSTNode, rs: Shape)
    requires |lst| >= 2
    requires Erase(ls) == Build(lst[..|lst| / 2]) && Erase(rs) == Build(lst[|lst| / 2 + 1..])
    ensures Erase(Link(ls, node, lst[|lst| / 2], rs)) == Build(lst)
    ensures Branching(|lst|) == 1 + Branching(|lst[..|lst| / 2]|) + Branching(|lst[|lst| / 2 + 1..]|)
  {
    var position := |lst| / 2;
    assert |lst[..position]| == position && |lst[position + 1..]| == |lst| - position - 1;
    assert Build(lst) == Node(Build(lst[..position]), lst[position], Build(lst[position + 1..]));
    assert Erase(Link(ls, node, lst[position], rs)) == Node(Erase(ls), lst[position], Erase(rs));
  }

  /** The loop of `__iter__`: pop a node, yield its item, push its right and then its left child. */
  method PreorderFrom(top: BSTNode, ghost s: Shape) returns (items: seq<int>)
    requires s.Link? && Matches(top, s)
    ensures items == PreOrder(Erase(s))
  {
    ghost var all := PreOrder(Erase(s));
    items := [];
    var stack: seq<BSTNode> := [top];
    ghost var shapes: seq<Shape> := [s];
    assert Pending(shapes) == all by {
      assert shapes[..0] == [];
    }
    while stack != []
      invariant Aligned(stack, shapes)
      invariant items + Pending(shapes) == all
      decreases |all| - |items|
    {
      ghost var n := |stack| - 1;
      IterateStep(stack, shapes, items, all);
      ghost var pushed := PushChildren(stack[..n], stack[n]);
      shapes := PushShapes(shapes[..n], shapes[n]);
      var node := stack[|stack| - 1];
      stack := stack[..|stack| - 1];
      items := items + [node.data];
      if node.right != null {
        stack := stack + [node.right];
      }
      if node.left != null {
        stack := stack + [node.left];
      }
      assert stack == pushed;
    }
    assert shapes == [];
  }

  /** The items still to be produced by the traversal, for a stack whose top is its last element. */
  ghost function Pending(stack: seq<Shape>): seq<int> {
    if stack == [] then []
    else PreOrder(Erase(stack[|stack| - 1])) + Pending(stack[..|stack| - 1])
  }

  /** Each node on the traversal stack is the root of the corresponding ghost subtree. */
  ghost predicate Aligned(stack: seq<BSTNode>, shapes: seq<Shape>)
    reads *
  {
    |stack| == |shapes| && forall i | 0 <= i < |stack| :: shapes[i].Link? && Matches(stack[i], shapes[i])
  }

  /** One step of `__iter__` on the stack: push the right child, then the left child, when present. */
  function PushChildren(stack: seq<BSTNode>, node: BSTNode): (r: seq<BSTNode>)
    reads node
    ensures stack <= r && |r| <= |stack| + 2
  {
    var withRight := if node.right != null then stack + [node.right] else stack;
    if node.left != null then withRight + [node.left] else withRight
  }

  /** The same step on the ghost shapes. */
  ghost function PushShapes(shapes: seq<Shape>, top: Shape): seq<Shape>
    requires top.Link?
  {
    var withRight := if top.right.Link? then shapes + [top.right] else shapes;
    if top.left.Link? then withRight + [top.left] else withRight
  }

  lemma PendingPush(stack: seq<Shape>, s: Shape)
    ensures Pending(stack + [s]) == PreOrder(Erase(s)) + Pending(stack)
  {
    assert (stack + [s])[..|stack|] == stack;
  }

  lemma {:induction false} PendingPushShapes(shapes: seq<Shape>, top: Shape)
    requires top.Link?
    ensures Pending(PushShapes(shapes, top)) == PreOrder(Erase(top.left)) + (PreOrder(Erase(top.right)) + Pending(shapes))
  {
    var withRight := if top.right.Link? then shapes + [top.right] else shapes;
    if top.right.Link? {
      PendingPush(shapes, top.right);
    }
    if top.left.Link? {
      PendingPush(withRight, top.left);
    }
  }

  /** Popping a subtree and pushing its children leaves its root item first and the rest pending. */
  lemma {:induction false} PendingStep(shapes: seq<Shape>)
    requires shapes != [] && shapes[|shapes| - 1].Link?
    ensures var n := |shapes| - 1;
      Pending(shapes) == [shapes[n].data] + Pending(PushShapes(shapes[..n], shapes[n]))
  {
    var n := |shapes| - 1;
    var rest, top := shapes[..n], shapes[n];
    var pl, pr := PreOrder(Erase(top.left)), PreOrder(Erase(top.right));
    assert Pending(shapes) == PreOrder(Erase(top)) + Pending(rest);
    assert PreOrder(Erase(top)) == [top.data] + pl + pr;
    PendingPushShapes(rest, top);
    Regroup4([top.data], pl, pr, Pending(rest));
  }

  lemma PushMatching(stack: seq<BSTNode>, shapes: seq<Shape>, node: BSTNode, s: Shape)
    requires Aligned(stack, shapes)
    requires s.Link? && Matches(node, s)
    ensures Aligned(stack + [node], shapes + [s])
  {
  }

  /** The stack and its ghost shapes still correspond after a step. */
  lemma {:induction false} StackStep(stack: seq<BSTNode>, shapes: seq<Shape>)
    requires Aligned(stack, shapes) && stack != []
    ensures var n := |stack| - 1;
      Aligned(PushChildren(stack[..n], stack[n]), PushShapes(shapes[..n], shapes[n]))
  {
    var n := |stack| - 1;
    var node, top := stack[n], shapes[n];
    var rest, restShapes := stack[..n], shapes[..n];
    assert Matches(node, top);
    MatchesNull(node.right, top.right);
    MatchesNull(node.left, top.left);
    forall i | 0 <= i < n
      ensures restShapes[i].Link? && Matches(rest[i], restShapes[i])
    {
      assert rest[i] == stack[i] && restShapes[i] == shapes[i];
    }
    assert Aligned(rest, restShapes);
    var withRight := if node.right != null then rest + [node.right] else rest;
    var withRightShapes := if top.right.Link? then restShapes + [top.right] else restShapes;
    if node.right != null {
      PushMatching(rest, restShapes, node.right, top.right);
    }
    if node.left != null {
      PushMatching(withRight, withRightShapes, node.left, top.left);
    }
  }

  /** One iteration of `__iter__` keeps the stack matched and the visited items a prefix of the pre-order list. */
  lemma {:induction false} IterateStep(stack: seq<BSTNode>, shapes: seq<Shape>, items: seq<int>, all: seq<int>)
    requires Aligned(stack, shapes) && stack != []
    requires items + Pending(shapes) == all
    ensures var n := |stack| - 1;
      && Aligned(PushChildren(stack[..n], stack[n]), PushShapes(shapes[..n], shapes[n]))
      && (items + [stack[n].data]) + Pending(PushShapes(shapes[..n], shapes[n])) == all
  {
    var n := |stack| - 1;
    StackStep(stack, shapes);
    PendingStep(shapes);
    assert Matches(stack[n], shapes[n]);
    Regroup(items, stack[n].data, Pending(PushShapes(shapes[..n], shapes[n])));
  }

  lemma Regroup4(a: seq<int>, b: seq<int>, c: seq<int>, d: seq<int>)
    ensures (a + b + c) + d == a + (b + (c + d))
  {
  }

  lemma Regroup(a: seq<int>, x: int, b: seq<int>)
    ensures (a + [x]) + b == a + ([x] + b)
  {
  }

  /** The recursive helper of `add`: hangs a new leaf holding `item` below `node`. */
  method AddFrom(node: BSTNode, ghost s: Shape, item: int) returns (ghost s': Shape)
    requires Matches(node, s) && Distinct(s)
    modifies Nodes(s)
    ensures Matches(node, s') && Distinct(s')
    ensures Erase(s') == Insert(Erase(s), item)
    ensures fresh(Nodes(s') - Nodes(s)) && Nodes(s) <= Nodes(s')
    decreases s
  {
    NodesAllocated(s);
    if item < node.data {
      if node.left == null {
        var leaf := new BSTNode(item);
        node.left := leaf;
        s' := Link(Link(Nil, leaf, item, Nil), node, s.data, s.right);
      } else {
        var l' := AddFrom(node.left, s.left, item);
        s' := Link(l', node, s.data, s.right);
      }
    } else if node.right == null {
      var leaf := new BSTNode(item);
      node.right := leaf;
      s' := Link(s.left, node, s.data, Link(Nil, leaf, item, Nil));
    } else {
      var r' := AddFrom(node.right, s.right, item);
      s' := Link(s.left, node, s.data, r');
    }
  }

  /**
   * The tree `lift_max_in_left_subtree_to_top` leaves: `sub`, the rightmost
   * subtree of the left subtree of `s`, gives up its root, whose item moves
   * to the root of `s`.
   */
  lemma {:induction false} LiftShape(p: Path, sub: Shape, s: Shape)
    requires AllRight(p) && s.Link? && s.left.Link? && Plug(p, sub) == s.left
    requires sub.Link? && sub.right == Nil && Distinct(s)
    ensures var s' := Link(Plug(p, sub.left), s.node, sub.data, s.right);
      && Distinct(s') && Nodes(s') <= Nodes(s)
      && Erase(s') == Node(DropRightmost(Erase(s.left)), Rightmost(Erase(s.left)), Erase(s.right))
  {
    LiftNodes(p, sub, s);
    LiftErase(p, sub, s);
  }

  lemma {:induction false} LiftNodes(p: Path, sub: Shape, s: Shape)
    requires s.Link? && Plug(p, sub) == s.left && sub.Link? && Distinct(s)
    ensures var s' := Link(Plug(p, sub.left), s.node, sub.data, s.right);
      Distinct(s') && Nodes(s') <= Nodes(s)
  {
    var l' := Plug(p, sub.left);
    PlugDistinct(p, sub);
    PlugNodes(p, sub);
    PlugNodes(p, sub.left);
    assert Nodes(l') <= Nodes(s.left);
    PlugDistinctSwap(p, sub, sub.left);
  }

  lemma {:induction false} LiftErase(p: Path, sub: Shape, s: Shape)
    requires AllRight(p) && s.Link? && s.left.Link? && Plug(p, sub) == s.left
    requires sub.Link? && sub.right == Nil
    ensures Erase(Plug(p, sub.left)) == DropRightmost(Erase(s.left))
    ensures sub.data == Rightmost(Erase(s.left))
  {
    var t := Erase(sub);
    assert sub == Link(sub.left, sub.node, sub.data, Nil);
    assert Erase(Nil) == Leaf;
    assert Erase(sub) == Node(Erase(sub.left), sub.data, Erase(sub.right));
    assert t == Node(Erase(sub.left), sub.data, Leaf);
    ErasePlug(p, sub);
    ErasePlug(p, sub.left);
    RightmostPlug(p, t);
  }

  /**
   * The helper of `remove` for a node with two children: `top` takes the
   * item of the rightmost node of its left subtree, and that node is
   * replaced by its own left child.
   */
  method LiftMaxInLeftSubtreeToTop(top: BSTNode, ghost s: Shape) returns (ghost s': Shape)
    requires Matches(top, s) && Distinct(s) && top.left != null
    modifies Nodes(s)
    ensures Matches(top, s') && Distinct(s')
    ensures Nodes(s') <= Nodes(s)
    ensures s.left.Link? && Erase(s') == Node(DropRightmost(Erase(s.left)), Rightmost(Erase(s.left)), Erase(s.right))
  {
    var parent := top;
    var current := top.left;
    ghost var path := Top;
    ghost var sub := s.left;
    while current.right != null
      invariant Matches(current, sub) && sub.Link?
      invariant PathMatches(path, current, s.left.node) && Plug(path, sub) == s.left
      invariant AllRight(path)
      invariant path.Top? ==> parent == top
      invariant path.WentRight? ==> parent == path.node
      decreases sub
    {
      parent := current;
      path := WentRight(path, sub.left, current, sub.data);
      current := current.right;
      sub := sub.right;
    }
    PlugDistinct(path, sub);
    PlugNodes(path, sub);
    MatchesNull(current.right, sub.right);
    LiftShape(path, sub, s);
    assert parent == top || parent in Nodes(s.left);
    assert top !in Nodes(s.right) && parent !in Nodes(s.right) && Matches(top.right, s.right);
    NodesAllocated(s.right);
    top.data := current.data;
    if parent == top {
      ghost var spliced := SetChild(top, true, current.left, Top, Link(s.left, top, sub.data, s.right), sub.left, top);
    } else {
      Bypass(parent, false, current, current.left, path, sub, sub.left, top.left);
    }
    s' := Link(Plug(path, sub.left), top, sub.data, s.right);
  }

  /**
   * Cases 1 to 3 of `remove`, once the search has stopped at `current`, the
   * node at the end of `path` (read from `root`) that holds the item: with
   * two children it gets the largest item of its left subtree, whose node
   * is unlinked; otherwise `parent` (`preRoot` when `current` is the root) is
   * tied, on the side `direction` names, to its only child or to nothing.
   * Read from `preRoot`, the tree below the path is then the search tree
   * without the root of `sub`.
   */
  method TakeOut(preRoot: BSTNode, parent: BSTNode, direction: Direction, current: BSTNode,
                 ghost path: Path, ghost sub: Shape, ghost root: BSTNode)
      returns (ghost newSub: Shape)
    requires Matches(current, sub) && PathMatches(path, current, root) && Distinct(Plug(path, sub))
    requires preRoot.left == root && preRoot.right == null && preRoot !in Nodes(Plug(path, sub))
    requires path.Top? ==> parent == preRoot && direction == L
    requires path.WentLeft? ==> parent == path.node && direction == L
    requires path.WentRight? ==> parent == path.node && direction == R
    modifies preRoot, Nodes(Plug(path, sub))
    ensures sub.Link? && Erase(newSub) == RemoveRoot(Erase(sub))
    ensures Distinct(Plug(path, newSub)) && Nodes(newSub) <= Nodes(sub)
    ensures Matches(preRoot.left, Plug(path, newSub))
  {
    PlugDistinct(path, sub);
    PlugNodes(path, sub);
    MatchesNull(current.left, sub.left);
    MatchesNull(current.right, sub.right);
    if current.left != null && current.right != null {
      PathNodesAllocated(path);
      newSub := LiftMaxInLeftSubtreeToTop(current, sub);
      PlugMatches(path, current, newSub, root);
    } else {
      var newChild: BSTNode?;
      if current.left == null {
        newChild := current.right;
      } else {
        newChild := current.left;
      }
      newSub := if current.left == null then sub.right else sub.left;
      ghost var up := if path.Top? then Top else path.up;
      ghost var above := match path
        case Top => Link(sub, preRoot, preRoot.data, Nil)
        case WentLeft(_, n, d, r) => Link(sub, n, d, r)
        case WentRight(_, l, n, d) => Link(l, n, d, sub);
      ghost var anchor := if path.Top? then preRoot else root;
      if path.Top? {
        assert Nodes(above) == Nodes(sub) + {preRoot};
      } else {
        PlugDistinct(up, above);
      }
      assert PathMatches(up, parent, anchor) && Matches(parent, above) && above.Link?;
      assert Matches(newChild, newSub);
      assert parent !in PathNodes(up) && parent !in Nodes(newSub);
      assert parent !in Nodes(if direction == L then above.right else above.left);
      ghost var spliced := SetChild(parent, direction == L, newChild, up, above, newSub, anchor);
    }
    PlugDistinctSwap(path, sub, newSub);
  }

  /**
   * The two link writes of `builder`: the new node `node` gets the trees it
   * was built above, made of nodes created after it, as its children.
   */
  method Attach(node: BSTNode, left: BSTNode?, ghost ls: Shape, right: BSTNode?, ghost rs: Shape)
      returns (ghost s: Shape)
    requires Matches(left, ls) && Matches(right, rs) && Distinct(ls) && Distinct(rs)
    requires node !in Nodes(ls) && node !in Nodes(rs) && Nodes(ls) !! Nodes(rs)
    modifies node
    ensures s == Link(ls, node, node.data, rs) && node.data == old(node.data)
    ensures Matches(node, s) && Distinct(s)
  {
    node.left := left;
    node.right := right;
    s := Link(ls, node, node.data, rs);
  }

  /** The tree `rebalance` builds from a non-empty tree has minimal height for its item count. */
  lemma {:induction false} RebuiltHeight(t: Tree, r: Tree)
    requires r == Build(Sort(InOrder(t)))
    ensures t != Leaf ==> MinimalHeight(Height(r), Count(t))
  {
    if t != Leaf {
      var nodes := Sort(InOrder(t));
      InOrderElems(t);
      assert |nodes| == Count(t) by {
        assert |multiset(nodes)| == |multiset(InOrder(t))|;
      }
      BuildHeightBounds(nodes);
      assert MinimalHeight(Height(Build(nodes)), |nodes|);
    }
  }

  /**
   * What `rebalance` leaves, given the list it rebuilds from: the sorted
   * in-order list of the old tree comes back as the in-order list of a
   * search tree of the same items, no taller than the old tree, whose
   * counter of branching nodes is at most its node count.
   */
  lemma {:induction false} RebalanceFacts(t: Tree, nodes: seq<int>)
    requires nodes == Sort(InOrder(t))
    ensures InOrder(Build(nodes)) == nodes
    ensures Ordered(Build(nodes)) && Elems(Build(nodes)) == Elems(t)
    ensures Branching(|nodes|) <= Count(Build(nodes)) && |nodes| == Count(t)
    ensures Height(Build(nodes)) <= Height(t)
  {
    InOrderElems(t);
    assert |nodes| == Count(t) by {
      assert |multiset(nodes)| == |multiset(InOrder(t))|;
    }
    BuildInOrder(nodes);
    BuildElems(nodes);
    BuildOrdered(nodes);
    BranchingCountsInternal(nodes);
    BuildMinimal(nodes, t);
  }

  class LinkedBST {
    var root: BSTNode?
    var size: int
    ghost var shape: Shape

    ghost predicate Valid()
      reads this, Nodes(shape)
    {
      && Matches(root, shape)
      && Distinct(shape)
      && 0 <= size <= Count(Erase(shape))
    }

    ghost function Contents(): Tree
      reads this
    {
      Erase(shape)
    }

    /** An empty tree (the constructor called without a source collection). */
    constructor ()
      ensures Valid() && Contents() == Leaf && size == 0 && Nodes(shape) == {}
    {
      root := null;
      size := 0;
      shape := Nil;
    }

    /** `isEmpty`: asks the size counter, not the root. */
    predicate IsEmpty()
      reads this
    {
      size == 0
    }

    /** `find`: the node the search for `item` stops at, if any. */
    function Find(item: int): (r: BSTNode?)
      reads this, Nodes(shape)
      requires Valid()
      ensures r == FindNode(shape, item)
      ensures r == null <==> !Search(Contents(), item)
      ensures r != null ==> r in Nodes(shape) && r.data == item
    {
      FindNodeCorrect(root, shape, item);
      FindFrom(root, shape, item)
    }

    /** `find_while`: `find` with a loop. */
    method FindWhile(item: int) returns (r: BSTNode?)
      requires Valid()
      ensures r == FindNode(shape, item)
      ensures r == null <==> !Search(Contents(), item)
      ensures r != null ==> r in Nodes(shape) && r.data == item
    {
      FindNodeCorrect(root, shape, item);
      var current := root;
      ghost var sub := shape;
      while current != null
        invariant Matches(current, sub)
        invariant FindNode(sub, item) == FindNode(shape, item)
        decreases sub
      {
        if item == current.data {
          return current;
        } else if item < current.data {
          current := current.left;
          sub := sub.left;
        } else {
          current := current.right;
          sub := sub.right;
        }
      }
      return null;
    }

    /** `__contains__`. */
    function Contains(item: int): (b: bool)
      reads this, Nodes(shape)
      requires Valid()
      ensures b <==> Search(Contents(), item)
      ensures Ordered(Contents()) ==> (b <==> item in Elems(Contents()))
    {
      SearchCorrect(Contents(), item);
      Find(item) != null
    }

    /** `inorder`: the items in left-root-right order. */
    method Inorder() returns (items: seq<int>)
      requires Valid()
      ensures items == InOrder(Contents())
      ensures multiset(items) == Elems(Contents())
      ensures Ordered(Contents()) <==> Sorted(items)
    {
      items := InorderFrom(root, shape, []);
      InOrderElems(Contents());
      OrderedIffSorted(Contents());
    }

    /**
     * `__iter__`: a preorder traversal with an explicit stack; nothing at
     * all when the size counter is zero.
     */
    method Iterate() returns (items: seq<int>)
      requires Valid()
      ensures items == if IsEmpty() then [] else PreOrder(Contents())
      ensures !IsEmpty() ==> multiset(items) == Elems(Contents())
    {
      items := [];
      if !IsEmpty() {
        items := PreorderFrom(root, shape);
        PreOrderElems(Contents());
      }
    }

    /** `clear`. */
    method Clear()
      modifies this
      ensures Valid() && Contents() == Leaf && size == 0 && root == null && Nodes(shape) == {}
    {
      root := null;
      size := 0;
      shape := Nil;
    }

    /**
     * `add`: a new leaf at the end of the insertion path; on a tree whose
     * size counter is zero the new node replaces whatever the root held.
     */
    method Add(item: int)
      requires Valid()
      modifies this, Nodes(shape)
      ensures Valid()
      ensures size == old(size) + 1
      ensures Contents() == if old(size) == 0 then Node(Leaf, item, Leaf) else Insert(old(Contents()), item)
      ensures old(size) != 0 ==> Elems(Contents()) == old(Elems(Contents())) + multiset{item}
      ensures Search(Contents(), item)
      ensures fresh(Nodes(shape) - old(Nodes(shape)))
      ensures old(size) != 0 ==> old(Nodes(shape)) <= Nodes(shape)
      ensures old(size) == 0 ==> fresh(root) && Nodes(shape) == {root}
    {
      if size == 0 {
        root := new BSTNode(item);
        assert Erase(Link(Nil, root, item, Nil)) == Node(Leaf, item, Leaf);
        shape := Link(Nil, root, item, Nil);
        size := size + 1;
      } else {
        ghost var before := Contents();
        Grow(item);
        InsertElems(before, item);
        InsertFindable(before, item);
      }
    }

    /** The non-empty case of `add`: the recursive helper runs from the root. */
    method Grow(item: int)
      requires Valid() && size != 0
      modifies this, Nodes(shape)
      ensures Valid() && size == old(size) + 1
      ensures Contents() == Insert(old(Contents()), item)
      ensures fresh(Nodes(shape) - old(Nodes(shape))) && old(Nodes(shape)) <= Nodes(shape)
    {
      ghost var grown := AddFrom(root, shape, item);
      InsertElems(Contents(), item);
      shape := grown;
      size := size + 1;
    }

    /**
     * `add_while`: `add` with a loop.  On a tree whose size counter is zero
     * it first makes `item` the root and then still runs the loop, which
     * hangs a second copy of `item` to the right of it.
     */
    method AddWhile(item: int)
      requires Valid()
      modifies this, Nodes(shape)
      ensures Valid()
      ensures old(size) == 0 ==> size == 2 && Contents() == Node(Leaf, item, Node(Leaf, item, Leaf))
      ensures old(size) != 0 ==> size == old(size) + 1 && Contents() == Insert(old(Contents()), item)
      ensures old(size) != 0 ==> Elems(Contents()) == old(Elems(Contents())) + multiset{item}
      ensures fresh(Nodes(shape) - old(Nodes(shape)))
    {
      if IsEmpty() {
        root := new BSTNode(item);
        size := size + 1;
        assert Erase(Link(Nil, root, item, Nil)) == Node(Leaf, item, Leaf);
        shape := Link(Nil, root, item, Nil);
        assert Nodes(shape) == {root};
      }
      ghost var before, mid := Contents(), Nodes(shape);
      assert fresh(mid - old(Nodes(shape)));
      label planted:
      AddBelowRoot(item);
      // The leaf hung below is new since `planted`, hence new since this call began.
      assert fresh@planted(Nodes(shape) - mid);
      assert forall x | x in Nodes(shape) - mid :: !old(allocated(x));
      assert Nodes(shape) - old(Nodes(shape)) <= (Nodes(shape) - mid) + (mid - old(Nodes(shape)));
      InsertElems(before, item);
    }

    /**
     * The search loop of `add_while`, on a tree with a root: walks down from
     * the root and hangs a new node holding `item` at the first free link on
     * the way an insertion of `item` takes.
     */
    method AddBelowRoot(item: int)
      requires Valid() && root != null
      modifies this, Nodes(shape)
      ensures Valid() && size == old(size) + 1
      ensures Contents() == Insert(old(Contents()), item)
      ensures fresh(Nodes(shape) - old(Nodes(shape)))
    {
      ghost var start, count := shape, size;
      var current := root;
      ghost var path := Top;
      ghost var sub := shape;
      while true
        invariant Valid() && shape == start && size == count
        invariant current != null && Matches(current, sub) && sub.Link?
        invariant PathMatches(path, current, root) && Plug(path, sub) == shape
        invariant InsertGuided(path, item)
        decreases sub
      {
        if item < current.data {
          if current.left == null {
            PlugNodes(path, sub);
            HangAt(current, true, item, path, sub);
            return;
          } else {
            path := WentLeft(path, current, sub.data, sub.right);
            current := current.left;
            sub := sub.left;
          }
        } else {
          if current.right == null {
            PlugNodes(path, sub);
            HangAt(current, false, item, path, sub);
            return;
          } else {
            path := WentRight(path, sub.left, current, sub.data);
            current := current.right;
            sub := sub.right;
          }
        }
      }
    }

    /**
     * The last step of the `add_while` loop: `current`, the end of the
     * insertion path, gets a new node holding `item` on its empty side, and
     * the size counter goes up by one.
     */
    method HangAt(current: BSTNode, left: bool, item: int, ghost path: Path, ghost sub: Shape)
      requires Valid() && Matches(current, sub) && sub.Link?
      requires PathMatches(path, current, root) && Plug(path, sub) == shape && InsertGuided(path, item)
      requires if left then current.left == null && item < current.data else current.right == null && item >= current.data
      modifies this, current
      ensures Valid() && size == old(size) + 1
      ensures Contents() == Insert(old(Contents()), item)
      ensures fresh(Nodes(shape) - old(Nodes(shape)))
    {
      ghost var grown := HangNew(current, left, item, path, sub, root);
      InsertElems(Contents(), item);
      Counted(grown);
    }

    /** The counter bump that ends the `add_while` loop, with the grown tree recorded. */
    method Counted(ghost grown: Shape)
      requires Matches(root, grown) && Distinct(grown) && 0 <= size < Count(Erase(grown))
      modifies this`size, this`shape
      ensures Valid() && shape == grown && size == old(size) + 1
    {
      size := size + 1;
      shape := grown;
    }

    /**
     * The end of `remove`, once the search has stopped at `current`, which
     * holds `item`: cases 1 to 3 (see `TakeOut`), then the size counter
     * drops by one and the root is re-read from `preRoot`, or dropped when
     * the counter reaches zero.
     */
    method Unlink(item: int, preRoot: BSTNode, parent: BSTNode, direction: Direction, current: BSTNode,
                  ghost path: Path, ghost sub: Shape)
      requires Valid() && size != 0 && Plug(path, sub) == shape
      requires Matches(current, sub) && PathMatches(path, current, root) && current.data == item
      requires SearchGuided(path, item)
      requires preRoot.left == root && preRoot.right == null && preRoot !in Nodes(shape)
      requires path.Top? ==> parent == preRoot && direction == L
      requires path.WentLeft? ==> parent == path.node && direction == L
      requires path.WentRight? ==> parent == path.node && direction == R
      modifies this, preRoot, Nodes(shape)
      ensures Valid() && size == old(size) - 1
      ensures Contents() == if size == 0 then Leaf else Delete(old(Contents()), item)
      ensures Nodes(shape) <= old(Nodes(shape))
    {
      PlugNodes(path, sub);
      ghost var newSub := TakeOut(preRoot, parent, direction, current, path, sub, root);
      DeleteAt(path, sub, newSub, item);
      size := size - 1;
      if IsEmpty() {
        root := null;
        shape := Nil;
      } else {
        root := preRoot.left;
        PlugNodes(path, newSub);
        shape := Plug(path, newSub);
      }
    }

    /**
     * `remove`: a KeyError when `item` is not in the tree; nothing, and no
     * change, when the size counter reads zero; otherwise the first node
     * holding `item` on the search path is taken out (see `Delete`), the
     * counter drops by one and `item` is returned.  When the counter reaches
     * zero the root link is dropped as well.
     */
    method Remove(item: int) returns (r: Outcome<Option<int>>)
      requires Valid()
      modifies this, Nodes(shape)
      ensures Valid()
      ensures !Search(old(Contents()), item) ==> r == Raised(KeyError) && size == old(size) && Contents() == old(Contents())
      ensures Search(old(Contents()), item) && old(size) == 0 ==> r == Returned(None) && size == 0 && Contents() == old(Contents())
      ensures Search(old(Contents()), item) && old(size) != 0 ==>
        && r == Returned(Some(item)) && size == old(size) - 1
        && Contents() == if size == 0 then Leaf else Delete(old(Contents()), item)
      ensures Nodes(shape) <= old(Nodes(shape))
    {
      if !Contains(item) {
        return Raised(KeyError);
      }
      if IsEmpty() {
        return Returned(None);
      }
      NodesAllocated(shape);
      var removed: Option<int> := None;
      var preRoot := new BSTNode(0);
      preRoot.left := root;
      var parent := preRoot;
      var direction := L;
      var current := root;
      ghost var path := Top;
      ghost var sub := shape;
      while current != null
        invariant Matches(current, sub) && PathMatches(path, current, root) && Plug(path, sub) == shape
        invariant SearchGuided(path, item) && Search(Erase(sub), item) && removed.None?
        invariant path.Top? ==> parent == preRoot && direction == L
        invariant path.WentLeft? ==> parent == path.node && direction == L
        invariant path.WentRight? ==> parent == path.node && direction == R
        decreases sub
      {
        if current.data == item {
          removed := Some(current.data);
          break;
        }
        parent := current;
        if current.data > item {
          direction := L;
          path := WentLeft(path, current, sub.data, sub.right);
          current := current.left;
          sub := sub.left;
        } else {
          direction := R;
          path := WentRight(path, sub.left, current, sub.data);
          current := current.right;
          sub := sub.right;
        }
      }
      if removed.None? {
        // The membership test above found `item` on this very path.
        assert false;
      }
      Unlink(item, preRoot, parent, direction, current, path, sub);
      r := Returned(removed);
    }

    /**
     * `replace`: walks the search path for `item`; at the first node holding
     * it the item is overwritten with `newItem` and the old item returned,
     * and when the path runs out nothing changes and the answer is None.
     */
    method Replace(item: int, newItem: int) returns (r: Option<int>)
      requires Valid()
      modifies this, Nodes(shape)
      ensures Valid() && root == old(root) && size == old(size)
      ensures r == if Search(old(Contents()), item) then Some(item) else None
      ensures Contents() == ReplaceAt(old(Contents()), item, newItem)
      ensures Nodes(shape) == old(Nodes(shape))
    {
      var probe := root;
      ghost var path := Top;
      ghost var sub := shape;
      while probe != null
        invariant Valid() && shape == old(shape) && root == old(root) && size == old(size)
        invariant Matches(probe, sub) && PathMatches(path, probe, root) && Plug(path, sub) == shape
        invariant SearchGuided(path, item) && Search(Contents(), item) == Search(Erase(sub), item)
        decreases sub
      {
        if probe.data == item {
          var oldData := probe.data;
          assert Search(Erase(sub), item);
          PlugNodes(path, sub);
          Overwrite(probe, newItem, path, sub);
          return Some(oldData);
        } else if probe.data > item {
          path := WentLeft(path, probe, sub.data, sub.right);
          probe := probe.left;
          sub := sub.left;
        } else {
          path := WentRight(path, sub.left, probe, sub.data);
          probe := probe.right;
          sub := sub.right;
        }
      }
      assert sub == Nil;
      ReplaceElems(Contents(), item, newItem);
      return None;
    }

    /** The write in `replace`: `probe`, where the search for its item stops, gets `newItem`. */
    method Overwrite(probe: BSTNode, newItem: int, ghost path: Path, ghost sub: Shape)
      requires Valid() && sub.Link? && Matches(probe, sub)
      requires PathMatches(path, probe, root) && Plug(path, sub) == shape && SearchGuided(path, sub.data)
      modifies this, probe
      ensures Valid() && root == old(root) && size == old(size)
      ensures Contents() == ReplaceAt(old(Contents()), sub.data, newItem)
      ensures Nodes(shape) == old(Nodes(shape))
    {
      ReplaceAtPath(path, sub, sub.data, newItem);
      SetData(probe, newItem, path, sub, root);
      shape := Plug(path, Link(sub.left, probe, newItem, sub.right));
    }

    /**
     * `height`: -1 for an empty tree, 0 for a single node, and otherwise one
     * more than the taller subtree; a tree of height h has fewer than
     * 2^(h+1) nodes.
     */
    function Height(): (h: int)
      reads this, Nodes(shape)
      requires Valid()
      ensures h == Trees.Height(Contents()) && h >= -1
      ensures h == -1 <==> root == null
      ensures h == 0 <==> root != null && root.left == null && root.right == null
      ensures Count(Contents()) < Pow2(h + 1)
    {
      HeightCorrect(Contents());
      MatchesNull(root, shape);
      if root != null then
        MatchesNull(root.left, shape.left);
        MatchesNull(root.right, shape.right);
        HeightFrom(root, shape)
      else
        HeightFrom(root, shape)
    }

    /**
     * `range_find`: the slice of the in-order list from the first `low` to
     * the first `high`, both included, or nothing when either is missing.  On
     * a search tree that is every item in [low, high) followed by `high`.
     */
    method RangeFind(low: int, high: int) returns (r: seq<int>)
      requires Valid()
      ensures r == Queries.RangeFind(InOrder(Contents()), low, high)
      ensures low !in Elems(Contents()) || high !in Elems(Contents()) ==> r == []
      ensures Ordered(Contents()) && low in Elems(Contents()) && high in Elems(Contents()) && low <= high ==>
        r == Between(InOrder(Contents()), low, high) + [high]
      ensures Ordered(Contents()) && high < low ==> r == []
      ensures Ordered(Contents()) ==> forall e | e in r :: low <= e <= high
    {
      var nodes := Inorder();
      if low !in nodes || high !in nodes {
        return [];
      }
      var i, j := IndexOf(nodes, low), IndexOf(nodes, high) + 1;
      r := if i <= j then nodes[i..j] else [];
      if Ordered(Contents()) {
        RangeFindWithin(nodes, low, high);
        if low <= high {
          RangeFindSorted(nodes, low, high);
        } else {
          RangeFindCrossed(nodes, low, high);
        }
      }
    }

    /**
     * `successor`: None for a single node; for an item that is absent the
     * largest item (an IndexError on an empty tree); otherwise the item after
     * the first occurrence of `item` in the sorted list, or None at its end.
     */
    method Successor(item: int) returns (r: Outcome<Option<int>>)
      requires Valid()
      ensures r == SuccessorIn(Trees.Height(Contents()), Sort(InOrder(Contents())), item)
      ensures SuccessorSpec(Contents(), item, r)
    {
      var height := Height();
      var items := Inorder();
      r := SuccessorIn(height, Sort(items), item);
      SuccessorInTree(Contents(), item, r);
    }

    /**
     * `predecessor`: None for a single node, for an absent item and for the
     * first item of the sorted list; otherwise the item before the first
     * occurrence of `item`.
     */
    method Predecessor(item: int) returns (r: Option<int>)
      requires Valid()
      ensures r == PredecessorIn(Trees.Height(Contents()), Sort(InOrder(Contents())), item)
      ensures PredecessorSpec(Contents(), item, r)
    {
      var height := Height();
      var items := Inorder();
      r := PredecessorIn(height, Sort(items), item);
      PredecessorInTree(Contents(), item, r);
    }

    /**
     * `rebalance`: the sorted in-order list is rebuilt into a tree of
     * minimal height by `builder`, which leaves the size counter at the
     * number of nodes with at least one child.
     */
    method Rebalance()
      requires Valid()
      modifies this
      ensures Valid()
      ensures Contents() == Build(Sort(InOrder(old(Contents()))))
      ensures InOrder(Contents()) == Sort(InOrder(old(Contents())))
      ensures Ordered(Contents()) && Elems(Contents()) == old(Elems(Contents()))
      ensures size == Branching(Count(old(Contents())))
      ensures Trees.Height(Contents()) <= Trees.Height(old(Contents()))
      ensures old(Contents()) != Leaf ==> MinimalHeight(Trees.Height(Contents()), Count(old(Contents())))
      ensures Ordered(old(Contents())) ==> InOrder(Contents()) == InOrder(old(Contents()))
      ensures fresh(Nodes(shape))
    {
      ghost var before := Contents();
      var items := Inorder();
      var nodes := Sort(items);
      assert before == old(Contents()) && items == InOrder(before);
      RebalanceFacts(before, nodes);
      Clear();
      var top;
      ghost var s;
      top, s := Builder(nodes);
      Install(top, s);
      RebuiltHeight(before, Contents());
      if Ordered(before) {
        OrderedIffSorted(before);
        SortOfSorted(items);
      }
    }

    /** The final assignment of `rebalance`: the built tree becomes the tree. */
    method Install(top: BSTNode?, ghost s: Shape)
      requires Matches(top, s) && Distinct(s) && 0 <= size <= Count(Erase(s))
      modifies this
      ensures Valid() && root == top && shape == s && size == old(size)
    {
      root := top;
      shape := s;
    }

    /**
     * `builder`: the middle item of `lst` in a new node above the trees
     * built from the items before and after it; every call on two or more
     * items bumps the size counter.
     */
    method Builder(lst: seq<int>) returns (node: BSTNode?, ghost s: Shape)
      modifies this`size
      ensures Matches(node, s) && Distinct(s) && fresh(Nodes(s))
      ensures Erase(s) == Build(lst)
      ensures size == old(size) + Branching(|lst|)
      decreases |lst|
    {
      if |lst| == 0 {
        return null, Nil;
      }
      if |lst| == 1 {
        node := new BSTNode(lst[0]);
        return node, Link(Nil, node, lst[0], Nil);
      }
      var position := |lst| / 2;
      node := new BSTNode(lst[position]);
      size := size + 1;
      var left, ls := Builder(lst[..position]);
      assert node !in Nodes(ls) && fresh(Nodes(ls) + {node});
      NodesAllocated(ls);
      var right, rs := Builder(lst[position + 1..]);
      assert node !in Nodes(rs) && Nodes(ls) !! Nodes(rs) && fresh(Nodes(ls) + {node} + Nodes(rs));
      s := Attach(node, left, ls, right, rs);
      assert Nodes(s) == Nodes(ls) + {node} + Nodes(rs);
      BuilderStep(lst, ls, node, rs);
    }
  }

  /**
   * A caller making several mutating calls on one tree: `add(5)`, `add(3)`,
   * then `remove(5)`, which takes out the root and leaves 3 alone.
   */
  method AddAddRemove() returns (t: LinkedBST, r: Outcome<Option<int>>)
    ensures t.Valid() && t.size == 1 && t.Contents() == Node(Leaf, 3, Leaf)
    ensures r == Returned(Some(5))
  {
    t := new LinkedBST();
    t.Add(5);
    t.Add(3);
    assert t.Contents() == Node(Node(Leaf, 3, Leaf), 5, Leaf);
    r := t.Remove(5);
  }
}
