/**
 * The linked nodes of the tree and their ghost description.
 *
 * A `Shape` lists, for a linked tree in the heap, which node sits where and
 * what item it holds; `Matches(n, s)` says the nodes reachable from `n` are
 * laid out as `s` describes.  Because `Nodes(s)` depends on `s` alone, a
 * write to a node outside `Nodes(s)` leaves `Matches(n, s)` intact.
 *
 * A `Path` is the part of the tree above a position during a root-down walk:
 * for each step, the node left behind, its item, and its other subtree.
 * `Plug(p, s)` puts the subtree `s` back at that position.
 */
module Links {
  import opened Trees

  /** A tree cell: one item and two child links. */
  class BSTNode {
    var data: int
    var left: BSTNode?
    var right: BSTNode?

    constructor (data: int)
      ensures this.data == data && left == null && right == null
    {
      this.data := data;
      left := null;
      right := null;
    }
  }

  datatype Shape = Nil | Link(left: Shape, node: BSTNode, data: int, right: Shape)

  ghost function Nodes(s: Shape): set<BSTNode> {
    match s
    case Nil => {}
    case Link(l, n, _, r) => Nodes(l) + {n} + Nodes(r)
  }

  /** No node occurs twice: the links form a tree, not a graph. */
  ghost predicate Distinct(s: Shape) {
    match s
    case Nil => true
    case Link(l, n, _, r) =>
      && Distinct(l) && Distinct(r)
      && n !in Nodes(l) && n !in Nodes(r)
      && Nodes(l) !! Nodes(r)
  }

  /** The abstract value: the shape without node identities. */
  ghost function Erase(s: Shape): Tree {
    match s
    case Nil => Leaf
    case Link(l, _, d, r) => Node(Erase(l), d, Erase(r))
  }

  ghost predicate Matches(n: BSTNode?, s: Shape)
    reads Nodes(s)
  {
    match s
    case Nil => n == null
    case Link(l, m, d, r) => n == m && m.data == d && Matches(m.left, l) && Matches(m.right, r)
  }

  /** The node `find` stops at. */
  ghost function FindNode(s: Shape, x: int): BSTNode? {
    match s
    case Nil => null
    case Link(l, n, d, r) =>
      if x == d then n else if x < d then FindNode(l, x) else FindNode(r, x)
  }

  datatype Path =
    | Top
    | WentLeft(up: Path, node: BSTNode, data: int, right: Shape)
    | WentRight(up: Path, left: Shape, node: BSTNode, data: int)

  ghost function Plug(p: Path, s: Shape): Shape {
    match p
    case Top => s
    case WentLeft(up, n, d, r) => Plug(up, Link(s, n, d, r))
    case WentRight(up, l, n, d) => Plug(up, Link(l, n, d, s))
  }

  ghost function PathNodes(p: Path): set<BSTNode> {
    match p
    case Top => {}
    case WentLeft(up, n, _, r) => PathNodes(up) + {n} + Nodes(r)
    case WentRight(up, l, n, _) => PathNodes(up) + Nodes(l) + {n}
  }

  /** `Plug` on abstract values. */
  ghost function PlugTree(p: Path, t: Tree): Tree {
    match p
    case Top => t
    case WentLeft(up, _, d, r) => PlugTree(up, Node(t, d, Erase(r)))
    case WentRight(up, l, _, d) => PlugTree(up, Node(Erase(l), d, t))
  }

  /**
   * The heap above the position is laid out as `p` says, `child` hangs at
   * the position, and `anchor` is the node at the top of the path.
   */
  ghost predicate PathMatches(p: Path, child: BSTNode?, anchor: BSTNode?)
    reads PathNodes(p)
  {
    match p
    case Top => child == anchor
    case WentLeft(up, n, d, r) =>
      n.left == child && n.data == d && Matches(n.right, r) && PathMatches(up, n, anchor)
    case WentRight(up, l, n, d) =>
      n.right == child && n.data == d && Matches(n.left, l) && PathMatches(up, n, anchor)
  }

  /** Every step of the path is the one a search for `x` takes (and passes no equal item). */
  ghost predicate SearchGuided(p: Path, x: int) {
    match p
    case Top => true
    case WentLeft(up, _, d, _) => x < d && SearchGuided(up, x)
    case WentRight(up, _, _, d) => x > d && SearchGuided(up, x)
  }

  /** Every step of the path is the one an insertion of `x` takes. */
  ghost predicate InsertGuided(p: Path, x: int) {
    match p
    case Top => true
    case WentLeft(up, _, d, _) => x < d && InsertGuided(up, x)
    case WentRight(up, _, _, d) => x >= d && InsertGuided(up, x)
  }

  /** The path only follows right links. */
  ghost predicate AllRight(p: Path) {
    match p
    case Top => true
    case WentLeft(_, _, _, _) => false
    case WentRight(up, _, _, _) => AllRight(up)
  }

  // ---------------------------------------------------------------------------

  /**
   * `FindNode` stops at a node exactly when the search succeeds, and that
   * node belongs to the tree and holds the item searched for.
   */
  lemma {:induction false} FindNodeCorrect(n: BSTNode?, s: Shape, x: int)
    requires Matches(n, s)
    ensures FindNode(s, x) == null <==> !Search(Erase(s), x)
    ensures FindNode(s, x) != null ==> FindNode(s, x) in Nodes(s) && FindNode(s, x).data == x
  {
    match s
    case Nil =>
    case Link(l, m, d, r) =>
      FindNodeCorrect(m.left, l, x);
      FindNodeCorrect(m.right, r, x);
  }

  /** Every node a shape names already exists, so a node created later is not among them. */
  lemma {:induction false} NodesAllocated(s: Shape)
    ensures forall n | n in Nodes(s) :: allocated(n)
  {
    match s
    case Nil =>
    case Link(l, _, _, r) =>
      NodesAllocated(l);
      NodesAllocated(r);
  }

  lemma {:induction false} PathNodesAllocated(p: Path)
    ensures forall n | n in PathNodes(p) :: allocated(n)
  {
    match p
    case Top =>
    case WentLeft(up, _, _, r) =>
      PathNodesAllocated(up);
      NodesAllocated(r);
    case WentRight(up, l, _, _) =>
      PathNodesAllocated(up);
      NodesAllocated(l);
  }

  /** A null link is exactly an empty subtree. */
  lemma MatchesNull(n: BSTNode?, s: Shape)
    requires Matches(n, s)
    ensures n == null <==> s == Nil
  {
  }

  lemma {:induction false} PlugNodes(p: Path, s: Shape)
    ensures Nodes(Plug(p, s)) == PathNodes(p) + Nodes(s)
  {
    match p
    case Top =>
    case WentLeft(up, n, d, r) => PlugNodes(up, Link(s, n, d, r));
    case WentRight(up, l, n, d) => PlugNodes(up, Link(l, n, d, s));
  }

  lemma {:induction false} ErasePlug(p: Path, s: Shape)
    ensures Erase(Plug(p, s)) == PlugTree(p, Erase(s))
  {
    match p
    case Top =>
    case WentLeft(up, n, d, r) => ErasePlug(up, Link(s, n, d, r));
    case WentRight(up, l, n, d) => ErasePlug(up, Link(l, n, d, s));
  }

  /** The path's own nodes, the subtree's nodes and the two kept apart. */
  lemma {:induction false} PlugDistinct(p: Path, s: Shape)
    requires Distinct(Plug(p, s))
    ensures Distinct(s) && PathNodes(p) !! Nodes(s)
  {
    match p
    case Top =>
    case WentLeft(up, n, d, r) => PlugDistinct(up, Link(s, n, d, r));
    case WentRight(up, l, n, d) => PlugDistinct(up, Link(l, n, d, s));
  }

  /** Swapping in a subtree of fresh or reused-but-disjoint nodes keeps the tree free of sharing. */
  lemma {:induction false} PlugDistinctSwap(p: Path, s: Shape, s': Shape)
    requires Distinct(Plug(p, s)) && Distinct(s') && PathNodes(p) !! Nodes(s')
    ensures Distinct(Plug(p, s'))
  {
    match p
    case Top =>
    case WentLeft(up, n, d, r) =>
      PlugDistinct(up, Link(s, n, d, r));
      PlugDistinctSwap(up, Link(s, n, d, r), Link(s', n, d, r));
    case WentRight(up, l, n, d) =>
      PlugDistinct(up, Link(l, n, d, s));
      PlugDistinctSwap(up, Link(l, n, d, s), Link(l, n, d, s'));
  }

  /** A subtree laid out at the bottom of a laid-out path gives a laid-out tree under the anchor. */
  lemma {:induction false} PlugMatches(p: Path, child: BSTNode?, s: Shape, anchor: BSTNode?)
    requires PathMatches(p, child, anchor) && Matches(child, s)
    ensures Matches(anchor, Plug(p, s))
  {
    match p
    case Top =>
    case WentLeft(up, n, d, r) => PlugMatches(up, n, Link(s, n, d, r), anchor);
    case WentRight(up, l, n, d) => PlugMatches(up, n, Link(l, n, d, s), anchor);
  }

  /**
   * Points the left (`left`) or right link of `node`, which sits at the end of
   * the path `p` above subtree `s`, at `child`, the top of the subtree `c`.
   * Read from `anchor`, the tree then has `s'` in place of `s`: `s` with `c`
   * as that child.
   */
  method SetChild(node: BSTNode, left: bool, child: BSTNode?, ghost p: Path, ghost s: Shape, ghost c: Shape, ghost anchor: BSTNode?)
      returns (ghost s': Shape)
    requires s.Link? && PathMatches(p, node, anchor) && Matches(node, s) && Matches(child, c)
    requires node !in PathNodes(p) && node !in Nodes(c)
    requires node !in Nodes(if left then s.right else s.left)
    modifies node
    ensures s' == if left then Link(c, node, s.data, s.right) else Link(s.left, node, s.data, c)
    ensures Matches(anchor, Plug(p, s'))
  {
    if left {
      node.left := child;
    } else {
      node.right := child;
    }
    s' := if left then Link(c, node, s.data, s.right) else Link(s.left, node, s.data, c);
    PlugMatches(p, node, s', anchor);
  }

  /** `s` with a new leaf `leaf` holding `x` as the left (`left`) or right child of its root. */
  ghost function Hung(s: Shape, leaf: BSTNode, x: int, left: bool): Shape
    requires s.Link?
  {
    if left then Link(Link(Nil, leaf, x, Nil), s.node, s.data, s.right)
    else Link(s.left, s.node, s.data, Link(Nil, leaf, x, Nil))
  }

  /**
   * Overwrites the item of `node`, which sits at the end of the path `p`
   * above subtree `s`. Read from `anchor`, the tree then has `s` with `y` at
   * its root in place of `s`.
   */
  method SetData(node: BSTNode, y: int, ghost p: Path, ghost s: Shape, ghost anchor: BSTNode?)
    requires s.Link? && PathMatches(p, node, anchor) && Matches(node, s) && Distinct(Plug(p, s))
    modifies node
    ensures Matches(anchor, Plug(p, Link(s.left, node, y, s.right)))
  {
    PlugDistinct(p, s);
    node.data := y;
    PlugMatches(p, node, Link(s.left, node, y, s.right), anchor);
  }

  /**
   * Overwriting the item at the end of a search path for `x`, where the
   * search stops, is `ReplaceAt` on the whole tree: the same nodes, still
   * free of sharing, and the same node count.
   */
  lemma {:induction false} ReplaceAtPath(p: Path, s: Shape, x: int, y: int)
    requires SearchGuided(p, x) && s.Link? && s.data == x && Distinct(Plug(p, s))
    ensures var s' := Link(s.left, s.node, y, s.right);
      && Search(Erase(Plug(p, s)), x)
      && Distinct(Plug(p, s')) && Nodes(Plug(p, s')) == Nodes(Plug(p, s))
      && Erase(Plug(p, s')) == ReplaceAt(Erase(Plug(p, s)), x, y)
      && Count(Erase(Plug(p, s'))) == Count(Erase(Plug(p, s)))
  {
    var s' := Link(s.left, s.node, y, s.right);
    PlugDistinct(p, s);
    PlugDistinctSwap(p, s, s');
    PlugNodes(p, s);
    PlugNodes(p, s');
    ErasePlug(p, s);
    ErasePlug(p, s');
    SearchPlug(p, Erase(s), x);
    ReplacePlug(p, Erase(s), x, y);
    ReplaceShape(Erase(Plug(p, s)), x, y);
  }

  /**
   * Points the link that leads from the last node of the non-empty path `p`
   * down to `current`, the top of `sub`, at `child`, the top of `c`, a part of
   * `sub`. Read from `anchor`, the tree then has `c` in place of `sub`.
   */
  method Bypass(parent: BSTNode, left: bool, current: BSTNode, child: BSTNode?,
                ghost p: Path, ghost sub: Shape, ghost c: Shape, ghost anchor: BSTNode?)
    requires if left then p.WentLeft? else p.WentRight?
    requires p.node == parent && PathMatches(p, current, anchor)
    requires Matches(current, sub) && Matches(child, c)
    requires Distinct(Plug(p, sub)) && Nodes(c) <= Nodes(sub)
    modifies parent
    ensures Matches(anchor, Plug(p, c))
  {
    if left {
      PlugDistinct(p.up, Link(sub, parent, p.data, p.right));
      ghost var s' := SetChild(parent, true, child, p.up, Link(sub, parent, p.data, p.right), c, anchor);
    } else {
      PlugDistinct(p.up, Link(p.left, parent, p.data, sub));
      ghost var s' := SetChild(parent, false, child, p.up, Link(p.left, parent, p.data, sub), c, anchor);
    }
  }

  /**
   * `node.left = BSTNode(x)` (or `.right`, when `left` is false) where the
   * insertion path `p` for `x` ends at a free link of `node`: the tree read
   * from `anchor` gains `x`, and its only new node is fresh.
   */
  method HangNew(node: BSTNode, left: bool, x: int, ghost p: Path, ghost s: Shape, ghost anchor: BSTNode?)
      returns (ghost s': Shape)
    requires PathMatches(p, node, anchor) && Matches(node, s) && s.Link?
    requires Distinct(Plug(p, s)) && InsertGuided(p, x)
    requires if left then node.left == null && x < node.data else node.right == null && x >= node.data
    modifies node
    ensures Matches(anchor, s') && Distinct(s')
    ensures Erase(s') == Insert(Erase(Plug(p, s)), x)
    ensures fresh(Nodes(s') - Nodes(Plug(p, s)))
  {
    MatchesNull(if left then node.left else node.right, if left then s.left else s.right);
    NodesAllocated(Plug(p, s));
    PlugNodes(p, s);
    var leaf := new BSTNode(x);
    HangLeaf(p, s, leaf, x, left);
    ghost var hung := SetChild(node, left, leaf, p, s, Link(Nil, leaf, x, Nil), anchor);
    assert hung == Hung(s, leaf, x, left);
    PlugNodes(p, hung);
    s' := Plug(p, hung);
  }

  /**
   * Hanging a node that is not yet in the tree at the free spot where the
   * insertion path for `x` ends keeps the tree free of sharing and inserts `x`.
   */
  lemma {:induction false} HangLeaf(p: Path, s: Shape, leaf: BSTNode, x: int, left: bool)
    requires Distinct(Plug(p, s)) && s.Link? && leaf !in Nodes(Plug(p, s))
    requires InsertGuided(p, x)
    requires if left then s.left == Nil && x < s.data else s.right == Nil && x >= s.data
    ensures s.node !in PathNodes(p) && s.node !in Nodes(s.left) && s.node !in Nodes(s.right)
    ensures Distinct(Plug(p, Hung(s, leaf, x, left)))
    ensures Erase(Plug(p, Hung(s, leaf, x, left))) == Insert(Erase(Plug(p, s)), x)
  {
    var s' := Hung(s, leaf, x, left);
    PlugDistinct(p, s);
    PlugNodes(p, s);
    PlugDistinctSwap(p, s, s');
    ErasePlug(p, s);
    ErasePlug(p, s');
    InsertPlug(p, Erase(s), x);
  }

  /** Along a search path for `x`, the search is decided by the subtree below. */
  lemma {:induction false} SearchPlug(p: Path, t: Tree, x: int)
    requires SearchGuided(p, x)
    ensures Search(PlugTree(p, t), x) == Search(t, x)
  {
    match p
    case Top =>
    case WentLeft(up, _, d, r) => SearchPlug(up, Node(t, d, Erase(r)), x);
    case WentRight(up, l, _, d) => SearchPlug(up, Node(Erase(l), d, t), x);
  }

  /** Along an insertion path for `x`, insertion happens in the subtree below. */
  lemma {:induction false} InsertPlug(p: Path, t: Tree, x: int)
    requires InsertGuided(p, x)
    ensures Insert(PlugTree(p, t), x) == PlugTree(p, Insert(t, x))
  {
    match p
    case Top =>
    case WentLeft(up, _, d, r) => InsertPlug(up, Node(t, d, Erase(r)), x);
    case WentRight(up, l, _, d) => InsertPlug(up, Node(Erase(l), d, t), x);
  }

  /** Along a search path for `x`, removal happens in the subtree below. */
  lemma {:induction false} DeletePlug(p: Path, t: Tree, x: int)
    requires SearchGuided(p, x)
    ensures Delete(PlugTree(p, t), x) == PlugTree(p, Delete(t, x))
  {
    match p
    case Top =>
    case WentLeft(up, _, d, r) => DeletePlug(up, Node(t, d, Erase(r)), x);
    case WentRight(up, l, _, d) => DeletePlug(up, Node(Erase(l), d, t), x);
  }

  /**
   * Taking out the root of `s`, which holds `x`, at the end of a search path
   * for `x` deletes `x` from the whole tree, one node fewer.
   */
  lemma {:induction false} DeleteAt(p: Path, s: Shape, s': Shape, x: int)
    requires SearchGuided(p, x) && s.Link? && s.data == x && Erase(s') == RemoveRoot(Erase(s))
    ensures Search(Erase(Plug(p, s)), x)
    ensures Erase(Plug(p, s')) == Delete(Erase(Plug(p, s)), x)
    ensures Count(Erase(Plug(p, s'))) == Count(Erase(Plug(p, s))) - 1
  {
    ErasePlug(p, s);
    ErasePlug(p, s');
    DeletePlug(p, Erase(s), x);
    SearchPlug(p, Erase(s), x);
    DeleteElems(Erase(Plug(p, s)), x);
  }

  /** Along a search path for `x`, replacement happens in the subtree below. */
  lemma {:induction false} ReplacePlug(p: Path, t: Tree, x: int, y: int)
    requires SearchGuided(p, x)
    ensures ReplaceAt(PlugTree(p, t), x, y) == PlugTree(p, ReplaceAt(t, x, y))
  {
    match p
    case Top =>
    case WentLeft(up, _, d, r) => ReplacePlug(up, Node(t, d, Erase(r)), x, y);
    case WentRight(up, l, _, d) => ReplacePlug(up, Node(Erase(l), d, t), x, y);
  }

  /** Below a path of right links, the rightmost node of the whole is that of the subtree. */
  lemma {:induction false} RightmostPlug(p: Path, t: Tree)
    requires AllRight(p) && t.Node?
    ensures PlugTree(p, t).Node?
    ensures Rightmost(PlugTree(p, t)) == Rightmost(t)
    ensures DropRightmost(PlugTree(p, t)) == PlugTree(p, DropRightmost(t))
  {
    match p
    case Top =>
    case WentRight(up, l, _, d) => RightmostPlug(up, Node(Erase(l), d, t));
  }
}
