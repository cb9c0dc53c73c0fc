# LinkedBST in Dafny

A model of `LinkedBST` from `linkedbst.py`. It is a binary search tree of linked nodes holding integers, plus a size counter. Items smaller than a node go to its left. Items greater than or equal to it go to its right, so duplicates are allowed and collect in right subtrees.

The model has two layers.

- **Values.** `Trees.Tree` (`Leaf | Node(left, data, right)`) is the abstract tree. The functions on it specify every operation:
  - `Elems`, `Count`, `InOrder`, `PreOrder` and `Height`;
  - `Ordered`, the search-tree ordering, with left ≤ node ≤ right;
  - `Search`, the descent of `find`;
  - `Insert`, `Delete`, `RemoveRoot` and `ReplaceAt`.

  `Rebuild.Build` is the tree `builder` makes from a list. `Queries` holds the list computations behind `range_find`, `successor` and `predecessor`.
- **Heap.** `Links.BSTNode` is a class with `data`, `left` and `right`. `LinkedBst.LinkedBST` is a class with `root`, `size` and a ghost `shape`. The shape records which node sits where. `Matches` ties the linked nodes to the shape, and `Contents()` is the tree value they spell.
  - The loop-based mutators walk down with a ghost zipper, `Links.Path`. Each heap write is proved against that zipper, so the rest of the tree is shown untouched.
  - Each mutator is proved against the value-level function: `add` against `Insert`, `remove` against `Delete`, `replace` against `ReplaceAt` and `rebalance` against `Build`.
  - Lemmas then prove what those functions promise: the multiset of items, the ordering, the size and the height.

The size counter is what `isEmpty()` reads. `rebalance` leaves it below the number of nodes, so the class invariant only keeps `0 <= size <= Count(Contents())`.

The model follows the code where the code departs from its docstrings or from the usual description of a search tree:

- `find` and `find_while` return the node, not the stored item.
- `add_while` on a tree whose counter reads zero creates the root and then still runs its loop. That hangs a second copy of the item to the right of the root, and the counter ends at 2.
- `add` on a tree whose counter reads zero replaces the root, even when nodes are still linked below it.
- `rebalance` bumps the counter only for sub-lists of two or more items. The counter ends at the number of nodes with a child, not at the number of items. A one-item tree keeps its node with the counter at zero.
- `successor` on an empty tree raises IndexError. Its height is -1, not 0, so the list lookup after the guard fails.
- When an item is present, `successor` returns the entry after its first occurrence in the sorted list. An item stored more than once is therefore its own successor, even when it is the largest item. The docstring promises the smallest larger item instead.
- `successor` of an absent item returns the largest item. `predecessor` of an absent item returns None.
- `remove` lifts the maximum of the left subtree in the two-children case, and other copies of that maximum stay in the left subtree. The ordering that `remove` preserves is therefore left ≤ node ≤ right, not a strict left side.
- `remove` on a tree whose counter reads zero returns None and changes nothing, even when the item is linked in.
- `__iter__` yields nothing when the counter reads zero.

## Model

| member | source | states |
|---|---|---|
| LinkedBst.LinkedBST.constructor | linkedbst.py:17-21 | A new tree has no root, counter 0 and the empty tree as contents. |
| LinkedBst.LinkedBST.Iterate | linkedbst.py:39-50 | Yields nothing when the counter reads zero. Otherwise yields the pre-order list, root then left then right, holding every stored item exactly once. |
| LinkedBst.PreorderFrom | linkedbst.py:42-50 | The explicit-stack loop produces exactly the pre-order list of the tree below the start node. |
| LinkedBst.IterateStep | linkedbst.py:44-50 | Popping a node, yielding its item and pushing its right then left child keeps two facts: the stack still matches the subtrees still to visit, and the yielded items followed by those subtrees' pre-order lists are the whole pre-order list. |
| LinkedBst.PendingStep | linkedbst.py:45-50 | Popping a subtree and pushing its children leaves its root item first and the rest pending. |
| LinkedBst.PendingPushShapes | linkedbst.py:47-50 | Pushing the right child and then the left child puts the left subtree's pre-order list first in the pending order, then the right subtree's. |
| LinkedBst.StackStep | linkedbst.py:47-50 | After the push of the right and then the left child, each stack entry is still the root of the matching subtree. |
| LinkedBst.PushChildren | linkedbst.py:47-50 | The step keeps the rest of the stack as a prefix and pushes at most two nodes. |
| Trees.PreOrderElems | linkedbst.py:39-50 | The pre-order list holds exactly the stored items, as a multiset, and has one entry per node. |
| LinkedBst.LinkedBST.Inorder | linkedbst.py:56-67 | The result is the in-order list of the tree and holds exactly its items, as a multiset. It is non-decreasing exactly when the tree is ordered. |
| LinkedBst.InorderFrom | linkedbst.py:60-64 | The recursive walk appends the in-order list of the subtree to the list built so far. |
| Trees.InOrderElems | linkedbst.py:60-67 | The in-order list holds exactly the stored items, as a multiset, and has one entry per node. |
| Trees.OrderedIffSorted | linkedbst.py:56-67 | A tree is ordered if and only if its in-order list is non-decreasing. |
| LinkedBst.LinkedBST.Contains | linkedbst.py:77-79 | True exactly when the search for the item succeeds. On an ordered tree, true exactly when the item is stored. |
| LinkedBst.LinkedBST.Find | linkedbst.py:81-95 | Null exactly when the search fails. Otherwise a node of the tree holding the item: the node where the descent stops. |
| LinkedBst.FindFrom | linkedbst.py:85-93 | The recursive descent returns the node the abstract search stops at. |
| Links.FindNodeCorrect | linkedbst.py:85-95 | The node the search stops at is null exactly when the search fails. Otherwise it belongs to the tree and holds the item. |
| Trees.SearchCorrect | linkedbst.py:85-95 | A successful search finds a stored item. In an ordered tree the search succeeds for every stored item and only for those. |
| LinkedBst.LinkedBST.FindWhile | linkedbst.py:97-110 | The loop returns the same node as `find`, with the same null-exactly-when-absent guarantee. |
| LinkedBst.LinkedBST.Clear | linkedbst.py:113-116 | Afterwards: no root, counter 0, empty contents. |
| LinkedBst.LinkedBST.Add | linkedbst.py:118-143 | The counter goes up by one and the item is found afterwards. A tree whose counter read zero becomes a single node. Otherwise the contents become the insertion of the item as a new leaf, and the multiset of items gains exactly that item. Every node it adds is new. On a non-zero counter no node leaves the tree. On a zero counter the tree becomes a single new node, so the old root, if any, is dropped. |
| LinkedBst.AddFrom | linkedbst.py:122-134 | The recursive helper hangs one new leaf where the insertion path ends, and only new nodes join the tree. |
| LinkedBst.LinkedBST.Grow | linkedbst.py:141-143 | From the root of a tree whose counter is non-zero: the counter goes up by one and the contents become the insertion of the item. |
| Trees.InsertElems | linkedbst.py:122-134 | Insertion adds exactly the item to the multiset and exactly one node. |
| Trees.InsertOrdered | linkedbst.py:122-134 | Insertion keeps the tree ordered. |
| Trees.InsertFindable | linkedbst.py:118-143 | After insertion the search for the item succeeds, whatever the tree held before. |
| LinkedBst.LinkedBST.AddWhile | linkedbst.py:145-171 | On a tree whose counter read zero: two copies of the item, the second as the right child of the first, and counter 2. Otherwise: counter up by one, contents become the insertion, and the multiset gains exactly the item. Every node it adds is new. |
| LinkedBst.LinkedBST.AddBelowRoot | linkedbst.py:154-171 | The loop from the root adds one leaf where the insertion path ends and bumps the counter by one. |
| LinkedBst.LinkedBST.HangAt | linkedbst.py:157-169 | At the free link on the insertion path, the new leaf and the counter bump give the insertion of the item. |
| LinkedBst.LinkedBST.Counted | linkedbst.py:166-169 | The counter goes up by one, and the grown tree is recorded with the invariant intact. |
| Links.HangNew | linkedbst.py:157-167 | Linking a new node at the free link ending the insertion path yields the insertion of the item. Only the new node joins the tree. |
| Links.HangLeaf | linkedbst.py:157-169 | In the shape, hanging a fresh leaf at the end of an insertion path gives a tree with no shared nodes, equal to the insertion. |
| Links.InsertPlug | linkedbst.py:154-171 | Inserting into the whole tree is inserting into the subtree the insertion path leads to. |
| LinkedBst.LinkedBST.Remove | linkedbst.py:173-256 | Absent item: KeyError, nothing changes. Present item with the counter reading zero: returns None, nothing changes. Otherwise: returns the item, the counter drops by one, and the contents become the removal of the first node on the search path holding the item, or empty when the counter reaches zero. No node joins the tree. |
| LinkedBst.AddAddRemove | linkedbst.py:118-256 | One caller on one tree: `add(5)`, `add(3)`, then `remove(5)` returns 5 and leaves the single item 3 with counter 1. |
| LinkedBst.LiftMaxInLeftSubtreeToTop | linkedbst.py:181-196 | The top node takes the rightmost item of its left subtree, and that rightmost node is spliced out. Its left child takes its place. No node is added. |
| LinkedBst.LiftShape | linkedbst.py:187-196 | The tree the lift leaves has no shared nodes, uses only old nodes, and is the root over the left subtree minus its rightmost node. |
| LinkedBst.LiftErase | linkedbst.py:189-192 | The node where the walk along right links stops holds the rightmost item. Splicing it out leaves the left subtree without its rightmost node. |
| Trees.RightmostLast | linkedbst.py:189-192 | The rightmost item closes the in-order list. Splicing it out removes exactly it and one node. |
| Trees.RightmostMax | linkedbst.py:181-196 | In an ordered tree the rightmost item is the maximum, and splicing it out keeps the tree ordered. |
| LinkedBst.TakeOut | linkedbst.py:229-246 | The three cases either lift the left maximum or tie the parent to the only child, or to nothing. The subtree becomes its root's removal and the links through the sentinel still spell the tree. |
| LinkedBst.LinkedBST.Unlink | linkedbst.py:229-256 | Cases 1-3, then the counter drops by one and the root is re-read from the sentinel, or dropped when the counter reaches zero. |
| Trees.RemoveRootElems | linkedbst.py:225-246 | Removing a node's item leaves its two subtrees' in-order lists side by side. The multiset loses exactly that item, and the node count drops by one. |
| Trees.RemoveRootOrdered | linkedbst.py:225-246 | Removing the root keeps an ordered tree ordered. |
| Trees.DeleteElems | linkedbst.py:173-256 | When the search succeeds, removal takes exactly one copy of the item out of the multiset and one node out of the tree. |
| Trees.DeleteOrdered | linkedbst.py:173-256 | Removal keeps an ordered tree ordered. |
| Trees.DeleteShrinks | linkedbst.py:173-256 | Removal never adds an item. |
| Trees.DeleteAbsent | linkedbst.py:208-221 | When the search fails, removal changes nothing. |
| Links.DeleteAt | linkedbst.py:202-246 | Replacing the node the search path stops at with its root removal is the removal of the item from the whole tree, one node fewer. |
| Links.DeletePlug | linkedbst.py:202-218 | Removal from the whole tree is removal from the subtree the search path leads to. |
| Links.SearchPlug | linkedbst.py:202-218 | The search in the whole tree succeeds exactly when it succeeds in the subtree the search path leads to. |
| Links.SetChild | linkedbst.py:243-246 | Re-pointing one link of a node replaces that child subtree and leaves the rest of the tree as it was. |
| Links.Bypass | linkedbst.py:196 | Pointing the parent's link past the current node puts the current node's child subtree in its place. |
| LinkedBst.LinkedBST.Replace | linkedbst.py:258-272 | Root and counter unchanged. Returns the item when the search succeeds, else None. The contents become the tree with the first node on the search path holding the item overwritten. The set of nodes is unchanged. |
| LinkedBst.LinkedBST.Overwrite | linkedbst.py:264-267 | Overwriting the data of the node the search stops at is the replacement on the whole tree, with root and counter unchanged. |
| Links.SetData | linkedbst.py:266 | Writing a node's data changes only that item in the tree. |
| Links.ReplaceAtPath | linkedbst.py:262-267 | Overwriting the node at the end of a search path keeps the same nodes and node count, and gives the replacement on the whole tree. |
| Links.ReplacePlug | linkedbst.py:262-271 | Replacement in the whole tree is replacement in the subtree the search path leads to. |
| Trees.ReplaceElems | linkedbst.py:258-272 | When the search succeeds the multiset trades one copy of the item for the new item. When it fails nothing changes. |
| Trees.ReplaceShape | linkedbst.py:258-272 | Replacement keeps the links, the node count and the height. |
| LinkedBst.LinkedBST.Height | linkedbst.py:274-291 | -1 exactly when there is no root, and 0 exactly for a root without children. A tree of height h has fewer than 2^(h+1) nodes. |
| LinkedBst.HeightFrom | linkedbst.py:280-289 | The recursive helper returns the height of the tree below the node it starts from. |
| Trees.HeightCorrect | linkedbst.py:280-291 | Height is at least -1. It is -1 exactly for the empty tree, 0 exactly for a single node, and a tree of height h has fewer than 2^(h+1) nodes. |
| LinkedBst.LinkedBST.RangeFind | linkedbst.py:304-315 | Empty when either bound is missing. On an ordered tree with low ≤ high: every item in [low, high) in order, then high. On an ordered tree with high < low: empty. On an ordered tree every result item lies in [low, high]. |
| Queries.RangeFind | linkedbst.py:311-315 | Empty when a bound is missing. A non-empty result starts with low, ends with high, and is no longer than the list. |
| Queries.RangeFindSorted | linkedbst.py:311-315 | On a sorted list holding both bounds with low ≤ high, the slice is the items in [low, high) followed by high. |
| Queries.RangeFindCrossed | linkedbst.py:311-315 | On a sorted list with high < low the slice is empty. |
| Queries.RangeFindWithin | linkedbst.py:311-315 | On a sorted list every item of the slice lies in [low, high]. |
| Queries.IndexOf | linkedbst.py:315 | `list.index`: the first position holding the item. |
| LinkedBst.LinkedBST.Rebalance | linkedbst.py:317-339 | The new in-order list is the old one sorted. The new tree is ordered, holds the same multiset and is no taller. It has minimal height, 2^h ≤ n < 2^(h+1) for n ≥ 1 items. On an already ordered tree the in-order list is unchanged. The tree is built from new nodes only. The counter ends at the number of sub-lists of two or more items that `builder` visits. |
| LinkedBst.LinkedBST.Builder | linkedbst.py:325-335 | Builds, from new nodes only, the tree with the middle item as root over the trees of the two halves. The counter rises by one per call on two or more items. |
| LinkedBst.BuilderStep | linkedbst.py:330-335 | One call on two or more items is the middle item over the calls on the two halves, and bumps the counter once. |
| LinkedBst.Attach | linkedbst.py:331-333 | Linking the two built halves below the new node gives a tree with no shared nodes. |
| LinkedBst.LinkedBST.Install | linkedbst.py:337 | The built tree becomes the tree, with the invariant intact. |
| LinkedBst.RebalanceFacts | linkedbst.py:322-337 | The tree built from the sorted items lists them in order, is ordered, keeps the multiset and is no taller than the old tree. The counter `builder` leaves is at most its node count. |
| LinkedBst.RebuiltHeight | linkedbst.py:322-337 | The tree built from a non-empty tree has minimal height for its number of items. |
| Rebuild.BuildInOrder | linkedbst.py:325-335 | The built tree's in-order list is the input list. |
| Rebuild.BuildElems | linkedbst.py:325-335 | The built tree holds exactly the input items, one node per item. |
| Rebuild.BuildOrdered | linkedbst.py:325-335 | A sorted input gives an ordered tree. |
| Rebuild.BuildHeight | linkedbst.py:325-335 | The built tree has height floor(log2 n) for n ≥ 1 items, and -1 for none. |
| Rebuild.BuildHeightBounds | linkedbst.py:325-335 | For n ≥ 1 items the built tree's height h satisfies 2^h ≤ n < 2^(h+1). |
| Rebuild.BuildMinimal | linkedbst.py:325-335 | No tree with as many nodes is lower than the built one. |
| Rebuild.BranchingCountsInternal | linkedbst.py:325-335 | The size bumps of `builder` equal the number of built nodes with a child, fewer than the number of items. |
| Rebuild.BranchingBound | linkedbst.py:328-334 | For n ≥ 1 items the counter ends below n, because single items are never counted. |
| Sorting.Sort | linkedbst.py:322 | `sorted`: a non-decreasing permutation of its input. |
| Sorting.SortOfSorted | linkedbst.py:322 | Sorting a sorted list returns it unchanged. |
| Sorting.InsertSorted | linkedbst.py:322 | Inserting into a sorted list keeps it sorted and adds exactly the item. |
| LinkedBst.LinkedBST.Successor | linkedbst.py:341-358 | IndexError exactly on the empty tree, None for a single node. For an absent item (and more than one node): the largest item. For an item stored more than once: the item itself. For an item stored once: the smallest strictly larger item, or None exactly when it is the largest. |
| Queries.SuccessorIn | linkedbst.py:350-358 | The list computation raises only IndexError, and only for an empty list when the height is not 0. |
| Queries.SuccessorSorted | linkedbst.py:355-358 | For a present item in a sorted list: an entry at least the item and at most every larger entry, or None only when the item is the maximum. |
| Queries.SuccessorAbsent | linkedbst.py:353-354 | For an absent item: an entry of the list at least every entry, or IndexError on an empty list. |
| Queries.SuccessorCount | linkedbst.py:355-358 | For a present item in a sorted list: an item occurring twice or more is its own successor, and the successor of an item occurring once is strictly larger. |
| Neighbours.SuccessorInTree | linkedbst.py:341-358 | The list computation over the tree's sorted items meets the successor contract above, stated over the tree's items and the item's number of copies. |
| Neighbours.SuccessorPresent | linkedbst.py:355-358 | For an item stored once (and more than one node): the smallest strictly larger item, or None exactly when no item is larger. |
| Neighbours.SortedItems | linkedbst.py:352 | The sorted in-order list is sorted, holds exactly the tree's items, and is empty only for the empty tree. |
| LinkedBst.LinkedBST.Predecessor | linkedbst.py:360-379 | None for an absent item or a single node. For a present item (and height not 0): None exactly when no item is smaller, else a smaller item that is at least every smaller item. |
| Queries.PredecessorIn | linkedbst.py:369-379 | A result is always an item of the list, and only for an item that is present. |
| Queries.PredecessorSorted | linkedbst.py:374-379 | For a present item in a sorted list: None exactly when no entry is smaller. Otherwise a strictly smaller entry that is at least every smaller entry, even with duplicates. |
| Neighbours.PredecessorInTree | linkedbst.py:360-379 | The list computation over the tree's sorted items meets the predecessor contract above, stated over the tree's items. |
| Neighbours.PredecessorPresent | linkedbst.py:369-379 | For a present item: None exactly when the item is the minimum, else the largest smaller item. |

## Left out

- `__str__` (linkedbst.py:24-37): presentation only, built from `str()` of the items.
- `preorder`, `postorder` and `levelorder` (linkedbst.py:52-75): they always return None.
- `is_balanced` (linkedbst.py:293-302): compares the height with a floating-point `log`. Floating point is not modelled.
- `demo_bst` and the module script (linkedbst.py:381-489): file reading, shuffling, timing and printing.
- The constructor's `sourceCollection` path: it goes through `AbstractCollection`, which is not part of this model. `isEmpty()` is taken to be `size == 0`, and the counter is the `size` field.
- `BSTNode` and `LinkedStack` are not part of this model. `BSTNode` is a class with the three fields the tree uses. The stack of `__iter__` is a sequence whose last element is the top.
- Items are integers. The source compares arbitrary ordered items; a total order on `int` stands in for it.
- LinkedBst.LinkedBST.Iterate: returns the whole pre-order list at once. It does not model a lazy generator interleaved with changes to the tree between items.
- LinkedBst.LinkedBST.Rebalance: does not return the tree object (`return self`). The method changes the tree in place and returns nothing.
- LinkedBst.LinkedBST.Remove: the sentinel `pre_root` holds 0 instead of None. Nothing reads its data.
- LinkedBst.LinkedBST.Builder: both link writes happen after the two recursive calls, in `Attach`, and the counter bump comes before them. The source writes `root.left` between the calls and bumps the counter last. Nothing reads those fields while `builder` runs, so the resulting tree and counter are the same.
- Python's recursion limit: `add` (linkedbst.py:122-134), `find` (linkedbst.py:85-95, also reached through `in` inside `remove`), the walk of `inorder` (linkedbst.py:60-64, used by `range_find`, `rebalance`, `successor` and `predecessor`) and `height` (linkedbst.py:280-289) recurse once per tree level. CPython raises RecursionError once the tree is deeper than the interpreter's limit (1000 frames by default), for instance after about 1000 `add` calls with rising items. The model assumes recursion of any depth, so LinkedBst.LinkedBST.Add, LinkedBst.LinkedBST.Find, LinkedBst.LinkedBST.Contains, LinkedBst.LinkedBST.Remove, LinkedBst.LinkedBST.Inorder, LinkedBst.LinkedBST.RangeFind, LinkedBst.LinkedBST.Rebalance, LinkedBst.LinkedBST.Successor, LinkedBst.LinkedBST.Predecessor and LinkedBst.LinkedBST.Height return normally on trees of every depth. `builder` recurses only about log n deep, and `find_while`, `add_while`, `replace` and `__iter__` use loops.
- LinkedBst.LinkedBST.Successor and LinkedBst.LinkedBST.Predecessor: these compute the sorted list before looking at the height. The source returns before sorting when the height is 0. The results are the same.
- Several helpers hold straight-line pieces of one source method so that each proof stays small: `AddBelowRoot`, `HangAt` and `Counted` for `add_while`; `Grow` for `add`; `Unlink` and `TakeOut` for `remove`; `Overwrite` for `replace`; `Install` and `Attach` for `rebalance`. Each piece runs the same statements in the same order as the source, except for the `builder` reordering above.
