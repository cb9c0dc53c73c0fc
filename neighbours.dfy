/**
 * `successor` and `predecessor` stated over the items of a tree: the answer
 * computed on the sorted in-order list, and what it means for the items.
 */
module Neighbours {
  import opened Sorting
  import opened Trees
  import opened Queries

  /** The sorted in-order list holds exactly the items of the tree, and is empty only for the empty tree. */
  lemma {:induction false} SortedItems(t: Tree)
    ensures Sorted(Sort(InOrder(t)))
    ensures multiset(Sort(InOrder(t))) == Elems(t)
    ensures forall e :: e in Sort(InOrder(t)) <==> e in Elems(t)
    ensures Sort(InOrder(t)) == [] <==> t == Leaf
  {
    InOrderElems(t);
    var s := Sort(InOrder(t));
    assert multiset(s) == Elems(t);
    assert |s| == |InOrder(t)| == Count(t) by {
      assert |multiset(s)| == |multiset(InOrder(t))|;
    }
  }

  /**
   * What `successor` promises, stated over the items of the tree `t`: an
   * IndexError exactly for the empty tree; None for a single node; for an
   * absent item (and more than one node) the largest item.  For an item
   * present (and more than one node) the answer depends on how often it is
   * stored: a repeated item is its own successor; a single copy has the
   * smallest strictly larger item, or None exactly when it is the largest.
   */
  ghost predicate SuccessorSpec(t: Tree, item: int, r: Outcome<Option<int>>) {
    && (r.Raised? <==> t == Leaf)
    && (r.Raised? ==> r.error == IndexError)
    && (Height(t) == 0 ==> r == Returned(None))
    && (Height(t) != 0 && item !in Elems(t) && t != Leaf ==>
         && r.Returned? && r.value.Some? && r.value.value in Elems(t)
         && (forall e | e in Elems(t) :: e <= r.value.value))
    && (Height(t) != 0 && Elems(t)[item] >= 2 ==> r == Returned(Some(item)))
    && (Height(t) != 0 && Elems(t)[item] == 1 ==> UniqueSuccessor(t, item, r))
  }

  /** For an item stored once: the smallest strictly larger item, or None exactly when there is none. */
  ghost predicate UniqueSuccessor(t: Tree, item: int, r: Outcome<Option<int>>) {
    && r.Returned?
    && (r.value.None? <==> forall e | e in Elems(t) :: e <= item)
    && (r.value.Some? ==>
         && r.value.value in Elems(t) && item < r.value.value
         && (forall e | e in Elems(t) && item < e :: r.value.value <= e))
  }

  /** `successor` computed on the sorted in-order list meets `SuccessorSpec`. */
  lemma {:induction false} SuccessorInTree(t: Tree, item: int, r: Outcome<Option<int>>)
    requires r == SuccessorIn(Height(t), Sort(InOrder(t)), item)
    ensures SuccessorSpec(t, item, r)
  {
    var nodes := Sort(InOrder(t));
    SortedItems(t);
    HeightCorrect(t);
    if Height(t) != 0 {
      if item in nodes {
        SuccessorCount(Height(t), nodes, item);
        if Elems(t)[item] == 1 {
          SuccessorPresent(t, item, r);
        }
      } else {
        SuccessorAbsent(Height(t), nodes, item);
      }
    }
  }

  /** For an item stored once (and more than one node), `successor` meets `UniqueSuccessor`. */
  lemma {:induction false} SuccessorPresent(t: Tree, item: int, r: Outcome<Option<int>>)
    requires Height(t) != 0 && Elems(t)[item] == 1
    requires r == SuccessorIn(Height(t), Sort(InOrder(t)), item)
    ensures UniqueSuccessor(t, item, r)
  {
    var nodes := Sort(InOrder(t));
    SortedItems(t);
    assert item in nodes;
    SuccessorSorted(Height(t), nodes, item);
    SuccessorCount(Height(t), nodes, item);
    if r.value.None? {
      forall e | e in Elems(t) ensures e <= item {
        assert e in nodes;
      }
    } else {
      var v := r.value.value;
      assert v in nodes && item < v;
      assert v in Elems(t);
      forall e | e in Elems(t) && item < e ensures v <= e {
        assert e in nodes;
      }
    }
  }

  /**
   * What `predecessor` promises, stated over the items of the tree `t`:
   * None for an absent item or a single node; for an item present (and
   * more than one node) an item strictly smaller than `item` and at least
   * every smaller item, or None exactly when no item is smaller.
   */
  ghost predicate PredecessorSpec(t: Tree, item: int, r: Option<int>) {
    && (item !in Elems(t) || Height(t) == 0 ==> r == None)
    && (Height(t) != 0 && item in Elems(t) ==>
         && (r.None? <==> forall e | e in Elems(t) :: item <= e)
         && (r.Some? ==>
              && r.value in Elems(t) && r.value < item
              && (forall e | e in Elems(t) && e < item :: e <= r.value)))
  }

  /** `predecessor` computed on the sorted in-order list meets `PredecessorSpec`. */
  lemma {:induction false} PredecessorInTree(t: Tree, item: int, r: Option<int>)
    requires r == PredecessorIn(Height(t), Sort(InOrder(t)), item)
    ensures PredecessorSpec(t, item, r)
  {
    var nodes := Sort(InOrder(t));
    SortedItems(t);
    if item !in Elems(t) {
      assert item !in nodes;
    } else if Height(t) != 0 {
      PredecessorPresent(t, item, r);
    }
  }

  lemma {:induction false} PredecessorPresent(t: Tree, item: int, r: Option<int>)
    requires Height(t) != 0 && item in Elems(t)
    requires r == PredecessorIn(Height(t), Sort(InOrder(t)), item)
    ensures r.None? <==> forall e | e in Elems(t) :: item <= e
    ensures r.Some? ==> r.value in Elems(t) && r.value < item
    ensures r.Some? ==> forall e | e in Elems(t) && e < item :: e <= r.value
  {
    var nodes := Sort(InOrder(t));
    SortedItems(t);
    assert item in nodes;
    PredecessorSorted(Height(t), nodes, item);
    if r.None? {
      forall e | e in Elems(t) ensures item <= e {
        assert e in nodes;
      }
    } else {
      assert r.value in nodes && r.value < item;
      assert r.value in Elems(t);
      forall e | e in Elems(t) && e < item ensures e <= r.value {
        assert e in nodes;
      }
    }
  }
}
