/**
 * Removal and insertion in the AVL tree, on tree values: what each
 * recursive step of the code leaves in the slot it was given, and the
 * theorems that they keep a balanced search tree balanced and ordered.
 */
module AvlUpdates {
  import opened SearchTrees
  import opened AvlBalance

  /**
   * The two-argument `_iopRemove` below the target, on the node `n` met on
   * the way down the right spine of the target's left subtree: the
   * rightmost node of `n` gives up its key and data and its slot takes its
   * left child; every node passed on the way down is rebalanced on the way
   * back up, innermost first.
   */
  function RemoveMaxTree<D>(n: AvlTree<D>): Result<(AvlTree<D>, (int, D))>
    requires n.Node?
  {
    if n.right.Nil? then Ok((n.left, (n.key, n.data)))
    else
      match RemoveMaxTree(n.right)
      case Err(f) => Err(f)
      case Ok((c, m)) =>
        match EnsureBalance(n.(right := c))
        case Err(f) => Err(f)
        case Ok(u) => Ok((u, m))
  }

  /**
   * The one-argument `_iopRemove` on the target `t`: the in-order
   * predecessor's key and data take the target's place, the predecessor is
   * unlinked, and the target's slot is rebalanced last; the target's data
   * is returned. A null target or a target without a left child is an error.
   */
  function IopRemoveTree<D>(t: AvlTree<D>): Result<(AvlTree<D>, D)>
  {
    if t.Nil? || t.left.Nil? then Err(MissingNode)
    else
      match RemoveMaxTree(t.left)
      case Err(f) => Err(f)
      case Ok((c, m)) =>
        match EnsureBalance(Node(c, m.0, m.1, t.cache, t.right))
        case Err(f) => Err(f)
        case Ok(u) => Ok((u, t.data))
  }

  /**
   * The one-argument `_iopRemove` as written. Its first call of the
   * two-argument version passes a reference to the left pointer inside the
   * target's own node. When the predecessor lies below the target's left
   * child, the swap moves the target's node down to the predecessor's place
   * and `_remove` deletes it there; back in the first call, the code then
   * reads that reference, a pointer inside the deleted node.
   */
  function IopRemoveAsWritten<D>(t: AvlTree<D>): Result<(AvlTree<D>, D)>
  {
    if t.Nil? || t.left.Nil? then Err(MissingNode)
    else if t.left.right.Nil? then IopRemoveTree(t)
    else
      match RemoveMaxTree(t.left.right)
      case Err(f) => Err(f)
      case Ok(_) => Err(UseOfDeletedNode)
  }

  /**
   * `_remove` on the node `t`: a leaf leaves null behind, a node with one
   * child leaves that child, and a node with two children is removed
   * through its in-order predecessor. Returns the node's data; null is an error.
   */
  function RemoveTree<D>(t: AvlTree<D>): Result<(AvlTree<D>, D)>
  {
    if t.Nil? then Err(NotFound)
    else if t.left.Nil? && t.right.Nil? then Ok((Nil, t.data))
    else if t.right.Nil? then Ok((t.left, t.data))
    else if t.left.Nil? then Ok((t.right, t.data))
    else IopRemoveTree(t)
  }

  /**
   * `_find_and_remove`: searches for `key`, removes its node, and rebalances
   * every node on the search path on the way back up, innermost first. A
   * search that reaches null is an error, and an error leaves the nodes
   * above it unbalanced.
   */
  function FindAndRemoveTree<D>(t: AvlTree<D>, key: int): Result<(AvlTree<D>, D)>
  {
    if t.Nil? then Err(NotFound)
    else if key == t.key then RemoveTree(t)
    else
      var d := if key < t.key then Left else Right;
      match FindAndRemoveTree(Child(t, d), key)
      case Err(f) => Err(f)
      case Ok((c, x)) =>
        match EnsureBalance(WithChild(t, d, c))
        case Err(f) => Err(f)
        case Ok(u) => Ok((u, x))
  }

  /**
   * The insertion the declaration of `_find_and_insert` describes: the new
   * leaf (height 0) goes where the search for its key ends, and every node
   * on the search path is rebalanced on the way back up. A key already
   * present is an error.
   */
  function FindAndInsertTree<D>(t: AvlTree<D>, key: int, data: D): Result<AvlTree<D>>
  {
    if t.Nil? then Ok(Leaf(key, data, 0))
    else if key == t.key then Err(KeyExists)
    else
      var d := if key < t.key then Left else Right;
      match FindAndInsertTree(Child(t, d), key, data)
      case Err(f) => Err(f)
      case Ok(c) => EnsureBalance(WithChild(t, d, c))
  }

  // What the removals take out

  /** Taking out the rightmost node removes exactly the last pair of the in-order walk. */
  lemma {:induction false} RemoveMaxWalk<D>(n: AvlTree<D>)
    requires n.Node? && RemoveMaxTree(n).Ok?
    ensures var (c, m) := RemoveMaxTree(n).value;
            Items(c) + [m] == Items(n)
  {
    if n.right.Node? {
      RemoveMaxWalk(n.right);
      var (c, m) := RemoveMaxTree(n.right).value;
      EnsureBalanceKeepsItems(n.(right := c));
    }
  }

  /** Removal through the predecessor takes exactly the target's own pair out of the walk. */
  lemma IopRemoveWalk<D>(t: AvlTree<D>)
    requires IopRemoveTree(t).Ok?
    ensures t.Node? && IopRemoveTree(t).value.1 == t.data
    ensures Items(IopRemoveTree(t).value.0) == Items(t.left) + Items(t.right)
  {
    RemoveMaxWalk(t.left);
    var (c, m) := RemoveMaxTree(t.left).value;
    EnsureBalanceKeepsItems(Node(c, m.0, m.1, t.cache, t.right));
  }

  /** `_remove` takes exactly the node's own pair out of the walk and returns its data. */
  lemma RemoveWalk<D>(t: AvlTree<D>)
    requires RemoveTree(t).Ok?
    ensures t.Node? && RemoveTree(t).value.1 == t.data
    ensures Items(RemoveTree(t).value.0) == Items(t.left) + Items(t.right)
  {
    if t.left.Node? && t.right.Node? {
      IopRemoveWalk(t);
    }
  }

  /** A missing key is reported as such and changes nothing. */
  lemma {:induction false} FindAndRemoveMissing<D>(t: AvlTree<D>, key: int)
    requires key !in Content(t)
    ensures FindAndRemoveTree(t, key) == Err(NotFound)
  {
    if t.Node? {
      var d := if key < t.key then Left else Right;
      FindAndRemoveMissing(Child(t, d), key);
    }
  }

  /**
   * On a search tree a removal that succeeds removed exactly `key`, returned
   * its data and left a search tree, whatever the balance.
   */
  lemma {:induction false} FindAndRemoveRemoves<D>(t: AvlTree<D>, key: int)
    requires Ordered(t) && FindAndRemoveTree(t, key).Ok?
    ensures var (u, x) := FindAndRemoveTree(t, key).value;
            key in Content(t) && x == Content(t)[key] &&
            Ordered(u) && Content(u) == Content(t) - {key}
  {
    var (u, x) := FindAndRemoveTree(t, key).value;
    if key == t.key {
      RemoveWalk(t);
      WalkWithoutRoot(t, u);
    } else {
      var d := if key < t.key then Left else Right;
      FindAndRemoveRemoves(Child(t, d), key);
      var (c, _) := FindAndRemoveTree(Child(t, d), key).value;
      RemoveBelow(t, d, c, key);
      EnsureBalanceKeepsItems(WithChild(t, d, c));
      SameWalk(u, WithChild(t, d, c));
    }
  }

  // What the removals keep balanced

  /**
   * Taking the rightmost node out of an AVL tree always succeeds, leaves an
   * AVL tree, and lowers the height by at most one.
   */
  lemma {:induction false} RemoveMaxBalances<D>(n: AvlTree<D>)
    requires n.Node? && Balanced(n)
    ensures RemoveMaxTree(n).Ok?
    ensures var c := RemoveMaxTree(n).value.0;
            Balanced(c) && Height(n) - 1 <= Height(c) <= Height(n)
  {
    BalancedChildren(n);
    if n.right.Node? {
      RemoveMaxBalances(n.right);
      var (c, m) := RemoveMaxTree(n.right).value;
      RebalanceChild(n, Right, c);
    }
  }

  lemma IopRemoveBalances<D>(t: AvlTree<D>)
    requires t.Node? && t.left.Node? && Balanced(t)
    ensures IopRemoveTree(t).Ok?
    ensures var u := IopRemoveTree(t).value.0;
            Balanced(u) && Height(t) - 1 <= Height(u) <= Height(t)
  {
    BalancedChildren(t);
    RemoveMaxBalances(t.left);
    var (c, m) := RemoveMaxTree(t.left).value;
    var t' := t.(key := m.0, data := m.1);
    assert Node(c, m.0, m.1, t.cache, t.right) == WithChild(t', Left, c);
    RebalanceChild(t', Left, c);
  }

  /** `_remove` on a node of an AVL tree always succeeds, leaves an AVL tree, and lowers the height by at most one. */
  lemma RemoveBalances<D>(t: AvlTree<D>)
    requires t.Node? && Balanced(t)
    ensures RemoveTree(t).Ok?
    ensures var u := RemoveTree(t).value.0;
            Balanced(u) && Height(t) - 1 <= Height(u) <= Height(t)
  {
    BalancedChildren(t);
    if t.left.Node? && t.right.Node? {
      IopRemoveBalances(t);
    }
  }

  /**
   * Removing a key of a balanced search tree always succeeds and leaves a
   * balanced tree whose height is the same or one less.
   */
  lemma {:induction false} FindAndRemoveBalances<D>(t: AvlTree<D>, key: int)
    requires Balanced(t) && Ordered(t) && key in Content(t)
    ensures FindAndRemoveTree(t, key).Ok?
    ensures var u := FindAndRemoveTree(t, key).value.0;
            Balanced(u) && Height(t) - 1 <= Height(u) <= Height(t)
  {
    if key == t.key {
      RemoveBalances(t);
    } else {
      var d := if key < t.key then Left else Right;
      BalancedChildren(t);
      assert key in Content(Child(t, d));
      FindAndRemoveBalances(Child(t, d), key);
      var (c, _) := FindAndRemoveTree(Child(t, d), key).value;
      RebalanceChild(t, d, c);
    }
  }

  /**
   * The main removal theorem: on a balanced search tree, removing a present
   * key succeeds, returns its data, and leaves a balanced search tree
   * holding every other key; removing a missing key reports it.
   */
  lemma FindAndRemoveCorrect<D>(t: AvlTree<D>, key: int)
    requires Balanced(t) && Ordered(t)
    ensures key !in Content(t) ==> FindAndRemoveTree(t, key) == Err(NotFound)
    ensures key in Content(t) ==>
              FindAndRemoveTree(t, key).Ok? &&
              var (u, x) := FindAndRemoveTree(t, key).value;
              x == Content(t)[key] && Balanced(u) && Ordered(u) && Content(u) == Content(t) - {key} &&
              Height(t) - 1 <= Height(u) <= Height(t)
  {
    if key in Content(t) {
      FindAndRemoveBalances(t, key);
      FindAndRemoveRemoves(t, key);
    } else {
      FindAndRemoveMissing(t, key);
    }
  }

  // The predecessor removal as written

  /**
   * On a balanced search tree whose in-order predecessor of the root lies
   * below the root's left child, `_iopRemove` as written reaches a deleted
   * node, although the removal it was meant to make succeeds and no longer
   * holds the target's key; when the predecessor is the left child itself,
   * the code as written makes that removal.
   */
  lemma IopRemoveAsWrittenDangles<D>(t: AvlTree<D>)
    requires t.Node? && t.left.Node? && Balanced(t) && Ordered(t)
    ensures IopRemoveTree(t).Ok? && t.key !in Content(IopRemoveTree(t).value.0)
    ensures t.left.right.Node? ==> IopRemoveAsWritten(t) == Err(UseOfDeletedNode)
    ensures t.left.right.Nil? ==> IopRemoveAsWritten(t) == IopRemoveTree(t)
  {
    IopRemoveBalances(t);
    IopRemoveWalk(t);
    WalkWithoutRoot(t, IopRemoveTree(t).value.0);
    BalancedChildren(t);
    if t.left.right.Node? {
      BalancedChildren(t.left);
      RemoveMaxBalances(t.left.right);
    }
  }

  // Insertion

  /**
   * On a search tree the insertion reports a key already present, and an
   * insertion that succeeds adds exactly `key` with `data` and leaves a
   * search tree, whatever the balance.
   */
  lemma {:induction false} FindAndInsertAdds<D>(t: AvlTree<D>, key: int, data: D)
    requires Ordered(t)
    ensures key in Content(t) ==> FindAndInsertTree(t, key, data) == Err(KeyExists)
    ensures FindAndInsertTree(t, key, data).Ok? ==>
              var u := FindAndInsertTree(t, key, data).value;
              Ordered(u) && Content(u) == Content(t)[key := data]
  {
    if t.Nil? {
      LeafFacts(key, data);
    } else if key != t.key {
      var d := if key < t.key then Left else Right;
      FindAndInsertAdds(Child(t, d), key, data);
      SearchStep(t, key);
      var f := FindAndInsertTree(Child(t, d), key, data);
      if f.Ok? && EnsureBalance(WithChild(t, d, f.value)).Ok? {
        assert key !in Content(Child(t, d));
        InsertBelow(t, d, f.value, key, data);
        EnsureBalanceKeepsItems(WithChild(t, d, f.value));
        SameWalk(EnsureBalance(WithChild(t, d, f.value)).value, WithChild(t, d, f.value));
      }
    }
  }

  /**
   * Inserting a new key into a balanced search tree always succeeds and
   * leaves a balanced tree whose height is the same or one more.
   */
  lemma {:induction false} FindAndInsertBalances<D>(t: AvlTree<D>, key: int, data: D)
    requires Balanced(t) && Ordered(t) && key !in Content(t)
    ensures FindAndInsertTree(t, key, data).Ok?
    ensures var u := FindAndInsertTree(t, key, data).value;
            Balanced(u) && Height(t) <= Height(u) <= Height(t) + 1
  {
    if t.Nil? {
      LeafFacts(key, data);
    } else {
      var d := if key < t.key then Left else Right;
      BalancedChildren(t);
      FindAndInsertBalances(Child(t, d), key, data);
      RebalanceChild(t, d, FindAndInsertTree(Child(t, d), key, data).value);
    }
  }
}
