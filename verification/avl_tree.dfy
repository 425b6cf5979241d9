/**
 * The AVL tree: a search tree whose nodes cache their heights and which
 * rebalances itself by rotations on the way back up from a removal.
 *
 * Every private helper of the code receives a slot (`TreeNode*&`) and
 * rewrites the pointer in it; here a method receives the slot's path and
 * states the new head as the old one with that slot overwritten by what the
 * matching function of `AvlUpdates` or `AvlBalance` computes.
 */
module AvlTrees {
  import opened SearchTrees
  import opened AvlBalance
  import opened AvlUpdates

  class AVL<D> {
    /** The head pointer: null for an empty tree. */
    var head: AvlTree<D>

    /** The invariant every operation keeps when it succeeds: the tree is a search tree. */
    ghost predicate Valid()
      reads this
    {
      Ordered(head)
    }

    /** The tree as a map from keys to data. */
    function Contents(): map<int, D>
      reads this
    {
      Content(head)
    }

    constructor()
      ensures Valid() && Balanced(head) && head == Nil && Contents() == map[]
    {
      head := Nil;
    }

    /** `empty`: the head pointer is null exactly when the tree holds no key. */
    function Empty(): (r: bool)
      reads this
      ensures r <==> Contents() == map[]
    {
      assert head.Node? ==> head.key in Contents();
      head.Nil?
    }

    /** `find`: the data stored under `key`, or NotFound. */
    function Find(key: int): (r: Result<D>)
      reads this
      requires Valid()
      ensures r.Ok? <==> key in Contents()
      ensures r.Ok? ==> r.value == Contents()[key]
    {
      var n := At(head, FindPath(head, key));
      FindPathFinds(head, key);
      if n.Nil? then Err(NotFound) else Ok(n.data)
    }

    /** `printInOrder`, as the sequence of pairs it prints: increasing keys, describing exactly the tree's contents. */
    function PrintInOrder(): (s: seq<(int, D)>)
      reads this
      ensures Valid() ==> Increasing(s)
      ensures ToMap(s) == Contents()
    {
      OrderedIffIncreasing(head);
      ContentIsItems(head);
      Items(head)
    }

    /**
     * `insert` as written: a new leaf of height 0 goes into the null slot
     * where the search for `key` ends; no height is updated and nothing is
     * rebalanced. An existing key is an error.
     */
    method Insert(key: int, data: D) returns (r: Result<()>)
      requires Valid()
      modifies this
      ensures Valid()
      ensures key in old(Contents()) ==> r == Err(KeyExists) && head == old(head)
      ensures key !in old(Contents()) ==>
                r == Ok(()) && Contents() == old(Contents())[key := data] &&
                head == ReplaceAt(old(head), FindPath(old(head), key), Leaf(key, data, 0))
    {
      var p := FindPath(head, key);
      FindPathFinds(head, key);
      if At(head, p).Node? {
        return Err(KeyExists);
      }
      InsertAtFound(head, key, data, 0);
      head := ReplaceAt(head, p, Leaf(key, data, 0));
      r := Ok(());
    }

    /**
     * A rebalancing insert through `_find_and_insert`: on a balanced tree it
     * always succeeds and keeps the tree balanced.
     */
    method InsertBalanced(key: int, data: D) returns (r: Result<()>)
      requires Valid()
      modifies this
      ensures key in old(Contents()) ==> r == Err(KeyExists) && head == old(head)
      ensures r.Ok? ==> Valid() && key !in old(Contents()) && Contents() == old(Contents())[key := data]
      ensures old(Balanced(head)) && key !in old(Contents()) ==>
                r.Ok? && Balanced(head) && old(Height(head)) <= Height(head) <= old(Height(head)) + 1
    {
      ghost var h := head;
      r := FindAndInsert(key, data, []);
      FindAndInsertAdds(h, key, data);
      if Balanced(h) && key !in Content(h) {
        FindAndInsertBalances(h, key, data);
      }
    }

    /**
     * `_find_and_insert` on the slot `p`: places the new leaf below `p` and
     * rebalances every node on the way back up to `p`.
     */
    method FindAndInsert(key: int, data: D, p: seq<Dir>) returns (r: Result<()>)
      requires ValidSlot(head, p)
      modifies this
      ensures var f := FindAndInsertTree(old(At(head, p)), key, data);
              (f.Ok? ==> r == Ok(()) && head == ReplaceAt(old(head), p, f.value)) &&
              (f.Err? ==> r == Err(f.fault))
      ensures Ordered(old(At(head, p))) && key in Content(old(At(head, p))) ==> head == old(head)
      decreases Size(At(head, p))
    {
      var node := At(head, p);
      if node.Nil? {
        head := ReplaceAt(head, p, Leaf(key, data, 0));
        return Ok(());
      }
      if key == node.key {
        return Err(KeyExists);
      }
      var d := if key < node.key then Left else Right;
      ReplaceBelow(head, p, d, Nil);
      if Ordered(node) {
        SearchStep(node, key);
        FindAndInsertAdds(Child(node, d), key, data);
      }
      ghost var h := head;
      r := FindAndInsert(key, data, p + [d]);
      if r.Err? {
        return;
      }
      ghost var c := FindAndInsertTree(Child(node, d), key, data).value;
      ReplaceBelow(h, p, d, c);
      AtReplace(h, p, WithChild(node, d, c));
      r := EnsureBalanceAt(p);
      if r.Ok? {
        ReplaceTwice(h, p, WithChild(node, d, c), EnsureBalance(WithChild(node, d, c)).value);
      }
    }

    /**
     * `remove`: takes `key` out and returns its data. A missing key is an
     * error that changes nothing; on a balanced tree a present key is
     * always removed and the tree stays balanced.
     */
    method Remove(key: int) returns (r: Result<D>)
      requires Valid()
      modifies this
      ensures key !in old(Contents()) ==> r == Err(NotFound) && head == old(head)
      ensures r.Ok? ==>
                Valid() && key in old(Contents()) && r.value == old(Contents())[key] &&
                Contents() == old(Contents()) - {key}
      ensures old(Balanced(head)) && key in old(Contents()) ==>
                r.Ok? && Balanced(head) && old(Height(head)) - 1 <= Height(head) <= old(Height(head))
    {
      ghost var h := head;
      r := FindAndRemove(key, []);
      if key !in Content(h) {
        FindAndRemoveMissing(h, key);
      }
      if r.Ok? {
        FindAndRemoveRemoves(h, key);
      }
      if Balanced(h) && key in Content(h) {
        FindAndRemoveBalances(h, key);
      }
    }

    /**
     * `_find_and_remove` on the slot `p`: removes `key` below `p` and
     * rebalances every node on the way back up to `p`; an error skips the
     * rebalancing of the nodes above it.
     */
    method FindAndRemove(key: int, p: seq<Dir>) returns (r: Result<D>)
      requires ValidSlot(head, p)
      modifies this
      ensures var f := FindAndRemoveTree(old(At(head, p)), key);
              (f.Ok? ==> r == Ok(f.value.1) && head == ReplaceAt(old(head), p, f.value.0)) &&
              (f.Err? ==> r == Err(f.fault))
      ensures key !in Content(old(At(head, p))) ==> head == old(head)
      decreases Size(At(head, p))
    {
      var node := At(head, p);
      if node.Nil? {
        return Err(NotFound);
      }
      if key == node.key {
        r := RemoveAt(p);
        return;
      }
      var d := if key < node.key then Left else Right;
      ReplaceBelow(head, p, d, Nil);
      if key !in Content(node) {
        assert key !in Content(Child(node, d));
        FindAndRemoveMissing(Child(node, d), key);
      }
      ghost var h := head;
      r := FindAndRemove(key, p + [d]);
      if r.Err? {
        return;
      }
      ghost var c := FindAndRemoveTree(Child(node, d), key).value.0;
      ReplaceBelow(h, p, d, c);
      AtReplace(h, p, WithChild(node, d, c));
      var e := EnsureBalanceAt(p);
      if e.Err? {
        return Err(e.fault);
      }
      ReplaceTwice(h, p, WithChild(node, d, c), EnsureBalance(WithChild(node, d, c)).value);
    }

    /**
     * `_remove` on the slot `p`: a leaf's slot becomes null, a node with one
     * child is replaced by that child, and a node with two children is
     * removed through its in-order predecessor. A null slot is an error.
     */
    method RemoveAt(p: seq<Dir>) returns (r: Result<D>)
      requires ValidSlot(head, p)
      modifies this
      ensures var f := RemoveTree(old(At(head, p)));
              (f.Ok? ==> r == Ok(f.value.1) && head == ReplaceAt(old(head), p, f.value.0)) &&
              (f.Err? ==> r == Err(f.fault))
      ensures old(At(head, p)).Nil? ==> head == old(head)
      decreases if At(head, p).Node? && At(head, p).left.Node? && At(head, p).right.Node? then 3 else 0, 0
    {
      var node := At(head, p);
      if node.Nil? {
        return Err(NotFound);
      }
      if node.left.Nil? && node.right.Nil? {
        head := ReplaceAt(head, p, Nil);
      } else if node.right.Nil? {
        head := ReplaceAt(head, p, node.left);
      } else if node.left.Nil? {
        head := ReplaceAt(head, p, node.right);
      } else {
        // The code looks the predecessor up with `_iop_of`, which the AVL
        // tree does not define; `_iopRemove` removes through it instead.
        r := IopRemove(p);
        return;
      }
      r := Ok(node.data);
    }

    /**
     * The one-argument `_iopRemove` on the slot `p`: the target takes its
     * in-order predecessor's key and data, the predecessor's node is
     * removed, and the nodes from the predecessor's parent up to `p` are
     * rebalanced. The predecessor's search starts at the target's left
     * child slot, found by position rather than through the target's node.
     */
    method IopRemove(p: seq<Dir>) returns (r: Result<D>)
      requires ValidSlot(head, p)
      modifies this
      ensures var f := IopRemoveTree(old(At(head, p)));
              (f.Ok? ==> r == Ok(f.value.1) && head == ReplaceAt(old(head), p, f.value.0)) &&
              (f.Err? ==> r == Err(f.fault))
      decreases 2, 0
    {
      var node := At(head, p);
      if node.Nil? {
        return Err(MissingNode);
      }
      ReplaceBelow(head, p, Left, Nil);
      assert p < p + [Left];
      ghost var h := head;
      r := IopRemoveFrom(p, p + [Left]);
      if r.Err? {
        return;
      }
      ghost var (c, m) := RemoveMaxTree(node.left).value;
      PayloadThenLeft(h, p, m.0, m.1, c);
      var u := Node(c, m.0, m.1, node.cache, node.right);
      AtReplace(h, p, u);
      var e := EnsureBalanceAt(p);
      if e.Err? {
        return Err(e.fault);
      }
      ReplaceTwice(h, p, u, EnsureBalance(u).value);
    }

    /**
     * The two-argument `_iopRemove`: `p` is the target's slot and `q` the
     * slot of a node on the right spine of the target's left subtree. While
     * that node has a right child, the search goes on to it and the node is
     * rebalanced afterwards; otherwise it is the predecessor: it trades
     * places with the target, and the target is removed from its slot.
     */
    method IopRemoveFrom(p: seq<Dir>, q: seq<Dir>) returns (r: Result<D>)
      requires ValidSlot(head, p) && At(head, p).Node? && ValidSlot(head, q) && p < q
      modifies this
      ensures old(At(head, q)).Nil? ==> r == Err(MissingNode) && head == old(head)
      ensures old(At(head, q)).Node? ==>
                var f, t := RemoveMaxTree(old(At(head, q))), old(At(head, p));
                (f.Ok? ==> r == Ok(t.data) &&
                           ValidSlot(SetPayloadAt(old(head), p, f.value.1.0, f.value.1.1), q) &&
                           head == ReplaceAt(SetPayloadAt(old(head), p, f.value.1.0, f.value.1.1), q, f.value.0)) &&
                (f.Err? ==> r == Err(f.fault))
      decreases 1, Size(At(head, q))
    {
      var n := At(head, q);
      if n.Nil? {
        return Err(MissingNode);
      }
      ghost var h := head;
      if n.right.Node? {
        ReplaceBelow(head, q, Right, Nil);
        assert p < q + [Right];
        r := IopRemoveFrom(p, q + [Right]);
        if r.Err? {
          return;
        }
        ghost var (c, m) := RemoveMaxTree(n.right).value;
        ghost var h' := SetPayloadAt(h, p, m.0, m.1);
        PayloadAbove(h, p, m.0, m.1, q);
        ReplaceBelow(h', q, Right, c);
        AtReplace(h', q, n.(right := c));
        // `iopNode` still holds a node here, so `_ensureBalance` runs on it.
        var e := EnsureBalanceAt(q);
        if e.Err? {
          return Err(e.fault);
        }
        ReplaceTwice(h', q, n.(right := c), EnsureBalance(n.(right := c)).value);
        return;
      }
      SwapBelow(h, p, q, n.left);
      SwappedSlotHoldsFirst(head, p, q);
      var moved := SwapNodes(p, q);
      r := RemoveAt(moved);
    }

    /**
     * `_swap_nodes`: the nodes in slots `p1` and `p2` trade places, while
     * the heights stay with the positions (the code swaps the two heights
     * first), so their keys and data are exchanged; returns the slot the
     * code returns, which holds the node that was in `p1` whenever `p2` lies
     * below `p1` (SwappedSlotHoldsFirst).
     */
    method SwapNodes(p1: seq<Dir>, p2: seq<Dir>) returns (moved: seq<Dir>)
      requires ValidSlot(head, p1) && At(head, p1).Node? && ValidSlot(head, p2) && At(head, p2).Node?
      modifies this
      ensures head == SwapPayloads(old(head), p1, p2) && moved == SwappedSlotAsWritten(p1, p2)
    {
      head := SwapPayloads(head, p1, p2);
      moved := SwappedSlotAsWritten(p1, p2);
    }

    /** `_updateHeight` on the slot `p`; null is left alone. */
    method UpdateHeightAt(p: seq<Dir>)
      requires ValidSlot(head, p)
      modifies this
      ensures old(At(head, p)).Nil? ==> head == old(head)
      ensures old(At(head, p)).Node? ==> head == ReplaceAt(old(head), p, UpdateHeight(old(At(head, p))))
    {
      var n := At(head, p);
      if n.Node? {
        head := ReplaceAt(head, p, UpdateHeight(n));
      }
    }

    /** `_rotateLeft` on the slot `p`; a null node or a null right child is an error. */
    method RotateLeftAt(p: seq<Dir>) returns (r: Result<()>)
      requires ValidSlot(head, p)
      modifies this
      ensures var n := old(At(head, p));
              (n.Node? && n.right.Node? ==> r == Ok(()) && head == ReplaceAt(old(head), p, RotateLeft(n))) &&
              (n.Nil? || n.right.Nil? ==> r == Err(MissingNode) && head == old(head))
    {
      var n := At(head, p);
      if n.Nil? || n.right.Nil? {
        return Err(MissingNode);
      }
      head := ReplaceAt(head, p, RotateLeft(n));
      r := Ok(());
    }

    /** `_rotateRight` on the slot `p`; a null node or a null left child is an error. */
    method RotateRightAt(p: seq<Dir>) returns (r: Result<()>)
      requires ValidSlot(head, p)
      modifies this
      ensures var n := old(At(head, p));
              (n.Node? && n.left.Node? ==> r == Ok(()) && head == ReplaceAt(old(head), p, RotateRight(n))) &&
              (n.Nil? || n.left.Nil? ==> r == Err(MissingNode) && head == old(head))
    {
      var n := At(head, p);
      if n.Nil? || n.left.Nil? {
        return Err(MissingNode);
      }
      head := ReplaceAt(head, p, RotateRight(n));
      r := Ok(());
    }

    /** `_rotateRightLeft` on the slot `p`: a right rotation of the right child's slot, then a left rotation of `p`. */
    method RotateRightLeftAt(p: seq<Dir>) returns (r: Result<()>)
      requires ValidSlot(head, p)
      modifies this
      ensures var n := old(At(head, p));
              (n.Node? && n.right.Node? && n.right.left.Node? ==>
                 r == Ok(()) && head == ReplaceAt(old(head), p, RotateRightLeft(n))) &&
              (n.Nil? || n.right.Nil? || n.right.left.Nil? ==> r == Err(MissingNode) && head == old(head))
    {
      var n := At(head, p);
      if n.Nil? {
        return Err(MissingNode);
      }
      ReplaceBelow(head, p, Right, Nil);
      ghost var h := head;
      r := RotateRightAt(p + [Right]);
      if r.Err? {
        return;
      }
      var u := n.(right := RotateRight(n.right));
      ReplaceBelow(h, p, Right, RotateRight(n.right));
      AtReplace(h, p, u);
      r := RotateLeftAt(p);
      ReplaceTwice(h, p, u, RotateLeft(u));
    }

    /** `_rotateLeftRight` on the slot `p`: a left rotation of the left child's slot, then a right rotation of `p`. */
    method RotateLeftRightAt(p: seq<Dir>) returns (r: Result<()>)
      requires ValidSlot(head, p)
      modifies this
      ensures var n := old(At(head, p));
              (n.Node? && n.left.Node? && n.left.right.Node? ==>
                 r == Ok(()) && head == ReplaceAt(old(head), p, RotateLeftRight(n))) &&
              (n.Nil? || n.left.Nil? || n.left.right.Nil? ==> r == Err(MissingNode) && head == old(head))
    {
      var n := At(head, p);
      if n.Nil? {
        return Err(MissingNode);
      }
      ReplaceBelow(head, p, Left, Nil);
      ghost var h := head;
      r := RotateLeftAt(p + [Left]);
      if r.Err? {
        return;
      }
      var u := n.(left := RotateLeft(n.left));
      ReplaceBelow(h, p, Left, RotateLeft(n.left));
      AtReplace(h, p, u);
      r := RotateRightAt(p);
      ReplaceTwice(h, p, u, RotateRight(u));
    }

    /**
     * `_ensureBalance` on the slot `p`, with a taller child of balance
     * factor 0 taking a single rotation (the code as written rejects it;
     * see `EnsureBalanceAsWritten`).
     */
    method EnsureBalanceAt(p: seq<Dir>) returns (r: Result<()>)
      requires ValidSlot(head, p)
      modifies this
      ensures var f := EnsureBalance(old(At(head, p)));
              (f.Ok? ==> r == Ok(()) && head == ReplaceAt(old(head), p, f.value)) &&
              (f.Err? ==> r == Err(f.fault))
    {
      var n := At(head, p);
      if n.Nil? {
        ReplaceSame(head, p);
        return Ok(());
      }
      var b := BalanceFactor(n);
      if b < -2 || 2 < b {
        return Err(InvalidBalance);
      }
      ghost var h := head;
      if b == -2 {
        var lb := BalanceFactor(n.left);
        if lb == -1 || lb == 0 {
          var e := RotateRightAt(p);
        } else if lb == 1 {
          var e := RotateLeftRightAt(p);
        } else {
          return Err(UnexpectedChildBalance);
        }
      } else if b == 2 {
        var rb := BalanceFactor(n.right);
        if rb == 1 || rb == 0 {
          var e := RotateLeftAt(p);
        } else if rb == -1 {
          var e := RotateRightLeftAt(p);
        } else {
          return Err(UnexpectedChildBalance);
        }
      }
      var u := Rotated(n);
      if b == -2 || b == 2 {
        AtReplace(h, p, u);
      }
      UpdateHeightAt(p);
      if b == -2 || b == 2 {
        ReplaceTwice(h, p, u, UpdateHeight(u));
      }
      AtReplace(h, p, UpdateHeight(u));
      assert head == ReplaceAt(h, p, UpdateHeight(u));
      assert EnsureBalance(n) == FinishBalance(u);
      var fb := BalanceFactor(At(head, p));
      if fb < -1 || 1 < fb {
        return Err(InvalidBalance);
      }
      r := Ok(());
    }

    /**
     * `clear_tree`: removes the head's key until the tree is empty. With the
     * documented rebalancing, every removal from a balanced tree succeeds, so
     * the tree ends up empty.
     */
    method ClearTree() returns (r: Result<()>)
      requires Valid()
      modifies this
      ensures r.Ok? ==> head == Nil && Contents() == map[]
      ensures old(Balanced(head)) ==> r.Ok?
    {
      ghost var balanced := Balanced(head);
      while head.Node?
        invariant Valid()
        invariant balanced ==> Balanced(head)
        decreases |Contents().Keys|
      {
        assert head.key in Contents();
        var d := Remove(head.key);
        if d.Err? {
          return Err(d.fault);
        }
      }
      r := Ok(());
    }
  }

  /**
   * The insertion as written leaves stale heights: inserting a larger key
   * under a single node keeps the root's height at 0 above a child of
   * height 0, which the height check rejects.
   */
  lemma InsertStaleHeight<D>(k: int, d: D, key: int, data: D)
    requires k < key
    ensures var t: AvlTree<D> := Leaf(k, d, 0);
            Balanced(t) && Ordered(t) &&
            !HeightCheck(ReplaceAt(t, FindPath(t, key), Leaf(key, data, 0))) &&
            FindAndInsertTree(t, key, data).Ok? && Balanced(FindAndInsertTree(t, key, data).value)
  {
    var t: AvlTree<D> := Leaf(k, d, 0);
    LeafFacts(k, d);
    LeafFacts(key, data);
    var p := FindPath(t, key);
    assert p == [Right] + FindPath(t.right, key);
    assert ReplaceAt(t, p, Leaf(key, data, 0)) == t.(right := Leaf(key, data, 0));
    FindAndInsertBalances(t, key, data);
  }
}
