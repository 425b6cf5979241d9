/**
 * Heights, balance factors, rotations and rebalancing of the AVL tree.
 *
 * An AVL node caches the height of its subtree in the `cache` field of the
 * shared node type: a new node starts at 0 and every later value is one more
 * than a child's height, so the cache is a `nat`.
 */
module AvlBalance {
  import opened SearchTrees

  type AvlTree<D> = Tree<nat, D>

  function Max(a: int, b: int): int
  {
    if a < b then b else a
  }

  /** `_get_height`: -1 for null, otherwise the height the node has cached. */
  function Height<D>(t: AvlTree<D>): (h: int)
    ensures h >= -1 && (h == -1 <==> t.Nil?)
  {
    if t.Nil? then -1 else t.cache
  }

  /** `_get_balance_factor`: 0 for null, otherwise right height minus left height. */
  function BalanceFactor<D>(t: AvlTree<D>): int
  {
    if t.Nil? then 0 else Height(t.right) - Height(t.left)
  }

  /** `_updateHeight`: a node's height recomputed from its children's cached heights; null stays null. */
  function UpdateHeight<D>(t: AvlTree<D>): AvlTree<D>
  {
    if t.Nil? then t else t.(cache := 1 + Max(Height(t.left), Height(t.right)))
  }

  // The debugging checks

  /** `_debugHeightCheck`: every node's cached height is one more than its taller child's. */
  predicate HeightCheck<D>(t: AvlTree<D>)
  {
    t.Node? ==>
      HeightCheck(t.left) && HeightCheck(t.right) &&
      Height(t) - Max(Height(t.left), Height(t.right)) == 1
  }

  /** `_debugBalanceCheck`: every node's balance factor is -1, 0 or 1. */
  predicate BalanceCheck<D>(t: AvlTree<D>)
  {
    t.Node? ==>
      BalanceCheck(t.left) && BalanceCheck(t.right) &&
      -1 <= Height(t.right) - Height(t.left) <= 1
  }

  /** `_debugOrderCheck` as written: a node is compared with its two children only. */
  predicate OrderCheckAsWritten<D>(t: AvlTree<D>)
  {
    t.Node? ==>
      (t.left.Node? ==> t.left.key < t.key) &&
      (t.right.Node? ==> t.key < t.right.key)
  }

  /** The AVL invariant: every cached height is right and every balance factor is -1, 0 or 1. */
  predicate Balanced<D>(t: AvlTree<D>)
  {
    HeightCheck(t) && BalanceCheck(t)
  }

  /** A search tree always passes the order check as written. */
  lemma OrderedPassesOrderCheck<D>(t: AvlTree<D>)
    requires Ordered(t)
    ensures OrderCheckAsWritten(t)
  {
    if t.Node? {
      assert t.left.Node? ==> t.left.key in Content(t.left);
      assert t.right.Node? ==> t.right.key in Content(t.right);
    }
  }

  /**
   * The order check as written lets through a tree that is not a search
   * tree: 3 sits in the left subtree of 2 as the right child of 1.
   */
  lemma OrderCheckLocalOnly<D>(d: D)
    ensures var t: AvlTree<D> := Node(Node(Nil, 1, d, 1, Leaf(3, d, 0)), 2, d, 2, Leaf(4, d, 0));
            OrderCheckAsWritten(t) && Balanced(t) && !Ordered(t)
  {
    LeafFacts(3, d);
    LeafFacts(4, d);
    var l: AvlTree<D> := Node(Nil, 1, d, 1, Leaf(3, d, 0));
    assert Balanced(l) && 3 in Content(l);
    var t: AvlTree<D> := Node(l, 2, d, 2, Leaf(4, d, 0));
    assert 3 in Content(t.left) && !(3 < t.key);
  }

  lemma LeafFacts<D>(k: int, d: D)
    ensures Content(Leaf(k, d, 0)) == map[k := d] && Balanced(Leaf(k, d, 0)) && Ordered(Leaf(k, d, 0))
  {
    assert Content(Leaf(k, d, 0)) == map[] + map[k := d] + map[];
  }

  /** `runDebuggingChecks`, with the full ordering check: true, or the failure it throws. */
  function RunDebuggingChecks<D>(t: AvlTree<D>): (r: Result<bool>)
    ensures r.Ok? ==> r.value
    ensures r.Ok? <==> Balanced(t) && Ordered(t)
  {
    if !HeightCheck(t) then Err(CheckFailed)
    else if !BalanceCheck(t) then Err(CheckFailed)
    else if !Ordered(t) then Err(CheckFailed)
    else Ok(true)
  }

  lemma BalancedChildren<D>(t: AvlTree<D>)
    requires t.Node? && Balanced(t)
    ensures Balanced(t.left) && Balanced(t.right)
    ensures t.cache == 1 + Max(Height(t.left), Height(t.right))
    ensures -1 <= BalanceFactor(t) <= 1
  {
  }

  /** A node whose children satisfy the invariant satisfies it once its height is recomputed, if its balance factor is -1, 0 or 1. */
  lemma UpdateHeightBalances<D>(t: AvlTree<D>)
    requires t.Node? && Balanced(t.left) && Balanced(t.right) && -1 <= BalanceFactor(t) <= 1
    ensures Balanced(UpdateHeight(t))
    ensures Height(UpdateHeight(t)) == 1 + Max(Height(t.left), Height(t.right))
  {
  }

  /** Recomputing a correct height changes nothing. */
  lemma UpdateHeightIdle<D>(t: AvlTree<D>)
    requires HeightCheck(t)
    ensures UpdateHeight(t) == t
  {
  }

  // Rotations

  /**
   * `_rotateLeft`: the right child becomes the top of the subtree and its
   * old left subtree becomes the old top's right subtree; the old top's
   * height is recomputed first, then the new top's.
   */
  function RotateLeft<D>(t: AvlTree<D>): (u: AvlTree<D>)
    requires t.Node? && t.right.Node?
    ensures u.Node?
  {
    var x := UpdateHeight(t.(right := t.right.left));
    UpdateHeight(t.right.(left := x))
  }

  /** `_rotateRight`: the mirror image of `RotateLeft`. */
  function RotateRight<D>(t: AvlTree<D>): (u: AvlTree<D>)
    requires t.Node? && t.left.Node?
    ensures u.Node?
  {
    var x := UpdateHeight(t.(left := t.left.right));
    UpdateHeight(t.left.(right := x))
  }

  /** `_rotateRightLeft`: a right rotation of the right subtree, then a left rotation of the whole. */
  function RotateRightLeft<D>(t: AvlTree<D>): (u: AvlTree<D>)
    requires t.Node? && t.right.Node? && t.right.left.Node?
    ensures u.Node?
  {
    RotateLeft(t.(right := RotateRight(t.right)))
  }

  /** `_rotateLeftRight`: a left rotation of the left subtree, then a right rotation of the whole. */
  function RotateLeftRight<D>(t: AvlTree<D>): (u: AvlTree<D>)
    requires t.Node? && t.left.Node? && t.left.right.Node?
    ensures u.Node?
  {
    RotateRight(t.(left := RotateLeft(t.left)))
  }

  /** Recomputing a height leaves the in-order walk alone. */
  lemma UpdateHeightItems<D>(t: AvlTree<D>)
    ensures Items(UpdateHeight(t)) == Items(t)
  {
  }

  /** Regrouping the walk around two nodes. */
  lemma Regroup<T>(a: seq<T>, x: T, b: seq<T>, y: T, c: seq<T>)
    ensures a + [x] + b + [y] + c == a + [x] + (b + [y] + c)
  {
  }

  lemma RotateLeftItems<D>(t: AvlTree<D>)
    requires t.Node? && t.right.Node?
    ensures Items(RotateLeft(t)) == Items(t)
  {
    var r := t.right;
    var x := t.(right := r.left);
    UpdateHeightItems(x);
    UpdateHeightItems(r.(left := UpdateHeight(x)));
    Regroup(Items(t.left), (t.key, t.data), Items(r.left), (r.key, r.data), Items(r.right));
  }

  lemma RotateRightItems<D>(t: AvlTree<D>)
    requires t.Node? && t.left.Node?
    ensures Items(RotateRight(t)) == Items(t)
  {
    var l := t.left;
    var x := t.(left := l.right);
    UpdateHeightItems(x);
    UpdateHeightItems(l.(right := UpdateHeight(x)));
    Regroup(Items(l.left), (l.key, l.data), Items(l.right), (t.key, t.data), Items(t.right));
  }

  /** Every rotation keeps the in-order walk, so it keeps the dictionary and the search-tree order. */
  lemma RotationsKeepItems<D>(t: AvlTree<D>)
    requires t.Node?
    ensures t.right.Node? ==> Items(RotateLeft(t)) == Items(t)
    ensures t.left.Node? ==> Items(RotateRight(t)) == Items(t)
    ensures t.right.Node? && t.right.left.Node? ==> Items(RotateRightLeft(t)) == Items(t)
    ensures t.left.Node? && t.left.right.Node? ==> Items(RotateLeftRight(t)) == Items(t)
  {
    if t.right.Node? {
      RotateLeftItems(t);
      if t.right.left.Node? {
        RotateRightItems(t.right);
        RotateLeftItems(t.(right := RotateRight(t.right)));
      }
    }
    if t.left.Node? {
      RotateRightItems(t);
      if t.left.right.Node? {
        RotateLeftItems(t.left);
        RotateRightItems(t.(left := RotateLeft(t.left)));
      }
    }
  }

  // Rebalancing

  /**
   * The rotation `_ensureBalance` applies to a node whose balance factor is
   * -2 or 2: a double rotation when the taller child leans the other way,
   * a single rotation otherwise; no rotation for -1, 0 or 1.
   */
  function Rotated<D>(t: AvlTree<D>): (u: AvlTree<D>)
    requires t.Node? && -2 <= BalanceFactor(t) <= 2
    requires BalanceFactor(t) == -2 ==> -1 <= BalanceFactor(t.left) <= 1
    requires BalanceFactor(t) == 2 ==> -1 <= BalanceFactor(t.right) <= 1
    ensures u.Node?
  {
    var b := BalanceFactor(t);
    if b == -2 then
      if BalanceFactor(t.left) == 1 then RotateLeftRight(t) else RotateRight(t)
    else if b == 2 then
      if BalanceFactor(t.right) == -1 then RotateRightLeft(t) else RotateLeft(t)
    else t
  }

  /** The end of `_ensureBalance`: recompute the height, then reject a balance factor still outside -1..1. */
  function FinishBalance<D>(u: AvlTree<D>): Result<AvlTree<D>>
    requires u.Node?
  {
    var v := UpdateHeight(u);
    if BalanceFactor(v) < -1 || 1 < BalanceFactor(v) then Err(InvalidBalance) else Ok(v)
  }

  /**
   * `_ensureBalance` as written: a child balance factor other than -1 or 1
   * in the direction of the imbalance is rejected, 0 included.
   */
  function EnsureBalanceAsWritten<D>(t: AvlTree<D>): Result<AvlTree<D>>
  {
    if t.Nil? then Ok(t)
    else
      var b := BalanceFactor(t);
      if b < -2 || 2 < b then Err(InvalidBalance)
      else if b == -2 && BalanceFactor(t.left) != -1 && BalanceFactor(t.left) != 1 then Err(UnexpectedChildBalance)
      else if b == 2 && BalanceFactor(t.right) != 1 && BalanceFactor(t.right) != -1 then Err(UnexpectedChildBalance)
      else FinishBalance(Rotated(t))
  }

  /**
   * `_ensureBalance` as its documentation describes it: a taller child with
   * balance factor 0, which only a removal leaves behind, takes a single
   * rotation. Null is left alone; a balance factor outside -2..2, a child
   * balance factor outside -1..1 and a node still out of balance afterwards
   * are errors.
   */
  function EnsureBalance<D>(t: AvlTree<D>): Result<AvlTree<D>>
  {
    if t.Nil? then Ok(t)
    else
      var b := BalanceFactor(t);
      if b < -2 || 2 < b then Err(InvalidBalance)
      else if b == -2 && !(-1 <= BalanceFactor(t.left) <= 1) then Err(UnexpectedChildBalance)
      else if b == 2 && !(-1 <= BalanceFactor(t.right) <= 1) then Err(UnexpectedChildBalance)
      else FinishBalance(Rotated(t))
  }

  /** Rebalancing never changes the in-order walk. */
  lemma EnsureBalanceKeepsItems<D>(t: AvlTree<D>)
    requires EnsureBalance(t).Ok?
    ensures Items(EnsureBalance(t).value) == Items(t)
  {
    if t.Node? {
      RotationsKeepItems(t);
    }
  }

  /** The left-left case: a single right rotation restores the invariant. */
  lemma RightRotationBalances<D>(t: AvlTree<D>)
    requires t.Node? && Balanced(t.left) && Balanced(t.right)
    requires BalanceFactor(t) == -2 && -1 <= BalanceFactor(t.left) <= 0
    ensures Balanced(RotateRight(t))
    ensures var m := Max(Height(t.left), Height(t.right));
            m <= Height(RotateRight(t)) <= m + 1
  {
    var l := t.left;
    BalancedChildren(l);
    var x := UpdateHeight(t.(left := l.right));
    UpdateHeightBalances(t.(left := l.right));
    UpdateHeightBalances(l.(right := x));
  }

  /** The left-right case: a left rotation of the left child, then a right rotation, restores the invariant. */
  lemma LeftRightRotationBalances<D>(t: AvlTree<D>)
    requires t.Node? && Balanced(t.left) && Balanced(t.right)
    requires BalanceFactor(t) == -2 && BalanceFactor(t.left) == 1
    ensures t.left.right.Node?
    ensures Balanced(RotateLeftRight(t))
    ensures Height(RotateLeftRight(t)) == Max(Height(t.left), Height(t.right))
  {
    var l := t.left;
    BalancedChildren(l);
    var lr := l.right;
    BalancedChildren(lr);
    var x1 := UpdateHeight(l.(right := lr.left));
    UpdateHeightBalances(l.(right := lr.left));
    var y1 := UpdateHeight(lr.(left := x1));
    assert RotateLeft(l) == y1;
    var t1 := t.(left := y1);
    var x2 := UpdateHeight(t1.(left := y1.right));
    UpdateHeightBalances(t1.(left := y1.right));
    UpdateHeightBalances(y1.(right := x2));
  }

  /** The right-right case, mirroring the left-left one. */
  lemma LeftRotationBalances<D>(t: AvlTree<D>)
    requires t.Node? && Balanced(t.left) && Balanced(t.right)
    requires BalanceFactor(t) == 2 && 0 <= BalanceFactor(t.right) <= 1
    ensures Balanced(RotateLeft(t))
    ensures var m := Max(Height(t.left), Height(t.right));
            m <= Height(RotateLeft(t)) <= m + 1
  {
    var r := t.right;
    BalancedChildren(r);
    var x := UpdateHeight(t.(right := r.left));
    UpdateHeightBalances(t.(right := r.left));
    UpdateHeightBalances(r.(left := x));
  }

  /** The right-left case, mirroring the left-right one. */
  lemma RightLeftRotationBalances<D>(t: AvlTree<D>)
    requires t.Node? && Balanced(t.left) && Balanced(t.right)
    requires BalanceFactor(t) == 2 && BalanceFactor(t.right) == -1
    ensures t.right.left.Node?
    ensures Balanced(RotateRightLeft(t))
    ensures Height(RotateRightLeft(t)) == Max(Height(t.left), Height(t.right))
  {
    var r := t.right;
    BalancedChildren(r);
    var rl := r.left;
    BalancedChildren(rl);
    var x1 := UpdateHeight(r.(left := rl.right));
    UpdateHeightBalances(r.(left := rl.right));
    var y1 := UpdateHeight(rl.(right := x1));
    assert RotateRight(r) == y1;
    var t1 := t.(right := y1);
    var x2 := UpdateHeight(t1.(right := y1.left));
    UpdateHeightBalances(t1.(right := y1.left));
    UpdateHeightBalances(y1.(left := x2));
  }

  /**
   * Rebalancing a node whose subtrees are AVL trees with heights at most 2
   * apart always succeeds and yields an AVL tree. Its height is one more
   * than the taller subtree's when no rotation was needed, and otherwise
   * that of the taller subtree or one more.
   */
  lemma EnsureBalanceRestores<D>(t: AvlTree<D>)
    requires t.Node? && Balanced(t.left) && Balanced(t.right) && -2 <= BalanceFactor(t) <= 2
    ensures EnsureBalance(t).Ok? && Balanced(EnsureBalance(t).value)
    ensures var m, h := Max(Height(t.left), Height(t.right)), Height(EnsureBalance(t).value);
            m <= h <= m + 1 && (-1 <= BalanceFactor(t) <= 1 ==> h == m + 1)
  {
    var b := BalanceFactor(t);
    if b == -2 {
      BalancedChildren(t.left);
      if BalanceFactor(t.left) == 1 {
        LeftRightRotationBalances(t);
      } else {
        RightRotationBalances(t);
      }
    } else if b == 2 {
      BalancedChildren(t.right);
      if BalanceFactor(t.right) == -1 {
        RightLeftRotationBalances(t);
      } else {
        LeftRotationBalances(t);
      }
    } else {
      UpdateHeightBalances(t);
    }
    var u := Rotated(t);
    if b == -2 || b == 2 {
      UpdateHeightIdle(u);
    }
  }

  /**
   * A node with two children whose taller child has balance factor 0,
   * as removing 1 from the AVL tree 2(1, 4(3, 5)) leaves it, is rejected
   * by `_ensureBalance` as written and rebalanced by the documented version.
   */
  lemma EnsureBalanceAsWrittenRejects<D>(d: D)
    ensures var t0: AvlTree<D> := Node(Leaf(1, d, 0), 2, d, 2, Node(Leaf(3, d, 0), 4, d, 1, Leaf(5, d, 0)));
            Balanced(t0) && Ordered(t0) &&
            var t := t0.(left := Nil);
            EnsureBalanceAsWritten(t) == Err(UnexpectedChildBalance) &&
            EnsureBalance(t).Ok? && Balanced(EnsureBalance(t).value)
  {
    var r: AvlTree<D> := Node(Leaf(3, d, 0), 4, d, 1, Leaf(5, d, 0));
    var t0: AvlTree<D> := Node(Leaf(1, d, 0), 2, d, 2, r);
    LeafFacts(1, d);
    LeafFacts(3, d);
    LeafFacts(5, d);
    assert Content(r) == Content(r.left) + map[4 := d] + Content(r.right);
    assert Balanced(r);
    var t := t0.(left := Nil);
    assert BalanceFactor(t) == 2 && BalanceFactor(r) == 0;
    EnsureBalanceRestores(t);
  }

  /**
   * Rebalancing after one child of an AVL node is replaced by an AVL tree
   * whose height differs from the old child's by at most one: it succeeds,
   * keeps the in-order walk, yields an AVL tree, and the height changes by
   * at most one, never growing when the child shrank nor shrinking when it grew.
   */
  lemma RebalanceChild<D>(t: AvlTree<D>, d: Dir, c: AvlTree<D>)
    requires t.Node? && Balanced(t) && Balanced(c)
    requires Height(Child(t, d)) - 1 <= Height(c) <= Height(Child(t, d)) + 1
    ensures var f := EnsureBalance(WithChild(t, d, c));
            f.Ok? && Balanced(f.value) && Items(f.value) == Items(WithChild(t, d, c)) &&
            Height(t) - 1 <= Height(f.value) <= Height(t) + 1 &&
            (Height(c) <= Height(Child(t, d)) ==> Height(f.value) <= Height(t)) &&
            (Height(Child(t, d)) <= Height(c) ==> Height(t) <= Height(f.value))
  {
    BalancedChildren(t);
    var u := WithChild(t, d, c);
    EnsureBalanceRestores(u);
    EnsureBalanceKeepsItems(u);
  }
}
