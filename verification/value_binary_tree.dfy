// A binary tree of heap-allocated nodes built level by level from a sequence,
// and its pre-, in- and post-order traversals.
//
// The tree's own pointers live in TreeNode objects. Ghost fields record, for
// each level-order position i, the node placed there (`made[i]`) and its value
// (`values[i]`); the children of position i are positions 2i+1 and 2i+2. The
// traversals are stated on a value view of the same shape, `Complete`.

module ValueBinaryTrees {

  /** The value a subtree denotes. */
  datatype Tree<T> = Nil | Node(left: Tree<T>, data: T, right: Tree<T>)

  function Size<T>(t: Tree<T>): nat
  {
    match t
    case Nil => 0
    case Node(l, _, r) => Size(l) + 1 + Size(r)
  }

  function Elements<T>(t: Tree<T>): multiset<T>
  {
    match t
    case Nil => multiset{}
    case Node(l, x, r) => Elements(l) + multiset{x} + Elements(r)
  }

  /** Node first, then the left subtree, then the right subtree. */
  function PreOrder<T>(t: Tree<T>): seq<T>
  {
    match t
    case Nil => []
    case Node(l, x, r) => [x] + PreOrder(l) + PreOrder(r)
  }

  /** Left subtree, then the node, then the right subtree. */
  function InOrder<T>(t: Tree<T>): seq<T>
  {
    match t
    case Nil => []
    case Node(l, x, r) => InOrder(l) + [x] + InOrder(r)
  }

  /** Left subtree, then the right subtree, then the node. */
  function PostOrder<T>(t: Tree<T>): seq<T>
  {
    match t
    case Nil => []
    case Node(l, x, r) => PostOrder(l) + PostOrder(r) + [x]
  }

  /** The pre-order walk lists every element of the tree exactly once. */
  lemma {:induction false} PreOrderListsElements<T>(t: Tree<T>)
    ensures |PreOrder(t)| == Size(t)
    ensures multiset(PreOrder(t)) == Elements(t)
  {
    match t
    case Nil =>
    case Node(l, x, r) =>
      PreOrderListsElements(l);
      PreOrderListsElements(r);
  }

  /** The in-order walk lists every element of the tree exactly once. */
  lemma {:induction false} InOrderListsElements<T>(t: Tree<T>)
    ensures |InOrder(t)| == Size(t)
    ensures multiset(InOrder(t)) == Elements(t)
  {
    match t
    case Nil =>
    case Node(l, x, r) =>
      InOrderListsElements(l);
      InOrderListsElements(r);
  }

  /** The post-order walk lists every element of the tree exactly once. */
  lemma {:induction false} PostOrderListsElements<T>(t: Tree<T>)
    ensures |PostOrder(t)| == Size(t)
    ensures multiset(PostOrder(t)) == Elements(t)
  {
    match t
    case Nil =>
    case Node(l, x, r) =>
      PostOrderListsElements(l);
      PostOrderListsElements(r);
  }

  /** The complete tree whose level-order positions hold `c`, rooted at position `i`. */
  function Complete<T>(c: seq<T>, i: nat): Tree<T>
    decreases |c| - i
  {
    if i < |c| then Node(Complete(c, 2 * i + 1), c[i], Complete(c, 2 * i + 2)) else Nil
  }

  lemma PostOrderOfComplete<T>(c: seq<T>, i: nat)
    requires i < |c|
    ensures PostOrder(Complete(c, i)) ==
      PostOrder(Complete(c, 2 * i + 1)) + PostOrder(Complete(c, 2 * i + 2)) + [c[i]]
  {
  }

  /** Position `j` lies in the subtree rooted at position `i`. */
  ghost predicate InSubtree(i: nat, j: nat)
    decreases j
  {
    i == j || (i < j && InSubtree(i, (j - 1) / 2))
  }

  lemma {:induction false} BelowChild(i: nat, c: nat, j: nat)
    requires c == 2 * i + 1 || c == 2 * i + 2
    requires InSubtree(c, j)
    ensures InSubtree(i, j) && j != i
    decreases j
  {
    if j != c {
      BelowChild(i, c, (j - 1) / 2);
    }
  }

  lemma {:induction false} BelowOneChild(i: nat, j: nat)
    requires InSubtree(i, j) && j != i
    ensures InSubtree(2 * i + 1, j) || InSubtree(2 * i + 2, j)
    decreases j
  {
    if (j - 1) / 2 != i {
      BelowOneChild(i, (j - 1) / 2);
    }
  }

  /** The ancestors of a position form a chain. */
  lemma {:induction false} AncestorsChain(a: nat, b: nat, j: nat)
    requires a <= b && InSubtree(a, j) && InSubtree(b, j)
    ensures InSubtree(a, b)
    decreases j
  {
    if j != a && j != b {
      AncestorsChain(a, b, (j - 1) / 2);
    }
  }

  lemma SiblingsDisjoint(i: nat, j: nat)
    ensures !(InSubtree(2 * i + 1, j) && InSubtree(2 * i + 2, j))
  {
    if InSubtree(2 * i + 1, j) && InSubtree(2 * i + 2, j) {
      AncestorsChain(2 * i + 1, 2 * i + 2, j);
      assert false;
    }
  }

  /** A subtree is its root and its two child subtrees, which do not overlap. */
  lemma SubtreeParts(i: nat, lc: nat, rc: nat, j: nat)
    requires lc == 2 * i + 1 && rc == 2 * i + 2
    ensures InSubtree(i, j) <==> j == i || InSubtree(lc, j) || InSubtree(rc, j)
    ensures !(InSubtree(lc, j) && InSubtree(rc, j))
    ensures InSubtree(lc, j) || InSubtree(rc, j) ==> j != i
  {
    if InSubtree(lc, j) {
      BelowChild(i, lc, j);
    }
    if InSubtree(rc, j) {
      BelowChild(i, rc, j);
    }
    if InSubtree(i, j) && j != i {
      BelowOneChild(i, j);
    }
    SiblingsDisjoint(i, j);
  }

  lemma {:induction false} BelowRoot(j: nat)
    ensures InSubtree(0, j)
    decreases j
  {
    if j != 0 {
      BelowRoot((j - 1) / 2);
    }
  }

  /** Positions below `i` among the first `n`. */
  ghost function Below(n: nat, i: nat): set<nat>
  {
    set j: nat | i <= j < n && InSubtree(i, j)
  }

  lemma BelowSplits(n: nat, i: nat)
    requires i < n
    ensures Below(n, i) == {i} + Below(n, 2 * i + 1) + Below(n, 2 * i + 2)
    ensures i !in Below(n, 2 * i + 1) + Below(n, 2 * i + 2)
    ensures Below(n, 2 * i + 1) !! Below(n, 2 * i + 2)
  {
    var l, r := 2 * i + 1, 2 * i + 2;
    forall j | j in Below(n, i) && j != i
      ensures j in Below(n, l) + Below(n, r)
    {
      BelowOneChild(i, j);
    }
    forall j | j in Below(n, l) + Below(n, r)
      ensures j in Below(n, i) && j != i
    {
      if InSubtree(l, j) {
        BelowChild(i, l, j);
      } else {
        BelowChild(i, r, j);
      }
    }
    forall j | j in Below(n, l)
      ensures j !in Below(n, r)
    {
      SiblingsDisjoint(i, j);
    }
  }

  lemma {:induction false} SizeCountsBelow<T>(c: seq<T>, i: nat)
    ensures Size(Complete(c, i)) == |Below(|c|, i)|
    decreases |c| - i
  {
    if i < |c| {
      BelowSplits(|c|, i);
      SizeCountsBelow(c, 2 * i + 1);
      SizeCountsBelow(c, 2 * i + 2);
    } else {
      assert Below(|c|, i) == {};
    }
  }

  /** The positions 0..n-1. */
  ghost function Range(n: nat): set<nat>
  {
    if n == 0 then {} else Range(n - 1) + {n - 1}
  }

  lemma {:induction false} RangeSize(n: nat)
    ensures |Range(n)| == n
    ensures forall j: nat :: j in Range(n) <==> j < n
  {
    if n > 0 {
      RangeSize(n - 1);
    }
  }

  /** The complete tree built from `c` has exactly |c| nodes. */
  lemma CompleteHasAll<T>(c: seq<T>)
    ensures Size(Complete(c, 0)) == |c|
    ensures |PreOrder(Complete(c, 0))| == |c|
  {
    SizeCountsBelow(c, 0);
    forall j: nat | j < |c|
      ensures j in Below(|c|, 0)
    {
      BelowRoot(j);
    }
    RangeSize(|c|);
    assert Below(|c|, 0) == Range(|c|);
    PreOrderListsElements(Complete(c, 0));
  }

  /** The shape `createCompleteTree` builds from the seven values of the example program. */
  lemma SevenShape(c: seq<int>)
    requires c == [1, 2, 3, 4, 5, 6, 7]
    ensures Complete(c, 0) == Node(Node(Node(Nil, 4, Nil), 2, Node(Nil, 5, Nil)), 1, Node(Node(Nil, 6, Nil), 3, Node(Nil, 7, Nil)))
  {
    assert Complete(c, 3) == Node(Nil, 4, Nil);
    assert Complete(c, 4) == Node(Nil, 5, Nil);
    assert Complete(c, 5) == Node(Nil, 6, Nil);
    assert Complete(c, 6) == Node(Nil, 7, Nil);
    assert Complete(c, 1) == Node(Node(Nil, 4, Nil), 2, Node(Nil, 5, Nil));
    assert Complete(c, 2) == Node(Node(Nil, 6, Nil), 3, Node(Nil, 7, Nil));
  }

  /** The three traversals of the seven-element complete tree of the example program. */
  lemma SevenTraversals(c: seq<int>)
    requires c == [1, 2, 3, 4, 5, 6, 7]
    ensures PreOrder(Complete(c, 0)) == [1, 2, 4, 5, 3, 6, 7]
    ensures InOrder(Complete(c, 0)) == [4, 2, 5, 1, 6, 3, 7]
    ensures PostOrder(Complete(c, 0)) == [4, 5, 2, 6, 7, 3, 1]
  {
    SevenShape(c);
    var l := Node(Node(Nil, 4, Nil), 2, Node(Nil, 5, Nil));
    var r := Node(Node(Nil, 6, Nil), 3, Node(Nil, 7, Nil));
    assert PreOrder(l) == [2, 4, 5] && InOrder(l) == [4, 2, 5] && PostOrder(l) == [4, 5, 2];
    assert PreOrder(r) == [3, 6, 7] && InOrder(r) == [6, 3, 7] && PostOrder(r) == [6, 7, 3];
  }

  class TreeNode {
    var data: int
    var left: TreeNode?
    var right: TreeNode?

    constructor (d: int)
      ensures data == d && left == null && right == null
    {
      data, left, right := d, null, null;
    }
  }

  /** A child field waiting to be filled: the left or right pointer of `parent`. */
  datatype Slot = LeftOf(parent: TreeNode) | RightOf(parent: TreeNode)

  class ValueBinaryTree {
    var root: TreeNode?
    ghost var made: seq<TreeNode>
    ghost var values: seq<int>

    /** The node at position `i`, or null past the last one. */
    ghost function At(i: nat): TreeNode?
      reads this
    {
      if i < |made| then made[i] else null
    }

    ghost predicate LinkedAt(i: nat)
      requires i < |made| && |values| == |made|
      reads this, made[i]
    {
      made[i].data == values[i] && ChildLinks(i)
    }

    ghost predicate ChildLinks(i: nat)
      requires i < |made|
      reads this, made[i]
    {
      made[i].left == At(2 * i + 1) && made[i].right == At(2 * i + 2)
    }

    ghost predicate Distinct()
      reads this
    {
      forall a, b :: 0 <= a < b < |made| ==> made[a] != made[b]
    }

    /** The nodes form the complete tree of `values`, rooted at `root`. */
    ghost predicate Valid()
      reads this, made
    {
      |values| == |made| && root == At(0) && Distinct() &&
      forall i :: 0 <= i < |made| ==> LinkedAt(i)
    }

    /** The slot that receives position `c` (c >= 1) once positions 0..c-1 exist. */
    ghost function SlotFor(c: nat): Slot
      requires 1 <= c && (c - 1) / 2 < |made|
      reads this
    {
      if c % 2 == 1 then LeftOf(made[(c - 1) / 2]) else RightOf(made[(c - 1) / 2])
    }

    constructor ()
      ensures Valid() && root == null && values == []
    {
      root, made, values := null, [], [];
    }

    /** Default construction followed by CreateCompleteTree. */
    constructor FromContents(contents: seq<int>)
      ensures Valid() && values == contents
    {
      root, made, values := null, [], [];
      new;
      CreateCompleteTree(contents);
    }

    /**
     * Clears the tree, then fills it level by level from `contents`: position 0
     * is the root and the children of position i are positions 2i+1 and 2i+2.
     */
    method CreateCompleteTree(contents: seq<int>)
      requires Valid()
      modifies this, made
      ensures Valid() && values == contents
      ensures forall j :: 0 <= j < |made| ==> fresh(made[j])
      ensures forall n :: n in old(made) ==> n.left == null && n.right == null
    {
      DestroyWholeTree();
      if |contents| == 0 {
        return;
      }
      var top := new TreeNode(contents[0]);
      root, made, values := top, [top], [contents[0]];
      FillLevels(contents);
    }

    /**
     * The loop of `createCompleteTree`: with the root in place, each further
     * item becomes a fresh node stored through the first open slot of the queue.
     */
    method FillLevels(contents: seq<int>)
      requires Valid() && |made| == 1 && |contents| >= 1 && values == contents[..1]
      modifies this, made
      ensures Valid() && values == contents && made[0] == old(made[0])
      ensures forall j :: 1 <= j < |made| ==> fresh(made[j])
    {
      var top: TreeNode := root;
      var queue := [LeftOf(top), RightOf(top)];
      for i := 1 to |contents|
        invariant Valid() && |made| == i && values == contents[..i] && made[0] == old(made[0])
        invariant forall j :: 1 <= j < |made| ==> fresh(made[j])
        invariant |queue| == i + 1
        invariant forall k :: 0 <= k < |queue| ==> queue[k] == SlotFor(i + k)
      {
        var slot := queue[0];
        queue := queue[1..];
        var n := new TreeNode(contents[i]);
        Attach(slot, n);
        queue := queue + [LeftOf(n), RightOf(n)];
      }
    }

    /** Stores `n` through the next open slot; `n` becomes the next position. */
    method Attach(slot: Slot, n: TreeNode)
      requires Valid() && 1 <= |made| && slot == SlotFor(|made|)
      requires n !in made && n.left == null && n.right == null
      modifies this, slot.parent
      ensures Valid() && made == old(made) + [n] && values == old(values) + [n.data]
      ensures n.data == old(n.data)
    {
      ghost var m := |made|;
      ghost var q := (m - 1) / 2;
      match slot {
        case LeftOf(p) => p.left := n;
        case RightOf(p) => p.right := n;
      }
      made, values := made + [n], values + [n.data];
      forall i | 0 <= i < |made|
        ensures LinkedAt(i)
      {
        if i < m {
          assert old(LinkedAt(i));
          if i != q {
            assert made[i] != made[q];
          }
        }
      }
    }

    /**
     * Unlinks every node of the subtree at `cur` (position `i`), children before
     * parent; `freed` is the order in which the nodes are released.
     */
    method DestroySubtree(cur: TreeNode?, ghost i: nat) returns (ghost freed: seq<TreeNode>)
      requires |values| == |made| && Distinct() && cur == At(i)
      requires forall j :: 0 <= j < |made| && InSubtree(i, j) ==> ChildLinks(j)
      modifies made
      ensures forall j :: 0 <= j < |made| && InSubtree(i, j) ==>
        made[j].left == null && made[j].right == null
      ensures forall j :: 0 <= j < |made| && !InSubtree(i, j) ==>
        made[j].left == old(made[j].left) && made[j].right == old(made[j].right)
      ensures freed == PostOrder(Complete(made, i))
      decreases |made| - i
    {
      if cur == null {
        return [];
      }
      assert ChildLinks(i);
      ghost var lc, rc := 2 * i + 1, 2 * i + 2;
      forall j | 0 <= j < |made|
        ensures InSubtree(i, j) <==> j == i || InSubtree(lc, j) || InSubtree(rc, j)
        ensures !(InSubtree(lc, j) && InSubtree(rc, j))
        ensures InSubtree(lc, j) || InSubtree(rc, j) ==> j != i
      {
        SubtreeParts(i, lc, rc, j);
      }
      var l := DestroySubtree(cur.left, lc);
      var r := DestroySubtree(cur.right, rc);
      cur.left := null;
      cur.right := null;
      PostOrderOfComplete(made, i);
      freed := l + r + [made[i]];
    }

    /** Releases every node and leaves the tree empty with a null root. */
    method DestroyWholeTree()
      requires Valid()
      modifies this, made
      ensures Valid() && root == null && made == [] && values == []
      ensures forall n :: n in old(made) ==> n.left == null && n.right == null
    {
      forall j: nat
        ensures InSubtree(0, j)
      {
        BelowRoot(j);
      }
      forall j | 0 <= j < |made|
        ensures ChildLinks(j)
      {
        assert LinkedAt(j);
      }
      ghost var freed := DestroySubtree(root, 0);
      root, made, values := null, [], [];
    }

    /** The pre-order walk over the nodes equals the pre-order of the value view. */
    function PreOrderFrom(cur: TreeNode?, ghost i: nat): (r: seq<int>)
      requires Valid() && cur == At(i)
      reads this, made
      ensures r == PreOrder(Complete(values, i))
      decreases |made| - i
    {
      if cur == null then []
      else assert LinkedAt(i); [cur.data] + PreOrderFrom(cur.left, 2 * i + 1) + PreOrderFrom(cur.right, 2 * i + 2)
    }

    function InOrderFrom(cur: TreeNode?, ghost i: nat): (r: seq<int>)
      requires Valid() && cur == At(i)
      reads this, made
      ensures r == InOrder(Complete(values, i))
      decreases |made| - i
    {
      if cur == null then []
      else assert LinkedAt(i); InOrderFrom(cur.left, 2 * i + 1) + [cur.data] + InOrderFrom(cur.right, 2 * i + 2)
    }

    function PostOrderFrom(cur: TreeNode?, ghost i: nat): (r: seq<int>)
      requires Valid() && cur == At(i)
      reads this, made
      ensures r == PostOrder(Complete(values, i))
      decreases |made| - i
    {
      if cur == null then []
      else assert LinkedAt(i); PostOrderFrom(cur.left, 2 * i + 1) + PostOrderFrom(cur.right, 2 * i + 2) + [cur.data]
    }
  }

  /** The example program: build {1, ..., 7} and run the three traversals from the root. */
  method SevenTree() returns (pre: seq<int>, ino: seq<int>, post: seq<int>)
    ensures pre == [1, 2, 4, 5, 3, 6, 7]
    ensures ino == [4, 2, 5, 1, 6, 3, 7]
    ensures post == [4, 5, 2, 6, 7, 3, 1]
  {
    var t := new ValueBinaryTree.FromContents([1, 2, 3, 4, 5, 6, 7]);
    pre := t.PreOrderFrom(t.root, 0);
    ino := t.InOrderFrom(t.root, 0);
    post := t.PostOrderFrom(t.root, 0);
    SevenTraversals(t.values);
  }
}
