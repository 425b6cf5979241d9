/**
 * The dictionary: a binary search tree mapping keys to data, with search,
 * insertion and removal (the in-order predecessor takes the place of a
 * removed node that has two children).
 */
module Dictionaries {
  import opened SearchTrees

  /** `_rightmost_of`: the slot of the rightmost node below `s`, or `s`'s own slot when it is null. */
  function RightmostOf<C, D>(s: Tree<C, D>): (r: seq<Dir>)
    ensures ValidSlot(s, r)
    ensures s.Nil? ==> r == []
    ensures s.Node? ==> At(s, r).Node? && At(s, r).right.Nil? &&
                        (At(s, r).key, At(s, r).data) == LastItem(s)
  {
    if s.Nil? || s.right.Nil? then []
    else
      var q := RightmostOf(s.right);
      StepDown(s, Right, q, Nil);
      [Right] + q
  }

  /** The last pair of a non-empty tree's in-order walk: its largest key, on a search tree. */
  function LastItem<C, D>(s: Tree<C, D>): (int, D)
    requires s.Node?
  {
    if s.right.Nil? then (s.key, s.data) else LastItem(s.right)
  }

  lemma {:induction false} LastItemIsLast<C, D>(s: Tree<C, D>)
    requires s.Node?
    ensures |Items(s)| > 0 && Items(s)[|Items(s)| - 1] == LastItem(s)
  {
    if s.right.Node? {
      LastItemIsLast(s.right);
    }
  }

  /**
   * `_iop_of`: the slot of the in-order predecessor of the node `s`, the
   * rightmost node of its left subtree; the null left slot when there is no
   * left subtree, and `s`'s own slot when `s` is null.
   */
  function IopOf<C, D>(s: Tree<C, D>): (r: seq<Dir>)
    ensures ValidSlot(s, r)
    ensures s.Nil? ==> r == []
    ensures s.Node? && s.left.Nil? ==> r == [Left] && At(s, r).Nil?
    ensures s.Node? && s.left.Node? ==> r == [Left] + RightmostOf(s.left)
  {
    if s.Nil? then []
    else if s.left.Nil? then [Left]
    else
      var q := RightmostOf(s.left);
      StepDown(s, Left, q, Nil);
      [Left] + q
  }

  /** On a search tree the last pair of the walk holds the largest key. */
  lemma {:induction false} LastItemIsGreatest<C, D>(l: Tree<C, D>)
    requires l.Node? && Ordered(l)
    ensures LastItem(l).0 in Content(l)
    ensures forall k :: k in Content(l) ==> k <= LastItem(l).0
  {
    if l.right.Node? {
      LastItemIsGreatest(l.right);
    }
  }

  /** On a search tree the in-order predecessor holds the largest key smaller than the node's key. */
  lemma IopIsPredecessor<C, D>(s: Tree<C, D>)
    requires Ordered(s) && s.Node? && s.left.Node?
    ensures At(s, IopOf(s)).Node?
    ensures At(s, IopOf(s)).key < s.key
    ensures At(s, IopOf(s)).key in Content(s)
    ensures forall k :: k in Content(s) && k < s.key ==> k <= At(s, IopOf(s)).key
  {
    var q := RightmostOf(s.left);
    StepDown(s, Left, q, Nil);
    LastItemIsGreatest(s.left);
    forall k | k in Content(s) && k < s.key ensures k <= LastItem(s.left).0 {
      assert k !in Content(s.right) && k != s.key;
      assert k in Content(s.left);
    }
  }

  /** The left subtree with its rightmost node replaced by that node's left child. */
  function RemoveRightmost<C, D>(l: Tree<C, D>): Tree<C, D>
    requires l.Node?
  {
    if l.right.Nil? then l.left else l.(right := RemoveRightmost(l.right))
  }

  lemma {:induction false} RemoveRightmostItems<C, D>(l: Tree<C, D>)
    requires l.Node?
    ensures Items(RemoveRightmost(l)) + [LastItem(l)] == Items(l)
  {
    if l.right.Node? {
      RemoveRightmostItems(l.right);
    }
  }

  lemma {:induction false} RemoveRightmostAt<C, D>(l: Tree<C, D>)
    requires l.Node?
    ensures ReplaceAt(l, RightmostOf(l), At(l, RightmostOf(l)).left) == RemoveRightmost(l)
  {
    if l.right.Node? {
      var q := RightmostOf(l.right);
      StepDown(l, Right, q, At(l.right, q).left);
      RemoveRightmostAt(l.right);
    }
  }

  /**
   * What `_remove` puts in the slot of the node `s`: nothing for a leaf,
   * the only child for a node with one child, and for a node with two
   * children the node itself holding its in-order predecessor's key and
   * data, with the predecessor unlinked from the left subtree.
   */
  function Unlink<C, D>(s: Tree<C, D>): Tree<C, D>
    requires s.Node?
  {
    if s.left.Nil? && s.right.Nil? then Nil
    else if s.right.Nil? then s.left
    else if s.left.Nil? then s.right
    else
      var m := LastItem(s.left);
      Node(RemoveRightmost(s.left), m.0, m.1, s.cache, s.right)
  }

  /** Removal takes exactly the node's own pair out of the in-order walk. */
  lemma UnlinkItems<C, D>(s: Tree<C, D>)
    requires s.Node?
    ensures Items(Unlink(s)) == Items(s.left) + Items(s.right)
  {
    if s.left.Node? && s.right.Node? {
      RemoveRightmostItems(s.left);
    }
  }

  /** On a search tree removal keeps the order and takes out exactly the node's key. */
  lemma UnlinkRemoves<C, D>(s: Tree<C, D>)
    requires s.Node? && Ordered(s)
    ensures Ordered(Unlink(s))
    ensures Content(Unlink(s)) == Content(s) - {s.key}
  {
    UnlinkItems(s);
    WalkWithoutRoot(s, Unlink(s));
  }

  /**
   * The two-child case of `_remove` as the code does it: swap the node with
   * its in-order predecessor, then remove the predecessor's slot, which has
   * no right child. The result is the same as `Unlink`.
   */
  lemma UnlinkBySwap<C, D>(s: Tree<C, D>)
    requires s.Node? && s.left.Node? && s.right.Node?
    ensures At(s, IopOf(s)).Node?
    ensures var s2 := SwapPayloads(s, [], IopOf(s));
            ValidSlot(s2, IopOf(s)) && At(s2, IopOf(s)).Node? && At(s2, IopOf(s)).right.Nil? &&
            ReplaceAt(s2, IopOf(s), At(s2, IopOf(s)).left) == Unlink(s)
  {
    var q := RightmostOf(s.left);
    var rel := IopOf(s);
    var m := At(s.left, q);
    StepDown(s, Left, q, Nil);
    var s1 := s.(key := m.key, data := m.data);
    assert SetPayloadAt(s, [], m.key, m.data) == s1;
    StepDown(s1, Left, q, Nil);
    var x := m.(key := s.key, data := s.data);
    var s2 := SetPayloadAt(s1, rel, s.key, s.data);
    assert s2 == ReplaceAt(s1, rel, x);
    AtReplace(s1, rel, x);
    ReplaceTwice(s1, rel, x, m.left);
    StepDown(s1, Left, q, m.left);
    RemoveRightmostAt(s.left);
  }

  /**
   * The whole-tree form of `UnlinkBySwap`: swapping the node at `p` with its
   * predecessor and then unlinking the predecessor's slot unlinks `p`.
   */
  lemma TwoChildRemove<C, D>(h: Tree<C, D>, p: seq<Dir>)
    requires ValidSlot(h, p) && At(h, p).Node? && At(h, p).left.Node? && At(h, p).right.Node?
    ensures var q := p + IopOf(At(h, p));
            ValidSlot(h, q) && At(h, q).Node? &&
            var h1 := SwapPayloads(h, p, q);
            ValidSlot(h1, q) && At(h1, q).Node? && At(h1, q).right.Nil? &&
            ReplaceAt(h1, q, Unlink(At(h1, q))) == ReplaceAt(h, p, Unlink(At(h, p)))
  {
    var s := At(h, p);
    var rel := IopOf(s);
    UnlinkBySwap(s);
    SwapWithin(h, p, rel);
    var s2 := SwapPayloads(s, [], rel);
    var q := p + rel;
    var h1 := SwapPayloads(h, p, q);
    AtReplace(h, p, s2);
    var n := At(s2, rel);
    SlotAppend(h1, p, rel, n.left);
    ReplaceTwice(h, p, s2, ReplaceAt(s2, rel, n.left));
    assert Unlink(n) == n.left;
  }

  class Dictionary<D> {
    /** The head pointer: null for an empty dictionary. */
    var head: Tree<(), D>

    /** The invariant every public operation keeps: the tree is a search tree. */
    ghost predicate Valid()
      reads this
    {
      Ordered(head)
    }

    /** The dictionary as a map from keys to data. */
    function Contents(): map<int, D>
      reads this
    {
      Content(head)
    }

    constructor()
      ensures Valid() && head == Nil && Contents() == map[]
    {
      head := Nil;
    }

    /** `find`: the data stored under `key`, or NotFound. */
    function Find(key: int): (r: Result<D>)
      reads this
      requires Valid()
      ensures r.Ok? <==> key in Contents()
      ensures r.Ok? ==> r.value == Contents()[key]
    {
      var n := At(head, FindPath(head, key));
      FindPathFinds(head, key);
      if n.Nil? then Err(NotFound) else Ok(n.data)
    }

    /** `insert`: adds `key` with `data` as a new leaf where the search ends; an existing key is an error. */
    method Insert(key: int, data: D) returns (r: Result<()>)
      requires Valid()
      modifies this
      ensures Valid()
      ensures key in old(Contents()) ==> r == Err(KeyExists) && head == old(head)
      ensures key !in old(Contents()) ==>
                r == Ok(()) && Contents() == old(Contents())[key := data] &&
                head == ReplaceAt(old(head), FindPath(old(head), key), Leaf(key, data, ()))
    {
      var p := FindPath(head, key);
      FindPathFinds(head, key);
      if At(head, p).Node? {
        return Err(KeyExists);
      }
      InsertAtFound(head, key, data, ());
      head := ReplaceAt(head, p, Leaf(key, data, ()));
      r := Ok(());
    }

    /** `remove`: takes `key` out and returns its data; a missing key is an error. */
    method Remove(key: int) returns (r: Result<D>)
      requires Valid()
      modifies this
      ensures Valid()
      ensures key !in old(Contents()) ==> r == Err(NotFound) && head == old(head)
      ensures key in old(Contents()) ==>
                r == Ok(old(Contents())[key]) && Contents() == old(Contents()) - {key}
    {
      var p := FindPath(head, key);
      FindPathFinds(head, key);
      if At(head, p).Nil? {
        return Err(NotFound);
      }
      ghost var h := head;
      OrderedAt(head, p);
      UnlinkRemoves(At(head, p));
      RemoveAtSlot(head, p, Unlink(At(head, p)), key);
      r := RemoveAt(p);
    }

    /**
     * `_remove`: unlinks the node in slot `p` and returns its data; a null
     * slot is an error.
     */
    method RemoveAt(p: seq<Dir>) returns (r: Result<D>)
      requires ValidSlot(head, p)
      modifies this
      ensures old(At(head, p)).Nil? ==> r == Err(NotFound) && head == old(head)
      ensures old(At(head, p)).Node? ==>
                r == Ok(old(At(head, p)).data) && head == ReplaceAt(old(head), p, Unlink(old(At(head, p))))
      decreases if At(head, p).Node? && At(head, p).left.Node? && At(head, p).right.Node? then 1 else 0
    {
      var node := At(head, p);
      if node.Nil? {
        return Err(NotFound);
      }
      if node.left.Nil? || node.right.Nil? {
        head := ReplaceAt(head, p, Unlink(node));
        return Ok(node.data);
      }
      // two children: the predecessor exists, so the "IOP not found" error cannot occur
      var iop := p + IopOf(node);
      TwoChildRemove(head, p);
      ghost var h := head;
      var moved := SwapNodes(p, iop);
      SwappedSlotHoldsFirst(h, p, iop);
      r := RemoveAt(moved);
    }

    /**
     * `_swap_nodes`: the nodes in slots `p1` and `p2` trade places, so their
     * keys and data are exchanged while the rest of the tree stays; returns
     * the slot the code returns, which holds the node that was in `p1`
     * whenever `p2` lies below `p1` (SwappedSlotHoldsFirst).
     */
    method SwapNodes(p1: seq<Dir>, p2: seq<Dir>) returns (moved: seq<Dir>)
      requires ValidSlot(head, p1) && At(head, p1).Node? && ValidSlot(head, p2) && At(head, p2).Node?
      modifies this
      ensures head == SwapPayloads(old(head), p1, p2) && moved == SwappedSlotAsWritten(p1, p2)
    {
      head := SwapPayloads(head, p1, p2);
      moved := SwappedSlotAsWritten(p1, p2);
    }
  }

  /**
   * The dictionary contents after each step of the demonstration program
   * below, for keys standing in for 2, 4, 11, 19, 20, 37, 51, 55 and 99.
   */
  lemma DemoContents<D>(k2: int, k4: int, k11: int, k19: int, k20: int, k37: int, k51: int, k55: int, k99: int,
                        two: D, four: D, eleven: D, nineteen: D, twenty: D, thirtySeven: D, fiftyOne: D, fiftyFive: D)
    returns (m: seq<map<int, D>>)
    requires k2 < k4 < k11 < k19 < k20 < k37 < k51 < k55 < k99
    ensures |m| == 12 && m[0] == map[]
    ensures k37 !in m[0] && m[1] == m[0][k37 := thirtySeven]
    ensures k19 !in m[1] && m[2] == m[1][k19 := nineteen]
    ensures k51 !in m[2] && m[3] == m[2][k51 := fiftyOne]
    ensures k55 !in m[3] && m[4] == m[3][k55 := fiftyFive]
    ensures k4 !in m[4] && m[5] == m[4][k4 := four]
    ensures k11 !in m[5] && m[6] == m[5][k11 := eleven]
    ensures k20 !in m[6] && m[7] == m[6][k20 := twenty]
    ensures k2 !in m[7] && m[8] == m[7][k2 := two]
    ensures k51 in m[8] && m[8][k51] == fiftyOne
    ensures k11 in m[8] && m[8][k11] == eleven && m[9] == m[8] - {k11}
    ensures k51 in m[9] && m[9][k51] == fiftyOne && m[10] == m[9] - {k51}
    ensures k19 in m[10] && m[10][k19] == nineteen && m[11] == m[10] - {k19}
    ensures k51 !in m[11] && k99 !in m[11]
    ensures m[11].Keys == {k2, k4, k20, k37, k55}
    ensures m[11][k2] == two && m[11][k4] == four && m[11][k20] == twenty
    ensures m[11][k37] == thirtySeven && m[11][k55] == fiftyFive
  {
    var m8 := map[k37 := thirtySeven, k19 := nineteen, k51 := fiftyOne, k55 := fiftyFive,
                  k4 := four, k11 := eleven, k20 := twenty, k2 := two];
    m := [map[], map[k37 := thirtySeven], map[k37 := thirtySeven, k19 := nineteen],
          map[k37 := thirtySeven, k19 := nineteen, k51 := fiftyOne],
          map[k37 := thirtySeven, k19 := nineteen, k51 := fiftyOne, k55 := fiftyFive],
          map[k37 := thirtySeven, k19 := nineteen, k51 := fiftyOne, k55 := fiftyFive, k4 := four],
          map[k37 := thirtySeven, k19 := nineteen, k51 := fiftyOne, k55 := fiftyFive, k4 := four, k11 := eleven],
          map[k37 := thirtySeven, k19 := nineteen, k51 := fiftyOne, k55 := fiftyFive, k4 := four, k11 := eleven, k20 := twenty],
          m8, m8 - {k11}, m8 - {k11} - {k51}, m8 - {k11} - {k51} - {k19}];
  }

  /**
   * The walk-through in the dictionary's demonstration program: eight
   * insertions, a successful find, removals of a leaf (11), of a node with
   * one child (51) and of a node with two children (19), then a find and a
   * removal of keys that are no longer or never there. The keys are any
   * keys ordered as 2 < 4 < 11 < 19 < 20 < 37 < 51 < 55 < 99 are, and the
   * data labels stand for the strings the program stores.
   */
  method DictionaryExample<D>(k2: int, k4: int, k11: int, k19: int, k20: int, k37: int, k51: int, k55: int, k99: int,
                              two: D, four: D, eleven: D, nineteen: D, twenty: D, thirtySeven: D, fiftyOne: D, fiftyFive: D)
    returns (found51: Result<D>, removed11: Result<D>, removed51: Result<D>, removed19: Result<D>,
             missing51: Result<D>, missing99: Result<D>, rest: map<int, D>)
    requires k2 < k4 < k11 < k19 < k20 < k37 < k51 < k55 < k99
    ensures found51 == Ok(fiftyOne)
    ensures removed11 == Ok(eleven) && removed51 == Ok(fiftyOne) && removed19 == Ok(nineteen)
    ensures missing51 == Err(NotFound) && missing99 == Err(NotFound)
    ensures rest.Keys == {k2, k4, k20, k37, k55}
    ensures rest[k2] == two && rest[k4] == four && rest[k20] == twenty
    ensures rest[k37] == thirtySeven && rest[k55] == fiftyFive
  {
    ghost var m := DemoContents(k2, k4, k11, k19, k20, k37, k51, k55, k99,
                                two, four, eleven, nineteen, twenty, thirtySeven, fiftyOne, fiftyFive);
    var t := new Dictionary<D>();
    var ok := t.Insert(k37, thirtySeven);
    assert t.Contents() == m[1];
    ok := t.Insert(k19, nineteen);
    assert t.Contents() == m[2];
    ok := t.Insert(k51, fiftyOne);
    assert t.Contents() == m[3];
    ok := t.Insert(k55, fiftyFive);
    assert t.Contents() == m[4];
    ok := t.Insert(k4, four);
    assert t.Contents() == m[5];
    ok := t.Insert(k11, eleven);
    assert t.Contents() == m[6];
    ok := t.Insert(k20, twenty);
    assert t.Contents() == m[7];
    ok := t.Insert(k2, two);
    assert t.Contents() == m[8];
    found51 := t.Find(k51);
    removed11 := t.Remove(k11);
    assert t.Contents() == m[9];
    removed51 := t.Remove(k51);
    assert t.Contents() == m[10];
    removed19 := t.Remove(k19);
    assert t.Contents() == m[11];
    missing51 := t.Find(k51);
    missing99 := t.Remove(k99);
    rest := t.Contents();
  }
}
