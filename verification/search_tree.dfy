/**
 * What the dictionary (an unbalanced binary search tree) and the AVL tree
 * share: the node type, slots, the key search and the node swap.
 *
 * The C++ code hands out a slot as a `TreeNode*&`: a reference to the head
 * pointer or to a parent's left or right pointer, which the caller then
 * overwrites in place. Here a slot is the path of left/right steps from the
 * head to that pointer; `At` reads what the pointer holds and `ReplaceAt`
 * overwrites it.
 */
module SearchTrees {

  datatype Dir = Left | Right

  /**
   * A node pointer: null, or a node holding a key, its data, what the node
   * caches about its subtree (nothing in the dictionary, the height in the
   * AVL tree) and its two child pointers.
   */
  datatype Tree<C, D> = Nil | Node(left: Tree<C, D>, key: int, data: D, cache: C, right: Tree<C, D>)

  /** Why an operation throws. */
  datatype Fault =
    | NotFound                // the key is not in the tree
    | KeyExists               // insert of a key that is already present
    | InvalidBalance          // a balance factor outside the range the rebalancing handles
    | UnexpectedChildBalance  // a child balance factor the rebalancing does not handle
    | MissingNode             // a null pointer where the operation needs a node
    | UseOfDeletedNode        // a reference into a node that has already been deleted
    | CheckFailed             // a debugging check found a broken invariant

  datatype Result<T> = Ok(value: T) | Err(fault: Fault)

  /** The tree as a dictionary; on a search tree no key occurs twice. */
  function Content<C, D>(t: Tree<C, D>): map<int, D>
  {
    if t.Nil? then map[] else Content(t.left) + map[t.key := t.data] + Content(t.right)
  }

  /** The (key, data) pairs in in-order: left subtree, node, right subtree. */
  function Items<C, D>(t: Tree<C, D>): seq<(int, D)>
  {
    if t.Nil? then [] else Items(t.left) + [(t.key, t.data)] + Items(t.right)
  }

  function Size<C, D>(t: Tree<C, D>): nat
  {
    if t.Nil? then 0 else Size(t.left) + 1 + Size(t.right)
  }

  /** The search-tree invariant, at every node: smaller keys left, larger keys right. */
  predicate Ordered<C, D>(t: Tree<C, D>)
  {
    t.Node? ==>
      Ordered(t.left) && Ordered(t.right) &&
      (forall k :: k in Content(t.left) ==> k < t.key) &&
      (forall k :: k in Content(t.right) ==> t.key < k)
  }

  ghost predicate Increasing<D>(s: seq<(int, D)>)
  {
    forall i, j :: 0 <= i < j < |s| ==> s[i].0 < s[j].0
  }

  lemma {:induction false} ItemKeysInContent<C, D>(t: Tree<C, D>)
    ensures forall i :: 0 <= i < |Items(t)| ==> Items(t)[i].0 in Content(t)
  {
    if t.Node? {
      ItemKeysInContent(t.left);
      ItemKeysInContent(t.right);
      var a, b, s := Items(t.left), Items(t.right), Items(t);
      assert s == a + [(t.key, t.data)] + b;
      forall i | 0 <= i < |s| ensures s[i].0 in Content(t) {
        if i < |a| {
          assert s[i] == a[i];
        } else if i > |a| {
          assert s[i] == b[i - |a| - 1];
        }
      }
    }
  }

  /** Some pair of the walk `s` has key `k`. */
  ghost predicate HasKey<D>(s: seq<(int, D)>, k: int)
  {
    exists i :: 0 <= i < |s| && s[i].0 == k
  }

  lemma {:induction false} ContentKeysInItems<C, D>(t: Tree<C, D>)
    ensures forall k :: k in Content(t) ==> HasKey(Items(t), k)
  {
    if t.Node? {
      ContentKeysInItems(t.left);
      ContentKeysInItems(t.right);
      var a, b, s := Items(t.left), Items(t.right), Items(t);
      assert s == a + [(t.key, t.data)] + b;
      forall k | k in Content(t)
        ensures HasKey(s, k)
      {
        if k in Content(t.right) {
          var i :| 0 <= i < |b| && b[i].0 == k;
          assert s[|a| + 1 + i] == b[i];
        } else if k == t.key {
          assert s[|a|].0 == k;
        } else {
          assert k in Content(t.left);
          var i :| 0 <= i < |a| && a[i].0 == k;
          assert s[i] == a[i];
        }
      }
    }
  }

  /** The keys met by the in-order walk are exactly the keys of the tree. */
  lemma ItemsCoverContent<C, D>(t: Tree<C, D>)
    ensures forall i :: 0 <= i < |Items(t)| ==> Items(t)[i].0 in Content(t)
    ensures forall k :: k in Content(t) ==> HasKey(Items(t), k)
  {
    ItemKeysInContent(t);
    ContentKeysInItems(t);
  }

  ghost predicate KeysBelow<D>(s: seq<(int, D)>, k: int)
  {
    forall i :: 0 <= i < |s| ==> s[i].0 < k
  }

  ghost predicate KeysAbove<D>(s: seq<(int, D)>, k: int)
  {
    forall i :: 0 <= i < |s| ==> k < s[i].0
  }

  /** A walk split around one item increases exactly when both parts do and the item lies between them. */
  lemma IncreasingSplit<D>(a: seq<(int, D)>, x: (int, D), b: seq<(int, D)>)
    ensures Increasing(a + [x] + b) <==>
            Increasing(a) && Increasing(b) && KeysBelow(a, x.0) && KeysAbove(b, x.0)
  {
    var s := a + [x] + b;
    assert forall i :: 0 <= i < |a| ==> s[i] == a[i];
    assert s[|a|] == x;
    assert forall i :: |a| < i < |s| ==> s[i] == b[i - |a| - 1];
    if Increasing(s) {
      forall i, j | 0 <= i < j < |b| ensures b[i].0 < b[j].0 {
        assert b[i] == s[|a| + 1 + i] && b[j] == s[|a| + 1 + j];
      }
      forall i | 0 <= i < |b| ensures x.0 < b[i].0 {
        assert b[i] == s[|a| + 1 + i];
      }
    }
    if Increasing(a) && Increasing(b) && KeysBelow(a, x.0) && KeysAbove(b, x.0) {
      forall i, j | 0 <= i < j < |s| ensures s[i].0 < s[j].0 {
        if j < |a| {
        } else if i > |a| {
          assert s[i] == b[i - |a| - 1] && s[j] == b[j - |a| - 1];
        } else if i < |a| && j > |a| {
          assert s[j] == b[j - |a| - 1];
        } else if j > |a| {
          assert s[j] == b[j - |a| - 1];
        }
      }
    }
  }

  /** The keys of a subtree lie below a bound exactly when its walk's keys do. */
  lemma KeyBoundBelow<C, D>(t: Tree<C, D>, k: int)
    ensures KeysBelow(Items(t), k) <==> forall j :: j in Content(t) ==> j < k
  {
    ItemsCoverContent(t);
    var s := Items(t);
    if KeysBelow(s, k) {
      forall j | j in Content(t) ensures j < k {
        assert HasKey(s, j);
        var i :| 0 <= i < |s| && s[i].0 == j;
        assert s[i].0 < k;
      }
    }
    if !KeysBelow(s, k) {
      var i :| 0 <= i < |s| && !(s[i].0 < k);
      assert s[i].0 in Content(t);
    }
  }

  /** The keys of a subtree lie above a bound exactly when its walk's keys do. */
  lemma KeyBoundAbove<C, D>(t: Tree<C, D>, k: int)
    ensures KeysAbove(Items(t), k) <==> forall j :: j in Content(t) ==> k < j
  {
    ItemsCoverContent(t);
    var s := Items(t);
    if KeysAbove(s, k) {
      forall j | j in Content(t) ensures k < j {
        assert HasKey(s, j);
        var i :| 0 <= i < |s| && s[i].0 == j;
        assert k < s[i].0;
      }
    }
    if !KeysAbove(s, k) {
      var i :| 0 <= i < |s| && !(k < s[i].0);
      assert s[i].0 in Content(t);
    }
  }

  lemma {:induction false} OrderedIsIncreasing<C, D>(t: Tree<C, D>)
    requires Ordered(t)
    ensures Increasing(Items(t))
  {
    if t.Node? {
      OrderedIsIncreasing(t.left);
      OrderedIsIncreasing(t.right);
      KeyBoundBelow(t.left, t.key);
      KeyBoundAbove(t.right, t.key);
      IncreasingSplit(Items(t.left), (t.key, t.data), Items(t.right));
    }
  }

  lemma {:induction false} IncreasingIsOrdered<C, D>(t: Tree<C, D>)
    requires Increasing(Items(t))
    ensures Ordered(t)
  {
    if t.Node? {
      IncreasingSplit(Items(t.left), (t.key, t.data), Items(t.right));
      KeyBoundBelow(t.left, t.key);
      KeyBoundAbove(t.right, t.key);
      IncreasingIsOrdered(t.left);
      IncreasingIsOrdered(t.right);
    }
  }

  /** A tree is a search tree exactly when its in-order walk has strictly increasing keys. */
  lemma OrderedIffIncreasing<C, D>(t: Tree<C, D>)
    ensures Ordered(t) <==> Increasing(Items(t))
  {
    if Ordered(t) {
      OrderedIsIncreasing(t);
    }
    if Increasing(Items(t)) {
      IncreasingIsOrdered(t);
    }
  }

  /** The dictionary a sequence of pairs describes; a later pair overrides an earlier one with the same key. */
  function ToMap<D>(s: seq<(int, D)>): map<int, D>
  {
    if s == [] then map[] else ToMap(s[..|s| - 1])[s[|s| - 1].0 := s[|s| - 1].1]
  }

  lemma {:induction false} ToMapConcat<D>(a: seq<(int, D)>, b: seq<(int, D)>)
    ensures ToMap(a + b) == ToMap(a) + ToMap(b)
    decreases |b|
  {
    if b != [] {
      var b' := b[..|b| - 1];
      assert (a + b)[..|a + b| - 1] == a + b';
      ToMapConcat(a, b');
    } else {
      assert a + b == a;
    }
  }

  /** The dictionary a tree holds is the one its in-order walk describes. */
  lemma {:induction false} ContentIsItems<C, D>(t: Tree<C, D>)
    ensures Content(t) == ToMap(Items(t))
  {
    if t.Node? {
      ContentIsItems(t.left);
      ContentIsItems(t.right);
      ToMapConcat(Items(t.left) + [(t.key, t.data)], Items(t.right));
      ToMapConcat(Items(t.left), [(t.key, t.data)]);
      assert [(t.key, t.data)][..0] == [];
    }
  }

  /** Two increasing walks whose keys all compare in order join into one. */
  lemma IncreasingJoin<D>(a: seq<(int, D)>, b: seq<(int, D)>)
    requires Increasing(a) && Increasing(b)
    requires forall i, j :: 0 <= i < |a| && 0 <= j < |b| ==> a[i].0 < b[j].0
    ensures Increasing(a + b)
  {
    var s := a + b;
    forall i, j | 0 <= i < j < |s| ensures s[i].0 < s[j].0 {
      if j < |a| {
        assert s[i] == a[i] && s[j] == a[j];
      } else if i < |a| {
        assert s[i] == a[i] && s[j] == b[j - |a|];
      } else {
        assert s[i] == b[i - |a|] && s[j] == b[j - |a|];
      }
    }
  }

  /** Dropping one item from an increasing walk leaves an increasing walk. */
  lemma IncreasingDrop<D>(a: seq<(int, D)>, x: (int, D), b: seq<(int, D)>)
    requires Increasing(a + [x] + b)
    ensures Increasing(a + b)
  {
    IncreasingSplit(a, x, b);
    IncreasingJoin(a, b);
  }

  /** Every subtree of a search tree is a search tree. */
  lemma {:induction false} OrderedAt<C, D>(t: Tree<C, D>, p: seq<Dir>)
    requires Ordered(t) && ValidSlot(t, p)
    ensures Ordered(At(t, p))
    decreases |p|
  {
    if p != [] {
      OrderedAt(Child(t, p[0]), p[1..]);
    }
  }

  // Slots

  function Child<C, D>(t: Tree<C, D>, d: Dir): Tree<C, D>
    requires t.Node?
  {
    if d == Left then t.left else t.right
  }

  /** `t` with the child pointer on side `d` overwritten. */
  function WithChild<C, D>(t: Tree<C, D>, d: Dir, s: Tree<C, D>): Tree<C, D>
    requires t.Node?
  {
    if d == Left then t.(left := s) else t.(right := s)
  }

  /** A slot of `t`: every step but the last leaves from a node; the last may reach null. */
  predicate ValidSlot<C, D>(t: Tree<C, D>, p: seq<Dir>)
    decreases |p|
  {
    p == [] || (t.Node? && ValidSlot(Child(t, p[0]), p[1..]))
  }

  /** What the pointer at slot `p` holds. */
  function At<C, D>(t: Tree<C, D>, p: seq<Dir>): Tree<C, D>
    requires ValidSlot(t, p)
    decreases |p|
  {
    if p == [] then t else At(Child(t, p[0]), p[1..])
  }

  /** `t` with the pointer at slot `p` overwritten by `s`. */
  function ReplaceAt<C, D>(t: Tree<C, D>, p: seq<Dir>, s: Tree<C, D>): Tree<C, D>
    requires ValidSlot(t, p)
    decreases |p|
  {
    if p == [] then s else WithChild(t, p[0], ReplaceAt(Child(t, p[0]), p[1..], s))
  }

  /** Overwriting a slot and then reading it gives back what was written. */
  lemma {:induction false} AtReplace<C, D>(t: Tree<C, D>, p: seq<Dir>, s: Tree<C, D>)
    requires ValidSlot(t, p)
    ensures ValidSlot(ReplaceAt(t, p, s), p) && At(ReplaceAt(t, p, s), p) == s
    decreases |p|
  {
    if p != [] {
      AtReplace(Child(t, p[0]), p[1..], s);
    }
  }

  /** Overwriting a slot twice keeps only the second write. */
  lemma {:induction false} ReplaceTwice<C, D>(t: Tree<C, D>, p: seq<Dir>, s1: Tree<C, D>, s2: Tree<C, D>)
    requires ValidSlot(t, p)
    ensures ValidSlot(ReplaceAt(t, p, s1), p) && ReplaceAt(ReplaceAt(t, p, s1), p, s2) == ReplaceAt(t, p, s2)
    decreases |p|
  {
    AtReplace(t, p, s1);
    if p != [] {
      ReplaceTwice(Child(t, p[0]), p[1..], s1, s2);
    }
  }

  /** Writing back what a slot already holds changes nothing. */
  lemma {:induction false} ReplaceSame<C, D>(t: Tree<C, D>, p: seq<Dir>)
    requires ValidSlot(t, p)
    ensures ReplaceAt(t, p, At(t, p)) == t
    decreases |p|
  {
    if p != [] {
      ReplaceSame(Child(t, p[0]), p[1..]);
    }
  }

  /** A slot below a slot: a path can be followed in two legs. */
  lemma {:induction false} SlotAppend<C, D>(t: Tree<C, D>, p: seq<Dir>, q: seq<Dir>, s: Tree<C, D>)
    requires ValidSlot(t, p)
    ensures ValidSlot(t, p + q) <==> ValidSlot(At(t, p), q)
    ensures ValidSlot(t, p + q) ==> At(t, p + q) == At(At(t, p), q)
    ensures ValidSlot(t, p + q) ==> ReplaceAt(t, p + q, s) == ReplaceAt(t, p, ReplaceAt(At(t, p), q, s))
    decreases |p|
  {
    if p == [] {
      assert p + q == q;
    } else {
      assert (p + q)[0] == p[0] && (p + q)[1..] == p[1..] + q;
      SlotAppend(Child(t, p[0]), p[1..], q, s);
    }
  }

  /** One step below a node: overwriting a child slot rewrites that child of the node. */
  lemma ReplaceBelow<C, D>(t: Tree<C, D>, p: seq<Dir>, d: Dir, s: Tree<C, D>)
    requires ValidSlot(t, p) && At(t, p).Node?
    ensures ValidSlot(t, p + [d]) && At(t, p + [d]) == Child(At(t, p), d)
    ensures ReplaceAt(t, p + [d], s) == ReplaceAt(t, p, WithChild(At(t, p), d, s))
  {
    SlotAppend(t, p, [d], s);
    assert [d][1..] == [];
  }

  // Search

  /**
   * `_find`: the slot holding `key`, or the null slot where the search for
   * it ends; the search goes left on a smaller key and right on a larger one.
   */
  function FindPath<C, D>(t: Tree<C, D>, key: int): (p: seq<Dir>)
    ensures ValidSlot(t, p)
    ensures At(t, p).Nil? || At(t, p).key == key
  {
    if t.Nil? || key == t.key then []
    else
      var d := if key < t.key then Left else Right;
      var q := FindPath(Child(t, d), key);
      assert ([d] + q)[0] == d && ([d] + q)[1..] == q;
      [d] + q
  }

  /** On a search tree the search reaches a node exactly when the key is present, and that node holds the key's data. */
  lemma {:induction false} FindPathFinds<C, D>(t: Tree<C, D>, key: int)
    requires Ordered(t)
    ensures At(t, FindPath(t, key)).Node? <==> key in Content(t)
    ensures key in Content(t) ==> At(t, FindPath(t, key)).data == Content(t)[key]
  {
    if t.Node? && key != t.key {
      var d := if key < t.key then Left else Right;
      var q := FindPath(Child(t, d), key);
      assert ([d] + q)[0] == d && ([d] + q)[1..] == q;
      FindPathFinds(Child(t, d), key);
    }
  }

  function Leaf<C, D>(key: int, data: D, cache: C): Tree<C, D>
  {
    Node(Nil, key, data, cache, Nil)
  }

  lemma MapUpdateLeft<D>(l: map<int, D>, m: map<int, D>, r: map<int, D>, key: int, data: D)
    requires key !in m && key !in r
    ensures l[key := data] + m + r == (l + m + r)[key := data]
  {
  }

  lemma MapUpdateRight<D>(l: map<int, D>, m: map<int, D>, r: map<int, D>, key: int, data: D)
    ensures l + m + r[key := data] == (l + m + r)[key := data]
  {
  }

  lemma MapRemoveLeft<D>(l: map<int, D>, m: map<int, D>, r: map<int, D>, key: int)
    requires key !in m && key !in r
    ensures (l - {key}) + m + r == (l + m + r) - {key}
  {
  }

  lemma MapRemoveRight<D>(l: map<int, D>, m: map<int, D>, r: map<int, D>, key: int)
    requires key !in l && key !in m
    ensures l + m + (r - {key}) == (l + m + r) - {key}
  {
  }

  /** Following one step from a node: the slot `[d] + q` of `t` is the slot `q` of its child. */
  lemma StepDown<C, D>(t: Tree<C, D>, d: Dir, q: seq<Dir>, s: Tree<C, D>)
    requires t.Node? && ValidSlot(Child(t, d), q)
    ensures ValidSlot(t, [d] + q) && At(t, [d] + q) == At(Child(t, d), q)
    ensures ReplaceAt(t, [d] + q, s) == WithChild(t, d, ReplaceAt(Child(t, d), q, s))
  {
    assert ([d] + q)[0] == d && ([d] + q)[1..] == q;
  }

  /** On a search tree a key other than the root's is present exactly when it is in the subtree the search goes down into. */
  lemma SearchStep<C, D>(t: Tree<C, D>, key: int)
    requires t.Node? && Ordered(t) && key != t.key
    ensures var d := if key < t.key then Left else Right;
            Ordered(Child(t, d)) && (key in Content(t) <==> key in Content(Child(t, d)))
  {
  }

  /** The keys below a slot are keys of the whole tree. */
  lemma {:induction false} KeysUnderSlot<C, D>(t: Tree<C, D>, p: seq<Dir>, k: int)
    requires ValidSlot(t, p) && k in Content(At(t, p))
    ensures k in Content(t)
    decreases |p|
  {
    if p != [] {
      KeysUnderSlot(Child(t, p[0]), p[1..], k);
    }
  }

  /**
   * One level of an insertion: replacing the child on the side the search
   * for `key` takes by a search tree holding that child's keys plus `key`
   * keeps a search tree a search tree and adds exactly that key.
   */
  lemma InsertBelow<C, D>(t: Tree<C, D>, d: Dir, c: Tree<C, D>, key: int, data: D)
    requires t.Node? && Ordered(t) && key !in Content(t) && d == (if key < t.key then Left else Right)
    requires Ordered(c) && Content(c) == Content(Child(t, d))[key := data]
    ensures Ordered(WithChild(t, d, c)) && Content(WithChild(t, d, c)) == Content(t)[key := data]
  {
    var m := map[t.key := t.data];
    if d == Left {
      MapUpdateLeft(Content(t.left), m, Content(t.right), key, data);
      assert Content(t.(left := c)) == Content(t.left)[key := data] + m + Content(t.right);
    } else {
      MapUpdateRight(Content(t.left), m, Content(t.right), key, data);
      assert Content(t.(right := c)) == Content(t.left) + m + Content(t.right)[key := data];
    }
  }

  /**
   * Placing a new leaf in the null slot the search for its key ends at keeps
   * a search tree a search tree and adds exactly that key.
   */
  lemma {:induction false} InsertAtFound<C, D>(t: Tree<C, D>, key: int, data: D, cache: C)
    requires Ordered(t) && key !in Content(t)
    ensures var u := ReplaceAt(t, FindPath(t, key), Leaf(key, data, cache));
            Ordered(u) && Content(u) == Content(t)[key := data]
  {
    if t.Node? {
      var d := if key < t.key then Left else Right;
      var q := FindPath(Child(t, d), key);
      var n := Leaf(key, data, cache);
      StepDown(t, d, q, n);
      InsertAtFound(Child(t, d), key, data, cache);
      InsertBelow(t, d, ReplaceAt(Child(t, d), q, n), key, data);
    }
  }

  /**
   * One level of a removal: replacing a child that holds `k` by a search
   * tree holding the same keys minus `k` keeps a search tree a search tree
   * and removes exactly `k`.
   */
  lemma RemoveBelow<C, D>(t: Tree<C, D>, d: Dir, c: Tree<C, D>, k: int)
    requires t.Node? && Ordered(t) && k in Content(Child(t, d))
    requires Ordered(c) && Content(c) == Content(Child(t, d)) - {k}
    ensures Ordered(WithChild(t, d, c)) && Content(WithChild(t, d, c)) == Content(t) - {k}
  {
    var m := map[t.key := t.data];
    if d == Left {
      assert k < t.key && k !in Content(t.right);
      MapRemoveLeft(Content(t.left), m, Content(t.right), k);
      assert Content(t.(left := c)) == (Content(t.left) - {k}) + m + Content(t.right);
    } else {
      assert t.key < k && k !in Content(t.left);
      MapRemoveRight(Content(t.left), m, Content(t.right), k);
      assert Content(t.(right := c)) == Content(t.left) + m + (Content(t.right) - {k});
    }
  }

  /**
   * Replacing the subtree at a slot by one that is ordered and holds the
   * same keys minus `k` keeps the tree ordered and removes exactly `k`.
   */
  lemma {:induction false} RemoveAtSlot<C, D>(t: Tree<C, D>, p: seq<Dir>, s: Tree<C, D>, k: int)
    requires Ordered(t) && ValidSlot(t, p) && k in Content(At(t, p))
    requires Ordered(s) && Content(s) == Content(At(t, p)) - {k}
    ensures Ordered(ReplaceAt(t, p, s)) && Content(ReplaceAt(t, p, s)) == Content(t) - {k}
    decreases |p|
  {
    if p != [] {
      var d, q := p[0], p[1..];
      assert p == [d] + q;
      StepDown(t, d, q, s);
      KeysUnderSlot(Child(t, d), q, k);
      RemoveAtSlot(Child(t, d), q, s, k);
      RemoveBelow(t, d, ReplaceAt(Child(t, d), q, s), k);
    }
  }

  lemma MapRemoveMiddle<D>(l: map<int, D>, k: int, d: D, r: map<int, D>)
    requires k !in l && k !in r
    ensures (l + map[k := d] + r) - {k} == l + r
  {
  }

  /** Two trees with the same in-order walk hold the same dictionary, and one is a search tree exactly when the other is. */
  lemma SameWalk<C, D>(u: Tree<C, D>, v: Tree<C, D>)
    requires Items(u) == Items(v)
    ensures Content(u) == Content(v) && (Ordered(u) <==> Ordered(v))
  {
    ContentIsItems(u);
    ContentIsItems(v);
    OrderedIffIncreasing(u);
    OrderedIffIncreasing(v);
  }

  /**
   * A tree whose in-order walk is that of a search tree's two subtrees,
   * without the root between them, is a search tree holding all keys but
   * the root's.
   */
  lemma WalkWithoutRoot<C, D>(t: Tree<C, D>, u: Tree<C, D>)
    requires t.Node? && Ordered(t) && Items(u) == Items(t.left) + Items(t.right)
    ensures Ordered(u) && Content(u) == Content(t) - {t.key}
  {
    OrderedIsIncreasing(t);
    IncreasingDrop(Items(t.left), (t.key, t.data), Items(t.right));
    IncreasingIsOrdered(u);
    ContentIsItems(u);
    ContentIsItems(t.left);
    ContentIsItems(t.right);
    ToMapConcat(Items(t.left), Items(t.right));
    MapRemoveMiddle(Content(t.left), t.key, t.data, Content(t.right));
  }

  // The node swap

  /** The pointer structure of a tree, without keys, data or caches. */
  datatype Skeleton = Empty | Fork(Skeleton, Skeleton)

  function Shape<C, D>(t: Tree<C, D>): Skeleton
  {
    if t.Nil? then Empty else Fork(Shape(t.left), Shape(t.right))
  }

  /** Trees of one shape have the same slots, and the same shapes below them. */
  lemma {:induction false} ShapeSlots<C, D>(t: Tree<C, D>, u: Tree<C, D>, q: seq<Dir>)
    requires Shape(t) == Shape(u) && ValidSlot(t, q)
    ensures ValidSlot(u, q) && Shape(At(t, q)) == Shape(At(u, q))
    decreases |q|
  {
    if q != [] {
      ShapeSlots(Child(t, q[0]), Child(u, q[0]), q[1..]);
    }
  }

  /** Overwriting a slot with a subtree of the same shape keeps the shape of the whole. */
  lemma {:induction false} ReplaceShape<C, D>(t: Tree<C, D>, p: seq<Dir>, s: Tree<C, D>)
    requires ValidSlot(t, p) && Shape(s) == Shape(At(t, p))
    ensures Shape(ReplaceAt(t, p, s)) == Shape(t)
    decreases |p|
  {
    if p != [] {
      ReplaceShape(Child(t, p[0]), p[1..], s);
    }
  }

  /** The node at slot `p` with its key and data replaced; its cache and children stay. */
  function SetPayloadAt<C, D>(t: Tree<C, D>, p: seq<Dir>, key: int, data: D): (u: Tree<C, D>)
    requires ValidSlot(t, p) && At(t, p).Node?
    ensures Shape(u) == Shape(t)
  {
    var n := At(t, p);
    ReplaceShape(t, p, n.(key := key, data := data));
    ReplaceAt(t, p, n.(key := key, data := data))
  }

  /** Setting the key and data at one slot changes no other node's key, data or cache. */
  lemma {:induction false} PayloadElsewhere<C, D>(t: Tree<C, D>, p: seq<Dir>, key: int, data: D, q: seq<Dir>)
    requires ValidSlot(t, p) && At(t, p).Node? && ValidSlot(t, q) && At(t, q).Node? && q != p
    ensures ValidSlot(SetPayloadAt(t, p, key, data), q) && At(SetPayloadAt(t, p, key, data), q).Node?
    ensures var n, m := At(SetPayloadAt(t, p, key, data), q), At(t, q);
            n.key == m.key && n.data == m.data && n.cache == m.cache
    decreases |p|
  {
    ShapeSlots(t, SetPayloadAt(t, p, key, data), q);
    if p == [] {
    } else if q == [] {
    } else if p[0] == q[0] {
      var c := Child(t, p[0]);
      assert p[1..] != q[1..];
      PayloadElsewhere(c, p[1..], key, data, q[1..]);
    }
  }

  lemma PayloadHere<C, D>(t: Tree<C, D>, p: seq<Dir>, key: int, data: D)
    requires ValidSlot(t, p) && At(t, p).Node?
    ensures ValidSlot(SetPayloadAt(t, p, key, data), p)
    ensures At(SetPayloadAt(t, p, key, data), p) == At(t, p).(key := key, data := data)
  {
    ShapeSlots(t, SetPayloadAt(t, p, key, data), p);
    AtReplace(t, p, At(t, p).(key := key, data := data));
  }

  /**
   * `_swap_nodes` on node values: the nodes at slots `p1` and `p2` exchange
   * their keys and data, while every pointer and every cached height stays
   * with its position (the code swaps the two heights and then the two nodes).
   */
  function SwapPayloads<C, D>(t: Tree<C, D>, p1: seq<Dir>, p2: seq<Dir>): (u: Tree<C, D>)
    requires ValidSlot(t, p1) && At(t, p1).Node? && ValidSlot(t, p2) && At(t, p2).Node?
    ensures Shape(u) == Shape(t)
  {
    var a, b := At(t, p1), At(t, p2);
    var t1 := SetPayloadAt(t, p1, b.key, b.data);
    ShapeSlots(t, t1, p2);
    SetPayloadAt(t1, p2, a.key, a.data)
  }

  /** After the swap the node from `p1` is at `p2`, the node from `p2` at `p1`, and every other node stays. */
  lemma {:induction false} SwapExchanges<C, D>(t: Tree<C, D>, p1: seq<Dir>, p2: seq<Dir>, q: seq<Dir>)
    requires ValidSlot(t, p1) && At(t, p1).Node? && ValidSlot(t, p2) && At(t, p2).Node?
    requires ValidSlot(t, q) && At(t, q).Node?
    ensures ValidSlot(SwapPayloads(t, p1, p2), q) && At(SwapPayloads(t, p1, p2), q).Node?
    ensures var n, a, b, m := At(SwapPayloads(t, p1, p2), q), At(t, p1), At(t, p2), At(t, q);
            n.cache == m.cache &&
            (q == p2 ==> n.key == a.key && n.data == a.data) &&
            (q == p1 ==> n.key == b.key && n.data == b.data) &&
            (q != p1 && q != p2 ==> n.key == m.key && n.data == m.data)
  {
    var a, b := At(t, p1), At(t, p2);
    var t1 := SetPayloadAt(t, p1, b.key, b.data);
    ShapeSlots(t, t1, p2);
    ShapeSlots(t, t1, q);
    ShapeSlots(t, SwapPayloads(t, p1, p2), q);
    if q == p1 {
      PayloadHere(t, p1, b.key, b.data);
      if q == p2 {
        PayloadHere(t1, p2, a.key, a.data);
      } else {
        PayloadElsewhere(t1, p2, a.key, a.data, q);
      }
    } else {
      PayloadElsewhere(t, p1, b.key, b.data, q);
      if q == p2 {
        PayloadHere(t1, p2, a.key, a.data);
      } else {
        PayloadElsewhere(t1, p2, a.key, a.data, q);
      }
    }
  }

  /**
   * The slot `_swap_nodes` returns as written. It is meant to hold the node
   * that was at `p1`; when `p1` is the left or right child slot of the node
   * at `p2` the code returns that child slot, `p1` itself.
   */
  function SwappedSlotAsWritten(p1: seq<Dir>, p2: seq<Dir>): seq<Dir>
  {
    if p2 == p1 + [Left] || p2 == p1 + [Right] then p2
    else if p1 == p2 + [Left] || p1 == p2 + [Right] then p1
    else p2
  }

  /**
   * When the first node is the left child of the second, the slot returned
   * as written holds the second node rather than the first.
   */
  lemma SwappedSlotAsWrittenMisses<C, D>(t: Tree<C, D>, p2: seq<Dir>)
    requires ValidSlot(t, p2) && At(t, p2).Node? && At(t, p2).left.Node?
    requires At(t, p2).left.key != At(t, p2).key
    ensures var p1 := p2 + [Left];
            ValidSlot(t, p1) && At(t, p1).Node? &&
            var q := SwappedSlotAsWritten(p1, p2);
            ValidSlot(SwapPayloads(t, p1, p2), q) && At(SwapPayloads(t, p1, p2), q).Node? &&
            At(SwapPayloads(t, p1, p2), q).key != At(t, p1).key
  {
    var p1 := p2 + [Left];
    ReplaceBelow(t, p2, Left, Nil);
    assert p2 != p1 + [Left] && p2 != p1 + [Right] by {
      assert |p2| < |p1|;
    }
    assert SwappedSlotAsWritten(p1, p2) == p1;
    SwapExchanges(t, p1, p2, p1);
  }

  /**
   * The slot the swap should return is `p2`, which holds the node that was
   * at `p1`; the slot returned as written agrees whenever `p2` lies below `p1`,
   * as it does for every swap the removals make.
   */
  lemma SwappedSlotHoldsFirst<C, D>(t: Tree<C, D>, p1: seq<Dir>, p2: seq<Dir>)
    requires ValidSlot(t, p1) && At(t, p1).Node? && ValidSlot(t, p2) && At(t, p2).Node?
    ensures ValidSlot(SwapPayloads(t, p1, p2), p2) && At(SwapPayloads(t, p1, p2), p2).Node?
    ensures At(SwapPayloads(t, p1, p2), p2).key == At(t, p1).key
    ensures At(SwapPayloads(t, p1, p2), p2).data == At(t, p1).data
    ensures |p1| < |p2| ==> SwappedSlotAsWritten(p1, p2) == p2
  {
    SwapExchanges(t, p1, p2, p2);
  }

  /** Setting the key and data of a node changes nothing in the subtrees below it. */
  lemma PayloadAbove<C, D>(h: Tree<C, D>, p: seq<Dir>, key: int, data: D, q: seq<Dir>)
    requires ValidSlot(h, p) && At(h, p).Node? && ValidSlot(h, q) && p < q
    ensures ValidSlot(SetPayloadAt(h, p, key, data), q) && At(SetPayloadAt(h, p, key, data), q) == At(h, q)
  {
    var rel := q[|p|..];
    assert q == p + rel;
    var s := At(h, p);
    var s' := s.(key := key, data := data);
    var h' := ReplaceAt(h, p, s');
    SlotAppend(h, p, rel, Nil);
    AtReplace(h, p, s');
    SlotAppend(h', p, rel, Nil);
    assert Child(s', rel[0]) == Child(s, rel[0]);
  }

  /** Setting a node's key and data and then its left child rewrites just that node. */
  lemma PayloadThenLeft<C, D>(h: Tree<C, D>, p: seq<Dir>, key: int, data: D, c: Tree<C, D>)
    requires ValidSlot(h, p) && At(h, p).Node?
    ensures ValidSlot(SetPayloadAt(h, p, key, data), p + [Left])
    ensures ReplaceAt(SetPayloadAt(h, p, key, data), p + [Left], c) ==
            ReplaceAt(h, p, At(h, p).(key := key, data := data, left := c))
  {
    var s' := At(h, p).(key := key, data := data);
    var h' := ReplaceAt(h, p, s');
    AtReplace(h, p, s');
    ReplaceBelow(h', p, Left, c);
    ReplaceTwice(h, p, s', s'.(left := c));
  }

  /**
   * Swapping a node with one below it and then overwriting the lower slot
   * is the same as giving the upper node the lower one's key and data and
   * overwriting the lower slot; the lower slot holds the upper node's key
   * and data between the two steps.
   */
  lemma SwapBelow<C, D>(h: Tree<C, D>, p: seq<Dir>, q: seq<Dir>, x: Tree<C, D>)
    requires ValidSlot(h, p) && At(h, p).Node? && ValidSlot(h, q) && At(h, q).Node? && p < q
    ensures var a, b := At(h, p), At(h, q);
            ValidSlot(SwapPayloads(h, p, q), q) && At(SwapPayloads(h, p, q), q) == b.(key := a.key, data := a.data) &&
            ValidSlot(SetPayloadAt(h, p, b.key, b.data), q) &&
            ReplaceAt(SwapPayloads(h, p, q), q, x) == ReplaceAt(SetPayloadAt(h, p, b.key, b.data), q, x)
  {
    var a, b := At(h, p), At(h, q);
    var t1 := SetPayloadAt(h, p, b.key, b.data);
    PayloadAbove(h, p, b.key, b.data, q);
    var y := b.(key := a.key, data := a.data);
    assert SwapPayloads(h, p, q) == ReplaceAt(t1, q, y);
    AtReplace(t1, q, y);
    ReplaceTwice(t1, q, y, x);
  }

  /** Swapping a node with one below it only rewrites the subtree of the upper node. */
  lemma SwapWithin<C, D>(h: Tree<C, D>, p: seq<Dir>, rel: seq<Dir>)
    requires ValidSlot(h, p) && At(h, p).Node? && ValidSlot(At(h, p), rel) && At(At(h, p), rel).Node?
    ensures ValidSlot(h, p + rel) && At(h, p + rel) == At(At(h, p), rel)
    ensures SwapPayloads(h, p, p + rel) == ReplaceAt(h, p, SwapPayloads(At(h, p), [], rel))
  {
    var s := At(h, p);
    SlotAppend(h, p, rel, Nil);
    var a, b := s, At(s, rel);
    var s1 := s.(key := b.key, data := b.data);
    var t1 := SetPayloadAt(h, p, b.key, b.data);
    assert t1 == ReplaceAt(h, p, s1);
    AtReplace(h, p, s1);
    ShapeSlots(s, s1, rel);
    var x := At(s1, rel).(key := a.key, data := a.data);
    SlotAppend(t1, p, rel, x);
    ReplaceTwice(h, p, s1, ReplaceAt(s1, rel, x));
    assert SetPayloadAt(s, [], b.key, b.data) == s1;
  }
}
