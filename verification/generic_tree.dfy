// N-ary trees whose nodes keep an ordered list of child pointers, any of which
// may be null: counting the null child pointers (recursively and with an
// explicit stack), level-order traversal with a queue, and the small tree
// factory of the exercises.
//
// A pointer is a value of `Tree`: `Null`, or a `Node` with its data and child
// pointers. Nodes are never shared, so the value view loses nothing the
// algorithms here depend on.

module GenericTrees {

  datatype Option<T> = None | Some(value: T)

  /** A child pointer: null, or a node holding data and its own child pointers. */
  datatype Tree<T> = Null | Node(data: T, children: seq<Tree<T>>)

  /** Null pointers in the tree a pointer leads to (a null pointer counts itself). */
  function NullCount<T>(t: Tree<T>): nat
    decreases t
  {
    match t
    case Null => 1
    case Node(_, cs) => NullsAll(cs)
  }

  function NullsAll<T>(ts: seq<Tree<T>>): nat
    decreases ts
  {
    if ts == [] then 0 else NullCount(ts[0]) + NullsAll(ts[1..])
  }

  /** Non-null nodes in the tree a pointer leads to. */
  function NodeCount<T>(t: Tree<T>): nat
    decreases t
  {
    match t
    case Null => 0
    case Node(_, cs) => 1 + NodesAll(cs)
  }

  function NodesAll<T>(ts: seq<Tree<T>>): nat
    decreases ts
  {
    if ts == [] then 0 else NodeCount(ts[0]) + NodesAll(ts[1..])
  }

  /** Pointers of every kind in the tree a pointer leads to, itself included. */
  function Size<T>(t: Tree<T>): nat
    decreases t
  {
    match t
    case Null => 1
    case Node(_, cs) => 1 + TotalSize(cs)
  }

  function TotalSize<T>(ts: seq<Tree<T>>): nat
    decreases ts
  {
    if ts == [] then 0 else Size(ts[0]) + TotalSize(ts[1..])
  }

  /** Child pointers held by nodes (every pointer but the root sits in one). */
  function Slots<T>(t: Tree<T>): nat
    decreases t
  {
    match t
    case Null => 0
    case Node(_, cs) => |cs| + SlotsAll(cs)
  }

  function SlotsAll<T>(ts: seq<Tree<T>>): nat
    decreases ts
  {
    if ts == [] then 0 else Slots(ts[0]) + SlotsAll(ts[1..])
  }

  lemma {:induction false} NullsAllAppend<T>(a: seq<Tree<T>>, b: seq<Tree<T>>)
    ensures NullsAll(a + b) == NullsAll(a) + NullsAll(b)
    decreases |a|
  {
    if a != [] {
      assert (a + b)[0] == a[0] && (a + b)[1..] == a[1..] + b;
      NullsAllAppend(a[1..], b);
    } else {
      assert a + b == b;
    }
  }

  lemma {:induction false} TotalSizeAppend<T>(a: seq<Tree<T>>, b: seq<Tree<T>>)
    ensures TotalSize(a + b) == TotalSize(a) + TotalSize(b)
    decreases |a|
  {
    if a != [] {
      assert (a + b)[0] == a[0] && (a + b)[1..] == a[1..] + b;
      TotalSizeAppend(a[1..], b);
    } else {
      assert a + b == b;
    }
  }

  /**
   * Every pointer is null or a node, and every pointer but the root fills a
   * child slot: a tree with a non-null root has 1 + slots - nodes null pointers.
   */
  lemma {:induction false} NullsFromSlots<T>(t: Tree<T>)
    ensures Size(t) == NodeCount(t) + NullCount(t)
    ensures Size(t) == 1 + Slots(t)
    ensures t.Node? ==> NullCount(t) == 1 + Slots(t) - NodeCount(t)
    decreases t
  {
    match t
    case Null =>
    case Node(_, cs) =>
      NullsFromSlotsAll(cs);
  }

  lemma {:induction false} NullsFromSlotsAll<T>(ts: seq<Tree<T>>)
    ensures TotalSize(ts) == NodesAll(ts) + NullsAll(ts)
    ensures TotalSize(ts) == |ts| + SlotsAll(ts)
    decreases ts
  {
    if ts != [] {
      NullsFromSlots(ts[0]);
      NullsFromSlotsAll(ts[1..]);
    }
  }

  /** The null count of a pointer, summing the children's counts in a local total. */
  method CountNullChildrenRecursive<T>(t: Tree<T>) returns (sum: nat)
    ensures sum == NullCount(t)
    decreases t
  {
    if t.Null? {
      return 1;
    }
    var cs := t.children;
    sum := 0;
    for k := 0 to |cs|
      invariant sum == NullsAll(cs[..k])
    {
      var c := CountNullChildrenRecursive(cs[k]);
      NullsAllAppend(cs[..k], [cs[k]]);
      assert cs[..k + 1] == cs[..k] + [cs[k]];
      sum := sum + c;
    }
    assert cs[..|cs|] == cs;
  }

  /**
   * The same count with an explicit stack (its top is the last element): a
   * popped null pointer adds one, a popped node pushes all of its children.
   */
  method CountNullChildrenIterative<T>(root: Tree<T>) returns (sum: nat)
    ensures sum == NullCount(root)
  {
    sum := 0;
    var stack := [root];
    while stack != []
      invariant sum + NullsAll(stack) == NullCount(root)
      decreases TotalSize(stack)
    {
      ghost var full := stack;
      var top := stack[|stack| - 1];
      stack := stack[..|stack| - 1];
      assert full == stack + [top];
      NullsAllAppend(stack, [top]);
      TotalSizeAppend(stack, [top]);
      if top.Null? {
        sum := sum + 1;
        continue;
      }
      ghost var base := stack;
      var cs := top.children;
      for k := 0 to |cs|
        invariant stack == base + cs[..k]
      {
        stack := stack + [cs[k]];
        assert cs[..k + 1] == cs[..k] + [cs[k]];
      }
      assert cs[..|cs|] == cs;
      NullsAllAppend(base, cs);
      TotalSizeAppend(base, cs);
    }
  }

  /** What visiting one pointer yields: a node's data, nothing for null. */
  function Visit<T>(t: Tree<T>): seq<T>
  {
    if t.Node? then [t.data] else []
  }

  /** The child pointers below one pointer (none below null). */
  function Kids<T>(t: Tree<T>): seq<Tree<T>>
  {
    if t.Node? then t.children else []
  }

  function DataOf<T>(ts: seq<Tree<T>>): seq<T>
  {
    if ts == [] then [] else Visit(ts[0]) + DataOf(ts[1..])
  }

  /** The level below `ts`: the child pointers of its nodes, left to right. */
  function ChildrenOf<T>(ts: seq<Tree<T>>): seq<Tree<T>>
  {
    if ts == [] then [] else Kids(ts[0]) + ChildrenOf(ts[1..])
  }

  lemma {:induction false} ChildrenOfSize<T>(ts: seq<Tree<T>>)
    ensures TotalSize(ChildrenOf(ts)) + |ts| == TotalSize(ts)
  {
    if ts != [] {
      ChildrenOfSize(ts[1..]);
      TotalSizeAppend(Kids(ts[0]), ChildrenOf(ts[1..]));
    }
  }

  /**
   * Level order by whole levels: the data of one level, left to right, then
   * the levels below it; null pointers contribute nothing.
   */
  function Levels<T>(level: seq<Tree<T>>): seq<T>
    decreases TotalSize(level)
  {
    if level == [] then []
    else
      ChildrenOfSize(level);
      DataOf(level) + Levels(ChildrenOf(level))
  }

  lemma LevelsOfNull<T>(root: Tree<T>)
    requires root.Null?
    ensures Levels([root]) == []
  {
    var level := [root];
    assert level[0] == root && level[1..] == [];
    assert DataOf(level) == Visit(root) + DataOf(level[1..]) == [];
    assert ChildrenOf(level) == Kids(root) + ChildrenOf(level[1..]) == [];
  }

  /** Taking the front of a queue and appending what lies below it makes the queue smaller. */
  lemma DequeueShrinks<T>(q: seq<Tree<T>>)
    requires q != []
    ensures TotalSize(q[1..] + Kids(q[0])) < TotalSize(q)
    ensures NullsAll(q[1..] + Kids(q[0])) + (if q[0].Null? then 1 else 0) == NullsAll(q)
  {
    TotalSizeAppend(q[1..], Kids(q[0]));
    NullsAllAppend(q[1..], Kids(q[0]));
  }

  /** The order in which a first-in first-out queue of pointers is served. */
  ghost function QueueOrder<T>(q: seq<Tree<T>>): seq<T>
    decreases TotalSize(q)
  {
    if q == [] then []
    else
      DequeueShrinks(q);
      Visit(q[0]) + QueueOrder(q[1..] + Kids(q[0]))
  }

  lemma ServeFront<T>(q: seq<Tree<T>>)
    requires q != []
    ensures QueueOrder(q) == Visit(q[0]) + QueueOrder(q[1..] + Kids(q[0]))
    ensures q[0].Null? ==> QueueOrder(q) == QueueOrder(q[1..])
  {
    if q[0].Null? {
      assert q[1..] + Kids(q[0]) == q[1..];
    }
  }

  /** Serving a node from the front of the queue moves its datum from the queue's order to the results. */
  lemma ServeNode<T>(results: seq<T>, q: seq<Tree<T>>)
    requires q != [] && q[0].Node?
    ensures (results + [q[0].data]) + QueueOrder(q[1..] + Kids(q[0])) == results + QueueOrder(q)
  {
    ServeFront(q);
  }

  /** Serving the front of a joined queue: its datum, then the rest with its children queued behind. */
  lemma ServeJoined<T>(q1: seq<Tree<T>>, q2: seq<Tree<T>>)
    requires q1 != []
    ensures QueueOrder(q1 + q2) == Visit(q1[0]) + QueueOrder(q1[1..] + (q2 + Kids(q1[0])))
  {
    var q, r, k := q1 + q2, q1[1..], Kids(q1[0]);
    assert q[0] == q1[0] && q[1..] == r + q2;
    Regroup(r + (q2 + k), r, q2, q2 + k, k);
    ServeFront(q);
  }

  /** The children of a queue's front, then those of the rest, are the children of the whole queue. */
  lemma ChildrenBehind<T>(q1: seq<Tree<T>>, q2: seq<Tree<T>>)
    requires q1 != []
    ensures (q2 + Kids(q1[0])) + ChildrenOf(q1[1..]) == q2 + ChildrenOf(q1)
  {
    Regroup(q2 + ChildrenOf(q1), q2, Kids(q1[0]), ChildrenOf(q1), ChildrenOf(q1[1..]));
  }

  /** Serving a queue runs through its current entries before anything they add. */
  lemma {:induction false} QueueShift<T>(q1: seq<Tree<T>>, q2: seq<Tree<T>>)
    ensures QueueOrder(q1 + q2) == DataOf(q1) + QueueOrder(q2 + ChildrenOf(q1))
    decreases |q1|
  {
    if q1 == [] {
      assert q1 + q2 == q2 && q2 + ChildrenOf(q1) == q2;
    } else {
      var a, r := q1[0], q1[1..];
      ServeJoined(q1, q2);
      QueueShift(r, q2 + Kids(a));
      ChildrenBehind(q1, q2);
      assert DataOf(q1) == Visit(a) + DataOf(r);
      Regroup(QueueOrder(q1 + q2), Visit(a), DataOf(r), QueueOrder(r + (q2 + Kids(a))), QueueOrder(q2 + ChildrenOf(q1)));
    }
  }

  /** Concatenation regrouped, stated on plain sequences. */
  lemma Regroup<T>(whole: seq<T>, front: seq<T>, middle: seq<T>, rest: seq<T>, last: seq<T>)
    requires whole == front + rest && rest == middle + last
    ensures whole == (front + middle) + last
  {
  }

  /** A queue serves its pointers in level order. */
  lemma {:induction false} QueueIsLevels<T>(q: seq<Tree<T>>)
    ensures QueueOrder(q) == Levels(q)
    decreases TotalSize(q)
  {
    if q != [] {
      QueueShift(q, []);
      assert q + [] == q && [] + ChildrenOf(q) == ChildrenOf(q);
      ChildrenOfSize(q);
      QueueIsLevels(ChildrenOf(q));
    }
  }

  /**
   * Level-order traversal with a queue as the exercise documents it: a null
   * child pointer contributes no item. (See TraverseLevelsAsWritten.)
   */
  method TraverseLevels<T>(root: Tree<T>) returns (results: seq<T>)
    ensures results == Levels([root])
  {
    results := [];
    if root.Null? {
      LevelsOfNull(root);
      return;
    }
    ghost var goal := Levels([root]);
    QueueIsLevels([root]);
    var queue := [root];
    while queue != []
      invariant results + QueueOrder(queue) == goal
      decreases TotalSize(queue)
    {
      ghost var before := queue;
      DequeueShrinks(queue);
      ServeFront(queue);
      var curr := queue[0];
      queue := queue[1..];
      if curr.Node? {
        ServeNode(results, before);
        results := results + [curr.data];
        queue := EnqueueAll(queue, curr.children);
        assert queue == before[1..] + Kids(before[0]);
      }
    }
    assert results + QueueOrder(queue) == results;
  }

  /**
   * The traversal as the code stands: every child pointer is queued, and a
   * dequeued null pointer is dereferenced. None stands for that dereference;
   * it happens exactly when a non-null root has a null pointer below it.
   */
  method TraverseLevelsAsWritten<T>(root: Tree<T>) returns (r: Option<seq<T>>)
    ensures r == if root.Node? && NullCount(root) > 0 then None else Some(Levels([root]))
  {
    var results := [];
    if root.Null? {
      LevelsOfNull(root);
      return Some(results);
    }
    QueueIsLevels([root]);
    var queue := [root];
    while queue != []
      invariant results + QueueOrder(queue) == Levels([root])
      invariant NullsAll(queue) == NullCount(root)
      decreases TotalSize(queue)
    {
      ghost var before := queue;
      DequeueShrinks(queue);
      var curr := queue[0];
      queue := queue[1..];
      if curr.Null? {
        return None;
      }
      ServeNode(results, before);
      results := results + [curr.data];
      queue := EnqueueAll(queue, curr.children);
      assert queue == before[1..] + Kids(before[0]);
    }
    assert results + QueueOrder(queue) == results;
    return Some(results);
  }

  /** Pushes each child pointer onto the back of the queue, left to right. */
  method EnqueueAll<T>(queue: seq<Tree<T>>, cs: seq<Tree<T>>) returns (q: seq<Tree<T>>)
    ensures q == queue + cs
  {
    q := queue;
    for k := 0 to |cs|
      invariant q == queue + cs[..k]
    {
      q := q + [cs[k]];
      assert cs[..k + 1] == cs[..k] + [cs[k]];
    }
    assert cs[..|cs|] == cs;
  }

  /** A node whose only child pointer is null: the documented result is its own data. */
  method NullChildExample() returns (asWritten: Option<seq<int>>, documented: seq<int>)
    ensures asWritten == None
    ensures documented == [7]
  {
    var t := Node(7, [Null]);
    asWritten := TraverseLevelsAsWritten(t);
    documented := TraverseLevels(t);
    assert [t][1..] == [] && [t.children[0]][1..] == [];
    assert NullCount(t) == 1;
    assert DataOf([t]) == [7] && ChildrenOf([t]) == [Null];
    LevelsOfNull(t.children[0]);
  }

  /** Taking the data, or the children, of a level distributes over splitting the level in two. */
  lemma {:induction false} LevelAppend<T>(x: seq<Tree<T>>, y: seq<Tree<T>>)
    ensures DataOf(x + y) == DataOf(x) + DataOf(y)
    ensures ChildrenOf(x + y) == ChildrenOf(x) + ChildrenOf(y)
    decreases |x|
  {
    if x == [] {
      assert x + y == y;
    } else {
      assert (x + y)[0] == x[0] && (x + y)[1..] == x[1..] + y;
      LevelAppend(x[1..], y);
    }
  }

  lemma Single<T>(t: Tree<T>)
    ensures DataOf([t]) == Visit(t) && ChildrenOf([t]) == Kids(t)
  {
    assert [t][1..] == [];
  }

  /** The level order of a level: its data, then the level order below it. */
  lemma LevelStep<T>(level: seq<Tree<T>>)
    requires level != []
    ensures Levels(level) == DataOf(level) + Levels(ChildrenOf(level))
  {
  }

  lemma Two<T>(x: Tree<T>, y: Tree<T>)
    ensures DataOf([x, y]) == Visit(x) + Visit(y)
    ensures ChildrenOf([x, y]) == Kids(x) + Kids(y)
  {
    Single(x);
    Single(y);
    LevelAppend([x], [y]);
    assert [x] + [y] == [x, y];
  }

  lemma Three<T>(x: Tree<T>, y: Tree<T>, z: Tree<T>)
    ensures DataOf([x, y, z]) == Visit(x) + Visit(y) + Visit(z)
    ensures ChildrenOf([x, y, z]) == Kids(x) + Kids(y) + Kids(z)
  {
    Two(x, y);
    Single(z);
    LevelAppend([x, y], [z]);
    assert [x, y] + [z] == [x, y, z];
  }

  lemma Four<T>(w: Tree<T>, x: Tree<T>, y: Tree<T>, z: Tree<T>)
    ensures DataOf([w, x, y, z]) == Visit(w) + Visit(x) + Visit(y) + Visit(z)
    ensures ChildrenOf([w, x, y, z]) == Kids(w) + Kids(x) + Kids(y) + Kids(z)
  {
    Three(w, x, y);
    Single(z);
    LevelAppend([w, x, y], [z]);
    assert [w, x, y] + [z] == [w, x, y, z];
  }

  /** Level order from one node: its datum, then the level order of its children. */
  lemma LevelsOne<T>(t: Tree<T>, below: seq<T>)
    requires t.Node? && Levels(t.children) == below
    ensures Levels([t]) == [t.data] + below
  {
    Single(t);
    LevelStep([t]);
  }

  lemma LevelsTwo<T>(x: Tree<T>, y: Tree<T>, below: seq<T>)
    requires x.Node? && y.Node? && Levels(x.children + y.children) == below
    ensures Levels([x, y]) == [x.data, y.data] + below
  {
    Two(x, y);
    LevelStep([x, y]);
  }

  lemma LevelsThree<T>(x: Tree<T>, y: Tree<T>, z: Tree<T>, below: seq<T>)
    requires x.Node? && y.Node? && z.Node?
    requires Levels(x.children + y.children + z.children) == below
    ensures Levels([x, y, z]) == [x.data, y.data, z.data] + below
  {
    Three(x, y, z);
    assert Visit(x) + Visit(y) + Visit(z) == [x.data, y.data, z.data];
    assert Kids(x) + Kids(y) + Kids(z) == x.children + y.children + z.children;
    LevelStep([x, y, z]);
  }

  lemma LevelsFour<T>(w: Tree<T>, x: Tree<T>, y: Tree<T>, z: Tree<T>, below: seq<T>)
    requires w.Node? && x.Node? && y.Node? && z.Node?
    requires Levels(w.children + x.children + y.children + z.children) == below
    ensures Levels([w, x, y, z]) == [w.data, x.data, y.data, z.data] + below
  {
    Four(w, x, y, z);
    assert Visit(w) + Visit(x) + Visit(y) + Visit(z) == [w.data, x.data, y.data, z.data];
    assert Kids(w) + Kids(x) + Kids(y) + Kids(z) == w.children + x.children + y.children + z.children;
    LevelStep([w, x, y, z]);
  }


  /**
   * The first tree of the exercise's tests, whose nodes hold the labels A to G
   * (the tests use one-letter strings): A over B and E, each over two leaves.
   * Any data type will do, so the labels are parameters.
   */
  lemma FirstTestLevels<T>(A: T, B: T, C: T, D: T, E: T, F: T, G: T,
                           a: Tree<T>, b: Tree<T>, e: Tree<T>)
    requires b == Node(B, [Node(C, []), Node(D, [])])
    requires e == Node(E, [Node(F, []), Node(G, [])])
    requires a == Node(A, [b, e])
    ensures Levels([a]) == [A] + ([B, E] + [C, D, F, G])
  {
    FirstTestBelowRoot(B, C, D, E, F, G, b, e);
    LevelsOne(a, [B, E] + [C, D, F, G]);
  }

  lemma FirstTestBelowRoot<T>(B: T, C: T, D: T, E: T, F: T, G: T, b: Tree<T>, e: Tree<T>)
    requires b == Node(B, [Node(C, []), Node(D, [])])
    requires e == Node(E, [Node(F, []), Node(G, [])])
    ensures Levels([b, e]) == [B, E] + [C, D, F, G]
  {
    var c, d, f, g := b.children[0], b.children[1], e.children[0], e.children[1];
    assert b.children + e.children == [c, d, f, g];
    LevelsFour(c, d, f, g, []);
    LevelsTwo(b, e, [C, D, F, G]);
  }

  /** The two lowest levels of the second test tree: F G M, then H. */
  lemma SecondTestBottom<T>(F: T, G: T, M: T, H: T,
                            f: Tree<T>, g: Tree<T>, m: Tree<T>, h: Tree<T>)
    requires f == Node(F, []) && m == Node(M, []) && h == Node(H, [])
    requires g == Node(G, [h])
    ensures Levels([f, g, m]) == [F, G, M] + [H]
  {
    LevelsOne(h, []);
    assert f.children + g.children + m.children == [h];
    LevelsThree(f, g, m, [H]);
  }

  /** The lower three levels of the second test tree: C E I L, then F G M, then H. */
  lemma SecondTestLower<T>(C: T, E: T, F: T, G: T, H: T, I: T, L: T, M: T,
                           c: Tree<T>, e: Tree<T>, i: Tree<T>, l: Tree<T>,
                           f: Tree<T>, g: Tree<T>, m: Tree<T>, h: Tree<T>)
    requires c == Node(C, []) && i == Node(I, []) && f == Node(F, [])
    requires m == Node(M, []) && h == Node(H, [])
    requires g == Node(G, [h]) && e == Node(E, [f, g]) && l == Node(L, [m])
    ensures Levels([c, e, i, l]) == [C, E, I, L] + ([F, G, M] + [H])
  {
    SecondTestBottom(F, G, M, H, f, g, m, h);
    assert c.children + e.children + i.children + l.children == [f, g, m];
    LevelsFour(c, e, i, l, [F, G, M] + [H]);
  }

  /**
   * The second tree of the exercise's tests, labelled A to M as the first: A over B, D, J, K; B over C; D
   * over E and I; E over F and G; G over H; K over L; L over M.
   */
  lemma SecondTestLevels<T>(A: T, B: T, C: T, D: T, E: T, F: T, G: T,
                            H: T, I: T, J: T, K: T, L: T, M: T,
                            a: Tree<T>, b: Tree<T>, c: Tree<T>, d: Tree<T>,
                            e: Tree<T>, f: Tree<T>, g: Tree<T>, h: Tree<T>,
                            i: Tree<T>, j: Tree<T>, k: Tree<T>, l: Tree<T>,
                            m: Tree<T>)
    requires c == Node(C, []) && i == Node(I, []) && f == Node(F, [])
    requires m == Node(M, []) && h == Node(H, []) && j == Node(J, [])
    requires g == Node(G, [h]) && e == Node(E, [f, g]) && l == Node(L, [m])
    requires b == Node(B, [c]) && d == Node(D, [e, i]) && k == Node(K, [l])
    requires a == Node(A, [b, d, j, k])
    ensures Levels([a]) == [A] + ([B, D, J, K] + ([C, E, I, L] + ([F, G, M] + [H])))
  {
    SecondTestLower(C, E, F, G, H, I, L, M, c, e, i, l, f, g, m, h);
    SecondTestUpper(B, D, J, K, b, c, d, e, i, j, k, l, [C, E, I, L] + ([F, G, M] + [H]));
    LevelsOne(a, [B, D, J, K] + ([C, E, I, L] + ([F, G, M] + [H])));
  }

  lemma SecondTestUpper<T>(B: T, D: T, J: T, K: T,
                           b: Tree<T>, c: Tree<T>, d: Tree<T>, e: Tree<T>,
                           i: Tree<T>, j: Tree<T>, k: Tree<T>, l: Tree<T>, below: seq<T>)
    requires b == Node(B, [c]) && d == Node(D, [e, i]) && j == Node(J, []) && k == Node(K, [l])
    requires Levels([c, e, i, l]) == below
    ensures Levels([b, d, j, k]) == [B, D, J, K] + below
  {
    assert b.children + d.children + j.children + k.children == [c, e, i, l];
    LevelsFour(b, d, j, k, below);
  }

  /** A path from a node: the index of the child pointer taken at each step, ending at a node. */
  predicate ValidPath<T>(t: Tree<T>, path: seq<nat>)
    decreases |path|
  {
    t.Node? && (path == [] || (path[0] < |t.children| && ValidPath(t.children[path[0]], path[1..])))
  }

  /** `t` with a new leaf holding `x` appended to the child pointers of the node at `path`. */
  function AddChildAt<T>(t: Tree<T>, path: seq<nat>, x: T): (r: Tree<T>)
    requires ValidPath(t, path)
    decreases |path|
  {
    if path == [] then Node(t.data, t.children + [Node(x, [])])
    else Node(t.data, t.children[path[0] := AddChildAt(t.children[path[0]], path[1..], x)])
  }

  lemma {:induction false} CountsAfterUpdate<T>(cs: seq<Tree<T>>, i: nat, c: Tree<T>)
    requires i < |cs|
    ensures NodesAll(cs[i := c]) + NodeCount(cs[i]) == NodesAll(cs) + NodeCount(c)
    ensures NullsAll(cs[i := c]) + NullCount(cs[i]) == NullsAll(cs) + NullCount(c)
    decreases i
  {
    if i == 0 {
      assert cs[i := c][0] == c && cs[i := c][1..] == cs[1..];
    } else {
      assert cs[i := c][0] == cs[0] && cs[i := c][1..] == cs[1..][i - 1 := c];
      CountsAfterUpdate(cs[1..], i - 1, c);
    }
  }

  lemma {:induction false} NodesAllAppend<T>(a: seq<Tree<T>>, b: seq<Tree<T>>)
    ensures NodesAll(a + b) == NodesAll(a) + NodesAll(b)
    decreases |a|
  {
    if a != [] {
      assert (a + b)[0] == a[0] && (a + b)[1..] == a[1..] + b;
      NodesAllAppend(a[1..], b);
    } else {
      assert a + b == b;
    }
  }

  /** Adding a child adds exactly one node and, as the new leaf has no child pointers, no null pointer. */
  lemma {:induction false} AddChildCounts<T>(t: Tree<T>, path: seq<nat>, x: T)
    requires ValidPath(t, path)
    ensures NodeCount(AddChildAt(t, path, x)) == NodeCount(t) + 1
    ensures NullCount(AddChildAt(t, path, x)) == NullCount(t)
    decreases |path|
  {
    var leaf: Tree<T> := Node(x, []);
    if path == [] {
      NodesAllAppend(t.children, [leaf]);
      NullsAllAppend(t.children, [leaf]);
      assert [leaf][1..] == [];
    } else {
      var i := path[0];
      AddChildCounts(t.children[i], path[1..], x);
      CountsAfterUpdate(t.children, i, AddChildAt(t.children[i], path[1..], x));
    }
  }

  /** The part of a tree object the exercises use: its root pointer. */
  class GenericTree<T> {
    var root: Tree<T>

    constructor (rootData: T)
      ensures root == Node(rootData, [])
    {
      root := Node(rootData, []);
    }

    method Clear()
      modifies this
      ensures root == Null
    {
      root := Null;
    }

    method CreateRoot(x: T)
      modifies this
      ensures root == Node(x, [])
    {
      root := Node(x, []);
    }

    /** Appends a new leaf holding `x` to the node at `path`. */
    method AddChild(path: seq<nat>, x: T)
      requires ValidPath(root, path)
      modifies this
      ensures root == AddChildAt(old(root), path, x)
      ensures NodeCount(root) == NodeCount(old(root)) + 1
    {
      AddChildCounts(root, path, x);
      root := AddChildAt(root, path, x);
    }
  }

  /**
   * Clears the tree and builds 4 over 8 and 15, with 8 over 16 and 23 and 16
   * over 42; whatever the tree held before is gone.
   */
  method TreeFactory(tree: GenericTree<int>)
    modifies tree
    ensures tree.root == Node(4, [Node(8, [Node(16, [Node(42, [])]), Node(23, [])]), Node(15, [])])
    ensures Levels([tree.root]) == [4, 8, 15, 16, 23, 42]
  {
    tree.Clear();
    tree.CreateRoot(4);
    tree.AddChild([], 8);
    tree.AddChild([], 15);
    tree.AddChild([0], 16);
    tree.AddChild([0], 23);
    tree.AddChild([0, 0], 42);
    FactoryLevels(tree.root, tree.root.children[0], tree.root.children[0].children[0]);
  }

  /** The factory tree in level order: 4, then 8 15, then 16 23, then 42. */
  lemma FactoryLevels(four: Tree<int>, eight: Tree<int>, sixteen: Tree<int>)
    requires sixteen == Node(16, [Node(42, [])])
    requires eight == Node(8, [sixteen, Node(23, [])])
    requires four == Node(4, [eight, Node(15, [])])
    ensures Levels([four]) == [4] + ([8, 15] + ([16, 23] + [42]))
  {
    var fifteen, twentyThree := four.children[1], eight.children[1];
    LevelsOne(sixteen.children[0], []);
    assert sixteen.children + twentyThree.children == sixteen.children;
    LevelsTwo(sixteen, twentyThree, [42]);
    assert eight.children + fifteen.children == [sixteen, twentyThree];
    LevelsTwo(eight, fifteen, [16, 23] + [42]);
    LevelsOne(four, [8, 15] + ([16, 23] + [42]));
  }
}
