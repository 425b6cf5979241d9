// The doubly linked list of z_hw/Ordered_DataStructure/LinkedList/LinkedList.h
// and the in-place `insertOrdered` of LinkedListExercises.h. Elements are int.
// The ghost sequence `nodes` lists the nodes from head to tail; `contents`
// lists their data.
module LinkedLists {

  /** A list node: its data and the links to its neighbours. */
  class Node {
    var data: int
    var next: Node?
    var prev: Node?

    /** `Node(dataArg)`: both links null. */
    constructor (d: int)
      ensures data == d && next == null && prev == null
    {
      data, next, prev := d, null, null;
    }
  }

  datatype Option<T> = None | Some(value: T)

  /** Every adjacent pair of `s` is in order (`A <= B`). */
  ghost predicate Sorted(s: seq<int>)
  {
    forall i, j :: 0 <= i < j < |s| && j == i + 1 ==> s[i] <= s[j]
  }

  /** Where `insertOrdered` puts `x`: in front of the earliest element greater than it, or at the end. */
  function InsertPos(s: seq<int>, x: int): (k: nat)
    ensures k <= |s|
    ensures forall j :: 0 <= j < k ==> s[j] <= x
    ensures k < |s| ==> x < s[k]
  {
    if s == [] then 0
    else if x < s[0] then 0
    else 1 + InsertPos(s[1..], x)
  }

  /** The insertion point is the only index with nothing greater before it and something greater at it. */
  lemma InsertPosUnique(s: seq<int>, x: int, k: nat)
    requires k <= |s| && (forall j :: 0 <= j < k ==> s[j] <= x) && (k < |s| ==> x < s[k])
    ensures InsertPos(s, x) == k
  {
  }

  /** The elements after `insertOrdered(x)`: `x` placed at the insertion point, all others in their order. */
  function Inserted(s: seq<int>, x: int): (t: seq<int>)
  {
    var k := InsertPos(s, x);
    s[..k] + [x] + s[k..]
  }

  /** Inserting at the insertion point keeps a sorted sequence sorted. */
  lemma {:induction false} InsertKeepsSorted(s: seq<int>, x: int)
    requires Sorted(s)
    ensures Sorted(Inserted(s, x))
  {
    var k := InsertPos(s, x);
    var t := Inserted(s, x);
    assert t == s[..k] + [x] + s[k..];
    forall i, j | 0 <= i < j < |t| && j == i + 1
      ensures t[i] <= t[j]
    {
      if j < k {
        assert t[i] == s[i] && t[j] == s[j];
      } else if j == k {
        assert t[i] == s[k - 1] && t[j] == x;
      } else if j == k + 1 {
        assert t[i] == x && t[j] == s[k];
      } else {
        assert t[i] == s[i - 1] && t[j] == s[j - 1];
      }
    }
  }

  /** Inserting adds exactly one occurrence of `x` and nothing else. */
  lemma InsertAddsOne(s: seq<int>, x: int)
    ensures multiset(Inserted(s, x)) == multiset(s) + multiset{x} && |Inserted(s, x)| == |s| + 1
  {
    var k := InsertPos(s, x);
    assert s == s[..k] + s[k..];
  }

  class LinkedList {
    var head: Node?
    var tail: Node?
    var size: int

    ghost var nodes: seq<Node>
    ghost var contents: seq<int>
    ghost var Repr: set<object>

    /**
     * The links agree with `nodes`: `next` runs from head to tail, `prev`
     * from tail to head, the ends point to null, and no node occurs twice.
     * This is what `assertCorrectSize` and `assertPrevLinks` check, apart from `size`.
     */
    ghost predicate Linked()
      reads this`head, this`tail, this`nodes, this`contents, this`Repr, Repr - {this}
    {
      this in Repr
      && |nodes| == |contents|
      && (forall i :: 0 <= i < |nodes| ==> nodes[i] in Repr)
      && (forall i, j :: 0 <= i < j < |nodes| ==> nodes[i] != nodes[j])
      && (forall i :: 0 <= i < |nodes| ==> nodes[i].data == contents[i])
      && (forall i {:trigger nodes[i].next} :: 0 <= i < |nodes| ==> nodes[i].next == if i + 1 < |nodes| then nodes[i + 1] else null)
      && (forall i {:trigger nodes[i].prev} :: 0 <= i < |nodes| ==> nodes[i].prev == if i > 0 then nodes[i - 1] else null)
      && head == (if nodes == [] then null else nodes[0])
      && tail == (if nodes == [] then null else nodes[|nodes| - 1])
    }

    /** The representation invariant: linked, and `size_` counts the nodes. */
    ghost predicate Valid()
      reads this, Repr
    {
      Linked() && size == |nodes|
    }

    /** The empty list. */
    constructor ()
      ensures Valid() && fresh(Repr) && contents == []
    {
      head, tail, size := null, null, 0;
      nodes, contents := [], [];
      Repr := {this};
    }

    /** `pushFront`: one new node before the head. */
    method PushFront(x: int)
      requires Valid()
      modifies Repr
      ensures Valid() && fresh(Repr - old(Repr))
      ensures contents == [x] + old(contents)
      ensures nodes[1..] == old(nodes) && fresh(nodes[0])
    {
      var n := new Node(x);
      if head == null {
        InsertIntoEmpty(n);
      } else {
        LinkFirst(n);
        size := size + 1;
      }
    }

    /** `pushBack`: one new node after the tail. */
    method PushBack(x: int)
      requires Valid()
      modifies Repr
      ensures Valid() && fresh(Repr - old(Repr))
      ensures contents == old(contents) + [x]
      ensures nodes[..|nodes| - 1] == old(nodes) && fresh(nodes[|nodes| - 1])
    {
      var n := new Node(x);
      if head == null {
        InsertIntoEmpty(n);
      } else {
        LinkLast(n, tail);
        size := size + 1;
      }
    }

    /** `front`: the first element, or the error `front` throws on an empty list. */
    method Front() returns (r: Option<int>)
      requires Valid()
      ensures r.None? <==> contents == []
      ensures r.Some? ==> r.value == contents[0]
    {
      if head == null {
        r := None;
      } else {
        r := Some(head.data);
      }
    }

    /** `back`: the last element, or the error `back` throws on an empty list. */
    method Back() returns (r: Option<int>)
      requires Valid()
      ensures r.None? <==> contents == []
      ensures r.Some? ==> r.value == contents[|contents| - 1]
    {
      if tail == null {
        r := None;
      } else {
        r := Some(tail.data);
      }
    }

    /** `size`: the number of elements. */
    method Size() returns (n: int)
      requires Valid()
      ensures n == |contents|
    {
      n := size;
    }

    /** `empty`: whether the head pointer is null. */
    method Empty() returns (e: bool)
      requires Valid()
      ensures e <==> contents == []
    {
      e := head == null;
    }

    /** `clear`: pops the back until the list is empty. */
    method Clear()
      requires Valid()
      modifies Repr
      ensures Valid() && Repr <= old(Repr)
      ensures contents == [] && nodes == []
    {
      while head != null
        invariant Valid() && Repr <= old(Repr)
        decreases |contents|
      {
        PopBack();
      }
    }

    /** `isSorted`: every adjacent pair is in order; fewer than two elements are sorted. */
    method IsSorted() returns (r: bool)
      requires Valid()
      ensures r <==> Sorted(contents)
    {
      if size < 2 {
        return true;
      }
      var prev: Node? := null;
      var cur := head;
      ghost var i := 0;
      while cur.next != null
        invariant 0 <= i < |nodes| && cur == nodes[i]
        invariant Sorted(contents[..i + 1])
        decreases |nodes| - i
      {
        assert nodes[i].next == if i + 1 < |nodes| then nodes[i + 1] else null;
        prev := cur;
        cur := cur.next;
        i := i + 1;
        if !(prev.data <= cur.data) {
          return false;
        }
      }
      assert contents[..i + 1] == contents;
      return true;
    }

    /** `equals`: same size and the same element at every position. */
    method Equals(other: LinkedList) returns (r: bool)
      requires Valid() && other.Valid()
      ensures r <==> contents == other.contents
    {
      if size != other.size {
        return false;
      }
      var thisCur := head;
      var otherCur := other.head;
      ghost var i := 0;
      while thisCur != null
        invariant 0 <= i <= |nodes|
        invariant thisCur == if i < |nodes| then nodes[i] else null
        invariant otherCur == if i < |other.nodes| then other.nodes[i] else null
        invariant contents[..i] == other.contents[..i]
        decreases |nodes| - i
      {
        assert nodes[i].next == if i + 1 < |nodes| then nodes[i + 1] else null;
        assert other.nodes[i].next == if i + 1 < |other.nodes| then other.nodes[i + 1] else null;
        if thisCur.data != otherCur.data {
          assert contents[i] != other.contents[i];
          return false;
        }
        assert contents[..i + 1] == contents[..i] + [contents[i]];
        assert other.contents[..i + 1] == other.contents[..i] + [other.contents[i]];
        thisCur := thisCur.next;
        otherCur := otherCur.next;
        i := i + 1;
      }
      assert contents[..i] == contents && other.contents[..i] == other.contents;
      return true;
    }

    /** `assertCorrectSize`: counting the nodes from the head gives `size_`, so the check never throws. */
    method AssertCorrectSize() returns (ok: bool)
      requires Valid()
      ensures ok
    {
      var itemCount := 0;
      var cur := head;
      while cur != null
        invariant 0 <= itemCount <= |nodes|
        invariant cur == if itemCount < |nodes| then nodes[itemCount] else null
        decreases |nodes| - itemCount
      {
        assert nodes[itemCount].next == if itemCount + 1 < |nodes| then nodes[itemCount + 1] else null;
        itemCount := itemCount + 1;
        cur := cur.next;
      }
      ok := itemCount == size;
    }

    /**
     * `assertPrevLinks`: the nodes met following `next` from the head equal
     * those met following `prev` from the tail, so the check never throws.
     */
    method AssertPrevLinks() returns (ok: bool)
      requires Valid()
      ensures ok
    {
      var forward: seq<Node> := [];
      var cur := head;
      while cur != null
        invariant |forward| <= |nodes| && forward == nodes[..|forward|]
        invariant cur == if |forward| < |nodes| then nodes[|forward|] else null
        decreases |nodes| - |forward|
      {
        assert nodes[|forward|].next == if |forward| + 1 < |nodes| then nodes[|forward| + 1] else null;
        forward := forward + [cur];
        cur := cur.next;
      }
      var reverse: seq<Node> := [];
      cur := tail;
      while cur != null
        invariant |reverse| <= |nodes| && reverse == nodes[|nodes| - |reverse|..]
        invariant cur == if |reverse| < |nodes| then nodes[|nodes| - 1 - |reverse|] else null
        decreases |nodes| - |reverse|
      {
        ghost var k := |nodes| - 1 - |reverse|;
        assert nodes[k].prev == if k > 0 then nodes[k - 1] else null;
        assert nodes[k..] == [nodes[k]] + nodes[k + 1..];
        reverse := [cur] + reverse;
        cur := cur.prev;
      }
      ok := forward == reverse;
    }

    /**
     * `insertOrdered`: links one new node in front of the earliest node whose
     * element is greater than `x`, or after the tail when there is none.
     * Existing nodes keep their places in the chain.
     */
    method InsertOrdered(x: int) returns (ghost added: Node)
      requires Valid()
      modifies Repr
      ensures Valid() && Repr == old(Repr) + {added} && fresh(added)
      ensures contents == Inserted(old(contents), x)
      ensures var k := InsertPos(old(contents), x); nodes == old(nodes)[..k] + [added] + old(nodes)[k..]
    {
      var newNode := new Node(x);
      added := newNode;
      if head == null {
        InsertIntoEmpty(newNode);
        return;
      }
      InsertByWalk(newNode);
    }

    /**
     * What `insertOrdered` leaves behind: `n` linked in at the insertion point
     * of its element, every other node in its place, and `size_` counting it.
     */
    ghost predicate InsertedNode(oldNodes: seq<Node>, oldContents: seq<int>, oldRepr: set<object>, n: Node)
      reads this, Repr, n
    {
      var k := InsertPos(oldContents, n.data);
      Valid() && Repr == oldRepr + {n} && k <= |oldNodes|
      && contents == Inserted(oldContents, n.data)
      && nodes == oldNodes[..k] + [n] + oldNodes[k..]
    }

    /** The empty-list branch of `insertOrdered`, `pushFront` and `pushBack`: the new node becomes both head and tail. */
    method InsertIntoEmpty(n: Node)
      requires Valid() && head == null && n !in Repr && n.next == null && n.prev == null
      modifies this
      ensures InsertedNode(old(nodes), old(contents), old(Repr), n) && head == n && tail == n
    {
      head, tail := n, n;
      size := size + 1;
      nodes, contents := [n], [n.data];
      Repr := Repr + {n};
    }

    /** The walk of `insertOrdered` over a non-empty list: links `n` in at the insertion point of its element. */
    method InsertByWalk(newNode: Node)
      requires Valid() && nodes != [] && newNode !in Repr && newNode.next == null && newNode.prev == null
      modifies Repr, newNode
      ensures InsertedNode(old(nodes), old(contents), old(Repr), newNode) && newNode.data == old(newNode.data)
    {
      var x := newNode.data;
      var curr := head;
      ghost var i, k := 0, 0;
      // The source ends the walk with a `finish` flag set right after linking; here that is a `break`.
      while curr != null
        invariant Valid() && Repr == old(Repr) && nodes == old(nodes) && contents == old(contents)
        invariant newNode.next == null && newNode.prev == null && newNode.data == x
        invariant 0 <= i < |nodes| && curr == nodes[i]
        invariant forall j :: 0 <= j < i ==> contents[j] <= x
        decreases |nodes| - i
      {
        if x < curr.data {
          k := i;
          InsertPosUnique(contents, x, k);
          LinkBeforeNode(newNode, curr, i);
          break;
        } else {
          assert nodes[i].next == if i + 1 < |nodes| then nodes[i + 1] else null;
          if curr.next == null {
            k := i + 1;
            InsertPosUnique(contents, x, k);
            LinkLast(newNode, curr);
            break;
          } else {
            curr := curr.next;
            i := i + 1;
          }
        }
      }
      size := size + 1;
    }

    /** The state after `n` has been linked in at position k of the chain `oldNodes`, before `size_` is updated. */
    ghost predicate Spliced(oldNodes: seq<Node>, oldContents: seq<int>, oldRepr: set<object>, n: Node, k: int)
      reads this, Repr
    {
      Linked() && size == |oldNodes| && Repr == oldRepr + {n} && n in Repr
      && 0 <= k <= |oldNodes| && |oldContents| == |oldNodes|
      && contents == oldContents[..k] + [n.data] + oldContents[k..]
      && nodes == oldNodes[..k] + [n] + oldNodes[k..]
    }

    /** The `insertOrdered` branch that links `n` in front of `curr`, the node at position i. */
    method LinkBeforeNode(n: Node, curr: Node, ghost i: nat)
      requires Valid() && i < |nodes| && curr == nodes[i]
      requires n !in Repr && n.next == null && n.prev == null
      modifies Repr, n
      ensures Spliced(old(nodes), old(contents), old(Repr), n, i) && n.data == old(n.data)
    {
      var prevNode := curr.prev;
      assert nodes[i].prev == if i > 0 then nodes[i - 1] else null;
      if prevNode == null {
        LinkFirst(n);
      } else {
        LinkBefore(n, prevNode, curr, i);
      }
    }

    /** Links `n` in front of the head, as `pushFront` and the head branch of `insertOrdered` do. */
    method LinkFirst(n: Node)
      requires Valid() && nodes != [] && n !in Repr && n.next == null && n.prev == null
      modifies this, nodes[0], n
      ensures Spliced(old(nodes), old(contents), old(Repr), n, 0) && n.data == old(n.data)
    {
      n.next := head;
      head.prev := n;
      head := n;
      nodes, contents := [n] + nodes, [n.data] + contents;
      Repr := Repr + {n};
      assert old(nodes)[..0] == [] && old(contents)[..0] == [];
      forall i | 1 <= i < |nodes|
        ensures nodes[i].next == if i + 1 < |nodes| then nodes[i + 1] else null
        ensures nodes[i].prev == nodes[i - 1]
      {
        assert nodes[i] == old(nodes)[i - 1];
        assert old(nodes[i - 1].next) == if i < |old(nodes)| then old(nodes)[i] else null;
        assert i > 1 ==> old(nodes[i - 1].prev) == old(nodes)[i - 2];
      }
    }

    /** The `insertOrdered` branch that links `n` between `prevNode` (at i - 1) and `curr` (at i). */
    method LinkBefore(n: Node, prevNode: Node, curr: Node, ghost i: nat)
      requires Valid() && 0 < i < |nodes| && prevNode == nodes[i - 1] && curr == nodes[i]
      requires n !in Repr && n.next == null && n.prev == null
      modifies this, prevNode, curr, n
      ensures Spliced(old(nodes), old(contents), old(Repr), n, i) && n.data == old(n.data)
    {
      prevNode.next := n;
      n.prev := prevNode;
      n.next := curr;
      curr.prev := n;
      nodes := nodes[..i] + [n] + nodes[i..];
      contents := contents[..i] + [n.data] + contents[i..];
      Repr := Repr + {n};
      forall j | 0 <= j < i
        ensures nodes[j].next == nodes[j + 1]
        ensures nodes[j].prev == if j > 0 then nodes[j - 1] else null
      {
        assert nodes[j] == old(nodes)[j];
        if j < i - 1 {
          assert old(nodes)[j] != old(nodes)[i - 1];
          assert old(nodes[j].next) == old(nodes)[j + 1];
        }
        assert old(nodes)[j] != old(nodes)[i];
        assert old(nodes[j].prev) == if j > 0 then old(nodes)[j - 1] else null;
      }
      forall j | i < j < |nodes|
        ensures nodes[j].next == if j + 1 < |nodes| then nodes[j + 1] else null
        ensures nodes[j].prev == nodes[j - 1]
      {
        assert nodes[j] == old(nodes)[j - 1];
        assert old(nodes)[j - 1] != old(nodes)[i - 1];
        if j > i + 1 {
          assert old(nodes)[i] != old(nodes)[j - 1];
          assert old(nodes[j - 1].prev) == old(nodes)[j - 2];
        }
        assert old(nodes[j - 1].next) == if j < |old(nodes)| then old(nodes)[j] else null;
      }
    }

    /** Links `n` after the tail `curr`, as `pushBack` and the tail branch of `insertOrdered` do. */
    method LinkLast(n: Node, curr: Node)
      requires Valid() && nodes != [] && curr == nodes[|nodes| - 1]
      requires n !in Repr && n.next == null && n.prev == null
      modifies this, curr, n
      ensures Spliced(old(nodes), old(contents), old(Repr), n, |old(nodes)|) && n.data == old(n.data)
    {
      curr.next := n;
      n.prev := curr;
      tail := n;
      nodes, contents := nodes + [n], contents + [n.data];
      Repr := Repr + {n};
      assert old(nodes)[..|old(nodes)|] == old(nodes) && old(contents)[..|old(contents)|] == old(contents);
      forall i | 0 <= i < |nodes| - 1
        ensures nodes[i].prev == if i > 0 then nodes[i - 1] else null
        ensures i + 2 < |nodes| ==> nodes[i].next == nodes[i + 1]
      {
        assert nodes[i] == old(nodes)[i];
        assert old(nodes[i].prev) == if i > 0 then old(nodes)[i - 1] else null;
        assert i + 1 < |old(nodes)| ==> old(nodes[i].next) == old(nodes)[i + 1];
      }
    }

    /** `popFront`: nothing on an empty list, otherwise the head node goes. */
    method PopFront()
      requires Valid()
      modifies Repr
      ensures Valid() && Repr <= old(Repr)
      ensures contents == if old(contents) == [] then [] else old(contents)[1..]
      ensures nodes == if old(nodes) == [] then [] else old(nodes)[1..]
    {
      if head == null {
        return;
      }
      assert head == nodes[0];
      assert nodes[0].next == if 1 < |nodes| then nodes[1] else null;
      if head.next == null {
        assert |nodes| == 1;
        Repr := Repr - {head};
        head, tail := null, null;
        size := size - 1;
        nodes, contents := [], [];
        return;
      }
      var oldHead := head;
      assert head.next == nodes[1] && nodes[1] in Repr;
      head := head.next;
      head.prev := null;
      size := size - 1;
      nodes, contents := nodes[1..], contents[1..];
      Repr := Repr - {oldHead};
      forall i | 0 <= i < |nodes|
        ensures nodes[i].next == if i + 1 < |nodes| then nodes[i + 1] else null
        ensures i > 0 ==> nodes[i].prev == nodes[i - 1]
      {
        assert nodes[i] == old(nodes)[i + 1];
        assert old(nodes[i + 1].next) == if i + 2 < |old(nodes)| then old(nodes)[i + 2] else null;
        assert old(nodes[i + 1].prev) == old(nodes)[i];
      }
    }

    /** `popBack`: nothing on an empty list, otherwise the tail node goes. */
    method PopBack()
      requires Valid()
      modifies Repr
      ensures Valid() && Repr <= old(Repr)
      ensures contents == if old(contents) == [] then [] else old(contents)[..|old(contents)| - 1]
      ensures nodes == if old(nodes) == [] then [] else old(nodes)[..|old(nodes)| - 1]
    {
      if head == null {
        return;
      }
      assert tail == nodes[|nodes| - 1];
      assert nodes[|nodes| - 1].prev == if |nodes| > 1 then nodes[|nodes| - 2] else null;
      if tail.prev == null {
        assert |nodes| == 1;
        Repr := Repr - {tail};
        head, tail := null, null;
        size := size - 1;
        nodes, contents := [], [];
        return;
      }
      var oldTail := tail;
      assert tail.prev == nodes[|nodes| - 2] && nodes[|nodes| - 2] in Repr;
      tail := tail.prev;
      tail.next := null;
      size := size - 1;
      nodes, contents := nodes[..|nodes| - 1], contents[..|contents| - 1];
      Repr := Repr - {oldTail};
      forall i | 0 <= i < |nodes|
        ensures nodes[i].prev == if i > 0 then nodes[i - 1] else null
        ensures i + 1 < |nodes| ==> nodes[i].next == nodes[i + 1]
      {
        assert nodes[i] == old(nodes)[i];
        assert old(nodes[i].prev) == if i > 0 then old(nodes)[i - 1] else null;
        assert old(nodes[i].next) == old(nodes)[i + 1];
      }
    }
  }

  /** The scenario of the exercise driver: 7, 4, -1 and 10 go into [5, 6, 8, 9] in order. */
  lemma InsertOrderedScenario(s: seq<int>)
    requires s == [5, 6, 8, 9]
    ensures Inserted(Inserted(Inserted(Inserted(s, 7), 4), -1), 10) == [-1, 4, 5, 6, 7, 8, 9, 10]
  {
    var s1 := Inserted(s, 7);
    InsertSeven(s);
    var s2 := Inserted(s1, 4);
    InsertFour(s1);
    var s3 := Inserted(s2, -1);
    InsertMinusOne(s2);
    InsertTen(s3);
  }

  /** The four insertions of the driver, one at a time. */
  lemma InsertSeven(s: seq<int>)
    requires s == [5, 6, 8, 9]
    ensures Inserted(s, 7) == [5, 6, 7, 8, 9]
  {
    InsertAt(s, 7, 2);
    assert s[..2] == [5, 6] && s[2..] == [8, 9];
  }

  lemma InsertFour(s: seq<int>)
    requires s == [5, 6, 7, 8, 9]
    ensures Inserted(s, 4) == [4, 5, 6, 7, 8, 9]
  {
    InsertAt(s, 4, 0);
    assert s[..0] == [] && s[0..] == s;
  }

  lemma InsertMinusOne(s: seq<int>)
    requires s == [4, 5, 6, 7, 8, 9]
    ensures Inserted(s, -1) == [-1, 4, 5, 6, 7, 8, 9]
  {
    InsertAt(s, -1, 0);
    assert s[..0] == [] && s[0..] == s;
  }

  lemma InsertTen(s: seq<int>)
    requires s == [-1, 4, 5, 6, 7, 8, 9]
    ensures Inserted(s, 10) == [-1, 4, 5, 6, 7, 8, 9, 10]
  {
    InsertAt(s, 10, 7);
    assert s[..7] == s && s[7..] == [];
  }

  /** Inserting where nothing before is greater and the next element (if any) is greater. */
  lemma InsertAt(s: seq<int>, x: int, k: nat)
    requires k <= |s| && (forall j :: 0 <= j < k ==> s[j] <= x) && (k < |s| ==> x < s[k])
    ensures Inserted(s, x) == s[..k] + [x] + s[k..]
  {
    InsertPosUnique(s, x, k);
  }
}
