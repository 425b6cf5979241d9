// The array-backed binary min-heap of heap/Heap.hpp. Slot 0 of the array is
// unused; the children of slot i are 2i and 2i + 1 and its parent is i / 2.
// The element type is int (the template needs only `<`, `<=` and `>`).
module MinHeap {

  /** Slot j holds a key no smaller than its parent's, in slot j / 2. */
  ghost predicate ParentBelow(a: seq<int>, j: nat)
    requires 2 <= j < |a|
  {
    a[j / 2] <= a[j]
  }

  /** Slot j holds a key no smaller than its grandparent's, in slot j / 4. */
  ghost predicate GrandparentBelow(a: seq<int>, j: nat)
    requires 4 <= j < |a|
  {
    a[j / 2 / 2] <= a[j]
  }

  /** Every element from slot 2 to slot n is no smaller than its parent. */
  ghost predicate HeapOrdered(a: seq<int>, n: nat)
    requires n < |a|
  {
    forall j :: 2 <= j <= n ==> ParentBelow(a, j)
  }

  /** The elements in slots 1..n. */
  ghost function Elements(a: seq<int>, n: nat): multiset<int>
    requires n < |a|
  {
    multiset(a[1..n + 1])
  }

  /** In a heap-ordered array the root is no larger than any element. */
  lemma {:induction false} RootIsMinimum(a: seq<int>, n: nat, i: nat)
    requires n < |a| && HeapOrdered(a, n) && 1 <= i <= n
    ensures a[1] <= a[i]
    decreases i
  {
    if i > 1 {
      RootIsMinimum(a, n, i / 2);
      assert ParentBelow(a, i);
    }
  }

  /** In a heap-ordered array the root is one of the elements and no larger than any of them. */
  lemma RootIsLeast(a: seq<int>, n: nat)
    requires 1 <= n < |a| && HeapOrdered(a, n)
    ensures a[1] in Elements(a, n)
    ensures forall x :: x in Elements(a, n) ==> a[1] <= x
  {
    assert a[1] == a[1..n + 1][0];
    forall x | x in Elements(a, n)
      ensures a[1] <= x
    {
      var i :| 0 <= i < n && a[1..n + 1][i] == x;
      RootIsMinimum(a, n, i + 1);
    }
  }

  /** The heap order of slots 1..n depends on those slots only. */
  lemma SameSlotsOrdered(a: seq<int>, b: seq<int>, n: nat)
    requires n < |a| && n < |b| && HeapOrdered(a, n)
    requires forall j :: 1 <= j <= n ==> a[j] == b[j]
    ensures HeapOrdered(b, n) && Elements(b, n) == Elements(a, n)
  {
    forall j | 2 <= j <= n
      ensures ParentBelow(b, j)
    {
      assert ParentBelow(a, j);
    }
    assert b[1..n + 1] == a[1..n + 1];
  }

  /** Exchanging two entries of a sequence keeps its multiset. */
  lemma SwapMultiset(s: seq<int>, x: nat, y: nat)
    requires x < |s| && y < |s|
    ensures multiset(s[x := s[y]][y := s[x]]) == multiset(s)
  {
    if x != y {
      var t := s[x := s[y]];
      assert multiset(t) == multiset(s) - multiset{s[x]} + multiset{s[y]};
      assert t[y] == s[y];
      assert multiset(t[y := s[x]]) == multiset(t) - multiset{s[y]} + multiset{s[x]};
    }
  }

  /** Exchanging two slots inside 1..n keeps the elements of the heap. */
  lemma SwapKeepsElements(a: seq<int>, n: nat, i: nat, j: nat)
    requires n < |a| && 1 <= i <= n && 1 <= j <= n
    ensures Elements(a[i := a[j]][j := a[i]], n) == Elements(a, n)
  {
    var s := a[1..n + 1];
    assert a[i := a[j]][j := a[i]][1..n + 1] == s[i - 1 := s[j - 1]][j - 1 := s[i - 1]];
    SwapMultiset(s, i - 1, j - 1);
  }

  /**
   * The heap order holds everywhere except possibly between slot k and its
   * parent, and k's parent is no larger than k's children (what `_heapifyUp(k)` needs).
   */
  ghost predicate OrderedExceptUp(a: seq<int>, n: nat, k: nat)
    requires n < |a|
  {
    (forall j :: 2 <= j <= n && j != k ==> ParentBelow(a, j))
    && (k > 1 ==> forall c :: k < c <= n && c / 2 == k ==> GrandparentBelow(a, c))
  }

  /**
   * The heap order holds everywhere except possibly between slot k and its
   * children, and k's parent is no larger than k's children (what `_heapifyDown(k)` needs).
   */
  ghost predicate OrderedExceptDown(a: seq<int>, n: nat, k: nat)
    requires n < |a|
  {
    (forall j :: 2 <= j <= n && j / 2 != k ==> ParentBelow(a, j))
    && (k > 1 ==> forall c :: k < c <= n && c / 2 == k ==> GrandparentBelow(a, c))
  }

  /** One step of `_heapifyUp`: after swapping k with its smaller-keyed parent, only the parent may be out of order. */
  lemma UpStep(a: seq<int>, n: nat, k: nat)
    requires n < |a| && 2 <= k <= n && OrderedExceptUp(a, n, k) && a[k] < a[k / 2]
    ensures OrderedExceptUp(a[k := a[k / 2]][k / 2 := a[k]], n, k / 2)
  {
    var p := k / 2;
    var b := a[k := a[p]][p := a[k]];
    forall j | 2 <= j <= n && j != p
      ensures ParentBelow(b, j)
    {
      if j == k {
      } else if j / 2 == k {
        assert GrandparentBelow(a, j);
      } else if j / 2 == p {
        assert ParentBelow(a, j);
      } else {
        assert ParentBelow(a, j);
      }
    }
    if p > 1 {
      forall c | p < c <= n && c / 2 == p
        ensures GrandparentBelow(b, c)
      {
        assert ParentBelow(a, p);
        if c != k {
          assert ParentBelow(a, c);
        }
      }
    }
  }

  /** `_heapifyUp` stops when the parent of k is no larger: the heap is ordered. */
  lemma UpDone(a: seq<int>, n: nat, k: nat)
    requires n < |a| && 1 <= k <= n && OrderedExceptUp(a, n, k) && (k == 1 || a[k / 2] <= a[k])
    ensures HeapOrdered(a, n)
  {
    forall j | 2 <= j <= n
      ensures ParentBelow(a, j)
    {
    }
  }

  /** One step of `_heapifyDown`: after swapping k with its smaller child c, only c may be out of order. */
  lemma DownStep(a: seq<int>, n: nat, k: nat, c: nat)
    requires n < |a| && 1 <= k && 2 * k <= c <= 2 * k + 1 && c <= n
    requires OrderedExceptDown(a, n, k) && a[c] < a[k]
    requires a[c] <= a[2 * k] && (2 * k + 1 <= n ==> a[c] <= a[2 * k + 1])
    ensures OrderedExceptDown(a[k := a[c]][c := a[k]], n, c)
  {
    var b := a[k := a[c]][c := a[k]];
    assert c / 2 == k;
    forall j | 2 <= j <= n && j / 2 != c
      ensures ParentBelow(b, j)
    {
      if j == k {
        assert GrandparentBelow(a, c);
      } else if j == c {
      } else if j / 2 == k {
        assert 2 * k <= j <= 2 * k + 1;
      } else {
        assert ParentBelow(a, j);
      }
    }
    forall d | c < d <= n && d / 2 == c
      ensures GrandparentBelow(b, d)
    {
      assert ParentBelow(a, d);
    }
  }

  /** `_heapifyDown` stops at a leaf or when no child of k has a smaller key: the heap is ordered. */
  lemma DownDone(a: seq<int>, n: nat, k: nat)
    requires n < |a| && 1 <= k && OrderedExceptDown(a, n, k)
    requires 2 * k <= n ==> a[k] <= a[2 * k]
    requires 2 * k + 1 <= n ==> a[k] <= a[2 * k + 1]
    ensures HeapOrdered(a, n)
  {
    forall j | 2 <= j <= n
      ensures ParentBelow(a, j)
    {
      if j / 2 == k {
        assert j == 2 * k || j == 2 * k + 1;
      }
    }
  }

  lemma AppendOrder(a: seq<int>, n: nat, key: int)
    requires n + 1 < |a| && HeapOrdered(a, n)
    ensures OrderedExceptUp(a[n + 1 := key], n + 1, n + 1)
  {
    var b := a[n + 1 := key];
    forall j | 2 <= j <= n
      ensures ParentBelow(b, j)
    {
      assert ParentBelow(a, j);
    }
  }

  /** Placing a key in the slot after the last keeps the order everywhere but at that slot. */
  lemma AppendPrepares(a: seq<int>, n: nat, key: int)
    requires n + 1 < |a| && HeapOrdered(a, n)
    ensures OrderedExceptUp(a[n + 1 := key], n + 1, n + 1)
    ensures Elements(a[n + 1 := key], n + 1) == Elements(a, n) + multiset{key}
  {
    var b := a[n + 1 := key];
    AppendOrder(a, n, key);
    assert b[1..n + 2] == a[1..n + 1] + [key];
  }

  lemma RemoveRootOrder(a: seq<int>, n: nat)
    requires 1 <= n < |a| && HeapOrdered(a, n)
    ensures OrderedExceptDown(a[1 := a[n]][n := a[1]], n - 1, 1)
  {
    var b := a[1 := a[n]][n := a[1]];
    forall j | 2 <= j <= n - 1 && j / 2 != 1
      ensures ParentBelow(b, j)
    {
      assert ParentBelow(a, j);
    }
  }

  /** Moving the last key to the root and dropping the last slot keeps the order everywhere but below the root. */
  lemma RemoveRootPrepares(a: seq<int>, n: nat)
    requires 1 <= n < |a| && HeapOrdered(a, n)
    ensures OrderedExceptDown(a[1 := a[n]][n := a[1]], n - 1, 1)
    ensures Elements(a[1 := a[n]][n := a[1]], n - 1) == Elements(a, n) - multiset{a[1]}
  {
    var b := a[1 := a[n]][n := a[1]];
    RemoveRootOrder(a, n);
    SwapKeepsElements(a, n, 1, n);
    assert b[1..n + 1] == b[1..n] + [a[1]];
    calc {
      Elements(b, n - 1);
      multiset(b[1..n]);
      multiset(b[1..n + 1]) - multiset{a[1]};
      Elements(a, n) - multiset{a[1]};
    }
  }

  /** `_isRoot`. */
  function IsRoot(index: nat): (r: bool)
    ensures r <==> index == 1
  {
    index == 1
  }

  /** `_isLeaf`: slot `index` has no child among the first `size` slots. */
  function IsLeaf(index: nat, size: nat): (r: bool)
    ensures r <==> 2 * index > size && 2 * index + 1 > size
  {
    index * 2 > size
  }

  /** `_parent`: the slot whose children include `index`. */
  function Parent(index: nat): (p: nat)
    requires index >= 2
    ensures 1 <= p < index && (index == 2 * p || index == 2 * p + 1)
  {
    index / 2
  }

  /** The copy loop of `_growArray`: a new array of `2 * n + 1` slots whose slots 1..n are those of `src`. */
  method CopyPrefix(src: array<int>, n: nat) returns (dst: array<int>)
    requires n < src.Length
    ensures fresh(dst) && dst.Length == 2 * n + 1
    ensures forall j :: 1 <= j <= n ==> dst[j] == src[j]
    ensures dst[1..n + 1] == src[1..n + 1]
  {
    dst := new int[2 * n + 1];
    var i := 1;
    while i <= n
      invariant 1 <= i <= n + 1
      invariant forall j :: 1 <= j < i ==> dst[j] == src[j]
    {
      dst[i] := src[i];
      i := i + 1;
    }
    assert dst[1..n + 1] == src[1..n + 1];
  }

  class Heap {
    var size: nat
    var capacity: nat
    var item: array<int>

    ghost predicate Valid()
      reads this, item
    {
      item.Length == capacity + 1 && 2 <= capacity && size <= capacity
      && HeapOrdered(item[..], size)
    }

    /** The multiset of keys the heap holds. */
    ghost function Contents(): multiset<int>
      reads this, item
      requires size < item.Length
    {
      Elements(item[..], size)
    }

    /** An empty heap with room for two keys. */
    constructor ()
      ensures Valid() && Contents() == multiset{} && size == 0 && capacity == 2 && fresh(item)
    {
      size := 0;
      capacity := 2;
      item := new int[3];
    }

    /**
     * `_minChild`: the child of `index` holding the smaller key, the left one
     * on a tie or when there is no right child.
     */
    method MinChild(index: nat) returns (c: nat)
      requires 1 <= index && 2 * index <= size < item.Length
      ensures c == 2 * index || (c == 2 * index + 1 && c <= size)
      ensures item[c] <= item[2 * index]
      ensures 2 * index + 1 <= size ==> item[c] <= item[2 * index + 1]
      ensures c == 2 * index + 1 ==> item[c] < item[2 * index]
    {
      var left := index * 2;
      var right := index * 2 + 1;
      if right > size {
        c := left;
      } else if item[left] <= item[right] {
        c := left;
      } else {
        c := right;
      }
    }

    /** `std::swap` of two slots of the array. */
    method Swap(i: nat, j: nat)
      requires i < item.Length && j < item.Length
      modifies item
      ensures item[..] == old(item[..])[i := old(item[j])][j := old(item[i])]
    {
      item[i], item[j] := item[j], item[i];
    }

    /** `_heapifyUp(index)`: moves the key at `index` up until its parent is no larger. */
    method HeapifyUp(index: nat)
      requires 1 <= index <= size < item.Length
      requires OrderedExceptUp(item[..], size, index)
      modifies item
      ensures HeapOrdered(item[..], size)
      ensures Elements(item[..], size) == Elements(old(item[..]), size)
      decreases index
    {
      if !IsRoot(index) {
        var p := Parent(index);
        if item[index] < item[p] {
          UpStep(item[..], size, index);
          SwapKeepsElements(item[..], size, index, p);
          Swap(index, p);
          HeapifyUp(p);
        } else {
          UpDone(item[..], size, index);
        }
      } else {
        UpDone(item[..], size, index);
      }
    }

    /** `_heapifyDown(index)`: moves the key at `index` down until its children are no smaller. */
    method HeapifyDown(index: nat)
      requires 1 <= index && size < item.Length
      requires OrderedExceptDown(item[..], size, index)
      modifies item
      ensures HeapOrdered(item[..], size)
      ensures Elements(item[..], size) == Elements(old(item[..]), size)
      decreases size - index
    {
      if !IsLeaf(index, size) {
        var c := MinChild(index);
        if item[index] > item[c] {
          ghost var a := item[..];
          DownStep(a, size, index, c);
          SwapKeepsElements(a, size, index, c);
          Swap(index, c);
          HeapifyDown(c);
        } else {
          DownDone(item[..], size, index);
        }
      } else {
        DownDone(item[..], size, index);
      }
    }

    /** `_growArray`: a new array of twice the capacity holding the same keys in slots 1..capacity. */
    method GrowArray()
      requires Valid()
      modifies this
      ensures Valid() && fresh(item)
      ensures capacity == 2 * old(capacity) && size == old(size)
      ensures item[1..old(capacity) + 1] == old(item[1..capacity + 1])
      ensures Contents() == old(Contents())
    {
      var newItem := CopyPrefix(item, capacity);
      SameSlotsOrdered(item[..], newItem[..], size);
      capacity := 2 * capacity;
      item := newItem;
    }

    /** `insert` once there is room: the key goes into the slot after the last and moves up. */
    method Append(key: int)
      requires Valid() && size < capacity
      modifies this, item
      ensures Valid() && item == old(item) && capacity == old(capacity)
      ensures size == old(size) + 1
      ensures Contents() == old(Contents()) + multiset{key}
    {
      ghost var a := item[..];
      var n := size;
      AppendPrepares(a, n, key);
      item[n + 1] := key;
      assert item[..] == a[n + 1 := key];
      size := n + 1;
      HeapifyUp(size);
    }

    /** `insert`: grows the array when full, appends `key` and restores the order upwards. */
    method Insert(key: int)
      requires Valid()
      modifies this, item
      ensures Valid() && (item == old(item) || fresh(item))
      ensures size == old(size) + 1
      ensures Contents() == old(Contents()) + multiset{key}
      ensures capacity == if old(size) == old(capacity) then 2 * old(capacity) else old(capacity)
    {
      if size == capacity {
        GrowArray();
      }
      Append(key);
    }

    /**
     * `removeMin`: the root key, which is the smallest; the last key takes
     * its place and sinks. The source does not check for an empty heap, so
     * neither may a caller call it on one.
     */
    method RemoveMin() returns (min: int)
      requires Valid() && size > 0
      modifies item, this
      ensures Valid() && item == old(item) && capacity == old(capacity)
      ensures size == old(size) - 1
      ensures min in old(Contents())
      ensures forall x :: x in old(Contents()) ==> min <= x
      ensures Contents() == old(Contents()) - multiset{min}
    {
      ghost var before := Contents();
      ghost var a := item[..];
      var n := size;
      assert before == Elements(a, n);
      min := item[1];
      RootIsLeast(a, n);
      RemoveRootPrepares(a, n);
      Swap(1, n);
      size := n - 1;
      HeapifyDown(1);
      assert Contents() == before - multiset{min};
    }
  }

  /** One more key of a sequence adds it to the multiset of the prefix. */
  lemma PrefixStep(keys: seq<int>, k: nat)
    requires k < |keys|
    ensures multiset(keys[..k + 1]) == multiset(keys[..k]) + multiset{keys[k]}
  {
    assert keys[..k + 1] == keys[..k] + [keys[k]];
  }

  /** A heap holding `keys`, inserted one by one in order (heap/main.cpp). */
  method BuildHeap(keys: seq<int>) returns (h: Heap)
    ensures fresh(h) && fresh(h.item) && h.Valid()
    ensures h.Contents() == multiset(keys) && h.size == |keys|
  {
    h := new Heap();
    var k := 0;
    while k < |keys|
      invariant 0 <= k <= |keys|
      invariant h.Valid() && fresh(h) && fresh(h.item)
      invariant h.Contents() == multiset(keys[..k]) && h.size == k
    {
      PrefixStep(keys, k);
      h.Insert(keys[k]);
      k := k + 1;
    }
    assert keys[..k] == keys;
  }

  /** `s` is in ascending order. */
  ghost predicate Ascending(s: seq<int>)
  {
    forall i, j :: 0 <= i < j < |s| ==> s[i] <= s[j]
  }

  /** No key already taken out exceeds a key still in the heap. */
  ghost predicate NoneAbove(out: seq<int>, rest: multiset<int>)
  {
    forall i, x :: 0 <= i < |out| && x in rest ==> out[i] <= x
  }

  /** Taking the minimum `m` of `rest` and appending it to `out` keeps `out` ascending and below what is left. */
  lemma DrainStep(out: seq<int>, rest: multiset<int>, m: int)
    requires Ascending(out) && NoneAbove(out, rest)
    requires m in rest && forall x :: x in rest ==> m <= x
    ensures Ascending(out + [m]) && NoneAbove(out + [m], rest - multiset{m})
    ensures multiset(out + [m]) + (rest - multiset{m}) == multiset(out) + rest
  {
    forall x | x in rest - multiset{m}
      ensures x in rest
    {
    }
  }

  /** Keys inserted one by one and then removed one by one come out in ascending order (heap/main.cpp). */
  method DrainInOrder(keys: seq<int>) returns (out: seq<int>)
    ensures multiset(out) == multiset(keys)
    ensures forall i, j :: 0 <= i < j < |out| ==> out[i] <= out[j]
  {
    var h := BuildHeap(keys);
    out := [];
    while h.size > 0
      invariant h.Valid() && fresh(h) && fresh(h.item)
      invariant multiset(out) + h.Contents() == multiset(keys)
      invariant Ascending(out) && NoneAbove(out, h.Contents())
      invariant h.size == |h.Contents()|
      decreases h.size
    {
      ghost var rest := h.Contents();
      var m := h.RemoveMin();
      DrainStep(out, rest, m);
      out := out + [m];
    }
    assert h.Contents() == multiset{};
  }
}
