// The copying operations of z_hw/Ordered_DataStructure/LinkedList:
// `splitHalves`, `explode`, `merge` and the two merge sorts. Each of them
// works on working copies of its input lists and builds new lists with
// pushBack, pushFront, popFront and popBack, so the lists are modelled here
// as values (`seq<int>`) and those calls as the matching sequence operations.
module ListSorting {
  import opened LinkedLists

  /** A sorted sequence stays sorted without its first element. */
  lemma SortedTail(s: seq<int>)
    requires Sorted(s) && s != []
    ensures Sorted(s[1..])
  {
    forall i, j | 0 <= i < j < |s| - 1 && j == i + 1
      ensures s[1..][i] <= s[1..][j]
    {
      assert s[1..][i] == s[i + 1] && s[1..][j] == s[j + 1];
    }
  }

  /** Putting `a` in front of a sorted sequence keeps it sorted exactly when `a` is no larger than its first element. */
  lemma SortedCons(a: int, t: seq<int>)
    ensures Sorted([a] + t) <==> Sorted(t) && (t == [] || a <= t[0])
  {
    var s := [a] + t;
    if Sorted(t) && (t == [] || a <= t[0]) {
      forall i, j | 0 <= i < j < |s| && j == i + 1
        ensures s[i] <= s[j]
      {
        if i > 0 {
          assert s[i] == t[i - 1] && s[j] == t[j - 1];
        }
      }
    }
    if Sorted(s) {
      assert s[1..] == t;
      SortedTail(s);
      if t != [] {
        assert s[0] <= s[1];
      }
    }
  }

  /**
   * The merge `merge` computes on sorted inputs: repeatedly the smaller of
   * the two fronts, the right one when they are equal.
   */
  function MergeSpec(left: seq<int>, right: seq<int>): (r: seq<int>)
    ensures |r| == |left| + |right|
    decreases |left| + |right|
  {
    if left == [] then right
    else if right == [] then left
    else if left[0] < right[0] then [left[0]] + MergeSpec(left[1..], right)
    else [right[0]] + MergeSpec(left, right[1..])
  }

  /** The merge keeps every element of both inputs, with multiplicity. */
  lemma {:induction false} MergeSpecPermutes(left: seq<int>, right: seq<int>)
    ensures multiset(MergeSpec(left, right)) == multiset(left) + multiset(right)
    decreases |left| + |right|
  {
    if left == [] || right == [] {
    } else if left[0] < right[0] {
      var rest := MergeSpec(left[1..], right);
      MergeSpecPermutes(left[1..], right);
      assert MergeSpec(left, right) == [left[0]] + rest;
      FrontSplit(left);
      UnionRegroup(multiset(MergeSpec(left, right)), multiset{left[0]}, multiset(left[1..]), multiset(right));
    } else {
      var rest := MergeSpec(left, right[1..]);
      MergeSpecPermutes(left, right[1..]);
      assert MergeSpec(left, right) == [right[0]] + rest;
      FrontSplit(right);
      UnionRegroup(multiset(MergeSpec(left, right)), multiset{right[0]}, multiset(right[1..]), multiset(left));
    }
  }

  /** The elements of a non-empty sequence: its first one and those of the rest. */
  lemma FrontSplit(s: seq<int>)
    requires s != []
    ensures multiset(s) == multiset{s[0]} + multiset(s[1..])
  {
    assert s == [s[0]] + s[1..];
  }

  /** Multiset union regrouped, stated on plain multisets. */
  lemma UnionRegroup(whole: multiset<int>, front: multiset<int>, middle: multiset<int>, last: multiset<int>)
    requires whole == front + (middle + last)
    ensures whole == (front + middle) + last && whole == last + (front + middle)
  {
  }

  /** The merge of two sorted sequences is sorted. */
  lemma {:induction false} MergeSpecSorted(left: seq<int>, right: seq<int>)
    requires Sorted(left) && Sorted(right)
    ensures Sorted(MergeSpec(left, right))
    decreases |left| + |right|
  {
    if left == [] || right == [] {
    } else if left[0] < right[0] {
      SortedTail(left);
      MergeSpecSorted(left[1..], right);
      var rest := MergeSpec(left[1..], right);
      if left[1..] != [] {
        assert left[0] <= left[1];
      }
      MergeStartsWithAFront(left[1..], right);
      SortedCons(left[0], rest);
    } else {
      SortedTail(right);
      MergeSpecSorted(left, right[1..]);
      var rest := MergeSpec(left, right[1..]);
      if right[1..] != [] {
        assert right[0] <= right[1];
      }
      MergeStartsWithAFront(left, right[1..]);
      SortedCons(right[0], rest);
    }
  }

  /** A non-empty merge starts with the front of one of its inputs. */
  lemma MergeStartsWithAFront(left: seq<int>, right: seq<int>)
    ensures MergeSpec(left, right) != [] ==>
      (left != [] && MergeSpec(left, right)[0] == left[0]) || (right != [] && MergeSpec(left, right)[0] == right[0])
  {
  }

  /**
   * One of the two draining loops of `merge`: moves every element of `src`
   * to the back of `merged`, but when the last merged element is greater
   * than the one being moved, puts the moved one in front of it.
   */
  method Drain(merged0: seq<int>, src0: seq<int>) returns (merged: seq<int>)
    ensures multiset(merged) == multiset(merged0) + multiset(src0)
    ensures Sorted(merged0 + src0) ==> merged == merged0 + src0
  {
    merged := merged0;
    var src := src0;
    while src != []
      invariant multiset(merged) + multiset(src) == multiset(merged0) + multiset(src0)
      invariant Sorted(merged0 + src0) ==> merged + src == merged0 + src0
    {
      var itemToMerge := src[0];
      if merged == [] {
        DrainAppend(merged, src);
        merged := merged + [itemToMerge];
      } else {
        var lastMergedItem := merged[|merged| - 1];
        if lastMergedItem <= itemToMerge {
          DrainAppend(merged, src);
          merged := merged + [itemToMerge];
        } else {
          DrainSwap(merged, src, merged0 + src0);
          merged := merged[..|merged| - 1];
          merged := merged + [itemToMerge];
          merged := merged + [lastMergedItem];
        }
      }
      src := src[1..];
    }
  }

  /** A plain `pushBack` of the front of `src` moves it without losing or reordering anything. */
  lemma DrainAppend(merged: seq<int>, src: seq<int>)
    requires src != []
    ensures multiset(merged + [src[0]]) + multiset(src[1..]) == multiset(merged) + multiset(src)
    ensures (merged + [src[0]]) + src[1..] == merged + src
  {
    assert src == [src[0]] + src[1..];
  }

  /**
   * The exchanging branch moves the front of `src` in front of the last
   * merged element; it is only taken when `merged + src` is out of order.
   */
  lemma DrainSwap(merged: seq<int>, src: seq<int>, whole: seq<int>)
    requires merged != [] && src != [] && merged[|merged| - 1] > src[0]
    requires Sorted(whole) ==> merged + src == whole
    ensures multiset(merged[..|merged| - 1] + [src[0]] + [merged[|merged| - 1]]) + multiset(src[1..])
      == multiset(merged) + multiset(src)
    ensures !Sorted(whole)
  {
    var n := |merged|;
    assert merged == merged[..n - 1] + [merged[n - 1]];
    assert src == [src[0]] + src[1..];
    assert (merged + src)[n - 1] == merged[n - 1] && (merged + src)[n] == src[0];
  }

  /** What `merge` keeps true while it runs: no element is lost or gained. */
  ghost predicate SameElements(merged: seq<int>, left: seq<int>, right: seq<int>, left0: seq<int>, right0: seq<int>)
  {
    multiset(merged) + multiset(left) + multiset(right) == multiset(left0) + multiset(right0)
  }

  /**
   * What `merge` keeps true while it runs on sorted inputs: the merged prefix
   * followed by the merge of what is left is the merge of the inputs.
   */
  ghost predicate MergedSoFar(merged: seq<int>, left: seq<int>, right: seq<int>, left0: seq<int>, right0: seq<int>)
  {
    Sorted(left0) && Sorted(right0) ==>
      Sorted(left) && Sorted(right) && merged + MergeSpec(left, right) == MergeSpec(left0, right0)
  }

  /** Moving the front of `left` to `merged` loses and gains nothing. */
  lemma TakeLeftElements(merged: seq<int>, left: seq<int>, right: seq<int>, left0: seq<int>, right0: seq<int>)
    requires left != [] && SameElements(merged, left, right, left0, right0)
    ensures SameElements(merged + [left[0]], left[1..], right, left0, right0)
  {
    assert left == [left[0]] + left[1..];
  }

  /** Moving the front of `right` to `merged` loses and gains nothing. */
  lemma TakeRightElements(merged: seq<int>, left: seq<int>, right: seq<int>, left0: seq<int>, right0: seq<int>)
    requires right != [] && SameElements(merged, left, right, left0, right0)
    ensures SameElements(merged + [right[0]], left, right[1..], left0, right0)
  {
    assert right == [right[0]] + right[1..];
    assert multiset(merged + [right[0]]) == multiset(merged) + multiset{right[0]};
    assert multiset(right) == multiset{right[0]} + multiset(right[1..]);
  }

  /** Taking the front of `left` when it is smaller follows the merge. */
  lemma TakeLeftInOrder(merged: seq<int>, left: seq<int>, right: seq<int>, left0: seq<int>, right0: seq<int>)
    requires left != [] && right != [] && left[0] < right[0]
    requires MergedSoFar(merged, left, right, left0, right0)
    ensures MergedSoFar(merged + [left[0]], left[1..], right, left0, right0)
  {
    if Sorted(left0) && Sorted(right0) {
      SortedTail(left);
      var m := MergeSpec(left[1..], right);
      assert MergeSpec(left, right) == [left[0]] + m;
      assert (merged + [left[0]]) + m == merged + ([left[0]] + m);
    }
  }

  /** Taking the front of `right` when it is no larger follows the merge. */
  lemma TakeRightInOrder(merged: seq<int>, left: seq<int>, right: seq<int>, left0: seq<int>, right0: seq<int>)
    requires left != [] && right != [] && !(left[0] < right[0])
    requires MergedSoFar(merged, left, right, left0, right0)
    ensures MergedSoFar(merged + [right[0]], left, right[1..], left0, right0)
  {
    if Sorted(left0) && Sorted(right0) {
      SortedTail(right);
      var m := MergeSpec(left, right[1..]);
      assert MergeSpec(left, right) == [right[0]] + m;
      assert (merged + [right[0]]) + m == merged + ([right[0]] + m);
    }
  }

  /**
   * Once one side is empty, the merged prefix followed by the other side is
   * sorted (on sorted inputs), as `Drain` needs to append that side unchanged.
   */
  lemma DrainReady(merged: seq<int>, rest: seq<int>, left0: seq<int>, right0: seq<int>)
    requires MergedSoFar(merged, rest, [], left0, right0) || MergedSoFar(merged, [], rest, left0, right0)
    ensures Sorted(left0) && Sorted(right0) ==> Sorted(merged + rest) && merged + rest == MergeSpec(left0, right0)
  {
    if Sorted(left0) && Sorted(right0) {
      assert MergeSpec(rest, []) == rest && MergeSpec([], rest) == rest;
      MergeSpecSorted(left0, right0);
    }
  }

  /** Draining the remaining side ends the merge with both sides empty. */
  lemma DrainDone(merged: seq<int>, rest: seq<int>, drained: seq<int>, left0: seq<int>, right0: seq<int>)
    requires SameElements(merged, rest, [], left0, right0) || SameElements(merged, [], rest, left0, right0)
    requires MergedSoFar(merged, rest, [], left0, right0) || MergedSoFar(merged, [], rest, left0, right0)
    requires multiset(drained) == multiset(merged) + multiset(rest)
    requires Sorted(merged + rest) ==> drained == merged + rest
    ensures SameElements(drained, [], [], left0, right0) && MergedSoFar(drained, [], [], left0, right0)
  {
    DrainReady(merged, rest, left0, right0);
  }

  /** With both sides empty, the merged list is the answer. */
  lemma MergeDone(merged: seq<int>, left0: seq<int>, right0: seq<int>)
    requires SameElements(merged, [], [], left0, right0) && MergedSoFar(merged, [], [], left0, right0)
    ensures multiset(merged) == multiset(left0) + multiset(right0)
    ensures Sorted(left0) && Sorted(right0) ==> merged == MergeSpec(left0, right0) && Sorted(merged)
  {
    if Sorted(left0) && Sorted(right0) {
      assert merged + MergeSpec([], []) == merged;
      MergeSpecSorted(left0, right0);
    }
  }

  /**
   * `merge`: the elements of both lists, with multiplicity; on sorted inputs
   * the sorted merge that takes from the right list on ties.
   */
  method Merge(left0: seq<int>, right0: seq<int>) returns (merged: seq<int>)
    ensures multiset(merged) == multiset(left0) + multiset(right0)
    ensures Sorted(left0) && Sorted(right0) ==> merged == MergeSpec(left0, right0) && Sorted(merged)
  {
    var left, right := left0, right0;
    merged := [];
    while left != [] || right != []
      invariant SameElements(merged, left, right, left0, right0)
      invariant MergedSoFar(merged, left, right, left0, right0)
      decreases |left| + |right|
    {
      if left != [] && right == [] {
        DrainReady(merged, left, left0, right0);
        var drained := Drain(merged, left);
        DrainDone(merged, left, drained, left0, right0);
        merged, left := drained, [];
      } else if left == [] && right != [] {
        DrainReady(merged, right, left0, right0);
        var drained := Drain(merged, right);
        DrainDone(merged, right, drained, left0, right0);
        merged, right := drained, [];
      } else {
        ghost var before := |left| + |right|;
        while right != [] && left != []
          invariant SameElements(merged, left, right, left0, right0)
          invariant MergedSoFar(merged, left, right, left0, right0)
          invariant |left| + |right| < before || (|left| + |right| == before && left != [] && right != [])
          decreases |left| + |right|
        {
          if left[0] < right[0] {
            TakeLeftElements(merged, left, right, left0, right0);
            TakeLeftInOrder(merged, left, right, left0, right0);
            merged := merged + [left[0]];
            left := left[1..];
          } else {
            TakeRightElements(merged, left, right, left0, right0);
            TakeRightInOrder(merged, left, right, left0, right0);
            merged := merged + [right[0]];
            right := right[1..];
          }
        }
      }
    }
    MergeDone(merged, left0, right0);
  }
  /**
   * `splitHalves`: the first ⌈n/2⌉ elements and the last ⌊n/2⌋; a list of
   * fewer than two elements comes back whole, paired with an empty list.
   */
  method SplitHalves(s: seq<int>) returns (leftHalf: seq<int>, rightHalf: seq<int>)
    ensures leftHalf + rightHalf == s
    ensures |rightHalf| == |s| / 2 && |leftHalf| == |s| - |s| / 2
  {
    leftHalf, rightHalf := s, [];
    if |s| < 2 {
      return;
    }
    var rightHalfLength := |s| / 2;
    for i := 0 to rightHalfLength
      invariant leftHalf + rightHalf == s && |rightHalf| == i
    {
      var dataToCopy := leftHalf[|leftHalf| - 1];
      rightHalf := [dataToCopy] + rightHalf;
      assert leftHalf == leftHalf[..|leftHalf| - 1] + [dataToCopy];
      leftHalf := leftHalf[..|leftHalf| - 1];
    }
  }

  /** The elements of a list of lists, list after list. */
  function Flatten(lists: seq<seq<int>>): (r: seq<int>)
  {
    if lists == [] then [] else lists[0] + Flatten(lists[1..])
  }

  /** Flattening distributes over concatenation of the outer list. */
  lemma {:induction false} FlattenAppend(a: seq<seq<int>>, b: seq<seq<int>>)
    ensures Flatten(a + b) == Flatten(a) + Flatten(b)
  {
    if a == [] {
      assert a + b == b;
    } else {
      assert (a + b)[1..] == a[1..] + b;
      FlattenAppend(a[1..], b);
    }
  }

  /** Singleton lists flatten back to the elements they hold. */
  lemma {:induction false} FlattenSingletons(lists: seq<seq<int>>, s: seq<int>)
    requires |lists| == |s| && forall i :: 0 <= i < |s| ==> lists[i] == [s[i]]
    ensures Flatten(lists) == s
  {
    if s != [] {
      FlattenSingletons(lists[1..], s[1..]);
      assert s == [s[0]] + s[1..];
    }
  }

  /** `explode`: one singleton list per element, in order. */
  method Explode(s: seq<int>) returns (lists: seq<seq<int>>)
    ensures |lists| == |s| && forall i :: 0 <= i < |s| ==> lists[i] == [s[i]]
  {
    var workingCopy := s;
    lists := [];
    while workingCopy != []
      invariant |lists| <= |s| && workingCopy == s[|lists|..]
      invariant forall i :: 0 <= i < |lists| ==> lists[i] == [s[i]]
    {
      var singletonList := [workingCopy[0]];
      workingCopy := workingCopy[1..];
      lists := lists + [singletonList];
    }
  }

  /** `mergeSortRecursive`: a sorted permutation of the list. */
  method MergeSortRecursive(s: seq<int>) returns (r: seq<int>)
    ensures Sorted(r) && multiset(r) == multiset(s)
    decreases |s|
  {
    if |s| < 2 {
      return s;
    }
    var left, right := SplitHalves(s);
    left := MergeSortRecursive(left);
    right := MergeSortRecursive(right);
    r := Merge(left, right);
  }

  /**
   * `mergeSortIterative`: explodes the list into singletons, then merges the
   * two lists at the front of the work queue and puts the result at its
   * back until one list is left, which is a sorted permutation of the list.
   */
  method MergeSortIterative(s: seq<int>) returns (r: seq<int>)
    ensures Sorted(r) && multiset(r) == multiset(s)
  {
    if |s| < 2 {
      return s;
    }
    var workQueue := Explode(s);
    FlattenSingletons(workQueue, s);
    while |workQueue| > 1
      invariant |workQueue| >= 1
      invariant forall i :: 0 <= i < |workQueue| ==> Sorted(workQueue[i])
      invariant multiset(Flatten(workQueue)) == multiset(s)
      decreases |workQueue|
    {
      ghost var queue0 := workQueue;
      var left := workQueue[0];
      workQueue := workQueue[1..];
      var right := workQueue[0];
      workQueue := workQueue[1..];
      var merged := Merge(left, right);
      assert Flatten(queue0) == left + (right + Flatten(workQueue));
      FlattenAppend(workQueue, [merged]);
      assert Flatten([merged]) == merged;
      workQueue := workQueue + [merged];
    }
    r := workQueue[0];
    assert Flatten(workQueue) == r + Flatten([]);
  }
}
