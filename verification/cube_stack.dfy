// The stack of cubes of the Tower of Hanoi programs (cpp-tower/Stack.cpp).
// A cube is represented by its side length; its colour plays no part in the
// rules and is not modelled.
module CubeStack {

  /** Bottom to top, no cube lies on a smaller one. */
  predicate Tower(cubes: seq<real>)
  {
    forall i, j :: 0 <= i < j < |cubes| ==> NoLonger(cubes, i, j)
  }

  /** Cube `j` of a stack is no longer than cube `i`. */
  predicate NoLonger(cubes: seq<real>, i: int, j: int)
  {
    0 <= i < |cubes| && 0 <= j < |cubes| && cubes[i] >= cubes[j]
  }

  /** The value-level effect of `push_back`: `None` is the rejection the source throws. */
  function Pushed(cubes: seq<real>, length: real): (r: Option<seq<real>>)
    ensures r.Some? <==> (|cubes| == 0 || length <= cubes[|cubes| - 1])
    ensures r.Some? ==> |r.value| == |cubes| + 1 && r.value[..|cubes|] == cubes && r.value[|cubes|] == length
  {
    if |cubes| > 0 && length > cubes[|cubes| - 1] then None else Some(cubes + [length])
  }

  datatype Option<T> = None | Some(value: T)

  /** Pushing only ever keeps a tower a tower, and a rejected push changes nothing. */
  lemma {:induction false} PushedKeepsTower(cubes: seq<real>, length: real)
    requires Tower(cubes)
    ensures Pushed(cubes, length).Some? ==> Tower(Pushed(cubes, length).value)
  {
    if Pushed(cubes, length).Some? {
      var s := Pushed(cubes, length).value;
      forall i, j | 0 <= i < j < |s| ensures NoLonger(s, i, j) {
        if j == |cubes| {
          assert s[i] == cubes[i] && s[j] == length;
          if i < |cubes| - 1 {
            assert NoLonger(cubes, i, |cubes| - 1);
          }
        } else {
          assert NoLonger(cubes, i, j);
        }
      }
    }
  }

  /** Taking the top cube off a tower leaves a tower. */
  lemma PoppedKeepsTower(cubes: seq<real>)
    requires |cubes| > 0 && Tower(cubes)
    ensures Tower(cubes[..|cubes| - 1])
  {
    var s := cubes[..|cubes| - 1];
    forall i, j | 0 <= i < j < |s| ensures NoLonger(s, i, j) {
      assert NoLonger(cubes, i, j);
    }
  }

  class Stack {
    /** `cubes_`: the lengths of the cubes, bottom first. */
    var cubes: seq<real>

    constructor ()
      ensures cubes == []
    {
      cubes := [];
    }

    /** `push_back`: rejected when the new cube is longer than the current top. */
    method PushBack(length: real) returns (accepted: bool)
      modifies this
      ensures accepted <==> Pushed(old(cubes), length).Some?
      ensures cubes == if accepted then old(cubes) + [length] else old(cubes)
      ensures Tower(old(cubes)) ==> Tower(cubes)
    {
      if |cubes| > 0 && length > cubes[|cubes| - 1] {
        accepted := false;
      } else {
        if Tower(cubes) {
          PushedKeepsTower(cubes, length);
        }
        cubes := cubes + [length];
        accepted := true;
      }
    }

    /**
     * `peekTop`: the last cube, which on a tower is the shortest one; the
     * source does not guard an empty stack.
     */
    method PeekTop() returns (length: real)
      requires |cubes| > 0
      ensures length == cubes[|cubes| - 1]
      ensures Tower(cubes) ==> forall k :: 0 <= k < |cubes| ==> length <= cubes[k]
    {
      length := cubes[|cubes| - 1];
      if Tower(cubes) {
        forall k | 0 <= k < |cubes| - 1
          ensures length <= cubes[k]
        {
          assert NoLonger(cubes, k, |cubes| - 1);
        }
      }
    }

    /** `removeTop`: the top cube, which is taken off the stack. */
    method RemoveTop() returns (length: real)
      requires |cubes| > 0
      modifies this
      ensures length == old(cubes)[|old(cubes)| - 1]
      ensures cubes == old(cubes)[..|old(cubes)| - 1]
      ensures Tower(old(cubes)) ==> Tower(cubes)
    {
      length := PeekTop();
      if Tower(cubes) {
        PoppedKeepsTower(cubes);
      }
      cubes := cubes[..|cubes| - 1];
    }

    method Size() returns (n: nat)
      ensures n == |cubes|
    {
      n := |cubes|;
    }
  }

  /**
   * The three empty stacks followed by the four cubes of lengths 4, 3, 2 and 1
   * on stack 0, as both Tower of Hanoi `Game` constructors set them up.
   */
  method InitialStacks() returns (stacks: seq<Stack>)
    ensures |stacks| == 3 && fresh(stacks[0]) && fresh(stacks[1]) && fresh(stacks[2])
    ensures stacks[0] != stacks[1] && stacks[0] != stacks[2] && stacks[1] != stacks[2]
    ensures stacks[0].cubes == [4.0, 3.0, 2.0, 1.0] && stacks[1].cubes == [] && stacks[2].cubes == []
  {
    var s0 := new Stack();
    var s1 := new Stack();
    var s2 := new Stack();
    var ok := s0.PushBack(4.0);
    assert ok;
    ok := s0.PushBack(3.0);
    assert ok;
    ok := s0.PushBack(2.0);
    assert ok;
    ok := s0.PushBack(1.0);
    assert ok;
    stacks := [s0, s1, s2];
  }
}
