// The recursive Tower of Hanoi solver (cpp-tower-solution2/Game.cpp).
module TowerRecursive {
  import opened CubeStack

  /** The top `k` cubes of a stack, bottom-most first. */
  function Top(cubes: seq<real>, k: nat): seq<real>
    requires k <= |cubes|
  {
    cubes[|cubes| - k..]
  }

  /**
   * What `_move` needs so that none of its pushes is rejected: no cube of the
   * block of `k` cubes it moves is longer than any cube below it on `source`
   * (so the block is a tower, and the cubes under it can serve as the spare
   * of the last recursive call), every cube on `target` is at least as long
   * as the largest moved cube, and every cube on `spare` is at least as long
   * as the second largest (only the `k - 1` smaller cubes visit it).
   */
  predicate MovePlanFits(source: seq<real>, target: seq<real>, spare: seq<real>, k: nat)
  {
    1 <= k <= |source|
    && (forall i, j :: 0 <= i < j < |source| && |source| - k <= j ==> NoLonger(source, i, j))
    && (forall x :: x in target ==> x >= source[|source| - k])
    && (k >= 2 ==> forall x :: x in spare ==> x >= source[|source| - k + 1])
  }

  /** The first recursive call of `_move` fits: the `k - 1` smaller cubes go from `source` to `spare`. */
  lemma PlanToSpare(source: seq<real>, target: seq<real>, spare: seq<real>, k: nat)
    requires k >= 2 && MovePlanFits(source, target, spare, k)
    ensures MovePlanFits(source, spare, target, k - 1)
    ensures Top(source, k - 1) == Top(source, k)[1..]
  {
    var b := |source| - k;
    if k >= 3 {
      forall x | x in target
        ensures x >= source[b + 2]
      {
        assert NoLonger(source, b, b + 2);
      }
    }
  }

  /** The middle call fits: once the smaller cubes are on `spare`, the largest cube goes onto `target`. */
  lemma PlanLargest(source: seq<real>, target: seq<real>, spare: seq<real>, k: nat)
    requires k >= 2 && MovePlanFits(source, target, spare, k)
    ensures var rest := source[..|source| - (k - 1)];
      MovePlanFits(rest, target, spare + Top(source, k)[1..], 1)
      && Top(rest, 1) == [Top(source, k)[0]]
      && rest[..|rest| - 1] == source[..|source| - k]
  {
    var rest := source[..|source| - (k - 1)];
    assert Top(rest, 1) == [source[|source| - k]];
    forall i, j | 0 <= i < j < |rest| && |rest| - 1 <= j
      ensures NoLonger(rest, i, j)
    {
      assert NoLonger(source, i, j);
      assert rest[i] == source[i] && rest[j] == source[j];
    }
  }

  /** The last call fits: the smaller cubes go from `spare` onto the largest one, and `target` ends up with the whole block. */
  lemma PlanFromSpare(source: seq<real>, target: seq<real>, spare: seq<real>, k: nat)
    requires k >= 2 && MovePlanFits(source, target, spare, k)
    ensures var block, spare1 := Top(source, k), spare + Top(source, k)[1..];
      MovePlanFits(spare1, target + [block[0]], source[..|source| - k], k - 1)
      && Top(spare1, k - 1) == block[1..]
      && spare1[..|spare1| - (k - 1)] == spare
      && target + [block[0]] + Top(spare1, k - 1) == target + block
  {
    var b := |source| - k;
    var block, spare1 := Top(source, k), spare + Top(source, k)[1..];
    assert Top(spare1, k - 1) == block[1..];
    assert spare1[..|spare1| - (k - 1)] == spare;
    forall i, j | 0 <= i < j < |spare1| && |spare1| - (k - 1) <= j
      ensures NoLonger(spare1, i, j)
    {
      var j' := b + 1 + (j - |spare|);
      assert spare1[j] == source[j'];
      if i < |spare| {
        assert spare1[i] == spare[i] && spare[i] in spare;
        if j' > b + 1 {
          assert NoLonger(source, b + 1, j');
        }
      } else {
        assert spare1[i] == source[b + 1 + (i - |spare|)];
        assert NoLonger(source, b + 1 + (i - |spare|), j');
      }
    }
    assert spare1[|spare1| - (k - 1)] == source[b + 1];
    assert NoLonger(source, b, b + 1);
    forall x | x in target + [block[0]]
      ensures x >= source[b + 1]
    {
      if x !in target {
        assert x == block[0] == source[b];
      }
    }
    if k >= 3 {
      var below := source[..b];
      assert spare1[|spare1| - (k - 1) + 1] == source[b + 2];
      forall x | x in below
        ensures x >= source[b + 2]
      {
        var i :| 0 <= i < b && below[i] == x;
        assert NoLonger(source, i, b + 2);
      }
    }
    assert target + [block[0]] + block[1..] == target + block;
  }

  /** `solve`'s single call fits: the whole of a non-empty tower moves onto an empty stack with an empty spare. */
  lemma WholeStackPlan(cubes: seq<real>, target: seq<real>, spare: seq<real>, k: nat)
    requires |cubes| >= 1 && Tower(cubes) && target == [] && spare == [] && k == |cubes|
    ensures MovePlanFits(cubes, target, spare, k)
    ensures cubes[..|cubes| - k] == [] && target + Top(cubes, k) == cubes
  {
    assert Top(cubes, |cubes|) == cubes;
    forall i, j | 0 <= i < j < |cubes|
      ensures NoLonger(cubes, i, j)
    {
    }
  }

  class Game {
    /** `stacks_`: three distinct stacks. */
    var stacks: seq<Stack>

    ghost predicate Valid()
      reads this
    {
      |stacks| == 3 && stacks[0] != stacks[1] && stacks[0] != stacks[2] && stacks[1] != stacks[2]
    }

    /** Stack 0 holds the cubes of lengths 4, 3, 2, 1; stacks 1 and 2 are empty. */
    constructor ()
      ensures Valid() && fresh(stacks[0]) && fresh(stacks[1]) && fresh(stacks[2])
      ensures stacks[0].cubes == [4.0, 3.0, 2.0, 1.0] && stacks[1].cubes == [] && stacks[2].cubes == []
    {
      var initial := InitialStacks();
      stacks := initial;
    }

    /** `_moveCube`: the top of `s1` goes onto `s2`; a rejected push loses the cube, as the source's exception does. */
    method MoveCube(s1: Stack, s2: Stack) returns (accepted: bool)
      requires s1 != s2 && |s1.cubes| > 0
      modifies s1, s2
      ensures s1.cubes == old(s1.cubes)[..|old(s1.cubes)| - 1]
      ensures accepted <==> Pushed(old(s2.cubes), old(s1.cubes)[|old(s1.cubes)| - 1]).Some?
      ensures s2.cubes == if accepted then old(s2.cubes) + [old(s1.cubes)[|old(s1.cubes)| - 1]] else old(s2.cubes)
    {
      var cube := s1.RemoveTop();
      accepted := s2.PushBack(cube);
    }

    /**
     * `_move(start, end, source, target, spare)`: moves the top
     * `end - start + 1` cubes from `source` to `target` one at a time, none
     * of the moves rejected, leaving `spare` as it was.
     */
    method Move(start: nat, end: nat, source: Stack, target: Stack, spare: Stack)
      returns (accepted: bool)
      requires start <= end
      requires source != target && source != spare && target != spare
      requires MovePlanFits(source.cubes, target.cubes, spare.cubes, end - start + 1)
      modifies source, target, spare
      decreases end - start
      ensures accepted
      ensures var k := end - start + 1;
        && source.cubes == old(source.cubes)[..|old(source.cubes)| - k]
        && target.cubes == old(target.cubes) + Top(old(source.cubes), k)
        && spare.cubes == old(spare.cubes)
    {
      ghost var k := end - start + 1;
      ghost var src0, tgt0, spr0 := source.cubes, target.cubes, spare.cubes;
      if start == end {
        assert |tgt0| > 0 ==> tgt0[|tgt0| - 1] in tgt0;
        accepted := MoveCube(source, target);
      } else {
        // The k - 1 smaller cubes go to the spare stack.
        ghost var block := Top(src0, k);
        PlanToSpare(src0, tgt0, spr0, k);
        var a1 := Move(start + 1, end, source, spare, target);
        assert source.cubes == src0[..|src0| - (k - 1)];
        assert spare.cubes == spr0 + block[1..];
        // The largest moved cube goes to the target.
        PlanLargest(src0, tgt0, spr0, k);
        var a2 := Move(start, start, source, target, spare);
        assert source.cubes == src0[..|src0| - k];
        assert target.cubes == tgt0 + [block[0]];
        // The k - 1 smaller cubes follow it.
        PlanFromSpare(src0, tgt0, spr0, k);
        var a3 := Move(start + 1, end, spare, target, source);
        assert target.cubes == tgt0 + block;
        assert spare.cubes == spr0;
        accepted := a1 && a2 && a3;
      }
    }

    /**
     * `solve`: the whole of stack 0 moves to stack 2, using stack 1 as the
     * spare. The source computes `size() - 1` in unsigned arithmetic, so it
     * needs at least one cube on stack 0.
     */
    method Solve() returns (accepted: bool)
      requires Valid()
      requires |stacks[0].cubes| >= 1 && Tower(stacks[0].cubes)
      requires stacks[1].cubes == [] && stacks[2].cubes == []
      modifies stacks[0], stacks[1], stacks[2]
      ensures accepted
      ensures stacks[0].cubes == [] && stacks[1].cubes == [] && stacks[2].cubes == old(stacks[0].cubes)
    {
      var n := stacks[0].Size();
      var s0, s1, s2 := stacks[0], stacks[1], stacks[2];
      WholeStackPlan(s0.cubes, s2.cubes, s1.cubes, n);
      accepted := Move(0, n - 1, s0, s2, s1);
    }
  }

}
