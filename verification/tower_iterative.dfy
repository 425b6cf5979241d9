// The iterative Tower of Hanoi solver (cpp-tower-solution/Game.cpp): rounds
// of legal moves between the stack pairs (0, 1), (0, 2) and (1, 2).
module TowerIterative {
  import opened CubeStack

  /** The cube lengths of stacks 0, 1 and 2. */
  datatype State = State(s0: seq<real>, s1: seq<real>, s2: seq<real>)
  {
    function Get(i: nat): seq<real>
      requires i < 3
    {
      if i == 0 then s0 else if i == 1 then s1 else s2
    }

    function Set(i: nat, cubes: seq<real>): (r: State)
      requires i < 3
      ensures r.Get(i) == cubes
      ensures i != 0 ==> r.s0 == s0
      ensures i != 1 ==> r.s1 == s1
      ensures i != 2 ==> r.s2 == s2
    {
      if i == 0 then this.(s0 := cubes) else if i == 1 then this.(s1 := cubes) else this.(s2 := cubes)
    }
  }

  function TopOf(cubes: seq<real>): real
    requires |cubes| > 0
  {
    cubes[|cubes| - 1]
  }

  /** The top cube of stack `from` goes onto stack `to`. */
  function MoveTop(s: State, from: nat, to: nat): (r: State)
    requires from < 3 && to < 3 && from != to && |s.Get(from)| > 0
  {
    s.Set(from, s.Get(from)[..|s.Get(from)| - 1]).Set(to, s.Get(to) + [TopOf(s.Get(from))])
  }

  /**
   * `_legalMove(i, j)` on values: between the two stacks, the shorter top
   * cube moves onto the other stack; with one stack empty the other's top
   * moves onto it; with both empty nothing happens.
   */
  function LegalStep(s: State, i: nat, j: nat): (r: State)
    requires i < 3 && j < 3 && i != j
  {
    if |s.Get(i)| == 0 && |s.Get(j)| > 0 then MoveTop(s, j, i)
    else if |s.Get(i)| > 0 && |s.Get(j)| == 0 then MoveTop(s, i, j)
    else if |s.Get(i)| > 0 && |s.Get(j)| > 0 then
      (if TopOf(s.Get(i)) < TopOf(s.Get(j)) then MoveTop(s, i, j) else MoveTop(s, j, i))
    else s
  }

  /** One pass of the body of the loop in `solve`. */
  function Round(s: State): State
  {
    LegalStep(LegalStep(LegalStep(s, 0, 1), 0, 2), 1, 2)
  }

  function Rounds(s: State, n: nat): State
  {
    if n == 0 then s else Round(Rounds(s, n - 1))
  }

  function AllCubes(s: State): multiset<real>
  {
    multiset(s.s0) + multiset(s.s1) + multiset(s.s2)
  }

  predicate AllTowers(s: State)
  {
    Tower(s.s0) && Tower(s.s1) && Tower(s.s2)
  }

  /** Moving the top of `src` onto `dst`, whose top is no shorter, keeps both towers. */
  lemma MoveKeepsTowerPair(src: seq<real>, dst: seq<real>)
    requires |src| > 0 && Tower(src) && Tower(dst)
    requires |dst| > 0 ==> TopOf(src) <= TopOf(dst)
    ensures Tower(src[..|src| - 1]) && Tower(dst + [TopOf(src)])
  {
    PoppedKeepsTower(src);
    PushedKeepsTower(dst, TopOf(src));
  }

  /** Moving the top of `src` onto `dst` keeps the cubes of the two stacks. */
  lemma MoveKeepsCubePair(src: seq<real>, dst: seq<real>)
    requires |src| > 0
    ensures multiset(src[..|src| - 1]) + multiset(dst + [TopOf(src)]) == multiset(src) + multiset(dst)
  {
    assert src == src[..|src| - 1] + [TopOf(src)];
  }

  /** Moving a top cube onto a stack whose top is no shorter keeps every stack a tower. */
  lemma MoveTopKeepsTowers(s: State, from: nat, to: nat)
    requires from < 3 && to < 3 && from != to && |s.Get(from)| > 0
    requires |s.Get(to)| > 0 ==> TopOf(s.Get(from)) <= TopOf(s.Get(to))
    requires AllTowers(s)
    ensures AllTowers(MoveTop(s, from, to))
  {
    if from == 0 && to == 1 {
      MoveKeepsTowerPair(s.s0, s.s1);
      assert MoveTop(s, from, to) == State(s.s0[..|s.s0| - 1], s.s1 + [TopOf(s.s0)], s.s2);
    } else if from == 0 && to == 2 {
      MoveKeepsTowerPair(s.s0, s.s2);
      assert MoveTop(s, from, to) == State(s.s0[..|s.s0| - 1], s.s1, s.s2 + [TopOf(s.s0)]);
    } else if from == 1 && to == 0 {
      MoveKeepsTowerPair(s.s1, s.s0);
      assert MoveTop(s, from, to) == State(s.s0 + [TopOf(s.s1)], s.s1[..|s.s1| - 1], s.s2);
    } else if from == 1 && to == 2 {
      MoveKeepsTowerPair(s.s1, s.s2);
      assert MoveTop(s, from, to) == State(s.s0, s.s1[..|s.s1| - 1], s.s2 + [TopOf(s.s1)]);
    } else if from == 2 && to == 0 {
      MoveKeepsTowerPair(s.s2, s.s0);
      assert MoveTop(s, from, to) == State(s.s0 + [TopOf(s.s2)], s.s1, s.s2[..|s.s2| - 1]);
    } else {
      MoveKeepsTowerPair(s.s2, s.s1);
      assert MoveTop(s, from, to) == State(s.s0, s.s1 + [TopOf(s.s2)], s.s2[..|s.s2| - 1]);
    }
  }

  lemma UnionCommutes(a: multiset<real>, b: multiset<real>, c: multiset<real>)
    ensures a + b == b + a
    ensures a + b + c == a + c + b
  {
  }

  /** Moving a top cube never creates or loses a cube. */
  lemma MoveTopKeepsCubes(s: State, from: nat, to: nat)
    requires from < 3 && to < 3 && from != to && |s.Get(from)| > 0
    ensures AllCubes(MoveTop(s, from, to)) == AllCubes(s)
  {
    var src, dst := s.Get(from), s.Get(to);
    MoveKeepsCubePair(src, dst);
    var p, q := multiset(src[..|src| - 1]), multiset(dst + [TopOf(src)]);
    var m0, m1, m2 := multiset(s.s0), multiset(s.s1), multiset(s.s2);
    var r := MoveTop(s, from, to);
    if from == 0 && to == 1 {
      assert r == State(src[..|src| - 1], dst + [TopOf(src)], s.s2);
    } else if from == 0 && to == 2 {
      assert r == State(src[..|src| - 1], s.s1, dst + [TopOf(src)]);
      UnionCommutes(p, m1, q);
      UnionCommutes(m0, m1, m2);
    } else if from == 1 && to == 0 {
      assert r == State(dst + [TopOf(src)], src[..|src| - 1], s.s2);
      UnionCommutes(q, p, m2);
      UnionCommutes(m1, m0, m2);
    } else if from == 1 && to == 2 {
      assert r == State(s.s0, src[..|src| - 1], dst + [TopOf(src)]);
      assert AllCubes(r) == m0 + (p + q);
    } else if from == 2 && to == 0 {
      assert r == State(dst + [TopOf(src)], s.s1, src[..|src| - 1]);
      UnionCommutes(q, m1, p);
      UnionCommutes(q, p, m1);
      UnionCommutes(m0, m1, m2);
      UnionCommutes(m2, m0, m1);
      assert AllCubes(r) == (p + q) + m1;
    } else {
      assert r == State(s.s0, dst + [TopOf(src)], src[..|src| - 1]);
      UnionCommutes(q, p, m0);
      assert AllCubes(r) == m0 + (q + p);
      UnionCommutes(m1, m2, m0);
      assert AllCubes(s) == m0 + (m2 + m1);
    }
  }

  /** A state whose stacks `from` and `to` hold what moving the top cube leaves there, and whose third stack is unchanged, is that move. */
  lemma MoveTopByParts(s: State, t: State, from: nat, to: nat)
    requires from < 3 && to < 3 && from != to && |s.Get(from)| > 0
    requires t.Get(from) == s.Get(from)[..|s.Get(from)| - 1]
    requires t.Get(to) == s.Get(to) + [TopOf(s.Get(from))]
    requires t.Get(3 - from - to) == s.Get(3 - from - to)
    ensures t == MoveTop(s, from, to)
  {
  }

  /** A legal step never puts a cube on a shorter one, and never creates or loses a cube. */
  lemma LegalStepKeepsTowers(s: State, i: nat, j: nat)
    requires i < 3 && j < 3 && i != j && AllTowers(s)
    ensures AllTowers(LegalStep(s, i, j))
    ensures AllCubes(LegalStep(s, i, j)) == AllCubes(s)
  {
    if |s.Get(i)| == 0 && |s.Get(j)| > 0 {
      MoveTopKeepsTowers(s, j, i);
      MoveTopKeepsCubes(s, j, i);
    } else if |s.Get(i)| > 0 && |s.Get(j)| == 0 {
      MoveTopKeepsTowers(s, i, j);
      MoveTopKeepsCubes(s, i, j);
    } else if |s.Get(i)| > 0 && |s.Get(j)| > 0 {
      if TopOf(s.Get(i)) < TopOf(s.Get(j)) {
        MoveTopKeepsTowers(s, i, j);
      MoveTopKeepsCubes(s, i, j);
      } else {
        MoveTopKeepsTowers(s, j, i);
      MoveTopKeepsCubes(s, j, i);
      }
    }
  }

  const Initial: State := State([4.0, 3.0, 2.0, 1.0], [], [])

  /** The five rounds of `solve` from the initial game, step by step. */
  lemma RoundOne()
    ensures Round(Initial) == State([4.0, 3.0], [], [2.0, 1.0])
  {
    var a := LegalStep(Initial, 0, 1);
    assert a == State([4.0, 3.0, 2.0], [1.0], []);
    var b := LegalStep(a, 0, 2);
    assert b == State([4.0, 3.0], [1.0], [2.0]);
    assert LegalStep(b, 1, 2) == State([4.0, 3.0], [], [2.0, 1.0]);
  }

  lemma RoundTwo()
    ensures Round(State([4.0, 3.0], [], [2.0, 1.0])) == State([4.0, 1.0], [3.0, 2.0], [])
  {
    var a := LegalStep(State([4.0, 3.0], [], [2.0, 1.0]), 0, 1);
    assert a == State([4.0], [3.0], [2.0, 1.0]);
    var b := LegalStep(a, 0, 2);
    assert b == State([4.0, 1.0], [3.0], [2.0]);
    assert LegalStep(b, 1, 2) == State([4.0, 1.0], [3.0, 2.0], []);
  }

  lemma RoundThree()
    ensures Round(State([4.0, 1.0], [3.0, 2.0], [])) == State([], [3.0, 2.0], [4.0, 1.0])
  {
    var s := State([4.0, 1.0], [3.0, 2.0], []);
    assert TopOf(s.Get(0)) == 1.0 && TopOf(s.Get(1)) == 2.0;
    var a := LegalStep(s, 0, 1);
    assert a == MoveTop(s, 0, 1) == State([4.0], [3.0, 2.0, 1.0], []);
    var b := LegalStep(a, 0, 2);
    assert b == State([], [3.0, 2.0, 1.0], [4.0]);
    assert LegalStep(b, 1, 2) == State([], [3.0, 2.0], [4.0, 1.0]);
  }

  lemma RoundFour()
    ensures Round(State([], [3.0, 2.0], [4.0, 1.0])) == State([2.0, 1.0], [], [4.0, 3.0])
  {
    var a := LegalStep(State([], [3.0, 2.0], [4.0, 1.0]), 0, 1);
    assert a == State([2.0], [3.0], [4.0, 1.0]);
    var b := LegalStep(a, 0, 2);
    assert b == State([2.0, 1.0], [3.0], [4.0]);
    assert LegalStep(b, 1, 2) == State([2.0, 1.0], [], [4.0, 3.0]);
  }

  lemma RoundFive()
    ensures Round(State([2.0, 1.0], [], [4.0, 3.0])) == State([], [], [4.0, 3.0, 2.0, 1.0])
  {
    var a := LegalStep(State([2.0, 1.0], [], [4.0, 3.0]), 0, 1);
    assert a == State([2.0], [1.0], [4.0, 3.0]);
    var b := LegalStep(a, 0, 2);
    assert b == State([], [1.0], [4.0, 3.0, 2.0]);
    assert LegalStep(b, 1, 2) == State([], [], [4.0, 3.0, 2.0, 1.0]);
  }

  /** The game after `n` rounds of `solve`, for the five rounds it takes from the initial game. */
  function AfterRounds(n: nat): State
    requires n <= 5
  {
    match n
    case 0 => Initial
    case 1 => State([4.0, 3.0], [], [2.0, 1.0])
    case 2 => State([4.0, 1.0], [3.0, 2.0], [])
    case 3 => State([], [3.0, 2.0], [4.0, 1.0])
    case 4 => State([2.0, 1.0], [], [4.0, 3.0])
    case 5 => State([], [], [4.0, 3.0, 2.0, 1.0])
  }

  /** Each round of `solve` takes the game from one of these states to the next. */
  lemma AfterRoundsStep(n: nat)
    requires n < 5
    ensures Round(AfterRounds(n)) == AfterRounds(n + 1)
  {
    match n
    case 0 => RoundOne();
    case 1 => RoundTwo();
    case 2 => RoundThree();
    case 3 => RoundFour();
    case 4 => RoundFive();
  }

  /**
   * From the initial game, `solve` stops after exactly five rounds (stack 2
   * holds four cubes after round `n` only for `n` = 5), with all four cubes,
   * in order, on stack 2.
   */
  lemma {:induction false} FiveRoundsSolve(n: nat)
    requires n <= 5
    ensures Rounds(Initial, n) == AfterRounds(n)
    ensures |AfterRounds(n).s2| == 4 <==> n == 5
  {
    if n > 0 {
      FiveRoundsSolve(n - 1);
      AfterRoundsStep(n - 1);
      assert Rounds(Initial, n) == Round(Rounds(Initial, n - 1));
    }
    SolvedOnlyAfterFive(n);
  }

  /** Stack 2 holds all four cubes in exactly one of these states, the last. */
  lemma SolvedOnlyAfterFive(n: nat)
    requires n <= 5
    ensures |AfterRounds(n).s2| == 4 <==> n == 5
  {
  }

  class Game {
    /** `stacks_`: three distinct stacks. */
    var stacks: seq<Stack>

    ghost predicate Valid()
      reads this
    {
      |stacks| == 3 && forall a, b :: 0 <= a < 3 && 0 <= b < 3 && a != b ==> stacks[a] != stacks[b]
    }

    ghost function Cubes(): (c: State)
      reads this, stacks
      requires Valid()
      ensures forall k :: 0 <= k < 3 ==> c.Get(k) == stacks[k].cubes
    {
      State(stacks[0].cubes, stacks[1].cubes, stacks[2].cubes)
    }

    /** Stack 0 holds the cubes of lengths 4, 3, 2, 1; stacks 1 and 2 are empty. */
    constructor ()
      ensures Valid() && fresh(stacks[0]) && fresh(stacks[1]) && fresh(stacks[2])
      ensures Cubes() == Initial
    {
      var initial := InitialStacks();
      stacks := initial;
    }

    /**
     * `_move(i, j)`: the top of stack `i` goes onto stack `j`; `accepted` is
     * false when the push is rejected, and the cube taken off stack `i` is then
     * lost, as when the exception leaves `_move`.
     */
    method Move(i: nat, j: nat) returns (accepted: bool)
      requires Valid() && i < 3 && j < 3 && i != j && |Cubes().Get(i)| > 0
      modifies stacks[i], stacks[j]
      ensures Valid()
      ensures accepted <==> Pushed(old(Cubes()).Get(j), TopOf(old(Cubes()).Get(i))).Some?
      ensures accepted ==> Cubes() == MoveTop(old(Cubes()), i, j)
      ensures !accepted ==> var a := old(Cubes()).Get(i);
        && Cubes().Get(i) == a[..|a| - 1]
        && Cubes().Get(j) == old(Cubes()).Get(j)
        && Cubes().Get(3 - i - j) == old(Cubes()).Get(3 - i - j)
    {
      ghost var s, k := Cubes(), 3 - i - j;
      assert stacks[k] != stacks[i] && stacks[k] != stacks[j];
      ghost var a, b, c := s.Get(i), s.Get(j), s.Get(k);
      var cube := stacks[i].RemoveTop();
      accepted := stacks[j].PushBack(cube);
      if accepted {
        assert stacks[i].cubes == a[..|a| - 1];
        assert stacks[j].cubes == b + [TopOf(a)];
        assert stacks[k].cubes == c;
        MoveTopByParts(s, Cubes(), i, j);
      } else {
        assert stacks[i].cubes == a[..|a| - 1];
        assert stacks[j].cubes == b && stacks[k].cubes == c;
      }
    }
  
    /** `_legalMove(i, j)`: the move between stacks `i` and `j` that the rules allow; it is never rejected. */
    method LegalMove(i: nat, j: nat) returns (accepted: bool)
      requires Valid() && i < 3 && j < 3 && i != j
      modifies stacks[i], stacks[j]
      ensures Valid()
      ensures accepted
      ensures Cubes() == LegalStep(old(Cubes()), i, j)
    {
      ghost var s := Cubes();
      var ni := stacks[i].Size();
      var nj := stacks[j].Size();
      accepted := true;
      if ni == 0 && nj > 0 {
        assert LegalStep(s, i, j) == MoveTop(s, j, i);
        accepted := Move(j, i);
      } else if ni > 0 && nj == 0 {
        assert LegalStep(s, i, j) == MoveTop(s, i, j);
        accepted := Move(i, j);
      } else if ni > 0 && nj > 0 {
        var ti := stacks[i].PeekTop();
        var tj := stacks[j].PeekTop();
        if ti < tj {
          assert LegalStep(s, i, j) == MoveTop(s, i, j);
          accepted := Move(i, j);
        } else {
          assert LegalStep(s, i, j) == MoveTop(s, j, i);
          accepted := Move(j, i);
        }
      } else {
        assert LegalStep(s, i, j) == s;
      }
    }

    /** `solve`: rounds of legal moves until stack 2 holds four cubes; from the initial game this takes five rounds. */
    method Solve()
      requires Valid() && Cubes() == Initial
      modifies stacks[0], stacks[1], stacks[2]
      ensures Valid()
      ensures Cubes() == State([], [], [4.0, 3.0, 2.0, 1.0])
    {
      ghost var n := 0;
      var size2 := stacks[2].Size();
      while size2 != 4
        invariant Valid() && n <= 5
        invariant Cubes() == AfterRounds(n)
        invariant size2 == |stacks[2].cubes|
        decreases 5 - n
      {
        FiveRoundsSolve(n);
        AfterRoundsStep(n);
        ghost var before := Cubes();
        var a := LegalMove(0, 1);
        ghost var m1 := Cubes();
        a := LegalMove(0, 2);
        ghost var m2 := Cubes();
        a := LegalMove(1, 2);
        ghost var after := Cubes();
        assert after == LegalStep(m2, 1, 2) && m2 == LegalStep(m1, 0, 2) && m1 == LegalStep(before, 0, 1);
        assert after == Round(before);
        n := n + 1;
        size2 := stacks[2].Size();
      }
      FiveRoundsSolve(n);
    }
  }
}
