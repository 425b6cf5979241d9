// The function template `my_max` of cpp-templates/main.cpp: the larger of two
// values under the type's own `>` operator.
module Templates {

  /** A strict total order, the contract `my_max` needs of the `>` of its type. */
  ghost predicate StrictTotalOrder<T(!new)>(gt: (T, T) -> bool)
  {
    (forall a :: !gt(a, a))
    && (forall a, b, c :: gt(a, b) && gt(b, c) ==> gt(a, c))
    && (forall a, b :: a == b || gt(a, b) || gt(b, a))
  }

  /** `my_max(a, b)`: `a` when `a > b`, otherwise `b`. The comparison is a parameter. */
  function MyMax<T>(a: T, b: T, gt: (T, T) -> bool): (r: T)
    ensures r == a || r == b
    ensures gt(a, b) ==> r == a
  {
    if gt(a, b) then a else b
  }

  /** Under a strict total order the result is an upper bound of both arguments. */
  lemma MyMaxIsUpperBound<T(!new)>(a: T, b: T, gt: (T, T) -> bool)
    requires StrictTotalOrder(gt)
    ensures var r := MyMax(a, b, gt); !gt(a, r) && !gt(b, r)
  {
    var r := MyMax(a, b, gt);
    if !gt(a, b) {
      assert r == b;
      assert !gt(b, b);
    } else {
      assert r == a;
      assert !gt(a, a);
      assert gt(b, a) ==> gt(a, a);
    }
  }

  /** Ties go to the second argument: with equal arguments nothing distinguishes them. */
  lemma MyMaxSymmetric<T(!new)>(a: T, b: T, gt: (T, T) -> bool)
    requires StrictTotalOrder(gt)
    ensures MyMax(a, b, gt) == MyMax(b, a, gt)
  {
    if gt(a, b) {
      assert gt(b, a) ==> gt(a, a);
    } else if gt(b, a) {
    } else {
      assert a == b;
    }
  }

  /** The two calls the program makes: `my_max(3, 5)` and `my_max('a', 'd')`. */
  lemma MyMaxExamples()
    ensures MyMax(3, 5, (x: int, y: int) => x > y) == 5
    ensures MyMax('a', 'd', (x: char, y: char) => x > y) == 'd'
  {
  }
}
