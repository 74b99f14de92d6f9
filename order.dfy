/** The capabilities every operation of the model is parameterised by: a
    three-way total order, and the successor and predecessor stepping
    functions of a discrete domain. The concrete orders and stepping
    functions of paths and timestamps are not part of this model; the
    predicates below state the contract a caller-supplied one keeps. */
module Order {

  /** `order(a, b)` is -1, 0 or 1 as `a` is below, equal to or above `b`,
      and the relation "at most" it induces is a total order. */
  ghost predicate TotalOrder<T(!new)>(order: (T, T) -> int) {
    && (forall a, b :: -1 <= order(a, b) <= 1)
    && (forall a, b :: order(a, b) == -order(b, a))
    && (forall a, b :: order(a, b) == 0 ==> a == b)
    && (forall a, b, c {:trigger AtMost(order, a, b), AtMost(order, b, c)} ::
          AtMost(order, a, b) && AtMost(order, b, c) ==> AtMost(order, a, c))
  }

  /** `a` is at most `b`. Transitivity is stated over this predicate so that
      it is used only where a proof asks for it. */
  ghost predicate AtMost<T>(order: (T, T) -> int, a: T, b: T) {
    order(a, b) <= 0
  }

  /** `successor(a)` is the least value above `a`: the values strictly below
      it are exactly the values at most `a`. */
  ghost predicate IsSuccessor<T(!new)>(order: (T, T) -> int, successor: T -> T) {
    forall a, v {:trigger order(v, successor(a))} ::
      order(v, successor(a)) < 0 <==> order(v, a) <= 0
  }

  /** `predecessor(a)` is the greatest value below `a`: the values at most
      it are exactly the values strictly below `a`. */
  ghost predicate IsPredecessor<T(!new)>(order: (T, T) -> int, predecessor: T -> T) {
    forall a, v {:trigger order(v, predecessor(a))} ::
      order(v, predecessor(a)) <= 0 <==> order(v, a) < 0
  }

  lemma LeLtTrans<T(!new)>(order: (T, T) -> int, a: T, b: T, c: T)
    requires TotalOrder(order)
    requires order(a, b) <= 0 && order(b, c) < 0
    ensures order(a, c) < 0
  {
    if order(a, c) >= 0 {
      assert AtMost(order, c, a) && AtMost(order, a, b);
    }
  }

  lemma LeLeTrans<T(!new)>(order: (T, T) -> int, a: T, b: T, c: T)
    requires TotalOrder(order)
    requires order(a, b) <= 0 && order(b, c) <= 0
    ensures order(a, c) <= 0
  {
    assert AtMost(order, a, b) && AtMost(order, b, c);
  }

  lemma LtLeTrans<T(!new)>(order: (T, T) -> int, a: T, b: T, c: T)
    requires TotalOrder(order)
    requires order(a, b) < 0 && order(b, c) <= 0
    ensures order(a, c) < 0
  {
    if order(a, c) >= 0 {
      assert AtMost(order, b, c) && AtMost(order, c, a);
    }
  }

  /** A successor lies strictly above the value it steps from. */
  lemma SuccessorIsAbove<T(!new)>(order: (T, T) -> int, successor: T -> T, a: T)
    requires TotalOrder(order) && IsSuccessor(order, successor)
    ensures order(a, successor(a)) < 0
  {
    assert order(a, a) == 0;
    assert order(a, successor(a)) < 0 <==> order(a, a) <= 0;
  }

  /** A predecessor lies strictly below the value it steps from. */
  lemma PredecessorIsBelow<T(!new)>(order: (T, T) -> int, predecessor: T -> T, a: T)
    requires TotalOrder(order) && IsPredecessor(order, predecessor)
    ensures order(predecessor(a), a) < 0
  {
    var p := predecessor(a);
    assert order(p, p) == 0;
    assert order(p, predecessor(a)) <= 0 <==> order(p, a) < 0;
  }

  /** Successor and predecessor undo each other. */
  lemma StepsAreInverse<T(!new)>(order: (T, T) -> int, successor: T -> T, predecessor: T -> T, a: T)
    requires TotalOrder(order) && IsSuccessor(order, successor) && IsPredecessor(order, predecessor)
    ensures predecessor(successor(a)) == a
    ensures successor(predecessor(a)) == a
  {
    var p := predecessor(successor(a));
    assert order(p, p) == 0;
    assert order(p, predecessor(successor(a))) <= 0;
    assert order(p, a) <= 0;
    SuccessorIsAbove(order, successor, a);
    assert order(a, predecessor(successor(a))) <= 0;
    assert order(a, p) <= 0;

    var q := successor(predecessor(a));
    assert order(q, q) == 0;
    assert !(order(q, successor(predecessor(a))) < 0);
    assert !(order(q, predecessor(a)) <= 0);
    assert order(q, a) >= 0;
    PredecessorIsBelow(order, predecessor, a);
    assert order(a, successor(predecessor(a))) < 0 <==> order(a, predecessor(a)) <= 0;
    assert order(q, a) <= 0;
  }
}
