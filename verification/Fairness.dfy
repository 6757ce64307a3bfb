/**
 Progress under weak fairness. Threads take steps in any order, and some steps may achieve nothing; but
 no thread that can move is kept from moving for ever.
 */
module Fairness {

  type Rank = (nat, nat, nat)

  predicate Below(x: Rank, y: Rank) {
    x.0 < y.0 || (x.0 == y.0 && (x.1 < y.1 || (x.1 == y.1 && x.2 < y.2)))
  }

  /** A schedule, reduced to what counts: how much is left to do in each state, whether that is the end,
      whose next step would bring progress, and who takes the step. */
  datatype Course<!A> = Course(rank: nat -> Rank, done: nat -> bool, helps: (nat, A) -> bool, moves: (nat, A) -> bool)

  ghost predicate Helped<A(!new)>(c: Course<A>, k: nat) {
    c.done(k) || exists a :: c.helps(k, a)
  }

  /** Who could bring progress brings it, or is still able to after somebody else's step. */
  ghost predicate Steady<A>(c: Course<A>, k: nat, a: A) {
    c.helps(k, a) ==>
      || Below(c.rank(k + 1), c.rank(k))
      || (c.rank(k + 1) == c.rank(k) && !c.moves(k, a) && c.helps(k + 1, a))
  }

  ghost predicate FairTo<A>(c: Course<A>, k: nat, a: A) {
    exists j: nat :: k <= j && (c.moves(j, a) || !c.helps(j, a))
  }

  lemma {:induction false} HelperMoves<A(!new)>(c: Course<A>, k: nat, a: A, j: nat) returns (l: nat)
    requires forall m: nat :: Steady(c, m, a)
    requires c.helps(k, a) && k <= j && (c.moves(j, a) || !c.helps(j, a))
    ensures k < l && Below(c.rank(l), c.rank(k))
    decreases j - k
  {
    assert Steady(c, k, a);
    if Below(c.rank(k + 1), c.rank(k)) {
      l := k + 1;
    } else {
      l := HelperMoves(c, k + 1, a, j);
    }
  }

  /** If in each state before the end somebody's step brings progress, the end is reached. */
  lemma {:induction false} EndIsReached<A(!new)>(c: Course<A>, i: nat) returns (k: nat)
    requires forall m: nat :: Helped(c, m)
    requires forall m: nat, a :: Steady(c, m, a) && FairTo(c, m, a)
    ensures i <= k && c.done(k)
    decreases c.rank(i).0, c.rank(i).1, c.rank(i).2
  {
    if c.done(i) {
      k := i;
    } else {
      assert Helped(c, i);
      var a :| c.helps(i, a);
      assert FairTo(c, i, a);
      var j: nat :| i <= j && (c.moves(j, a) || !c.helps(j, a));
      var l := HelperMoves(c, i, a, j);
      k := EndIsReached(c, l);
    }
  }
}
