/** Rounds of an iterated cipher, independent of what a round does: rounds
    0 .. n - 1 applied in order, and undone from the last to the first. If
    each round is undone by its inverse, the whole iteration is too. */
module Rounds {

  /** Rounds 0 .. n - 1 applied to x, round 0 first. */
  function Forward<T>(round: (nat, T) -> T, n: nat, x: T): T
    decreases n, x
  {
    if n == 0 then x else round(n - 1, Forward(round, n - 1, x))
  }

  /** Rounds n - 1 .. 0 undone, the last round first. */
  function Backward<T>(undo: (nat, T) -> T, n: nat, x: T): T
    decreases n, x
  {
    if n == 0 then x else Backward(undo, n - 1, undo(n - 1, x))
  }

  /** Undoing every round of a forward pass gives back its input. */
  lemma {:induction false} BackwardForward<T>(round: (nat, T) -> T, undo: (nat, T) -> T, n: nat, x: T)
    requires forall i: nat, y: T :: i < n ==> undo(i, round(i, y)) == y
    ensures Backward(undo, n, Forward(round, n, x)) == x
  {
    if n > 0 {
      BackwardForward(round, undo, n - 1, x);
    }
  }

  /** A forward pass over an undone value gives that value back. */
  lemma {:induction false} ForwardBackward<T>(round: (nat, T) -> T, undo: (nat, T) -> T, n: nat, x: T)
    requires forall i: nat, y: T :: i < n ==> round(i, undo(i, y)) == y
    ensures Forward(round, n, Backward(undo, n, x)) == x
  {
    if n > 0 {
      ForwardBackward(round, undo, n - 1, undo(n - 1, x));
    }
  }
}
