/** The game's source of randomness, as an oracle. */
module Oracle {
  import opened Grid

  /** Stands for `java.util.Random`. The draws come from a tape that is
      never constrained beyond what a caller requires, so what is proved of
      the game holds whatever the draws are; the distribution is not
      modelled. */
  class Random {
    const tape: nat -> nat
    var drawn: nat

    constructor (tape: nat -> nat)
      ensures this.tape == tape && drawn == 0
    {
      this.tape := tape;
      drawn := 0;
    }

    /** `nextInt(bound)`: the next draw, brought into [0, bound). */
    method NextInt(bound: int) returns (r: int)
      requires 0 < bound
      modifies this
      ensures 0 <= r < bound
      ensures r == tape(old(drawn)) % bound
      ensures drawn == old(drawn) + 1
    {
      r := tape(drawn) % bound;
      drawn := drawn + 1;
    }
  }

  /** The cell that two draws `nextInt(N)`, `nextInt(N)` pick when they are
      the `k`-th such pair after draw `from`. */
  function CellDrawn(tape: nat -> nat, from: nat, k: nat): Pos
  {
    Pos(tape(from + 2 * k) % N, tape(from + 2 * k + 1) % N)
  }

  ghost predicate EventuallyDrawn(tape: nat -> nat, from: nat, c: Pos)
  {
    exists k: nat :: CellDrawn(tape, from, k) == c
  }

  /** Whatever has been drawn so far, every cell is drawn again later. On
      such tapes a loop that draws cells until it hits a free one ends;
      `java.util.Random` behaves so with probability one. */
  ghost predicate Fair(tape: nat -> nat)
  {
    forall from: nat, c: Pos :: c in AllCells ==> EventuallyDrawn(tape, from, c)
  }

  /** On a fair tape, some cell of a non-empty set of cells is drawn
      `due` pairs of draws ahead. */
  lemma NextDrawn(tape: nat -> nat, from: nat, S: set<Pos>) returns (target: Pos, due: nat)
    requires Fair(tape) && S != {} && S <= AllCells
    ensures target in S && CellDrawn(tape, from, due) == target
  {
    target :| target in S;
    assert EventuallyDrawn(tape, from, target);
    due :| CellDrawn(tape, from, due) == target;
  }

  /** After one pair of draws the same cell is one pair nearer. */
  lemma DrawnLater(tape: nat -> nat, from: nat, due: nat)
    requires due > 0
    ensures CellDrawn(tape, from + 2, due - 1) == CellDrawn(tape, from, due)
  {
  }
}
