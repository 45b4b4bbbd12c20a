/**
 * The height randomizer of the skip list.
 *
 * The generator itself (a seeded Mersenne twister) is replaced by a stream
 * `draws`: `draws(j)` is the j-th number the generator hands out during one
 * call of `random_height`. Every step of the loop draws one number and grows
 * the height by one level when that number is a multiple of the branching
 * factor.
 */
module Height {

  /** `kMaxHeight`: the height of the two sentinels and the number of levels. */
  const MaxHeight: nat := 20

  /** `kBranching`: one level more with probability 1/4. */
  const Branching: nat := 4

  /** A draw that lets the height grow by one level. */
  predicate Grows(draws: nat -> nat, j: nat)
  {
    draws(j) % Branching == 0
  }

  /**
   * The loop of `random_height` exactly as written: it keeps growing while
   * `height < kMaxHeight`, so it can stop at `kMaxHeight` itself.
   */
  function ClimbAsWritten(draws: nat -> nat, h: nat): (r: nat)
    requires 1 <= h <= MaxHeight
    ensures h <= r <= MaxHeight
    ensures forall j :: h - 1 <= j < r - 1 ==> Grows(draws, j)
    ensures r == MaxHeight || !Grows(draws, r - 1)
    decreases MaxHeight - h
  {
    if h < MaxHeight && Grows(draws, h - 1) then ClimbAsWritten(draws, h + 1) else h
  }

  /** `random_height` as written: starts at height 1. */
  function RandomHeightAsWritten(draws: nat -> nat): (r: nat)
    ensures 1 <= r <= MaxHeight
    ensures forall j :: 0 <= j < r - 1 ==> Grows(draws, j)
    ensures r == MaxHeight || !Grows(draws, r - 1)
  {
    ClimbAsWritten(draws, 1)
  }

  /** A generator whose every draw is a multiple of the branching factor. */
  function AlwaysGrow(j: nat): (d: nat)
  {
    0
  }

  lemma {:induction false} ClimbAsWrittenReachesMax(h: nat)
    requires 1 <= h <= MaxHeight
    ensures ClimbAsWritten(AlwaysGrow, h) == MaxHeight
    decreases MaxHeight - h
  {
    if h < MaxHeight {
      assert Grows(AlwaysGrow, h - 1);
      ClimbAsWrittenReachesMax(h + 1);
    }
  }

  /**
   * The discrepancy: with nineteen growing draws in a row the loop as written
   * returns `kMaxHeight`, which the assertion `height < kMaxHeight` that
   * follows it rejects.
   */
  lemma AsWrittenBreaksAssertedBound()
    ensures !(RandomHeightAsWritten(AlwaysGrow) < MaxHeight)
  {
    ClimbAsWrittenReachesMax(1);
  }

  /**
   * The loop with the guard the assertion evidently intends
   * (`height < kMaxHeight - 1`): heights lie in `[1, kMaxHeight - 1]`.
   */
  function Climb(draws: nat -> nat, h: nat): (r: nat)
    requires 1 <= h < MaxHeight
    ensures h <= r < MaxHeight
    ensures forall j :: h - 1 <= j < r - 1 ==> Grows(draws, j)
    ensures r == MaxHeight - 1 || !Grows(draws, r - 1)
    decreases MaxHeight - h
  {
    if h < MaxHeight - 1 && Grows(draws, h - 1) then Climb(draws, h + 1) else h
  }

  /** The corrected `random_height`: always `1 <= r < kMaxHeight`. */
  function RandomHeight(draws: nat -> nat): (r: nat)
    ensures 1 <= r < MaxHeight
    ensures forall j :: 0 <= j < r - 1 ==> Grows(draws, j)
    ensures r == MaxHeight - 1 || !Grows(draws, r - 1)
  {
    Climb(draws, 1)
  }

  lemma {:induction false} ClimbAgrees(draws: nat -> nat, h: nat)
    requires 1 <= h < MaxHeight
    ensures ClimbAsWritten(draws, h) < MaxHeight ==> Climb(draws, h) == ClimbAsWritten(draws, h)
    ensures ClimbAsWritten(draws, h) == MaxHeight ==> Climb(draws, h) == MaxHeight - 1
    decreases MaxHeight - h
  {
    if h < MaxHeight - 1 && Grows(draws, h - 1) {
      ClimbAgrees(draws, h + 1);
    }
  }

  /**
   * The corrected height differs from the one as written only where the
   * latter breaks its own bound, and there it is capped at `kMaxHeight - 1`.
   */
  lemma RandomHeightAgrees(draws: nat -> nat)
    ensures RandomHeightAsWritten(draws) < MaxHeight ==> RandomHeight(draws) == RandomHeightAsWritten(draws)
    ensures RandomHeightAsWritten(draws) == MaxHeight ==> RandomHeight(draws) == MaxHeight - 1
  {
    ClimbAgrees(draws, 1);
  }
}
