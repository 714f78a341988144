/** The keys the Schotter sketch reacts to and the step by which the
    displacement and rotation adjustments move. */
module Controls {

  /** R toggles recording, S saves a snapshot, Up / Down change the
      displacement adjustment, Right / Left the rotation adjustment; any
      other key does nothing. */
  datatype Key = R | S | Up | Down | Right | Left | Other

  const AdjustStep: real := 0.1

  /** Up and Right: add one step, with no upper bound. */
  function Raise(v: real): (r: real)
    ensures r > v && r - v == AdjustStep
  {
    v + AdjustStep
  }

  /** Down and Left: take one step off, but only from a positive value; a
      value at or below 0 is left as it is. */
  function Lower(v: real): (r: real)
    ensures v > 0.0 ==> v - r == AdjustStep
    ensures v <= 0.0 ==> r == v
  {
    if v > 0.0 then v - AdjustStep else v
  }

  /** Down after Up restores the value, from any value Up leaves positive. */
  lemma LowerUndoesRaise(v: real)
    requires v > -AdjustStep
    ensures Lower(Raise(v)) == v
  {
  }

  /** Up after Down restores a positive value. */
  lemma RaiseUndoesLower(v: real)
    requires v > 0.0
    ensures Raise(Lower(v)) == v
  {
  }

  /** On multiples of the step, which is where the adjustments start (1.0)
      and where the midpoint puts them (0.0), Down moves one multiple down
      and stops at 0: the guard then works as a floor. */
  lemma LowerOnTenths(k: nat)
    ensures Lower(k as real * AdjustStep) == (if k == 0 then 0.0 else (k - 1) as real * AdjustStep)
  {
  }

  /** The guard is not a floor off the multiples of the step: a positive
      value below one step goes negative. */
  lemma LowerBelowStep(v: real)
    requires 0.0 < v < AdjustStep
    ensures Lower(v) < 0.0
  {
  }
}
