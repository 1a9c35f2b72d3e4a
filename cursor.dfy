/** The index arithmetic of the selection cursor over the seven candidates:
    `OnLeft` / `OnRight` and the five-slot window `UpdateScreen` shows. */
module Cursor {

  /** The number of candidate flags. */
  const Slots: nat := 7

  /** `position == 0 ? 6 : position - 1`: one step left, wrapping around. */
  function StepLeft(p: int): (q: int)
    requires 0 <= p < Slots
    ensures 0 <= q < Slots && q == (p + Slots - 1) % Slots
  {
    if p == 0 then 6 else p - 1
  }

  /** `position == 6 ? 0 : position + 1`: one step right, wrapping around. */
  function StepRight(p: int): (q: int)
    requires 0 <= p < Slots
    ensures 0 <= q < Slots && q == (p + 1) % Slots
  {
    if p == 6 then 0 else p + 1
  }

  /** `k` steps to the right land `k` places further on, modulo seven. */
  function StepsRight(p: int, k: nat): (q: int)
    requires 0 <= p < Slots
    ensures 0 <= q < Slots
  {
    if k == 0 then p else StepRight(StepsRight(p, k - 1))
  }

  /** `k` right steps land `k` places further on, modulo seven. */
  lemma {:induction false} StepsRightIsModular(p: int, k: nat)
    requires 0 <= p < Slots
    ensures StepsRight(p, k) == (p + k) % Slots
  {
    if k > 0 {
      StepsRightIsModular(p, k - 1);
    }
  }

  /** A left step undoes a right step and vice versa. */
  lemma StepsAreInverse(p: int)
    requires 0 <= p < Slots
    ensures StepLeft(StepRight(p)) == p && StepRight(StepLeft(p)) == p
  {}

  /** Seven steps in one direction bring the cursor back. */
  lemma SevenStepsRightIsIdentity(p: int)
    requires 0 <= p < Slots
    ensures StepsRight(p, Slots) == p
  {
    StepsRightIsModular(p, Slots);
  }

  /** How many right steps lead from `from` to `to`. */
  function Distance(from: int, to: int): (d: nat)
    requires 0 <= from < Slots && 0 <= to < Slots
    ensures d < Slots && StepsRight(from, d) == to
    ensures d == 0 <==> from == to
  {
    var d := (to - from) % Slots;
    StepsRightIsModular(from, d);
    d
  }

  /** Fewer than seven right steps are measured back by `Distance`. */
  lemma DistanceOfSteps(p: int, k: nat)
    requires 0 <= p < Slots && k < Slots
    ensures Distance(p, StepsRight(p, k)) == k
  {
    StepsRightIsModular(p, k);
    if p + k >= Slots {
      assert StepsRight(p, k) == p + k - Slots;
    } else {
      assert StepsRight(p, k) == p + k;
    }
  }

  /** A right step from anywhere but the goal brings it one step closer. */
  lemma DistanceShrinks(from: int, to: int)
    requires 0 <= from < Slots && 0 <= to < Slots && from != to
    ensures Distance(StepRight(from), to) == Distance(from, to) - 1
  {}

  /** The `positions` array of `UpdateScreen`: the candidates two left, one left,
      the current one, one right and two right of the cursor, wrapping around. */
  function Window(p: int): (w: seq<int>)
    requires 0 <= p < Slots
    ensures |w| == 5 && w[2] == p && w[1] == StepLeft(p) && w[3] == StepRight(p)
    ensures forall k :: 0 <= k < 5 ==> 0 <= w[k] < Slots && w[k] == (p + k + Slots - 2) % Slots
    ensures forall i, j :: 0 <= i < j < 5 ==> w[i] != w[j]
  {
    [ if p - 2 < 0 then p + 5 else p - 2,
      if p - 1 < 0 then p + 6 else p - 1,
      p,
      if p + 1 > 6 then p - 6 else p + 1,
      if p + 2 > 6 then p - 5 else p + 2 ]
  }
}
