/** Trip counts of the do-while loops. */
module Loops {
  import opened Arith

  // Rounds of a loop that adds step to a zero counter and repeats while counter < limit:
  // at least one, however small the limit
  function Trips(limit: int, step: nat): (n: nat)
    requires step > 0
    ensures n >= 1
    decreases if limit > step then limit else 0
  {
    if limit <= step then 1 else 1 + Trips(limit - step, step)
  }

  /** The loop goes on after k rounds exactly when k is short of the trip count. */
  lemma {:induction false} TripsGuard(limit: int, step: nat, k: nat)
    requires step > 0 && k >= 1
    ensures k * step < limit <==> k < Trips(limit, step)
    decreases k
  {
    if k == 1 {
    } else if limit <= step {
      MultipleIsAtLeast(step, k);
      assert step * k == k * step;
    } else {
      TripsGuard(limit - step, step, k - 1);
      assert k * step == (k - 1) * step + step;
    }
  }

  /** The trip count is the limit over the step, rounded up, and at least one. */
  lemma {:induction false} TripsCover(limit: int, step: nat)
    requires step > 0
    ensures Trips(limit, step) * step >= limit
    ensures limit > 0 ==> Trips(limit, step) * step < limit + step
    ensures limit > 0 && Divides(step, limit) ==> Trips(limit, step) * step == limit
    decreases if limit > step then limit else 0
  {
    if limit > step {
      TripsCover(limit - step, step);
      var n := Trips(limit - step, step);
      assert (1 + n) * step == step + n * step;
      if Divides(step, limit) {
        var q := Quotient(step, limit);
        assert limit - step == step * (q - 1);
        MultipleIsDivisible(step, q - 1);
      }
    } else if limit > 0 && Divides(step, limit) {
      DivisorIsAtMost(step, limit);
    }
  }

  lemma TripsExact(limit: int, step: nat)
    requires step > 0 && limit > 0 && Divides(step, limit)
    ensures Trips(limit, step) * step == limit
  {
    TripsCover(limit, step);
  }

  // The value of a register that starts at start, after step has been added to it j times
  function Base(start: int, step: int, j: nat): int {
    if j == 0 then start else Base(start, step, j - 1) + step
  }

  lemma {:induction false} BaseIsLinear(start: int, step: int, j: nat)
    ensures Base(start, step, j) == start + j * step
  {
    if j > 0 {
      BaseIsLinear(start, step, j - 1);
    }
  }
}
