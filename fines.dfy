/** The overdue fine charged when a loan is closed. */
module Fines {

  /** Currency units charged per day of delay. */
  const FinePerDay: real := 0.5

  /** The fine for a book due on `due` and returned on `returned`: half a unit
      per day strictly after the due day, nothing otherwise. */
  function OverdueFine(due: int, returned: int): (fine: real)
    ensures fine >= 0.0
    ensures fine > 0.0 <==> returned > due
  {
    if returned > due then (returned - due) as real * FinePerDay else 0.0
  }

  /** Returning on the due day is free, one day later costs 0.5 and three days
      later 1.5. */
  lemma FineBoundary()
    ensures OverdueFine(10, 10) == 0.0
    ensures OverdueFine(10, 9) == 0.0
    ensures OverdueFine(10, 11) == 0.5
    ensures OverdueFine(10, 13) == 1.5
  {
  }

  /** Each further day of delay adds exactly one day's rate. */
  lemma FineGrowsByRate(due: int, returned: int)
    requires returned >= due
    ensures OverdueFine(due, returned + 1) == OverdueFine(due, returned) + FinePerDay
  {
  }

  /** The fine never decreases when the book comes back later. */
  lemma FineMonotone(due: int, r1: int, r2: int)
    requires r1 <= r2
    ensures OverdueFine(due, r1) <= OverdueFine(due, r2)
  {
  }

  /** The fine depends only on the number of days late. */
  lemma FineIsDaysLateTimesRate(due: int, late: nat)
    ensures OverdueFine(due, due + late) == late as real * FinePerDay
  {
  }
}
