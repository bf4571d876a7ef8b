/**
 * The derived, never stored, item statuses: `isLow` (40 % of `needed`), the
 * older `minThreshold` rule, and "expired".
 */
module Status {
  import opened Wrappers
  import opened Items

  /** The `needed` amount assumed when an item has none. */
  const DefaultNeeded: real := 1000.0

  /** `isLow`: the quantity is at most 40 % of what is needed. */
  predicate IsLow(i: Item) {
    i.quantity <= i.needed.GetOr(DefaultNeeded) * 0.4
  }

  /** The older rule: the quantity is at most `minThreshold`, 0 when absent. */
  predicate IsLowByThreshold(i: Item) {
    i.quantity <= i.minThreshold.GetOr(0.0)
  }

  /** Expired: an expiry is set and lies strictly before `now`. */
  predicate IsExpired(i: Item, now: int) {
    i.expiresAt.Some? && i.expiresAt.value < now
  }

  lemma IsLowWithNeeded(i: Item)
    requires i.needed.Some?
    ensures IsLow(i) <==> i.quantity <= i.needed.value * 0.4
  {
  }

  lemma IsLowWithoutNeeded(i: Item)
    requires i.needed.None?
    ensures IsLow(i) <==> i.quantity <= 400.0
  {
  }

  lemma IsLowNeededZero(i: Item)
    requires i.needed == Some(0.0)
    ensures IsLow(i) <==> i.quantity <= 0.0
  {
  }

  /** Taking stock away from a low item keeps it low. */
  lemma IsLowMonotonic(i: Item, q: real)
    requires IsLow(i) && q <= i.quantity
    ensures IsLow(i.(quantity := q))
  {
  }

  /** The older rule looks only at `quantity` and `minThreshold`, never at `needed`. */
  lemma ThresholdIgnoresNeeded(i: Item, n: Option<real>)
    ensures IsLowByThreshold(i.(needed := n)) == IsLowByThreshold(i)
  {
  }

  lemma ThresholdAbsent(i: Item)
    requires i.minThreshold.None?
    ensures IsLowByThreshold(i) <==> i.quantity <= 0.0
  {
  }
}
