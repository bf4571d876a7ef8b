/**
 * The item card's quantity buttons and its "Low" / "Expired" flags. The same
 * two patches are written out again in the older card of `App.tsx`.
 */
module ItemCard {
  import opened Wrappers
  import opened Items
  import opened Status

  /** `item.quantity || 0`: only NaN is falsy besides 0, and NaN is not modelled. */
  function CurrentQuantity(i: Item): real {
    i.quantity
  }

  /** The "-" button: one less, never below zero. */
  function DecrementedQuantity(q: real): (r: real)
    ensures r >= 0.0
    ensures q >= 1.0 ==> r == q - 1.0
    ensures q <= 1.0 ==> r == 0.0
  {
    if q - 1.0 > 0.0 then q - 1.0 else 0.0
  }

  /** The "+" button: one more. */
  function IncrementedQuantity(q: real): (r: real)
    ensures r - q == 1.0
  {
    q + 1.0
  }

  /** The patch the "-" button sends: only the quantity. */
  function DecrementPatch(i: Item): (p: Patch)
    ensures p == EmptyPatch.(quantity := p.quantity)
    ensures p.quantity.Some? && p.quantity.value >= 0.0
    ensures p.quantity == Some(if i.quantity >= 1.0 then i.quantity - 1.0 else 0.0)
  {
    EmptyPatch.(quantity := Some(DecrementedQuantity(CurrentQuantity(i))))
  }

  /** The patch the "+" button sends: only the quantity. */
  function IncrementPatch(i: Item): (p: Patch)
    ensures p == EmptyPatch.(quantity := p.quantity)
    ensures p.quantity == Some(i.quantity + 1.0)
  {
    EmptyPatch.(quantity := Some(IncrementedQuantity(CurrentQuantity(i))))
  }

  /** For a quantity not below zero, "+" then "-" lands where it started. */
  lemma DecrementUndoesIncrement(q: real)
    requires q >= 0.0
    ensures DecrementedQuantity(IncrementedQuantity(q)) == q
  {
  }

  /** "-" then "+" lands where it started exactly when there was at least one. */
  lemma IncrementUndoesDecrement(q: real)
    ensures IncrementedQuantity(DecrementedQuantity(q)) == q <==> q >= 1.0
  {
  }

  /** The card's flags: expired per the shared rule, low per `minThreshold`. */
  datatype Flags = Flags(expired: bool, low: bool)

  function CardFlags(i: Item, now: int): (f: Flags)
    ensures f.expired <==> i.expiresAt.Some? && i.expiresAt.value < now
    ensures f.low <==> i.quantity <= i.minThreshold.GetOr(0.0)
  {
    Flags(IsExpired(i, now), IsLowByThreshold(i))
  }
}
