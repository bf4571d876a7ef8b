/**
 * The persisted pantry record (`PantryItem`), the partial patch that edits
 * send, and the record a form hands to `add` before the store assigns the id
 * and timestamps. Timestamps are milliseconds since the epoch, UTC.
 */
module Items {
  import opened Wrappers

  datatype Item = Item(
    id: string,
    name: string,
    tags: Option<seq<string>>,
    category: Option<string>,       // deprecated
    quantity: real,
    unit: Option<string>,
    needed: Option<real>,
    minThreshold: Option<real>,     // deprecated
    expiresAt: Option<int>,
    notes: Option<string>,
    createdAt: int,
    updatedAt: int)

  /**
   * `Partial<PantryItem>`. A required field is absent or present; an optional
   * field is absent (`None`), or present with a value or with `undefined`
   * (`Some(None)`), and a present `undefined` still overrides when spread.
   */
  datatype Patch = Patch(
    id: Option<string>,
    name: Option<string>,
    tags: Option<Option<seq<string>>>,
    category: Option<Option<string>>,
    quantity: Option<real>,
    unit: Option<Option<string>>,
    needed: Option<Option<real>>,
    minThreshold: Option<Option<real>>,
    expiresAt: Option<Option<int>>,
    notes: Option<Option<string>>,
    createdAt: Option<int>,
    updatedAt: Option<int>)

  const EmptyPatch := Patch(None, None, None, None, None, None, None, None, None, None, None, None)

  /** `Omit<PantryItem, 'id' | 'createdAt' | 'updatedAt'>`. */
  datatype NewItem = NewItem(
    name: string,
    tags: Option<seq<string>>,
    category: Option<string>,
    quantity: real,
    unit: Option<string>,
    needed: Option<real>,
    minThreshold: Option<real>,
    expiresAt: Option<int>,
    notes: Option<string>)

  /** The value a key ends with after `{...current, ...patch}`. */
  function Override<T>(p: Option<T>, current: T): (r: T)
    ensures p.None? ==> r == current
    ensures p.Some? ==> r == p.value
  {
    p.GetOr(current)
  }

  /** The key both item lists sort by. */
  function Name(i: Item): string {
    i.name
  }

  const MsPerDay: int := 1000 * 60 * 60 * 24

  /** The UTC calendar day of a timestamp: the date part `YYYY-MM-DD` of its ISO form. */
  function DayOf(t: int): int {
    t / MsPerDay
  }

  /** `new Date('YYYY-MM-DD')`: midnight UTC of the day. */
  function DayStart(d: int): int {
    d * MsPerDay
  }

  /** Formatting a day as a timestamp and taking its date part gives the day back. */
  lemma DayOfDayStart(d: int)
    ensures DayOf(DayStart(d)) == d
  {
  }
}
