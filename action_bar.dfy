/**
 * The bar above the list: the item, low and expired counts of its summary
 * line, which parts of that line show, and the "+ Item" toggle that is
 * disabled while the add form is submitting.
 */
module ActionBar {
  import opened Wrappers
  import opened Sorting
  import opened Items
  import opened Status
  import ItemFilter

  /** `items.length`. */
  function TotalCount(items: seq<Item>): nat {
    |items|
  }

  /** `items.filter(isLow).length`: the low items, expired or not. */
  function LowCount(items: seq<Item>): (n: nat)
    ensures n <= TotalCount(items)
  {
    |Select(items, IsLow)|
  }

  /** The items whose expiry lies strictly before `now`. */
  function ExpiredCount(items: seq<Item>, now: int): (n: nat)
    ensures n <= TotalCount(items)
  {
    |Select(items, (i: Item) => IsExpired(i, now))|
  }

  /** A count is zero exactly when no item qualifies. */
  lemma SelectEmptyIff(items: seq<Item>, p: Item -> bool)
    ensures |Select(items, p)| == 0 <==> forall k | 0 <= k < |items| :: !p(items[k])
  {
    var r := Select(items, p);
    if |r| > 0 {
      assert r[0] in r;
    }
    if k :| 0 <= k < |items| && p(items[k]) {
      assert items[k] in r;
    }
  }

  lemma LowCountZeroIff(items: seq<Item>)
    ensures LowCount(items) == 0 <==> forall k | 0 <= k < |items| :: !IsLow(items[k])
  {
    SelectEmptyIff(items, IsLow);
  }

  lemma ExpiredCountZeroIff(items: seq<Item>, now: int)
    ensures ExpiredCount(items, now) == 0 <==> forall k | 0 <= k < |items| :: !IsExpired(items[k], now)
  {
    SelectEmptyIff(items, (i: Item) => IsExpired(i, now));
  }

  /**
   * An item both low and expired counts as low here, while the "low" status
   * filter drops it.
   */
  lemma LowCountIncludesExpired(i: Item, now: int, before: (string, string) -> bool)
    requires TotalPreorder(before)
    requires IsLow(i) && IsExpired(i, now)
    ensures LowCount([i]) == 1
    ensures ItemFilter.Filtered([i], ItemFilter.Filter("", ["low"]), now, before) == []
  {
    assert [i][0] == i;
    assert [i][1..] == [];
    ItemFilter.ExpiredNeverLow(i, now);
    ItemFilter.OnlyLowSelected(i, now);
  }

  /** `totalCount === 1 ? '' : 's'`. */
  function PluralSuffix(total: nat): string {
    if total == 1 then "" else "s"
  }

  lemma PluralSuffixEmptyIff(total: nat)
    ensures PluralSuffix(total) == "" <==> total == 1
    ensures total != 1 ==> PluralSuffix(total) == "s"
  {
  }

  /** The summary line: `N item(s)`, then `| L low` and `| E expired` when present. */
  datatype Summary = Summary(total: nat, suffix: string, low: Option<nat>, expired: Option<nat>)

  function SummaryOf(items: seq<Item>, now: int): (s: Summary)
    ensures s.total == |items| && s.suffix == PluralSuffix(|items|)
    ensures s.low == (if LowCount(items) > 0 then Some(LowCount(items)) else None)
    ensures s.expired == (if ExpiredCount(items, now) > 0 then Some(ExpiredCount(items, now)) else None)
    ensures s.low.Some? <==> exists k | 0 <= k < |items| :: IsLow(items[k])
    ensures s.expired.Some? <==> exists k | 0 <= k < |items| :: IsExpired(items[k], now)
    ensures s.low.Some? ==> 0 < s.low.value <= s.total
    ensures s.expired.Some? ==> 0 < s.expired.value <= s.total
  {
    LowCountZeroIff(items);
    ExpiredCountZeroIff(items, now);
    var low := LowCount(items);
    var expired := ExpiredCount(items, now);
    Summary(|items|, PluralSuffix(|items|),
            if low > 0 then Some(low) else None,
            if expired > 0 then Some(expired) else None)
  }

  /** What a click on "+ Item" leaves `showAdd` at: toggled, unless the button is disabled. */
  function AfterAddClick(showAdd: bool, isSubmitting: bool): bool {
    if isSubmitting then showAdd else !showAdd
  }

  /** Two clicks restore the form's visibility. */
  lemma AddClickTwice(showAdd: bool, isSubmitting: bool)
    ensures AfterAddClick(AfterAddClick(showAdd, isSubmitting), isSubmitting) == showAdd
    ensures !isSubmitting ==> AfterAddClick(showAdd, isSubmitting) != showAdd
  {
  }

  /** The bar's own state: whether the add form is open and whether it is submitting. */
  class Bar {
    var showAdd: bool
    var isSubmitting: bool

    constructor()
      ensures !showAdd && !isSubmitting
    {
      showAdd := false;
      isSubmitting := false;
    }

    /** The "+ Item" button, disabled while submitting. */
    method ClickAdd()
      modifies this
      ensures showAdd == AfterAddClick(old(showAdd), old(isSubmitting))
      ensures isSubmitting == old(isSubmitting)
    {
      if !isSubmitting {
        showAdd := !showAdd;
      }
    }

    /** The form's cancel callback closes it. */
    method CancelForm()
      modifies this
      ensures !showAdd && isSubmitting == old(isSubmitting)
    {
      showAdd := false;
    }

    /** The form reports that a submit started or ended. */
    method SetSubmitting(submitting: bool)
      modifies this
      ensures isSubmitting == submitting && showAdd == old(showAdd)
    {
      isSubmitting := submitting;
    }
  }
}
