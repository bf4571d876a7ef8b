/**
 * The older single-component app: the category drop-down, its three-way
 * ok / low / expired filter with a category choice, and its demo records.
 * Its add, edit and remove handlers are the same code as the store hook's
 * (`UsePantryDb.PantryStore`), and its card sends the same quantity patches
 * as `ItemCard`.
 */
module LegacyApp {
  import opened Wrappers
  import opened Text
  import opened Sorting
  import opened Items
  import opened Status
  import UsePantryDb

  function Id(s: string): string {
    s
  }

  /** The distinct non-empty categories of the items. */
  ghost function CategorySet(items: seq<Item>): set<string> {
    set i | 0 <= i < |items| && items[i].category.Some? && items[i].category.value != "" :: items[i].category.value
  }

  /** The code-point order is a total preorder, as sorting needs. */
  lemma LexLeIsTotalPreorder()
    ensures TotalPreorder((a, b) => LexLe(a, b))
  {
    forall a, b ensures LexLe(a, b) || LexLe(b, a) {
      LexLeTotal(a, b);
    }
    forall a, b, c | LexLe(a, b) && LexLe(b, c) ensures LexLe(a, c) {
      LexLeTransitive(a, b, c);
    }
  }

  /**
   * `categories`: `'all'`, then every distinct non-empty category once, sorted
   * by `Array.prototype.sort()`'s default order.
   */
  method Categories(items: seq<Item>) returns (r: seq<string>)
    ensures |r| >= 1 && r[0] == "all"
    ensures forall c :: c in r[1..] <==> c in CategorySet(items)
    ensures NoDup(r[1..])
    ensures SortedBy(r[1..], Id, (a, b) => LexLe(a, b))
  {
    var s: set<string> := {};
    var order: seq<string> := [];   // a Set iterates in insertion order
    for i := 0 to |items|
      invariant forall c :: c in order <==> c in s
      invariant NoDup(order)
      invariant s == CategorySet(items[..i])
    {
      assert CategorySet(items[..i + 1]) == CategorySet(items[..i]) +
        (if items[i].category.Some? && items[i].category.value != "" then {items[i].category.value} else {}) by {
        assert forall j | 0 <= j < i :: items[..i + 1][j] == items[..i][j];
      }
      var c := items[i].category;
      if c.Some? && c.value != "" && c.value !in s {
        s := s + {c.value};
        order := order + [c.value];
      }
    }
    assert items[..|items|] == items;
    LexLeIsTotalPreorder();
    var sorted := SortBy(order, Id, (a, b) => LexLe(a, b));
    NoDupPermutation(order, sorted);
    assert forall c :: c in sorted <==> c in multiset(sorted);
    assert forall c :: c in order <==> c in multiset(order);
    r := ["all"] + sorted;
    assert r[1..] == sorted;
  }

  datatype LegacyFilter = LegacyFilter(query: string, category: string, status: string)

  const DefaultLegacyFilter := LegacyFilter("", "all", "all")

  /** Here the query looks only at name and notes. */
  predicate LegacyMatchesQuery(i: Item, q: string) {
    q == [] || Includes(ToLower(i.name + " " + i.notes.GetOr("")), q)
  }

  predicate MatchesCategory(i: Item, category: string) {
    category == "all" || i.category == Some(category)
  }

  /** The status choice; any value other than all, expired and low behaves as "ok". */
  predicate LegacyMatchesStatus(i: Item, status: string, now: int) {
    var expired := IsExpired(i, now);
    var low := IsLowByThreshold(i);
    if status == "all" then true
    else if status == "expired" then expired
    else if status == "low" then low && !expired
    else !expired && !low
  }

  predicate LegacyMatches(i: Item, f: LegacyFilter, now: int) {
    && LegacyMatchesQuery(i, ToLower(Trim(f.query)))
    && MatchesCategory(i, f.category)
    && LegacyMatchesStatus(i, f.status, now)
  }

  /** The items the older `filter` keeps before the sort. */
  function LegacyKeep(f: LegacyFilter, now: int): Item -> bool {
    (i: Item) => LegacyMatches(i, f, now)
  }

  /** The older `filtered` list: exactly the matching items, sorted by name. */
  function LegacyFiltered(items: seq<Item>, f: LegacyFilter, now: int, before: (string, string) -> bool): (r: seq<Item>)
    requires TotalPreorder(before)
    ensures forall x :: multiset(r)[x] == if LegacyMatches(x, f, now) then multiset(items)[x] else 0
    ensures forall x :: x in r <==> x in items && LegacyMatches(x, f, now)
    ensures |r| <= |items|
    ensures SortedBy(r, Name, before)
  {
    var kept := Select(items, LegacyKeep(f, now));
    SelectCount(items, LegacyKeep(f, now));
    var r := SortBy(kept, Name, before);
    assert forall x :: x in r <==> x in multiset(r);
    assert |r| == |multiset(r)| == |multiset(kept)| == |kept|;
    r
  }

  /** Items whose names tie keep the order they had in the input. */
  lemma LegacyFilteredStable(items: seq<Item>, f: LegacyFilter, now: int, before: (string, string) -> bool, k: string)
    requires TotalPreorder(before)
    ensures Select(LegacyFiltered(items, f, now, before), SameKey(Name, before, k))
              == Select(Select(items, LegacyKeep(f, now)), SameKey(Name, before, k))
  {
    SortByStable(Select(items, LegacyKeep(f, now)), Name, before, k);
  }

  /** The initial filter (no query, every category, every status) keeps every item, only reordered. */
  lemma DefaultLegacyFilterKeepsAll(items: seq<Item>, now: int, before: (string, string) -> bool)
    requires TotalPreorder(before)
    ensures multiset(LegacyFiltered(items, DefaultLegacyFilter, now, before)) == multiset(items)
  {
    var r := LegacyFiltered(items, DefaultLegacyFilter, now, before);
    forall x ensures multiset(r)[x] == multiset(items)[x] {
      assert LegacyMatches(x, DefaultLegacyFilter, now);
    }
  }

  /**
   * The older add form's record: a category and a `minThreshold` instead of
   * tags and `needed`; an empty date input gives no expiry.
   */
  function LegacyFormRecord(name: string, category: string, quantity: real, unit: string, minThreshold: real,
                            expiresInput: Option<int>, notes: string): (r: NewItem)
    ensures r.tags.None? && r.needed.None? && r.category == Some(category) && r.minThreshold == Some(minThreshold)
    ensures r.expiresAt.None? <==> expiresInput.None?
    ensures expiresInput.Some? ==> r.expiresAt == Some(DayStart(expiresInput.value))
    ensures r.name == name && r.quantity == quantity && r.unit == Some(unit) && r.notes == Some(notes)
  {
    NewItem(name, None, Some(category), quantity, Some(unit), None, Some(minThreshold),
            expiresInput.Map(DayStart), Some(notes))
  }

  /**
   * A record from the older form has no `needed`, so the newer low rule falls
   * back to 1000 and calls it low up to a quantity of 400, whatever threshold
   * was entered.
   */
  lemma LegacyRecordUnderNewRule(name: string, category: string, quantity: real, unit: string, minThreshold: real,
                                 expiresInput: Option<int>, notes: string, id: string, now: int)
    ensures var i := UsePantryDb.BuildItem(LegacyFormRecord(name, category, quantity, unit, minThreshold, expiresInput, notes), id, now);
      (IsLow(i) <==> quantity <= 400.0) && (IsLowByThreshold(i) <==> quantity <= minThreshold)
  {
    var i := UsePantryDb.BuildItem(LegacyFormRecord(name, category, quantity, unit, minThreshold, expiresInput, notes), id, now);
    UsePantryDb.BuildItemRoundTrip(LegacyFormRecord(name, category, quantity, unit, minThreshold, expiresInput, notes), id, now, i);
    IsLowWithoutNeeded(i);
  }

  /** Every item is in exactly one of the ok, low and expired views. */
  lemma ExactlyOneStatus(i: Item, now: int)
    ensures var ok, low, expired :=
      LegacyMatchesStatus(i, "ok", now), LegacyMatchesStatus(i, "low", now), LegacyMatchesStatus(i, "expired", now);
      (ok || low || expired) && !(ok && low) && !(ok && expired) && !(low && expired)
  {
  }

  lemma AllMatchesEverything(i: Item, now: int)
    ensures LegacyMatchesStatus(i, "all", now)
    ensures MatchesCategory(i, "all")
  {
  }

  /** Any category other than "all" must be the item's category exactly. */
  lemma CategoryExact(i: Item, category: string)
    requires category != "all"
    ensures MatchesCategory(i, category) <==> i.category.Some? && i.category.value == category
  {
  }

  /** Tags and category never affect the older query. */
  lemma LegacyQueryIgnoresTagsAndCategory(i: Item, q: string, tags: Option<seq<string>>, category: Option<string>)
    ensures LegacyMatchesQuery(i.(tags := tags, category := category), q) == LegacyMatchesQuery(i, q)
  {
  }

  /** With no `minThreshold`, "low" means nothing left and not expired. */
  lemma LegacyLowWithoutThreshold(i: Item, now: int)
    requires i.minThreshold.None?
    ensures LegacyMatchesStatus(i, "low", now) <==> i.quantity <= 0.0 && !IsExpired(i, now)
  {
  }

  /** The older demo records, with `minThreshold` thresholds. */
  function LegacyDemoItems(ids: seq<string>, now: int): (r: seq<Item>)
    requires |ids| == 4
    ensures |r| == 4
    ensures forall k | 0 <= k < 4 :: r[k].id == ids[k] && r[k].createdAt == now && r[k].updatedAt == now
  {
    [ Item(ids[0], "Rice", None, Some("Grains"), 2.0, Some("kg"), None, Some(1.0), None, None, now, now),
      Item(ids[1], "Pasta", None, Some("Grains"), 1.0, Some("box"), None, Some(2.0), None, None, now, now),
      Item(ids[2], "Tomato Sauce", None, Some("Canned"), 4.0, Some("can"), None, Some(2.0),
           Some(now + 90 * MsPerDay), None, now, now),
      Item(ids[3], "Milk", None, Some("Dairy"), 1.0, Some("L"), None, Some(1.0),
           Some(now - MsPerDay), None, now, now) ]
  }

  /** Under the threshold rule Pasta and Milk read as low, but only Pasta shows in the "low" view. */
  lemma LegacyDemoStatus(ids: seq<string>, now: int)
    requires |ids| == 4
    ensures var d := LegacyDemoItems(ids, now);
      && (forall k | 0 <= k < 4 :: IsLowByThreshold(d[k]) <==> k == 1 || k == 3)
      && (forall k | 0 <= k < 4 :: LegacyMatchesStatus(d[k], "low", now) <==> k == 1)
      && (forall k | 0 <= k < 4 :: LegacyMatchesStatus(d[k], "ok", now) <==> k == 0 || k == 2)
  {
  }
}
