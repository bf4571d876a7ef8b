# Pantry tracker: a verified model of its rules

The pantry tracker is a small React app. It keeps a list of pantry items in an
IndexedDB object store and shows them as cards. The list can be filtered and
searched, and items are added, edited and removed through forms. This project
models the app's logic in Dafny and proves what that logic guarantees. The
parts modelled are:

- **The item store** (`Db`). It is one object store keyed by `id`, modelled as
  a `map<string, Item>` in the class `PantryDB` with `put`, `get`, `getAll`
  and `delete`. A second operation, `upsertItemsBulk`, is a loop of puts.
- **The store hook** (`UsePantryDb`). The class `PantryStore` holds the
  database and the `items` array the UI shows. Its add, edit, remove and seed
  handlers change the database and then refresh `items` from `getAll()`. The
  older `App.tsx` has copies of the add, edit and remove handlers with the same
  text, so those are modelled here once. Its seed handler differs: it upserts
  its own inline demo list, with categories and `minThreshold` values
  (`LegacyApp.LegacyDemoItems`), through the same bulk upsert
  (`UsePantryDb.PantryStore.Seed`).
- **Derived statuses** (`Status`):
  - `isLow`: the quantity is at most 40 % of `needed`, or of 1000 when
    `needed` is missing.
  - The older rule: the quantity is at most `minThreshold`, or 0 when it is
    missing.
  - Expired: the expiry time is strictly before now.
- **The list filter** (`ItemFilter`). A query is matched against name, notes
  and tags, status toggles are applied, and the result is sorted by name. The
  older filter in `App.tsx` (`LegacyApp`) has ok/low/expired choices, a
  category choice and a sorted category list.
- **Small transformers**:
  - Comma-separated tag parsing and the add form (`NewItemForm`).
  - The edit view's field-by-field patch (`ItemEditView`).
  - The card's ±1 quantity patches (`ItemCard`).
  - The summary counts and the "+ Item" toggle (`ActionBar`).
  - The theme selector (`ThemeSelector`).

A few conventions hold throughout the model:

- Time is an integer number of milliseconds, passed in as `now`.
- An ISO timestamp's date part is the UTC day `t / 86400000` (`Items.DayOf`).
  A `YYYY-MM-DD` input is midnight UTC of its day (`Items.DayStart`).
- Quantities are `real`, so 0.4 is exact.
- `crypto.randomUUID()` becomes an id parameter. `PantryStore.Add` requires
  it to be absent from the store. `DemoItems`, `SeedDemo` and
  `LegacyDemoItems` take any four ids, which need be neither fresh nor
  distinct; with repeated ids the bulk upsert keeps the last record.
- `localeCompare` becomes an abstract `before` relation, required to be a total
  preorder.
- The default `Array.prototype.sort()` used for categories compares UTF-16
  code units; it is modelled as code-point lexicographic order (`Text.LexLe`),
  which differs for characters outside the Basic Multilingual Plane (see
  "## Left out").
- `Partial<PantryItem>` is `Items.Patch`:
  - A required field is `Option<T>`.
  - An optional field is `Option<Option<T>>`. `Some(None)` is a key that is
    present with the value `undefined`, and it still overrides when spread.

Some behaviours of the source show up in the model:

- The edit view's input labelled "Needed" writes the deprecated
  `minThreshold`, not `needed`. So a save never changes `isLow`
  (`ItemEditView.SaveKeepsLowStatus`).
- Saving an unedited item that has no `notes` or `unit` writes `''` for that
  field.
- The action bar's low count includes expired items. The "low" status filter
  excludes them.

## Model

| member | source | states |
|---|---|---|
| Db.PutRecord | src/db.ts:35 | a put stores the record under its own id, so a store keyed by id stays keyed by id |
| Db.DeleteRecord | src/db.ts:57-60 | a delete keeps the store keyed by id |
| Db.PantryDB.constructor | src/db.ts:32-40 | on the first open, whose upgrade creates the store, it is empty and keyed by id; a reopened database keeps its records, which the store hook allows by taking any valid database |
| Db.PantryDB.Put | src/db.ts:42-45 | `put` upserts by `item.id` and keeps every record under its own id |
| Db.PantryDB.Get | src/db.ts:47-50 | `get` returns the stored record exactly when the id is present, and absence otherwise |
| Db.PantryDB.GetAll | src/db.ts:52-55 | `getAll` lists every stored record exactly once, with no other entries |
| Db.PantryDB.Delete | src/db.ts:57-60 | `delete` removes the id and keeps the store keyed by id |
| Db.UpsertItemsBulk | src/db.ts:63-68 | the bulk upsert is a `put` of each item in list order |
| Db.GetAfterPut | src/db.ts:42-50 | after `put(item)`, `get(item.id)` yields exactly `item` |
| Db.PutCount | src/db.ts:42-45 | a put of a present id keeps the number of records; a new id adds one |
| Db.DeleteThenGet | src/db.ts:57-60 | after `delete(id)` the id is absent; deleting an absent id changes nothing |
| Db.OtherKeysUnchanged | src/db.ts:42-60 | a put or delete on one id leaves every other id's presence and record unchanged |
| Db.ListingIds | src/db.ts:52-55 | the ids of a `getAll` listing are exactly the stored keys |
| Db.ListingLength | src/db.ts:52-55 | a `getAll` listing has one entry per stored record |
| Db.DistinctIdsCount | src/db.ts:52-55 | distinct ids in a list give as many ids as entries |
| Db.PutAllLastWins | src/db.ts:66 | after the bulk upsert an id is present iff it was stored or listed, and its record is that of the last item with that id |
| UsePantryDb.BuildItem | src/components/use_pantry_db.ts:70-75 | a new record gets the fresh id, and both timestamps are `now` |
| UsePantryDb.BuildItemRoundTrip | src/components/use_pantry_db.ts:70-75 | the record keeps every submitted field, and a record never edited is rebuilt from its content, id and creation time |
| UsePantryDb.Merge | src/components/use_pantry_db.ts:86 | each field comes from the patch when the patch has the key (even as `undefined`) and otherwise from the existing record; `id` and `updatedAt` are forced |
| UsePantryDb.MergeEmptyPatch | src/components/use_pantry_db.ts:86 | an empty patch changes only `updatedAt` |
| UsePantryDb.MergeIdempotent | src/components/use_pantry_db.ts:86 | applying the same patch twice at one moment equals applying it once |
| UsePantryDb.MergeKeepsId | src/components/use_pantry_db.ts:86 | the merged record keeps the existing id, whatever id the patch carries |
| UsePantryDb.MergeKeepsTimestampOrder | src/components/use_pantry_db.ts:86 | for a patch without `createdAt`, which is every patch the UI builds, a clock that does not run backwards keeps `createdAt <= updatedAt` after an edit; the spread lets a patch's own `createdAt` override |
| UsePantryDb.DemoItems | src/components/use_pantry_db.ts:4-48 | four demo records under the given fresh ids, created and updated at `now` |
| UsePantryDb.DemoItemsStatus | src/components/use_pantry_db.ts:4-48 | the demo names are Rice, Pasta, Tomato Sauce and Milk; only Pasta is low under `isLow`, and only Milk is expired |
| UsePantryDb.PantryStore.constructor | src/components/use_pantry_db.ts:60-66 | after the first `getAll` the `items` state lists the store, and the store is unchanged |
| UsePantryDb.PantryStore.Add | src/components/use_pantry_db.ts:68-80 | add stores the built record under the fresh id, keeps every earlier record, and `items` lists the store again |
| UsePantryDb.PantryStore.Edit | src/components/use_pantry_db.ts:82-91 | an unknown id changes neither the store nor `items`; otherwise the merged record replaces the old one and `items` lists the store |
| UsePantryDb.PantryStore.Remove | src/components/use_pantry_db.ts:93-99 | remove makes the id absent, keeps every other record, and `items` lists the store |
| UsePantryDb.PantryStore.Seed | src/App.tsx:118-119 | seeding upserts the given records in order, and `items` lists the store |
| UsePantryDb.PantryStore.SeedDemo | src/components/use_pantry_db.ts:101-104 | `seedDemo` upserts the four demo records, and `items` lists the store |
| Status.IsLow | src/utils/misc.ts:3-5 | `quantity <= (needed ?? 1000) * 0.4`; its cases are stated by the lemmas below |
| Status.IsLowByThreshold | src/components/item_card.tsx:14 | the older rule `quantity <= (minThreshold ?? 0)`, also App.tsx:35 |
| Status.IsExpired | src/components/item_card.tsx:13 | an expiry is present and strictly before now, as use_item_filter.tsx:71, App.tsx:34 and action_bar.tsx:18 also compute it |
| Status.IsLowWithNeeded | src/utils/misc.ts:4 | with `needed` present, low iff `quantity <= needed * 0.4` |
| Status.IsLowWithoutNeeded | src/utils/misc.ts:4 | with `needed` absent, low iff `quantity <= 400` |
| Status.IsLowNeededZero | src/utils/misc.ts:4 | with `needed = 0`, low iff `quantity <= 0` |
| Status.IsLowMonotonic | src/utils/misc.ts:4 | lowering the quantity of a low item keeps it low |
| Status.ThresholdIgnoresNeeded | src/components/item_card.tsx:14 | the older low rule does not depend on `needed` |
| Status.ThresholdAbsent | src/App.tsx:35 | with no `minThreshold`, the older rule is low iff `quantity <= 0` |
| ItemCard.CurrentQuantity | src/components/item_card.tsx:24-36 | the quantity, or 0 when it is falsy; without NaN that is the quantity itself |
| ItemCard.DecrementedQuantity | src/components/item_card.tsx:24 | the "-" quantity is never negative; it is `q-1` for `q >= 1` and 0 for `q <= 1` |
| ItemCard.IncrementedQuantity | src/components/item_card.tsx:36 | the "+" quantity is one more |
| ItemCard.DecrementPatch | src/components/item_card.tsx:24 | the "-" patch carries only the quantity, which is `q - 1` for `q >= 1` and 0 otherwise, so never negative |
| ItemCard.IncrementPatch | src/App.tsx:314 | the "+" patch carries only the quantity plus one |
| ItemCard.DecrementUndoesIncrement | src/components/item_card.tsx:24-36 | for `q >= 0`, "+" then "-" returns `q` |
| ItemCard.IncrementUndoesDecrement | src/App.tsx:307-314 | "-" then "+" returns `q` exactly when `q >= 1` |
| ItemCard.CardFlags | src/components/item_card.tsx:12-14 | the card is expired iff `expiresAt` is present and before now, and low iff `quantity <= (minThreshold ?? 0)` |
| ItemFilter.NormalizeQuery | src/components/use_item_filter.tsx:62 | `query.trim().toLowerCase()`; see QueryIgnoresCase and BlankQueryMatchesAll |
| ItemFilter.TagText | src/components/use_item_filter.tsx:68 | the tags joined with spaces, or '' when there is no list |
| ItemFilter.SearchText | src/components/use_item_filter.tsx:68 | name, notes and tag text separated by spaces; see LowerSearchText |
| ItemFilter.MatchesQuery | src/components/use_item_filter.tsx:66-70 | an empty normalized query matches, otherwise the lowered search text must include it; see QuerySeesNameNotesTags |
| ItemFilter.StatusMatches | src/components/use_item_filter.tsx:75-77 | "expired" asks for expired, "low" for low and not expired, anything else fails; see OnlyLowSelected |
| ItemFilter.MatchesStatus | src/components/use_item_filter.tsx:72-78 | no status selected, or some selected status matches; see NoStatusesMatchAll |
| ItemFilter.Matches | src/components/use_item_filter.tsx:79 | query and status both match |
| Items.Name | src/components/use_item_filter.tsx:81 | the sort key `a.name`, also App.tsx:46 |
| ItemFilter.Filtered | src/components/use_item_filter.tsx:64-81 | the result holds exactly the matching input items, each as often as in the input, is no longer than the input, and is sorted by name |
| ItemFilter.FilteredStable | src/components/use_item_filter.tsx:64-81 | matching items whose names tie appear in the order `getAll` listed them |
| ItemFilter.BlankQueryMatchesAll | src/components/use_item_filter.tsx:62-67 | an empty or whitespace-only query matches every item |
| ItemFilter.QueryIgnoresCase | src/components/use_item_filter.tsx:62 | a query and its upper-cased form normalize to the same query |
| ItemFilter.LowerSearchText | src/components/use_item_filter.tsx:68-69 | lower-casing the search text lower-cases name, notes and tags separately |
| ItemFilter.QuerySeesNameNotesTags | src/components/use_item_filter.tsx:68-70 | a query found in the lowered name, notes or any one tag matches the item |
| ItemFilter.JoinIncludesPart | src/components/use_item_filter.tsx:68 | text found in one lowered tag is found in the lowered joined tags |
| ItemFilter.NormalizeSpacedUpperCan | src/components/use_item_filter.tsx:62 | the query " CAN " normalizes to "can" |
| ItemFilter.TomatoSauceExample | src/components/use_item_filter.tsx:62-70 | "Tomato Sauce" tagged "canned" matches both "can" and " CAN " |
| ItemFilter.NoStatusesMatchAll | src/components/use_item_filter.tsx:73 | with no statuses selected every item passes the status test |
| ItemFilter.ExpiredNeverLow | src/components/use_item_filter.tsx:71-76 | an expired item never matches through "low" |
| ItemFilter.OnlyLowSelected | src/components/use_item_filter.tsx:72-78 | with only "low" selected, an item passes iff it is low and not expired |
| ItemFilter.UnknownStatusNeverMatches | src/components/use_item_filter.tsx:77 | a status other than "low" and "expired" never makes an item match |
| ItemFilter.DefaultFilterKeepsAll | src/components/use_item_filter.tsx:51-81 | the default filter keeps every item, as a permutation of the input |
| ItemFilter.LowFilterExample | src/components/use_item_filter.tsx:64-81 | with Rice (2 of 2) and Pasta (1 of 3), the "low" filter returns just Pasta |
| ItemFilter.Toggle | src/components/use_item_filter.tsx:26-28 | a toggle flips the status's membership, leaves the others, and never adds a duplicate |
| ItemFilter.ToggleTwice | src/components/use_item_filter.tsx:37-39 | toggling twice restores the selected statuses |
| LegacyApp.Categories | src/App.tsx:21-25 | `'all'` first, then each distinct non-empty category exactly once, in sorted order |
| LegacyApp.LexLeIsTotalPreorder | src/App.tsx:24 | the default sort order is a total preorder |
| LegacyApp.LegacyMatchesQuery | src/App.tsx:32 | an empty query matches, otherwise the lowered name and notes must include it; see LegacyQueryIgnoresTagsAndCategory |
| LegacyApp.MatchesCategory | src/App.tsx:33 | category 'all' or exactly the item's category; see CategoryExact |
| LegacyApp.LegacyMatchesStatus | src/App.tsx:34-43 | all, expired, low and not expired, or ok (neither); see ExactlyOneStatus |
| LegacyApp.LegacyMatches | src/App.tsx:44 | query, category and status all match |
| LegacyApp.LegacyFiltered | src/App.tsx:27-47 | the result holds exactly the matching items, each as often as in the input, and is sorted by name |
| LegacyApp.LegacyFilteredStable | src/App.tsx:30-46 | matching items whose names tie appear in the order they were listed |
| LegacyApp.DefaultLegacyFilterKeepsAll | src/App.tsx:10 | the initial filter (no query, category and status 'all') keeps every item, only reordered |
| LegacyApp.ExactlyOneStatus | src/App.tsx:34-43 | every item is in exactly one of the ok, low and expired views |
| LegacyApp.AllMatchesEverything | src/App.tsx:33-37 | status "all" and category "all" match every item |
| LegacyApp.CategoryExact | src/App.tsx:33 | any other category must equal the item's category exactly |
| LegacyApp.LegacyQueryIgnoresTagsAndCategory | src/App.tsx:32 | the query looks only at name and notes, never at tags or category |
| LegacyApp.LegacyLowWithoutThreshold | src/App.tsx:35-42 | with no `minThreshold`, "low" means quantity at most 0 and not expired |
| LegacyApp.LegacyFormRecord | src/App.tsx:221-229 | the older form sends a category and a `minThreshold`, no tags and no `needed`; name, quantity, unit and notes go as entered, and a date gives midnight UTC of its day while an empty date gives no expiry |
| LegacyApp.LegacyRecordUnderNewRule | src/App.tsx:221-229 | a record from the older form is low under `isLow` iff its quantity is at most 400, whatever threshold it was given |
| LegacyApp.LegacyDemoItems | src/App.tsx:74-117 | four demo records under the given ids, created and updated at `now` |
| LegacyApp.LegacyDemoStatus | src/App.tsx:74-117 | under the threshold rule Pasta and Milk are low, only Pasta shows as low, and Rice and Tomato Sauce show as ok |
| NewItemForm.CleanTags | src/components/new_item_form.tsx:40-41 | trimmed, non-empty, comma-free tags, never more than there were segments |
| NewItemForm.ParseTags | src/components/new_item_form.tsx:38-41 | no parsed tag is empty, has surrounding whitespace, or contains a comma |
| NewItemForm.ParseJoinedTags | src/components/item_edit_view.tsx:18 | well-formed tags joined with ", " parse back to the same list |
| NewItemForm.ParseJoinedTagsAfter | src/components/new_item_form.tsx:38-41 | well-formed tags joined with ", " after optional leading space parse back to the same list, in order |
| NewItemForm.ParseTwoTags | src/components/new_item_form.tsx:38-41 | two well-formed tags separated by ", " parse to those two tags, in order |
| NewItemForm.ParseGrainsStaple | src/components/new_item_form.tsx:38-41 | "grains, staple" parses to `["grains", "staple"]` |
| NewItemForm.ParseBlank | src/components/new_item_form.tsx:38-41 | "" and " , " parse to no tags |
| NewItemForm.ParseBlankPair | src/components/new_item_form.tsx:38-41 | whitespace around a single comma parses to no tags |
| NewItemForm.FormRecord | src/components/new_item_form.tsx:42-50 | the submitted record carries the parsed tags and the fields as entered, and has an expiry iff a date was entered |
| NewItemForm.FormRecordExpiryAndTags | src/components/new_item_form.tsx:38-48 | the record's tags are well formed, and its expiry falls on the chosen day (none for an empty date) |
| NewItemForm.Form.constructor | src/components/new_item_form.tsx:11-18 | the form opens with the reset values and is not submitting |
| NewItemForm.Form.Reset | src/components/new_item_form.tsx:20-28 | reset restores name '', tags '', quantity 1, unit '', needed 0, no date and notes '' |
| NewItemForm.Form.Submittable | src/components/new_item_form.tsx:60-94 | the browser lets the submit through iff the `required` name is non-empty and the `min={0}` quantity and needed inputs are not negative |
| NewItemForm.Form.Submit | src/components/new_item_form.tsx:33-56 | a submit the browser blocks (empty name, negative quantity or needed) changes nothing; otherwise the handler gets the record, which then has a name and non-negative amounts, the fields reset unless it threw, and `isSubmitting` ends false either way |
| ItemEditView.TagsText | src/components/item_edit_view.tsx:18 | the tags joined with ", ", or '' when there is no list |
| ItemEditView.InitialFields | src/components/item_edit_view.tsx:13-18 | the inputs the editor opens with; see UneditedSave and SaveThenReopen |
| ItemEditView.SavePatch | src/components/item_edit_view.tsx:76-88 | the patch never carries id, category, quantity, needed or timestamps, and any tags it carries are well formed |
| ItemEditView.EditView.constructor | src/components/item_edit_view.tsx:13-18 | the inputs open with the item's values |
| ItemEditView.EditView.Refresh | src/components/item_edit_view.tsx:20-28 | when the item changes, every input is refreshed from it |
| ItemEditView.EditView.Save | src/components/item_edit_view.tsx:76-88 | the patch built step by step from an empty object is the save patch |
| ItemEditView.TextFieldsOnlyWhenChanged | src/components/item_edit_view.tsx:77-78 | name, unit and notes are in the patch exactly when they differ from the item, and then with the edited value |
| ItemEditView.ClearingNeededDropsThreshold | src/components/item_edit_view.tsx:79-80 | clearing "Needed" puts `minThreshold: undefined` in the patch, and the merge drops the threshold |
| ItemEditView.NeededNumber | src/components/item_edit_view.tsx:79-80 | a number in "Needed" is written only when it differs from `minThreshold` |
| ItemEditView.ExpiryComparedByDay | src/components/item_edit_view.tsx:81-82 | a date on the item's own day writes nothing; another date writes midnight UTC of that day; clearing it writes `undefined` |
| ItemEditView.TagsOnlyWhenChanged | src/components/item_edit_view.tsx:84-88 | tags are in the patch exactly when the parsed list differs from the item's (a missing list counts as empty) |
| ItemEditView.SaveKeepsLowStatus | src/components/item_edit_view.tsx:45-50 | no save changes whether the item is low under `isLow` |
| ItemEditView.UneditedSave | src/components/item_edit_view.tsx:13-18 | with well-formed tags, an unedited save has no name, threshold, expiry or tags entry, and has `''` for unit or notes exactly when the item lacks that field |
| ItemEditView.UneditedSaveTrimsTags | src/components/item_edit_view.tsx:84-88 | an unedited save of the tag " rice" writes the tag "rice" |
| ItemEditView.SaveThenReopen | src/components/item_edit_view.tsx:13-18 | reopening the saved item shows the saved inputs, with the tags as parsed and joined, and they parse to the same list |
| ActionBar.TotalCount | src/components/action_bar.tsx:15 | `items.length` |
| ActionBar.LowCount | src/components/action_bar.tsx:16 | the low count is at most the total |
| ActionBar.ExpiredCount | src/components/action_bar.tsx:17-19 | the expired count is at most the total |
| ActionBar.SelectEmptyIff | src/components/action_bar.tsx:16-19 | a filtered count is zero exactly when no item qualifies |
| ActionBar.LowCountZeroIff | src/components/action_bar.tsx:16 | the low count is zero iff no item is low |
| ActionBar.ExpiredCountZeroIff | src/components/action_bar.tsx:17-19 | the expired count is zero iff no item is expired |
| ActionBar.LowCountIncludesExpired | src/components/action_bar.tsx:16 | an item that is low and expired counts as low, while the "low" filter drops it |
| ActionBar.PluralSuffix | src/components/action_bar.tsx:45 | `totalCount === 1 ? '' : 's'`; see PluralSuffixEmptyIff |
| ActionBar.AfterAddClick | src/components/action_bar.tsx:30-31 | a toggle of `showAdd` unless the button is disabled; see AddClickTwice |
| ActionBar.PluralSuffixEmptyIff | src/components/action_bar.tsx:45 | the suffix is empty iff there is exactly one item, and "s" otherwise |
| ActionBar.SummaryOf | src/components/action_bar.tsx:45-57 | the summary shows the item total with its plural suffix, the low part with `lowCount` exactly when it is positive, and the expired part with `expiredCount` exactly when it is positive; a part shows iff some item is low or expired, with a count between 1 and the total |
| ActionBar.AddClickTwice | src/components/action_bar.tsx:30-31 | two clicks on "+ Item" restore `showAdd`, and a click that is not disabled changes it |
| ActionBar.Bar.constructor | src/components/action_bar.tsx:11-12 | the bar starts with the form closed and not submitting |
| ActionBar.Bar.ClickAdd | src/components/action_bar.tsx:30-31 | the click toggles `showAdd` unless submitting |
| ActionBar.Bar.CancelForm | src/components/action_bar.tsx:65 | cancelling closes the form |
| ActionBar.Bar.SetSubmitting | src/components/action_bar.tsx:66 | the form's submitting report is recorded |
| ThemeSelector.InitialTheme | src/components/use_theme_selector.tsx:27-34 | the start-up theme is always light or dark |
| ThemeSelector.InitialThemeLightIff | src/components/use_theme_selector.tsx:27-34 | the start-up theme is light iff storage holds light or fun; with no window it is dark |
| ThemeSelector.MapTheme | src/components/use_theme_selector.tsx:38 | `t === 'fun' ? 'light' : t`; see MapThemeCases |
| ThemeSelector.MetaColor | src/components/use_theme_selector.tsx:50-51 | the `theme-color` content by theme; see MetaColorCases |
| ThemeSelector.MapThemeCases | src/components/use_theme_selector.tsx:38 | 'fun' maps to 'light', anything else is unchanged, and the mapping is idempotent |
| ThemeSelector.MetaColorCases | src/components/use_theme_selector.tsx:50-51 | the meta colour is '#2a183a' iff the theme is light, and '#0f766e' otherwise |
| ThemeSelector.Selector.constructor | src/components/use_theme_selector.tsx:27-34 | the selector starts with the theme derived from storage |
| ThemeSelector.Selector.SetTheme | src/components/use_theme_selector.tsx:36-43 | the theme becomes the mapped choice, and storage then holds the same value when there is a window |
| ThemeSelector.Selector.ClickDark | src/components/use_theme_selector.tsx:9 | clicking dark while dark changes nothing; otherwise it sets dark |
| ThemeSelector.Selector.ClickLight | src/components/use_theme_selector.tsx:17 | clicking light while light changes nothing; otherwise it sets light |
| ThemeSelector.StoredChoiceSurvivesReload | src/components/use_theme_selector.tsx:27-41 | a stored light, dark or fun choice comes back as the start-up theme after a reload |
| ThemeSelector.OtherStoredValueStartsDark | src/components/use_theme_selector.tsx:30-31 | any other stored value starts the page dark |
| Items.DayOfDayStart | src/components/item_edit_view.tsx:16-82 | the date part of the midnight of a day is that day |
| Text.Trim | src/components/new_item_form.tsx:40 | a trimmed string has no whitespace at either end, and trimming a trimmed string changes nothing |
| Text.TrimKeepsAbsent | src/components/new_item_form.tsx:40 | trimming adds no character |
| Text.TrimEmptyIff | src/components/use_item_filter.tsx:62-67 | trim yields '' exactly on whitespace-only input |
| Text.TrimAfterWhitespace | src/components/new_item_form.tsx:40 | trimming whitespace followed by a trimmed string gives that string |
| Text.TrimToLowerCommute | src/components/use_item_filter.tsx:62 | trimming and lower-casing commute |
| Text.ToLowerForgetsCase | src/components/use_item_filter.tsx:62 | lower-casing an upper-cased string is lower-casing the original |
| Text.IncludesIff | src/components/use_item_filter.tsx:70 | `includes` holds exactly when the query occurs at some position |
| Text.SplitOn | src/components/new_item_form.tsx:39 | a split has at least one segment, and no segment contains the separator |
| Text.JoinSplit | src/components/new_item_form.tsx:39 | joining the segments of a split with the separator gives back the input |
| Text.SplitJoin | src/components/new_item_form.tsx:39 | splitting a join gives back the parts when no part contains the separator, the other half of the split/join round trip |
| Text.LexLeTotal | src/App.tsx:24 | the default sort order relates any two strings |
| Text.LexLeTransitive | src/App.tsx:24 | the default sort order is transitive |
| Text.LexLeAntisymmetric | src/App.tsx:24 | the default sort order is antisymmetric |
| Sorting.Select | src/components/use_item_filter.tsx:65 | `filter` keeps every element that satisfies the predicate and nothing else, and is never longer than its input |
| Sorting.SelectCount | src/components/use_item_filter.tsx:65 | each kept element occurs as often as in the input, and every other element not at all |
| Sorting.SelectConcat | src/components/use_item_filter.tsx:65 | `filter` keeps the input order: filtering a concatenation is the concatenation of the filtered parts |
| Sorting.SelectNoDup | src/components/use_item_filter.tsx:27 | `filter` keeps a duplicate-free list duplicate-free |
| Sorting.SortBy | src/components/use_item_filter.tsx:81 | the sort returns a permutation of its input, ordered by key |
| Sorting.InsertStable | src/components/use_item_filter.tsx:81 | inserting an element puts it in front of every element whose key ties with its own |
| Sorting.SortByStable | src/components/use_item_filter.tsx:81 | the sort is stable: for every key, the elements whose keys tie with it come out in their input order |
| Sorting.NoDupPermutation | src/App.tsx:24 | a permutation of a list without duplicates has no duplicates |

## Left out

- I/O and concurrency are not modelled. IndexedDB and the `idb` wrapper become
  a map with no storage failures. Every `await` and promise is a sequential
  step, so interleaved handlers are not modelled.
- `crypto.randomUUID()` and `new Date()`/`nowIso()` are parameters: a fresh id
  and a millisecond `now`.
- A handler calls `nowIso()` once for each field. The model uses one `now`,
  so `createdAt == updatedAt` for a new record.
- ISO timestamp strings are modelled as integers. The model assumes years 0
  to 9999, where the first 10 characters of an ISO string are the UTC date.
  Extended years (`+010000-…`) are not covered.
- `toLocaleDateString` on the card only renders text and is not modelled.
- `parseFloat` and IEEE floats are not modelled, so there is no NaN and no
  rounding.
  - ItemCard.CurrentQuantity: `quantity || 0` is the quantity itself, because
    NaN, its only other falsy value, is not modelled.
- `localeCompare`: Unicode collation is not modelled. Any total preorder on
  names can stand in for it.
- Db.PantryDB.GetAll: IndexedDB lists records in ascending key order. The
  model leaves the order open. It matters only for items whose names tie in
  the name sort (`ItemFilter.FilteredStable`).
- Strings are sequences of code points, not UTF-16 code units.
  - LegacyApp.Categories: the default `sort()` compares UTF-16 code units,
    but `Text.LexLe` compares code points. The two orders differ when a
    character above U+FFFF (a surrogate pair, such as U+1F600) meets one in
    U+E000 to U+FFFF: the code-unit order puts the surrogate pair first.
- `toLowerCase` maps only ASCII letters.
- `trim` uses the full ECMAScript whitespace set. That set is spelled out in
  `Text.IsWhitespace`.
- The `App.tsx` `ItemForm` is partly left out. Its record is
  `LegacyApp.LegacyFormRecord`, but its input state and `reset` (which mirror
  the newer form's) are not modelled.
- The app does not exclude a category literally named "all". The category list
  then holds "all" twice: once as the fixed entry and once as that category.
- The add form's `onSubmittingChange` callback and the action bar's
  `isSubmitting` are connected only through `ActionBar.Bar.SetSubmitting`. The
  callback wiring itself is not modelled.
- Left out of the theme selector:
  - The DOM writes: the `data-theme` attribute, and finding the meta tag
    before writing its colour.
  - `localStorage` failures.
- The service worker (`public/sw.js`), the modal's key listener, the icons,
  header, footer, build configuration and all JSX layout are presentation,
  network or build code, so they are not modelled.
- The development-only "Demo" button's visibility (`import.meta.env.DEV`) is a
  build flag and is not modelled.
