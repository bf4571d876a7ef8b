/**
 * The inline editor of one pantry item: the field values it opens with, and
 * the patch its Save button builds by comparing each field with the item.
 * Its tag parsing is the same split/trim/filter chain as the add form's.
 */
module ItemEditView {
  import opened Wrappers
  import opened Text
  import opened Items
  import opened Status
  import opened NewItemForm
  import UsePantryDb

  /**
   * The editor's inputs. `minThreshold` is the input labelled "Needed" (None is
   * the empty input), `expiresAt` the date input as a UTC day (None is '').
   */
  datatype Fields = Fields(
    name: string,
    unit: string,
    minThreshold: Option<real>,
    expiresAt: Option<int>,
    notes: string,
    tagsInput: string)

  /** The tags as the editor shows them: joined with ", ", or '' when there is no list. */
  function TagsText(tags: Option<seq<string>>): string {
    if tags.Some? then Join(tags.value, ", ") else ""
  }

  /** The values the inputs open with, and are refreshed to when the item changes. */
  function InitialFields(item: Item): Fields {
    Fields(item.name, item.unit.GetOr(""), item.minThreshold, item.expiresAt.Map(DayOf),
           item.notes.GetOr(""), TagsText(item.tags))
  }

  /**
   * The patch Save hands over. Each field enters only when its input differs
   * from the item; the patch never carries an id, quantity, category, needed
   * amount or timestamp, and the tags it carries are parsed tags.
   */
  function SavePatch(item: Item, f: Fields): (p: Patch)
    ensures p.id.None? && p.category.None? && p.quantity.None? && p.needed.None?
    ensures p.createdAt.None? && p.updatedAt.None?
    ensures p.tags.Some? ==> p.tags.value.Some? && forall k | 0 <= k < |p.tags.value.value| :: WellFormedTag(p.tags.value.value[k])
  {
    var tags := ParseTags(f.tagsInput);
    EmptyPatch.(
      name := if f.name != item.name then Some(f.name) else None,
      unit := if Some(f.unit) != item.unit then Some(Some(f.unit)) else None,
      minThreshold := if f.minThreshold != item.minThreshold then Some(f.minThreshold) else None,
      expiresAt := if f.expiresAt != item.expiresAt.Map(DayOf) then Some(f.expiresAt.Map(DayStart)) else None,
      notes := if Some(f.notes) != item.notes then Some(Some(f.notes)) else None,
      tags := if tags != item.tags.GetOr([]) then Some(Some(tags)) else None)
  }

  /** The editor component: its inputs, opened on an item. */
  class EditView {
    var fields: Fields

    constructor(item: Item)
      ensures fields == InitialFields(item)
    {
      fields := InitialFields(item);
    }

    /** The effect that refreshes every input when the item changes under the editor. */
    method Refresh(item: Item)
      modifies this
      ensures fields == InitialFields(item)
    {
      fields := InitialFields(item);
    }

    /** The Save click: starting from an empty object, assign each field that changed. */
    method Save(item: Item) returns (patch: Patch)
      ensures patch == SavePatch(item, fields)
    {
      patch := EmptyPatch;
      if fields.name != item.name {
        patch := patch.(name := Some(fields.name));
      }
      if Some(fields.unit) != item.unit {
        patch := patch.(unit := Some(Some(fields.unit)));
      }
      if fields.minThreshold != item.minThreshold {
        patch := patch.(minThreshold := Some(fields.minThreshold));
      }
      if fields.expiresAt != item.expiresAt.Map(DayOf) {
        patch := patch.(expiresAt := Some(fields.expiresAt.Map(DayStart)));
      }
      if Some(fields.notes) != item.notes {
        patch := patch.(notes := Some(Some(fields.notes)));
      }
      var tags := ParseTags(fields.tagsInput);
      if tags != item.tags.GetOr([]) {
        patch := patch.(tags := Some(Some(tags)));
      }
    }
  }

  /** Name, unit and notes enter the patch exactly when the input differs from the item's value. */
  lemma TextFieldsOnlyWhenChanged(item: Item, f: Fields)
    ensures SavePatch(item, f).name.Some? <==> f.name != item.name
    ensures SavePatch(item, f).unit.Some? <==> Some(f.unit) != item.unit
    ensures SavePatch(item, f).notes.Some? <==> Some(f.notes) != item.notes
    ensures SavePatch(item, f).name.Some? ==> SavePatch(item, f).name.value == f.name
    ensures SavePatch(item, f).unit.Some? ==> SavePatch(item, f).unit.value == Some(f.unit)
    ensures SavePatch(item, f).notes.Some? ==> SavePatch(item, f).notes.value == Some(f.notes)
  {
  }

  /** Clearing "Needed" on an item that has a threshold writes an explicit `undefined`, so the merge drops it. */
  lemma ClearingNeededDropsThreshold(item: Item, f: Fields, now: int)
    requires item.minThreshold.Some? && f.minThreshold.None?
    ensures SavePatch(item, f).minThreshold == Some(None)
    ensures UsePantryDb.Merge(item, SavePatch(item, f), item.id, now).minThreshold.None?
  {
  }

  /**
   * The input labelled "Needed" writes `minThreshold`, and nothing the editor
   * saves touches `quantity` or `needed`: a save never changes whether the
   * item is low under `isLow`.
   */
  lemma SaveKeepsLowStatus(item: Item, f: Fields, now: int)
    ensures IsLow(UsePantryDb.Merge(item, SavePatch(item, f), item.id, now)) == IsLow(item)
  {
  }

  /** A new number in "Needed" is written; the same number writes nothing. */
  lemma NeededNumber(item: Item, f: Fields, v: real)
    requires f.minThreshold == Some(v)
    ensures SavePatch(item, f).minThreshold == (if item.minThreshold == Some(v) then None else Some(Some(v)))
  {
  }

  /**
   * Expiry is compared by its day only: a date input on the item's own day
   * writes nothing, and any other date writes midnight UTC of that day.
   */
  lemma ExpiryComparedByDay(item: Item, f: Fields)
    ensures item.expiresAt.Some? && f.expiresAt == Some(DayOf(item.expiresAt.value)) ==> SavePatch(item, f).expiresAt.None?
    ensures f.expiresAt.Some? && f.expiresAt != item.expiresAt.Map(DayOf) ==>
              SavePatch(item, f).expiresAt == Some(Some(DayStart(f.expiresAt.value)))
    ensures f.expiresAt.None? && item.expiresAt.Some? ==> SavePatch(item, f).expiresAt == Some(None)
  {
  }

  /** Tags enter the patch exactly when the parsed list differs from the item's list (a missing list is empty). */
  lemma TagsOnlyWhenChanged(item: Item, f: Fields)
    ensures SavePatch(item, f).tags.Some? <==> ParseTags(f.tagsInput) != item.tags.GetOr([])
    ensures SavePatch(item, f).tags.Some? ==> SavePatch(item, f).tags.value == Some(ParseTags(f.tagsInput))
  {
  }

  /**
   * Saving without editing: when the item's tags are already well formed, the
   * patch has no name, threshold, expiry or tags entry; it still has `unit: ''`
   * or `notes: ''` when the item lacks that field.
   */
  lemma UneditedSave(item: Item)
    requires item.tags.Some? ==> forall k | 0 <= k < |item.tags.value| :: WellFormedTag(item.tags.value[k])
    ensures SavePatch(item, InitialFields(item)).name.None?
    ensures SavePatch(item, InitialFields(item)).minThreshold.None?
    ensures SavePatch(item, InitialFields(item)).expiresAt.None?
    ensures SavePatch(item, InitialFields(item)).tags.None?
    ensures SavePatch(item, InitialFields(item)).unit == (if item.unit.None? then Some(Some("")) else None)
    ensures SavePatch(item, InitialFields(item)).notes == (if item.notes.None? then Some(Some("")) else None)
  {
    if item.tags.Some? {
      ParseJoinedTags(item.tags.value);
    } else {
      ParseJoinedTags([]);
    }
  }

  /** Tags that are not trimmed come back trimmed from an unedited save. */
  lemma UneditedSaveTrimsTags(item: Item)
    requires item.tags == Some([" rice"])
    ensures SavePatch(item, InitialFields(item)).tags == Some(Some(["rice"]))
  {
    var sp := " rice";
    assert Join([sp], ", ") == sp;
    SplitOnNoSep(sp, ',');
    RiceTrims();
    CleanTagsCons(sp, []);
    assert ParseTags(InitialFields(item).tagsInput) == ["rice"];
    assert |"rice"| != |sp|;
  }

  lemma RiceTrims()
    ensures Trim(" rice") == "rice"
  {
    var w, t := " ", "rice";
    assert IsWhitespace(w[0]);
    assert !IsWhitespace(t[0]) && !IsWhitespace(t[3]);
    TrimAfterWhitespace(w, t);
    assert w + t == " rice";
  }

  /**
   * Saving and reopening: the merged item opens the editor with the inputs
   * that were saved, except that the tags input comes back as the parsed tags
   * joined with ", " (which parses to the same list again).
   */
  lemma SaveThenReopen(item: Item, f: Fields, now: int)
    ensures InitialFields(UsePantryDb.Merge(item, SavePatch(item, f), item.id, now))
              == f.(tagsInput := Join(ParseTags(f.tagsInput), ", "))
    ensures ParseTags(InitialFields(UsePantryDb.Merge(item, SavePatch(item, f), item.id, now)).tagsInput)
              == ParseTags(f.tagsInput)
  {
    var r := UsePantryDb.Merge(item, SavePatch(item, f), item.id, now);
    if f.expiresAt.Some? {
      DayOfDayStart(f.expiresAt.value);
    }
    var tags := ParseTags(f.tagsInput);
    if tags == item.tags.GetOr([]) && item.tags.None? {
      assert TagsText(r.tags) == "" == Join(tags, ", ");
    }
    ParseJoinedTags(tags);
  }
}
