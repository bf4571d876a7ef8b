/**
 * The "add item" form: comma-separated tag parsing, the record it hands to
 * `add`, its reset, and the submitting flag around the submit handler.
 */
module NewItemForm {
  import opened Wrappers
  import opened Text
  import opened Items

  /** What a stored tag looks like after parsing. */
  predicate WellFormedTag(t: string) {
    t != [] && IsTrimmed(t) && ',' !in t
  }

  /** `.map(t => t.trim()).filter(t => t.length > 0)` over the split segments. */
  function CleanTags(segments: seq<string>): (r: seq<string>)
    requires forall k | 0 <= k < |segments| :: ',' !in segments[k]
    ensures |r| <= |segments|
    ensures forall k | 0 <= k < |r| :: WellFormedTag(r[k])
  {
    if segments == [] then []
    else
      TrimKeepsAbsent(segments[0], ',');
      var t := Trim(segments[0]);
      (if t == [] then [] else [t]) + CleanTags(segments[1..])
  }

  /** `tagsInput.split(',').map(t => t.trim()).filter(...)`: trimmed, non-empty, comma-free tags. */
  function ParseTags(input: string): (r: seq<string>)
    ensures forall k | 0 <= k < |r| :: WellFormedTag(r[k])
  {
    CleanTags(SplitOn(input, ','))
  }

  /**
   * Round trip: well-formed tags joined with ", " (as the edit view shows them)
   * parse back to the same list.
   */
  lemma ParseJoinedTags(tags: seq<string>)
    requires forall k | 0 <= k < |tags| :: WellFormedTag(tags[k])
    ensures ParseTags(Join(tags, ", ")) == tags
  {
    if tags == [] {
      ParseEmpty();
    } else {
      ParseJoinedTagsAfter(false, tags);
      assert Space(false) + Join(tags, ", ") == Join(tags, ", ");
    }
  }

  lemma CleanTagsCons(seg: string, segs: seq<string>)
    requires ',' !in seg && forall k | 0 <= k < |segs| :: ',' !in segs[k]
    ensures CleanTags([seg] + segs) == (if Trim(seg) == [] then [] else [Trim(seg)]) + CleanTags(segs)
  {
    assert ([seg] + segs)[1..] == segs;
  }

  /** A tag after optional space: comma-free, and trimming gives the tag. */
  lemma SpacedTag(spaced: bool, t: string)
    requires WellFormedTag(t)
    ensures ',' !in Space(spaced) + t
    ensures Trim(Space(spaced) + t) == t
  {
    var w := Space(spaced);
    assert forall k | 0 <= k < |w| :: IsWhitespace(w[k]);
    TrimAfterWhitespace(w, t);
    if w == "" {
      assert w + t == t;
    } else {
      assert forall k | 0 <= k < |w + t| :: (w + t)[k] == if k == 0 then ' ' else t[k - 1];
    }
  }

  lemma JoinHead(tags: seq<string>)
    requires |tags| >= 2
    ensures Join(tags, ", ") == tags[0] + [','] + (" " + Join(tags[1..], ", "))
  {
    var r := Join(tags[1..], ", ");
    assert Join(tags, ", ") == tags[0] + ", " + r;
    var comma: string := [','];
    assert ", " == comma + " ";
    assert tags[0] + (comma + " ") + r == tags[0] + comma + (" " + r);
  }

  function Space(spaced: bool): string {
    if spaced then " " else ""
  }

  /** A comma-free segment that trims to the tag `t`, then a comma: `t` heads the parsed tags. */
  lemma ParseConsSegment(seg: string, t: string, u: string)
    requires ',' !in seg && Trim(seg) == t && t != []
    ensures ParseTags(seg + [','] + u) == [t] + ParseTags(u)
  {
    SplitOnSep(seg, u, ',');
    CleanTagsCons(seg, SplitOn(u, ','));
  }

  lemma {:induction false} ParseJoinedTagsAfter(spaced: bool, tags: seq<string>)
    requires |tags| >= 1 && forall k | 0 <= k < |tags| :: WellFormedTag(tags[k])
    ensures ParseTags(Space(spaced) + Join(tags, ", ")) == tags
    decreases tags
  {
    var w := Space(spaced);
    var t := tags[0];
    assert WellFormedTag(t);
    SpacedTag(spaced, t);
    if |tags| == 1 {
      assert Join(tags, ", ") == t;
      SplitOnNoSep(w + t, ',');
      CleanTagsCons(w + t, []);
      assert ParseTags(w + t) == [t] + CleanTags([]);
      assert [t] + [] == tags;
    } else {
      var rest := Join(tags[1..], ", ");
      var tail := " " + rest;
      JoinHead(tags);
      AppendAssoc(w, t, [','], tail);
      ParseConsSegment(w + t, t, tail);
      assert forall k | 0 <= k < |tags[1..]| :: WellFormedTag(tags[1..][k]) by {
        forall k | 0 <= k < |tags[1..]| ensures WellFormedTag(tags[1..][k]) {
          assert tags[1..][k] == tags[k + 1];
        }
      }
      ParseJoinedTagsAfter(true, tags[1..]);
      assert Space(true) + rest == tail;
      HeadTail(tags);
    }
  }

  lemma HeadTail(s: seq<string>)
    requires |s| >= 1
    ensures [s[0]] + s[1..] == s
  {
  }

  lemma AppendAssoc(a: string, b: string, c: string, d: string)
    ensures a + (b + c + d) == (a + b) + c + d
  {
  }

  /** "grains, staple" gives the two tags in order. */
  lemma ParseGrainsStaple()
    ensures ParseTags("grains, staple") == ["grains", "staple"]
  {
    GrainsStapleTags();
    ParseTwoTags("grains", "staple");
    GrainsStapleText();
  }

  lemma GrainsStapleTags()
    ensures WellFormedTag("grains") && WellFormedTag("staple")
  {
    var g, st := "grains", "staple";
    assert !IsWhitespace(g[0]) && !IsWhitespace(g[5]);
    assert !IsWhitespace(st[0]) && !IsWhitespace(st[5]);
  }

  lemma GrainsStapleText()
    ensures "grains, staple" == "grains" + ", " + "staple"
  {
  }

  lemma ParseTwoTags(a: string, b: string)
    requires WellFormedTag(a) && WellFormedTag(b)
    ensures ParseTags(a + ", " + b) == [a, b]
  {
    ParseJoinedTags([a, b]);
    assert Join([a, b], ", ") == a + ", " + Join([b], ", ");
  }

  /** An empty input and a lone comma between spaces both give no tags. */
  lemma ParseBlank()
    ensures ParseTags("") == []
    ensures ParseTags(" , ") == []
  {
    ParseEmpty();
    var sp := " ";
    assert IsWhitespace(sp[0]);
    ParseBlankPair(sp, sp);
    assert " , " == sp + [','] + sp;
  }

  lemma ParseEmpty()
    ensures ParseTags("") == []
  {
    var e: string := [];
    assert SplitOn(e, ',') == [e];
    assert Trim(e) == e;
    CleanTagsCons(e, []);
  }

  /** Two whitespace-only segments around a comma give no tags. */
  lemma ParseBlankPair(w1: string, w2: string)
    requires forall k | 0 <= k < |w1| :: IsWhitespace(w1[k])
    requires forall k | 0 <= k < |w2| :: IsWhitespace(w2[k])
    requires ',' !in w1 && ',' !in w2
    ensures ParseTags(w1 + [','] + w2) == []
  {
    SplitOnSep(w1, w2, ',');
    SplitOnNoSep(w2, ',');
    TrimEmptyIff(w1);
    TrimEmptyIff(w2);
    CleanTagsCons(w1, [w2]);
    CleanTagsCons(w2, []);
  }

  /** The record `onSubmit` receives: an empty date input gives no expiry. */
  function FormRecord(name: string, tagsInput: string, quantity: real, unit: string, needed: real,
                      expiresInput: Option<int>, notes: string): (r: NewItem)
    ensures r.tags == Some(ParseTags(tagsInput))
    ensures r.expiresAt.None? <==> expiresInput.None?
    ensures expiresInput.Some? ==> r.expiresAt == Some(DayStart(expiresInput.value))
    ensures r.name == name && r.quantity == quantity && r.unit == Some(unit) && r.needed == Some(needed)
    ensures r.notes == Some(notes) && r.category.None? && r.minThreshold.None?
  {
    NewItem(name, Some(ParseTags(tagsInput)), None, quantity, Some(unit), Some(needed), None,
            expiresInput.Map(DayStart), Some(notes))
  }

  /**
   * The submitted record: its tags are well formed, and its expiry is on the
   * chosen day, so the edit view shows that day again; no date means no expiry.
   */
  lemma FormRecordExpiryAndTags(name: string, tagsInput: string, quantity: real, unit: string, needed: real,
                                expiresInput: Option<int>, notes: string)
    ensures var r := FormRecord(name, tagsInput, quantity, unit, needed, expiresInput, notes);
      && r.tags.Some? && (forall k | 0 <= k < |r.tags.value| :: WellFormedTag(r.tags.value[k]))
      && r.expiresAt.Map(DayOf) == expiresInput
  {
    if expiresInput.Some? {
      DayOfDayStart(expiresInput.value);
    }
  }

  /** What became of a submit: blocked by the browser's input checks, handed over, or the handler threw. */
  datatype SubmitOutcome = Blocked | Submitted(record: NewItem) | Threw(record: NewItem)

  class Form {
    var name: string
    var tagsInput: string
    var quantity: real
    var unit: string
    var needed: real
    var expiresInput: Option<int>   // the date input: None is ''
    var notes: string
    var isSubmitting: bool

    /** The state `reset()` leaves the fields in, which is also the initial state. */
    predicate IsReset()
      reads this
    {
      && name == "" && tagsInput == "" && quantity == 1.0 && unit == ""
      && needed == 0.0 && expiresInput.None? && notes == ""
    }

    constructor ()
      ensures IsReset() && !isSubmitting
    {
      name, tagsInput, quantity, unit := "", "", 1.0, "";
      needed, expiresInput, notes := 0.0, None, "";
      isSubmitting := false;
    }

    /** `reset()`: the seven setters. */
    method Reset()
      modifies this
      ensures IsReset() && isSubmitting == old(isSubmitting)
    {
      name := "";
      tagsInput := "";
      quantity := 1.0;
      unit := "";
      needed := 0.0;
      expiresInput := None;
      notes := "";
    }

    /**
     * The browser's constraint validation lets the submit through: the name is
     * `required`, and the quantity and needed inputs carry `min={0}`.
     */
    predicate Submittable()
      reads this
    {
      name != "" && quantity >= 0.0 && needed >= 0.0
    }

    /**
     * The form's submit: an empty name or a negative quantity or needed amount
     * is blocked by the browser; otherwise the record goes to the handler, the
     * fields are reset unless it threw, and `isSubmitting` is false afterwards
     * either way (`finally`).
     */
    method Submit(handlerThrows: bool) returns (outcome: SubmitOutcome)
      modifies this
      ensures !old(Submittable()) ==> outcome.Blocked? && unchanged(this)
      ensures old(Submittable()) ==> !isSubmitting && !outcome.Blocked?
      ensures !outcome.Blocked? ==> outcome.record.name != "" && outcome.record.quantity >= 0.0
                                    && outcome.record.needed.Some? && outcome.record.needed.value >= 0.0
      ensures old(Submittable()) ==>
        var rec := FormRecord(old(name), old(tagsInput), old(quantity), old(unit), old(needed),
                              old(expiresInput), old(notes));
        if handlerThrows then
          outcome == Threw(rec) && name == old(name) && tagsInput == old(tagsInput) && quantity == old(quantity)
          && unit == old(unit) && needed == old(needed) && expiresInput == old(expiresInput) && notes == old(notes)
        else
          outcome == Submitted(rec) && IsReset()
    {
      if !Submittable() {
        return Blocked;
      }
      isSubmitting := true;
      var rec := FormRecord(name, tagsInput, quantity, unit, needed, expiresInput, notes);
      if handlerThrows {
        outcome := Threw(rec);
      } else {
        outcome := Submitted(rec);
        Reset();
      }
      isSubmitting := false;
    }
  }
}
