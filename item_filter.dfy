/**
 * The item list filter: a free-text query over name, notes and tags, a set
 * of status toggles ("low", "expired"), and a sort by name.
 */
module ItemFilter {
  import opened Wrappers
  import opened Text
  import opened Sorting
  import opened Items
  import opened Status

  datatype Filter = Filter(query: string, statuses: seq<string>)

  const DefaultFilter := Filter("", [])

  /** `query.trim().toLowerCase()`. */
  function NormalizeQuery(query: string): string {
    ToLower(Trim(query))
  }

  /** The tags joined with spaces, or '' when there is no list. */
  function TagText(i: Item): string {
    if i.tags.Some? then Join(i.tags.value, " ") else ""
  }

  /** The text a query is looked up in: name, notes and tags, separated by spaces. */
  function SearchText(i: Item): string {
    i.name + " " + i.notes.GetOr("") + " " + TagText(i)
  }

  /** An empty normalized query matches everything; otherwise it must occur in the lowered text. */
  predicate MatchesQuery(i: Item, q: string) {
    q == [] || Includes(ToLower(SearchText(i)), q)
  }

  /** What one selected status asks of an item; an expired item is never merely low. */
  predicate StatusMatches(s: string, i: Item, now: int) {
    if s == "expired" then IsExpired(i, now)
    else if s == "low" then IsLow(i) && !IsExpired(i, now)
    else false
  }

  /** No status selected, or some selected status matches. */
  predicate MatchesStatus(i: Item, statuses: seq<string>, now: int) {
    |statuses| == 0 || exists k | 0 <= k < |statuses| :: StatusMatches(statuses[k], i, now)
  }

  predicate Matches(i: Item, f: Filter, now: int) {
    MatchesQuery(i, NormalizeQuery(f.query)) && MatchesStatus(i, f.statuses, now)
  }

  /** The items `filter` keeps before the sort. */
  function Keep(f: Filter, now: int): Item -> bool {
    (i: Item) => Matches(i, f, now)
  }

  /**
   * The `filtered` list: exactly the matching items, each as often as in the
   * input, sorted by name under `before` (`localeCompare`).
   */
  function Filtered(items: seq<Item>, f: Filter, now: int, before: (string, string) -> bool): (r: seq<Item>)
    requires TotalPreorder(before)
    ensures forall x :: multiset(r)[x] == if Matches(x, f, now) then multiset(items)[x] else 0
    ensures forall x :: x in r <==> x in items && Matches(x, f, now)
    ensures |r| <= |items|
    ensures SortedBy(r, Name, before)
  {
    var kept := Select(items, Keep(f, now));
    SelectCount(items, Keep(f, now));
    var r := SortBy(kept, Name, before);
    assert forall x :: x in r <==> x in multiset(r);
    assert |r| == |multiset(r)| == |multiset(kept)| == |kept|;
    r
  }

  /** Items whose names tie keep the order they had in the input. */
  lemma FilteredStable(items: seq<Item>, f: Filter, now: int, before: (string, string) -> bool, k: string)
    requires TotalPreorder(before)
    ensures Select(Filtered(items, f, now, before), SameKey(Name, before, k))
              == Select(Select(items, Keep(f, now)), SameKey(Name, before, k))
  {
    SortByStable(Select(items, Keep(f, now)), Name, before, k);
  }

  // ---- The query ----

  /** An empty or whitespace-only query matches every item. */
  lemma BlankQueryMatchesAll(i: Item, query: string)
    requires forall k | 0 <= k < |query| :: IsWhitespace(query[k])
    ensures MatchesQuery(i, NormalizeQuery(query))
  {
    TrimEmptyIff(query);
  }

  /** Queries that differ only in letter case are the same query. */
  lemma QueryIgnoresCase(query: string)
    ensures NormalizeQuery(ToUpper(query)) == NormalizeQuery(query)
  {
    TrimToLowerCommute(ToUpper(query));
    TrimToLowerCommute(query);
    ToLowerForgetsCase(query);
  }

  /** Lower-casing the search text lower-cases each of its three parts. */
  lemma LowerSearchText(i: Item)
    ensures ToLower(SearchText(i)) == ToLower(i.name) + " " + ToLower(i.notes.GetOr("")) + " " + ToLower(TagText(i))
  {
    var n, o, t := i.name, i.notes.GetOr(""), TagText(i);
    ToLowerConcat(n + " " + o + " ", t);
    ToLowerConcat(n + " " + o, " ");
    ToLowerConcat(n + " ", o);
    ToLowerConcat(n, " ");
    assert ToLower(" ") == " ";
  }

  /** A query found in the lowered name, notes or one tag matches the item. */
  lemma QuerySeesNameNotesTags(i: Item, q: string)
    requires Includes(ToLower(i.name), q)
          || Includes(ToLower(i.notes.GetOr("")), q)
          || (i.tags.Some? && exists k | 0 <= k < |i.tags.value| :: Includes(ToLower(i.tags.value[k]), q))
    ensures MatchesQuery(i, q)
  {
    var A, B, C := ToLower(i.name), ToLower(i.notes.GetOr("")), ToLower(TagText(i));
    LowerSearchText(i);
    if Includes(A, q) {
      IncludesConcatLeft(A, " ", q);
      IncludesConcatLeft(A + " ", B, q);
      IncludesConcatLeft(A + " " + B, " ", q);
      IncludesConcatLeft(A + " " + B + " ", C, q);
    } else if Includes(B, q) {
      IncludesConcatRight(A + " ", B, q);
      IncludesConcatLeft(A + " " + B, " ", q);
      IncludesConcatLeft(A + " " + B + " ", C, q);
    } else {
      var k :| 0 <= k < |i.tags.value| && Includes(ToLower(i.tags.value[k]), q);
      JoinIncludesPart(i.tags.value, " ", k, q);
      IncludesConcatRight(A + " " + B + " ", C, q);
    }
  }

  /** A string found in one lowered part is found in the lowered join. */
  lemma {:induction false} JoinIncludesPart(parts: seq<string>, sep: string, k: nat, q: string)
    requires k < |parts| && Includes(ToLower(parts[k]), q)
    ensures Includes(ToLower(Join(parts, sep)), q)
  {
    if |parts| > 1 {
      var rest := Join(parts[1..], sep);
      assert Join(parts, sep) == parts[0] + sep + rest;
      ToLowerConcat(parts[0] + sep, rest);
      ToLowerConcat(parts[0], sep);
      var P, S, R := ToLower(parts[0]), ToLower(sep), ToLower(rest);
      assert ToLower(Join(parts, sep)) == P + S + R;
      if k == 0 {
        IncludesConcatLeft(P, S, q);
        IncludesConcatLeft(P + S, R, q);
      } else {
        JoinIncludesPart(parts[1..], sep, k - 1, q);
        IncludesConcatRight(P + S, R, q);
      }
    }
  }

  lemma NormalizeCan()
    ensures NormalizeQuery("can") == "can"
  {
    assert !IsWhitespace('c') && !IsWhitespace('n');
    assert IsTrimmed("can");
    var l := ToLower("can");
    assert l[0] == 'c' && l[1] == 'a' && l[2] == 'n';
    assert l == "can";
  }

  lemma NormalizeSpacedUpperCan()
    ensures NormalizeQuery(" CAN ") == "can"
  {
    assert " CAN "[1..] == "CAN ";
    assert TrimStart("CAN ") == "CAN ";
    assert TrimStart(" CAN ") == "CAN ";
    assert "CAN "[..3] == "CAN";
    assert TrimEnd("CAN") == "CAN";
    assert TrimEnd("CAN ") == "CAN";
    assert ToLower("CAN") == "can";
  }

  /** "Tomato Sauce" tagged "canned" is found by "can" and by " CAN ". */
  lemma TomatoSauceExample(i: Item)
    requires i.name == "Tomato Sauce" && i.tags == Some(["canned"])
    ensures MatchesQuery(i, NormalizeQuery("can"))
    ensures MatchesQuery(i, NormalizeQuery(" CAN "))
  {
    NormalizeCan();
    NormalizeSpacedUpperCan();
    var c := ToLower("canned");
    assert c == "canned";
    assert c[..3] == "can";
    assert Includes(c, "can");
    assert Includes(ToLower(i.tags.value[0]), "can");
    QuerySeesNameNotesTags(i, "can");
  }

  // ---- The statuses ----

  lemma NoStatusesMatchAll(i: Item, now: int)
    ensures MatchesStatus(i, [], now)
  {
  }

  /** An expired item never matches through "low". */
  lemma ExpiredNeverLow(i: Item, now: int)
    requires IsExpired(i, now)
    ensures !StatusMatches("low", i, now)
  {
  }

  /** With only "low" selected, an item passes exactly when it is low and not expired. */
  lemma OnlyLowSelected(i: Item, now: int)
    ensures MatchesStatus(i, ["low"], now) <==> IsLow(i) && !IsExpired(i, now)
  {
    if IsLow(i) && !IsExpired(i, now) {
      assert StatusMatches(["low"][0], i, now);
    }
  }

  /** A status other than "low" and "expired" never makes an item match. */
  lemma UnknownStatusNeverMatches(s: string, i: Item, now: int, statuses: seq<string>)
    requires s != "low" && s != "expired"
    ensures !StatusMatches(s, i, now)
    ensures |statuses| > 0 && (forall k | 0 <= k < |statuses| :: statuses[k] != "low" && statuses[k] != "expired")
            ==> !MatchesStatus(i, statuses, now)
  {
  }

  /** The default filter keeps every item, only reordered. */
  lemma DefaultFilterKeepsAll(items: seq<Item>, now: int, before: (string, string) -> bool)
    requires TotalPreorder(before)
    ensures multiset(Filtered(items, DefaultFilter, now, before)) == multiset(items)
  {
    var r := Filtered(items, DefaultFilter, now, before);
    forall x ensures multiset(r)[x] == multiset(items)[x] {
      assert Matches(x, DefaultFilter, now);
    }
  }

  /**
   * Two stocked items, Rice (2 of 2 needed) and Pasta (1 of 3 needed), neither
   * expired: filtering on "low" returns exactly Pasta.
   */
  lemma LowFilterExample(rice: Item, pasta: Item, now: int, before: (string, string) -> bool)
    requires TotalPreorder(before)
    requires rice.name == "Rice" && rice.quantity == 2.0 && rice.needed == Some(2.0) && rice.expiresAt.None?
    requires pasta.name == "Pasta" && pasta.quantity == 1.0 && pasta.needed == Some(3.0) && pasta.expiresAt.None?
    ensures Filtered([rice, pasta], Filter("", ["low"]), now, before) == [pasta]
  {
    var f := Filter("", ["low"]);
    var r := Filtered([rice, pasta], f, now, before);
    OnlyLowSelected(rice, now);
    OnlyLowSelected(pasta, now);
    assert NormalizeQuery("") == "";
    assert !Matches(rice, f, now) && Matches(pasta, f, now);
    assert multiset([rice, pasta])[pasta] == 1;
    assert multiset(r)[pasta] == 1;
    assert forall x :: x in r ==> x == pasta;
    assert |r| == |multiset(r)|;
    assert multiset(r) == multiset{pasta} by {
      forall x ensures multiset(r)[x] == multiset{pasta}[x] {
        if x != pasta { assert x !in r; }
      }
    }
    assert |r| == 1;
    assert r[0] in r;
  }

  // ---- The status buttons ----

  /**
   * A status button: drop the status if selected (`statuses.filter(x => x !== s)`),
   * append it otherwise.
   */
  function Toggle(statuses: seq<string>, s: string): (r: seq<string>)
    ensures s in r <==> s !in statuses
    ensures forall t | t != s :: t in r <==> t in statuses
    ensures NoDup(statuses) ==> NoDup(r)
  {
    var others := (t: string) => t != s;
    SelectNoDup(statuses, others);
    if s in statuses then Select(statuses, others) else statuses + [s]
  }

  /** Pressing a status button twice selects the same statuses as before. */
  lemma ToggleTwice(statuses: seq<string>, s: string)
    ensures forall t :: t in Toggle(Toggle(statuses, s), s) <==> t in statuses
  {
  }
}
