/**
 * `renderActivities` as a whole: the pipeline from the catalog and the
 * three toolbar controls to the displayed entries, and the data the
 * activity cards and the activity select are built from.
 */
module Render {
  import opened JsString
  import opened Activities
  import opened Pipeline
  import opened Sorting

  /** The values of the category select, the search box and the sort select. */
  datatype Controls = Controls(category: string, search: string, sortBy: string)

  /** One participant line: the email, and the unregister button that
      carries the activity name and the email. */
  datatype ParticipantRow = ParticipantRow(email: string, activity: string)

  /** A card shows either its participant list or the "no participants" note. */
  datatype ParticipantsView = NoParticipantsYet | ParticipantList(rows: seq<ParticipantRow>)

  /** The data of one activity card. */
  datatype Card = Card(
    name: string,
    description: string,
    schedule: string,
    spotsLeft: int,
    participants: ParticipantsView)

  /** An `<option>` of the activity select. */
  datatype SelectOption = SelectOption(value: string, text: string)

  const ActivityPlaceholder := SelectOption("", "-- Select an activity --")

  /** The entries the three controls let through, before sorting. */
  ghost predicate Shown(controls: Controls, e: Entry) {
    && (controls.category == [] || CategoryOf(e) == controls.category)
    && (AllWhiteSpace(controls.search) || MatchesSearch(e, SearchTerm(controls.search)))
  }

  /** The displayed entries: category filter, then search, then sort. */
  function Displayed(catalog: Catalog, controls: Controls): seq<Entry> {
    SortBy(controls.sortBy, Search(ByCategory(catalog, controls.category), controls.search))
  }

  /** Each entry the controls let through is displayed as often as it is in
      the catalog, nothing else is displayed, and the order is the
      comparator's. */
  lemma DisplayedContents(catalog: Catalog, controls: Controls)
    ensures forall e :: multiset(Displayed(catalog, controls))[e] ==
                        if Shown(controls, e) then multiset(catalog)[e] else 0
    ensures Sorted(controls.sortBy, Displayed(catalog, controls))
  {
    var filtered := Search(ByCategory(catalog, controls.category), controls.search);
    SortByPermutes(controls.sortBy, filtered);
    SortBySorted(controls.sortBy, filtered);
  }

  /** Without a recognised sort value the displayed entries keep their
      catalog order: they are a subsequence of the catalog. */
  lemma DisplayedUnsortedKeepsOrder(catalog: Catalog, controls: Controls)
    requires controls.sortBy != "name" && controls.sortBy != "schedule"
    ensures Subsequence(Displayed(catalog, controls), catalog)
  {
    var byCategory := ByCategory(catalog, controls.category);
    var filtered := Search(byCategory, controls.search);
    SortUnchangedOtherwise(controls.sortBy, filtered);
    SubsequenceTransitive(filtered, byCategory, catalog);
  }

  /** In a catalog with unique names no entry occurs twice. */
  lemma UniqueNamesOnce(catalog: Catalog, e: Entry)
    requires UniqueNames(catalog)
    ensures multiset(catalog)[e] <= 1
  {
    if e in catalog {
      var i :| 0 <= i < |catalog| && catalog[i] == e;
      var before, after := catalog[..i], catalog[i + 1..];
      assert catalog == before + [e] + after;
      assert multiset(catalog) == multiset(before) + multiset{e} + multiset(after);
      forall k | 0 <= k < |before| ensures before[k] != e {
        assert before[k] == catalog[k] && catalog[k].0 != catalog[i].0;
      }
      forall k | 0 <= k < |after| ensures after[k] != e {
        assert after[k] == catalog[i + 1 + k] && catalog[i].0 != catalog[i + 1 + k].0;
      }
      assert multiset(before)[e] == 0 && multiset(after)[e] == 0;
    }
  }

  /** A sequence that holds no element twice has distinct positions. */
  lemma AtMostOnceDistinct(s: seq<Entry>, i: nat, j: nat)
    requires i < j < |s|
    requires multiset(s)[s[i]] <= 1
    ensures s[i] != s[j]
  {
    assert s == s[..j] + [s[j]] + s[j + 1..];
    assert s[..j][i] == s[i];
  }

  /** The displayed names are distinct, so the options of the activity
      select after its placeholder have distinct values (an activity named
      "" repeats the placeholder's value). */
  lemma DisplayedNamesUnique(catalog: Catalog, controls: Controls)
    requires UniqueNames(catalog)
    ensures UniqueNames(Displayed(catalog, controls))
  {
    var r := Displayed(catalog, controls);
    DisplayedContents(catalog, controls);
    assert forall x :: multiset(r)[x] <= multiset(catalog)[x];
    forall i, j | 0 <= i < j < |r| ensures r[i].0 != r[j].0 {
      if r[i].0 == r[j].0 {
        assert multiset(r)[r[i]] > 0 && multiset(r)[r[j]] > 0;
        assert r[i] in multiset(catalog) && r[j] in multiset(catalog);
        var p :| 0 <= p < |catalog| && catalog[p] == r[i];
        var q :| 0 <= q < |catalog| && catalog[q] == r[j];
        UniqueNamesOnce(catalog, r[i]);
        AtMostOnceDistinct(r, i, j);
      }
    }
  }

  /** `max_participants - participants.length`, not clamped at zero. */
  function SpotsLeft(d: Details): int {
    d.maxParticipants - |d.participants|
  }

  /** The card of one entry: its texts, its spots left, and either one row
      per participant, in roster order, each bound to this activity, or the
      placeholder exactly when the roster is empty. */
  function CardOf(e: Entry): (c: Card)
    ensures c.name == e.0 && c.description == e.1.description && c.schedule == e.1.schedule
    ensures c.spotsLeft + |e.1.participants| == e.1.maxParticipants
    ensures c.participants.NoParticipantsYet? <==> e.1.participants == []
    ensures c.participants.ParticipantList? ==>
      && |c.participants.rows| == |e.1.participants|
      && forall k :: 0 <= k < |e.1.participants| ==>
           c.participants.rows[k] == ParticipantRow(e.1.participants[k], e.0)
  {
    var emails := e.1.participants;
    var view :=
      if |emails| > 0 then
        ParticipantList(seq(|emails|, k requires 0 <= k < |emails| => ParticipantRow(emails[k], e.0)))
      else
        NoParticipantsYet;
    Card(e.0, e.1.description, e.1.schedule, SpotsLeft(e.1), view)
  }

  /** One card per displayed entry, in display order. */
  function Cards(entries: seq<Entry>): (cards: seq<Card>)
    ensures |cards| == |entries|
    ensures forall k :: 0 <= k < |entries| ==> cards[k] == CardOf(entries[k])
  {
    if entries == [] then [] else Cards(entries[..|entries| - 1]) + [CardOf(entries[|entries| - 1])]
  }

  /** The activity select: the placeholder, then one option per displayed
      entry, value and text its name, in display order. */
  function Options(entries: seq<Entry>): (options: seq<SelectOption>)
    ensures |options| == |entries| + 1 && options[0] == ActivityPlaceholder
    ensures forall k :: 0 <= k < |entries| ==> options[k + 1] == SelectOption(entries[k].0, entries[k].0)
  {
    if entries == [] then [ActivityPlaceholder]
    else Options(entries[..|entries| - 1]) + [SelectOption(entries[|entries| - 1].0, entries[|entries| - 1].0)]
  }

  /** The select lists, after its placeholder, exactly the cards' names in
      the cards' order. */
  lemma OptionsFollowCards(entries: seq<Entry>)
    ensures |Options(entries)| == |Cards(entries)| + 1
    ensures Options(entries)[0] == ActivityPlaceholder
    ensures forall k :: 0 <= k < |Cards(entries)| ==>
      Options(entries)[k + 1] == SelectOption(Cards(entries)[k].name, Cards(entries)[k].name)
  {
  }

  /** Two spots-left examples: 10 places and 2 participants leave 8;
      2 places and 3 participants leave -1. */
  lemma SpotsLeftExamples()
    ensures CardOf(("Chess Club", Details("", "", 10, ["a", "b"], None))).spotsLeft == 8
    ensures CardOf(("Chess Club", Details("", "", 2, ["a", "b", "c"], None))).spotsLeft == -1
  {
  }

  /** The first half of `renderActivities`: the working list reassigned
      through the category filter and then the search filter. */
  method FilterActivities(catalog: Catalog, controls: Controls) returns (activities: seq<Entry>)
    ensures activities == Search(ByCategory(catalog, controls.category), controls.search)
  {
    activities := catalog;
    if controls.category != [] {
      activities := Filter(activities, InCategory(controls.category));
    }
    assert activities == ByCategory(catalog, controls.category);
    var search := ToLowerCase(Trim(controls.search));
    assert search == SearchTerm(controls.search);
    if search != [] {
      activities := Filter(activities, MatchesTerm(search));
    }
  }

  /** `renderActivities` as the source runs it: filter, sort the working
      list in place, then build the cards and the select options. */
  method RenderActivities(catalog: Catalog, controls: Controls)
    returns (cards: seq<Card>, options: seq<SelectOption>)
    ensures cards == Cards(Displayed(catalog, controls))
    ensures options == Options(Displayed(catalog, controls))
  {
    var activities := FilterActivities(catalog, controls);
    var sorted := new Entry[|activities|](k requires 0 <= k < |activities| => activities[k]);
    assert sorted[..] == activities;
    SortInPlace(controls.sortBy, sorted);
    assert sorted[..] == Displayed(catalog, controls);
    cards, options := BuildView(sorted);
  }

  /** The `forEach` over the sorted entries that appends one card and one
      select option per entry. */
  method BuildView(sorted: array<Entry>) returns (cards: seq<Card>, options: seq<SelectOption>)
    ensures cards == Cards(sorted[..])
    ensures options == Options(sorted[..])
  {
    cards := [];
    options := [ActivityPlaceholder];
    for i := 0 to sorted.Length
      invariant cards == Cards(sorted[..i])
      invariant options == Options(sorted[..i])
    {
      assert sorted[..i + 1][..i] == sorted[..i];
      cards := cards + [CardOf(sorted[i])];
      options := options + [SelectOption(sorted[i].0, sorted[i].0)];
    }
    assert sorted[..sorted.Length] == sorted[..];
  }
}
