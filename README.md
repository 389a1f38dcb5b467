# Activity board: the client-side activity pipeline

This project models the in-memory part of the activity board's browser
client (`src/static/app.js`). After a fetch, the client holds the catalog
of extracurricular activities. Each activity has a name, a description, a
schedule, a maximum number of participants, the participants' emails and
an optional category. From the catalog the client derives four things:

- the category facet (`getCategory` and `getCategories`);
- the displayed list (`renderActivities`). It applies the category filter,
  then a case-insensitive substring search over name, description and
  schedule, then a stable sort by name, by schedule or not at all;
- the view data for each displayed activity: spots left, the participant
  rows or the "No participants yet" note;
- the options of the sign-up select.

Modules:

- `JsString`: models the string operations the pipeline relies on.
  - `trim` strips ECMAScript WhiteSpace and LineTerminator characters.
  - `toLowerCase` lowers ASCII letters only.
  - `includes` is modelled directly.
  - `split(" ")[0]` is modelled directly.
- `Activities`: the record types, `getCategory`, `getCategories` and the
  category filter's option list.
  - `getCategories` is modelled twice: `Categories` is its specification, and
    `CollectCategories` is the loop the source runs.
- `Pipeline`: `Array.prototype.filter`, the category filter and the search.
  - Each is specified by the multiset it keeps and by being a subsequence of
    its input.
  - A separate lemma shows that no other result meets those two properties.
- `Sorting`: the comparator, and a stable insertion sort `SortBy`.
  - `SortBy` is proved to be a permutation, to be ordered and to be stable.
  - It is also proved to be the only result with those three properties, so
    it is exactly what any stable `Array.prototype.sort` returns.
  - `SortInPlace` runs the sort in place on an array and is proved equal to
    `SortBy`.
- `Render`: the composed pipeline, the card and option data, and the method
  `RenderActivities`. That method follows the source step by step:
  - it reassigns the working list through the filters;
  - it sorts an array in place;
  - it builds the cards and the options in one `forEach`-style loop.

Edge cases of the category facet that the model keeps:

- The fallback category is the part of the name before the first space
  character (`split(" ")`). A tab or other white space does not end it.
- A record whose category is the empty string falls back to the name.
  JavaScript's `||` treats `""` as false.
- A derived category can be `""`, for an empty name or a name that starts
  with a space. The category select then offers `""` as an option, but that
  value also means "All", so those activities cannot be selected on their
  own.
- Likewise, an activity named `""` gets an option in the sign-up select
  with the same empty value as the placeholder.

## Model

| member | source | states |
|---|---|---|
| JsString.Trim | src/static/app.js:39 | the result is the slice of the input that starts at the first non-white-space character; only white space lies before and after it in the input; it neither starts nor ends with white space |
| JsString.TrimEmptyIff | src/static/app.js:39-40 | the trimmed search box is empty exactly when the raw value is all white space |
| JsString.TrimIdempotent | src/static/app.js:39 | trimming a trimmed string changes nothing |
| JsString.LowerChar | src/static/app.js:39 | an ASCII capital moves 32 code points up to its lower-case letter; every other character is unchanged |
| JsString.ToLowerCase | src/static/app.js:39 | same length, each character replaced by `LowerChar` of the character at the same position: an ASCII capital by its lower-case letter, every other character kept |
| JsString.ToLowerCaseIdempotent | src/static/app.js:43-45 | lower-casing twice is lower-casing once |
| JsString.Includes | src/static/app.js:43-45 | the definition of `String.prototype.includes`; `JsString.IncludesIff` states what it means |
| JsString.IncludesIff | src/static/app.js:43-45 | `includes` holds exactly when the needle occurs at some position of the haystack |
| JsString.FirstSpaceToken | src/static/app.js:15 | the result is a prefix of the name, contains no space, and is followed in the name by a space or by nothing |
| Activities.CategoryOf | src/static/app.js:22 | the definition: the derived category of one `[name, details]` pair; its properties are those of `Activities.GetCategory` |
| Activities.AddCategory | src/static/app.js:22 | the definition of `Set.prototype.add` on the insertion-ordered category list; `Activities.Categories` and `Activities.CategoriesInDiscoveryOrder` state what repeated adds give |
| Activities.GetCategory | src/static/app.js:13-16 | a present non-empty category is returned as is; otherwise the result is the part of the name before its first space (all of it when there is none) |
| Activities.CategoryExamples | src/static/app.js:13-16 | "Chess Club" without a category gives "Chess"; a record with category "Creative" gives "Creative" |
| Activities.Categories | src/static/app.js:19-25 | the categories list has no duplicates, every listed category is some entry's category, and every entry's category is listed |
| Activities.FirstIndex | src/static/app.js:21-22 | the position of the first entry with a given category (no earlier entry has it) |
| Activities.CategoriesInDiscoveryOrder | src/static/app.js:19-25 | the categories appear in the order in which the entries first show them (insertion order of the `Set`) |
| Activities.CollectCategories | src/static/app.js:19-25 | the one-pass loop over the entries with its seen-set returns exactly `Categories` |
| Activities.CategoryFilterOptions | src/static/app.js:107-112 | the category select holds "All" with the empty value first, then option k+1 is category k of `Categories`, value equal to text, in discovery order; each value is some entry's category; every entry's category is offered; no category value repeats (a "" category repeats the value of "All") |
| Activities.OptionList | src/static/app.js:108-112 | the definition of the option list built from a category list: "All" first, then each category as value and text in list order |
| Activities.OptionListHasCategories | src/static/app.js:107-112 | every option after "All" has value equal to text and names a category some entry has |
| Activities.OptionListDistinct | src/static/app.js:107-112 | no two options after "All" share a value |
| Activities.OptionListCovers | src/static/app.js:107-112 | every entry's category is offered, as value and text, after "All" |
| Pipeline.SubsequenceTransitive | src/static/app.js:31-47 | a subsequence of a subsequence is a subsequence, so two successive filters keep catalog order |
| Pipeline.SubsequenceMultiset | src/static/app.js:33-46 | a subsequence holds each element at most as often as the original |
| Pipeline.Filter | src/static/app.js:33-36 | `Array.prototype.filter` keeps the relative order: its result is a subsequence of the input |
| Pipeline.FilterMultiset | src/static/app.js:33-46 | each element that passes the test is kept exactly as often as it occurs; every other element is dropped |
| Pipeline.FilterUnique | src/static/app.js:33-46 | the only order-preserving selection with the filter's multiset is the filter's result |
| Pipeline.FilterCommutes | src/static/app.js:31-47 | two filters applied in either order give the same list |
| Pipeline.InCategory | src/static/app.js:34-35 | the definition of the category filter's test; `Pipeline.ByCategory` states what filtering with it keeps |
| Pipeline.ByCategory | src/static/app.js:31-37 | an empty selection keeps the list unchanged; otherwise exactly the entries whose derived category is the selection are kept, each as often as before, in their order |
| Pipeline.SearchTerm | src/static/app.js:39 | the prepared term is the trimmed search with every character lower-cased in place (`LowerChar` at each position); it is empty exactly when the raw search is all white space |
| Pipeline.MatchesSearch | src/static/app.js:41-46 | the definition of the search test over the three lower-cased fields; `Pipeline.MatchesSearchIff` and `Pipeline.Search` carry its properties |
| Pipeline.Search | src/static/app.js:39-47 | a blank search keeps the list unchanged; otherwise exactly the entries whose lower-cased name, description or schedule includes the prepared term are kept, each as often as before, in their order |
| Pipeline.FiltersCommute | src/static/app.js:31-47 | category filter then search gives the same list as search then category filter |
| Pipeline.MatchesSearchIff | src/static/app.js:41-46 | an entry matches exactly when the term occurs at some position of its lower-cased name, description or schedule |
| Sorting.StrCompare | src/static/app.js:52 | the comparison is -1, 0 or 1, and 0 exactly when the strings are equal |
| Sorting.StrCompareFlip | src/static/app.js:52-54 | swapping the strings negates the comparison |
| Sorting.StrCompareTransitive | src/static/app.js:52-54 | "not after" is transitive |
| Sorting.Compare | src/static/app.js:50-57 | the definition of the comparator; `Sorting.CompareFlip`, `Sorting.CompareTransitive` and `Sorting.SortUnchangedOtherwise` carry its properties |
| Sorting.CompareFlip | src/static/app.js:50-57 | the comparator is antisymmetric for every sort value |
| Sorting.CompareTransitive | src/static/app.js:50-57 | the comparator's "not after" is transitive for every sort value, so it is a consistent comparator |
| Sorting.Insert | src/static/app.js:50 | the definition of one stable insertion step; `Sorting.InsertPermutes` and `Sorting.InsertSorted` carry its properties |
| Sorting.SortBy | src/static/app.js:50-57 | the definition of the sort; `Sorting.SortByPermutes`, `Sorting.SortBySorted`, `Sorting.SortStable` and `Sorting.SortByIsStableSort` carry its properties |
| Sorting.InsertPermutes | src/static/app.js:50 | one insertion step adds the inserted entry and nothing else |
| Sorting.InsertSorted | src/static/app.js:50 | inserting into an ordered list keeps it ordered |
| Sorting.SortByPermutes | src/static/app.js:50-57 | sorting adds and drops no entry |
| Sorting.SortBySorted | src/static/app.js:50-57 | the sorted list is in the comparator's order |
| Sorting.SortByNameOrdersNames | src/static/app.js:51-52 | sorting by "name" leaves the names in ascending order |
| Sorting.SortByScheduleOrdersSchedules | src/static/app.js:53-54 | sorting by "schedule" leaves the schedules in ascending order |
| Sorting.SortUnchangedOtherwise | src/static/app.js:55-57 | any other sort value leaves the list exactly as the filters produced it |
| Sorting.SortStable | src/static/app.js:50-57 | entries the comparator ties keep their relative order |
| Sorting.SortedStableUnique | src/static/app.js:50-57 | two ordered, stable arrangements of the same entries are equal |
| Sorting.SortByIsStableSort | src/static/app.js:50-57 | any ordered, stable rearrangement of the list is exactly `SortBy`'s result, so the model agrees with every stable `sort` |
| Sorting.InsertInPlace | src/static/app.js:50-57 | one pass of the in-place insertion sort turns the array prefix into `Insert`'s result and leaves the rest of the array alone |
| Sorting.SortInPlace | src/static/app.js:50-57 | sorting the array in place leaves it holding `SortBy` of its old contents |
| Render.Displayed | src/static/app.js:29-57 | the definition of the displayed list (category filter, search, sort); `Render.DisplayedContents`, `Render.DisplayedUnsortedKeepsOrder` and `Render.DisplayedNamesUnique` carry its properties |
| Render.DisplayedContents | src/static/app.js:29-57 | the displayed entries are exactly those that pass both the category filter and the search, each as often as in the catalog and in the comparator's order |
| Render.DisplayedUnsortedKeepsOrder | src/static/app.js:29-57 | without a recognised sort value the displayed entries keep their catalog order |
| Render.UniqueNamesOnce | src/static/app.js:29 | a catalog keyed by name holds each entry at most once |
| Render.DisplayedNamesUnique | src/static/app.js:89-93 | the displayed names are distinct, so the sign-up options after the placeholder have distinct values (an activity named "" repeats the placeholder's value) |
| Render.SpotsLeft | src/static/app.js:64 | the definition of spots left; `Render.CardOf` and `Render.SpotsLeftExamples` state it is not clamped |
| Render.CardOf | src/static/app.js:61-87 | the card copies name, description and schedule; spots left plus participant count equals the maximum (not clamped); it shows the "no participants" note exactly when the roster is empty, and otherwise one row per participant, in order, each bound to this activity |
| Render.SpotsLeftExamples | src/static/app.js:64 | 10 places with 2 participants leave 8; 2 places with 3 participants leave -1 |
| Render.Cards | src/static/app.js:61-88 | one card per displayed entry, in display order |
| Render.Options | src/static/app.js:60-93 | the sign-up select holds the placeholder, then one option per displayed entry with value and text its name, in display order |
| Render.OptionsFollowCards | src/static/app.js:60-93 | after the placeholder, the select lists exactly the cards' names in the cards' order |
| Render.FilterActivities | src/static/app.js:29-47 | reassigning the working list through the two filters gives the search of the category filter of the catalog |
| Render.RenderActivities | src/static/app.js:28-94 | the rendered cards and select options are those of the displayed entries (filtered, searched, sorted) |
| Render.BuildView | src/static/app.js:59-94 | the loop over the sorted array builds exactly the cards and options of its contents |

## Left out

- `fetch`, the JSON decoding and the error message shown when it fails
  (lines 102-118) are I/O. The catalog is a parameter, i.e. the already
  decoded object.
- The DOM is not modelled: no HTML strings, `innerHTML`, element creation or
  event-listener wiring. The cards and options are modelled as data. HTML
  escaping is not modelled either; the source does none.
- The sign-up and unregister handlers, `encodeURIComponent`, the message
  timer, the form reset and `console.error` are outside the modelled core.
- `Object.entries` order is taken as the catalog's sequence order.
  JavaScript lists integer-like keys first; the model assumes the server's
  names are not integer-like.
- Sorting.StrCompare: `localeCompare` is modelled as lexicographic order on
  code points. Locale collation (accents, case tiers, ICU rules) is not
  modelled.
- Strings are sequences of Unicode scalar values, not UTF-16 code units.
  Lone surrogates cannot be represented, and Sorting.StrCompare compares
  code points, not code units (the two orders differ above U+FFFF). For
  well-formed strings this does not affect `trim`, `includes` or `split`.
- JsString.ToLowerCase: only ASCII letters are lowered. The full Unicode case
  mapping (including mappings that change length) is not modelled.
- JSON values of the wrong type are not modelled: a non-string category,
  description or schedule, or a non-number `max_participants`. Such values
  make the source throw or coerce. The types here rule them out.
  `max_participants` is an unbounded integer.
- The JavaScript sort algorithm itself is not modelled. JavaScript only
  requires `sort` to be stable. The model uses insertion sort and proves it is
  the one stable sort by the comparator (`Sorting.SortByIsStableSort`).
