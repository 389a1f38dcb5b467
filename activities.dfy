/**
 * The activity catalog as the client holds it after a fetch, and the
 * category facet derived from it (`getCategory`, `getCategories`).
 */
module Activities {
  import opened JsString

  datatype Option<T> = None | Some(value: T)

  /** One activity record as the server sends it; `category` is optional. */
  datatype Details = Details(
    description: string,
    schedule: string,
    maxParticipants: int,
    participants: seq<string>,
    category: Option<string>)

  /** A `[name, details]` pair of `Object.entries`. */
  type Entry = (string, Details)

  /** The catalog in `Object.entries` order. */
  type Catalog = seq<Entry>

  /** The server keys activities by name, so a catalog never repeats one. */
  ghost predicate UniqueNames(c: seq<Entry>) {
    forall i, j :: 0 <= i < j < |c| ==> c[i].0 != c[j].0
  }

  /** `getCategory`: the explicit category when it is present and non-empty,
      otherwise the part of the name before its first space. */
  function GetCategory(name: string, details: Details): (r: string)
    ensures details.category.Some? && details.category.value != [] ==> r == details.category.value
    ensures details.category.None? || details.category.value == [] ==>
      && |r| <= |name| && r == name[..|r|]
      && ' ' !in r
      && (|r| == |name| || name[|r|] == ' ')
  {
    match details.category
    case Some(c) => if c != [] then c else FirstSpaceToken(name)
    case None => FirstSpaceToken(name)
  }

  /** The derived category of one catalog entry. */
  function CategoryOf(e: Entry): string {
    GetCategory(e.0, e.1)
  }

  /** Some entry of `c` has derived category `x`. */
  ghost predicate HasCategory(c: Catalog, x: string) {
    exists i :: 0 <= i < |c| && CategoryOf(c[i]) == x
  }

  ghost predicate NoDuplicates<T>(s: seq<T>) {
    forall i, j :: 0 <= i < j < |s| ==> s[i] != s[j]
  }

  /** `Set.prototype.add` on an insertion-ordered set held as a sequence. */
  function AddCategory(cats: seq<string>, x: string): seq<string> {
    if x in cats then cats else cats + [x]
  }

  /** `getCategories`: the distinct derived categories, each once, and
      exactly those that some entry has. */
  function Categories(c: Catalog): (r: seq<string>)
    ensures NoDuplicates(r)
    ensures forall k :: 0 <= k < |r| ==> HasCategory(c, r[k])
    ensures forall i :: 0 <= i < |c| ==> CategoryOf(c[i]) in r
  {
    if c == [] then []
    else
      var front := c[..|c| - 1];
      var r := AddCategory(Categories(front), CategoryOf(c[|c| - 1]));
      assert forall k :: 0 <= k < |r| ==> HasCategory(c, r[k]) by {
        forall k | 0 <= k < |r| ensures HasCategory(c, r[k]) {
          if k < |Categories(front)| {
            var i :| 0 <= i < |front| && CategoryOf(front[i]) == r[k];
            assert c[i] == front[i];
          } else {
            assert CategoryOf(c[|c| - 1]) == r[k];
          }
        }
      }
      assert forall i :: 0 <= i < |c| ==> CategoryOf(c[i]) in r by {
        forall i | 0 <= i < |c| ensures CategoryOf(c[i]) in r {
          if i < |front| {
            assert c[i] == front[i];
          }
        }
      }
      r
  }

  /** The position of the first entry of `c` whose derived category is `x`. */
  ghost function FirstIndex(c: Catalog, x: string): (k: nat)
    requires HasCategory(c, x)
    ensures k < |c| && CategoryOf(c[k]) == x
    ensures forall q :: 0 <= q < k ==> CategoryOf(c[q]) != x
  {
    var front := c[..|c| - 1];
    if HasCategory(front, x) then
      var k := FirstIndex(front, x);
      assert forall q :: 0 <= q < k ==> c[q] == front[q];
      k
    else
      assert forall q :: 0 <= q < |c| - 1 ==> c[q] == front[q];
      |c| - 1
  }

  /** `getCategories` lists the categories in the order in which they are
      first met in the catalog. */
  lemma {:induction false} CategoriesInDiscoveryOrder(c: Catalog)
    ensures forall i, j :: 0 <= i < j < |Categories(c)| ==>
      FirstIndex(c, Categories(c)[i]) < FirstIndex(c, Categories(c)[j])
  {
    if c != [] {
      var front := c[..|c| - 1];
      var x := CategoryOf(c[|c| - 1]);
      CategoriesInDiscoveryOrder(front);
      var r0 := Categories(front);
      var r := Categories(c);
      forall k | 0 <= k < |r0|
        ensures HasCategory(front, r0[k]) && FirstIndex(c, r0[k]) == FirstIndex(front, r0[k])
      {
      }
      forall i, j | 0 <= i < j < |r|
        ensures FirstIndex(c, r[i]) < FirstIndex(c, r[j])
      {
        if j < |r0| {
          assert r[i] == r0[i] && r[j] == r0[j];
        } else {
          assert r[j] == x && x !in r0 && r[i] == r0[i];
          assert !HasCategory(front, x);
        }
      }
    }
  }

  /** "All" with the empty value, then each category as value and text. */
  function OptionList(cats: seq<string>): (r: seq<(string, string)>)
    ensures |r| == |cats| + 1 && r[0] == ("", "All")
    ensures forall k :: 0 <= k < |cats| ==> r[k + 1] == (cats[k], cats[k])
  {
    [("", "All")] + seq(|cats|, k requires 0 <= k < |cats| => (cats[k], cats[k]))
  }

  /** The options after "All" carry categories some entry has, value equal to text. */
  lemma OptionListHasCategories(c: Catalog)
    ensures forall k :: 1 <= k < |OptionList(Categories(c))| ==>
      OptionList(Categories(c))[k].0 == OptionList(Categories(c))[k].1 &&
      HasCategory(c, OptionList(Categories(c))[k].0)
  {
    var cats := Categories(c);
    var r := OptionList(cats);
    forall k | 1 <= k < |r| ensures r[k].0 == r[k].1 && HasCategory(c, r[k].0) {
      assert r[k] == (cats[k - 1], cats[k - 1]);
    }
  }

  /** No two options after "All" share a value. */
  lemma OptionListDistinct(c: Catalog)
    ensures forall j, k :: 1 <= j < k < |OptionList(Categories(c))| ==>
      OptionList(Categories(c))[j].0 != OptionList(Categories(c))[k].0
  {
    var cats := Categories(c);
    var r := OptionList(cats);
    forall j, k | 1 <= j < k < |r| ensures r[j].0 != r[k].0 {
      assert r[j].0 == cats[j - 1] && r[k].0 == cats[k - 1];
    }
  }

  /** Every entry's category is offered after "All". */
  lemma OptionListCovers(c: Catalog)
    ensures forall i :: 0 <= i < |c| ==>
      (CategoryOf(c[i]), CategoryOf(c[i])) in OptionList(Categories(c))[1..]
  {
    var cats := Categories(c);
    var r := OptionList(cats);
    forall i | 0 <= i < |c| ensures (CategoryOf(c[i]), CategoryOf(c[i])) in r[1..] {
      var k :| 0 <= k < |cats| && cats[k] == CategoryOf(c[i]);
      assert r[1..][k] == r[k + 1];
    }
  }

  /** The category filter's option list: "All" (the empty value) followed
      by one option per discovered category, in discovery order. */
  function CategoryFilterOptions(c: Catalog): (r: seq<(string, string)>)
    ensures |r| >= 1 && r[0] == ("", "All")
    ensures forall k :: 1 <= k < |r| ==> r[k].0 == r[k].1 && HasCategory(c, r[k].0)
    ensures forall i :: 0 <= i < |c| ==> (CategoryOf(c[i]), CategoryOf(c[i])) in r[1..]
    ensures forall j, k :: 1 <= j < k < |r| ==> r[j].0 != r[k].0
    ensures |r| == |Categories(c)| + 1
    ensures forall k :: 0 <= k < |Categories(c)| ==> r[k + 1] == (Categories(c)[k], Categories(c)[k])
  {
    OptionListHasCategories(c);
    OptionListDistinct(c);
    OptionListCovers(c);
    OptionList(Categories(c))
  }

  /** `getCategories` as the source runs it: one pass over the entries,
      adding each derived category to an insertion-ordered set. */
  method CollectCategories(c: Catalog) returns (cats: seq<string>)
    ensures cats == Categories(c)
  {
    cats := [];
    var seen: set<string> := {};
    for i := 0 to |c|
      invariant cats == Categories(c[..i])
      invariant seen == set x | x in cats
    {
      var cat := CategoryOf(c[i]);
      assert c[..i + 1][..i] == c[..i];
      if cat !in seen {
        cats := cats + [cat];
        seen := seen + {cat};
      }
    }
    assert c[..|c|] == c;
  }

  /** Two worked category examples: a name without a category, and an
      explicit category. */
  lemma CategoryExamples()
    ensures GetCategory("Chess Club", Details("", "", 0, [], None)) == "Chess"
    ensures GetCategory("Art", Details("", "", 0, [], Some("Creative"))) == "Creative"
  {
    assert "Chess Club"[5] == ' ';
    assert "Chess Club"[..5] == "Chess";
  }
}
