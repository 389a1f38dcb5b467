/**
 * The first two steps of `renderActivities`: the category filter and the
 * free-text search, both built on `Array.prototype.filter`.
 */
module Pipeline {
  import opened JsString
  import opened Activities

  /** `r` can be obtained from `s` by deleting elements, keeping the order. */
  ghost predicate Subsequence<T>(r: seq<T>, s: seq<T>) {
    if r == [] then true
    else if s == [] then false
    else (r[0] == s[0] && Subsequence(r[1..], s[1..])) || Subsequence(r, s[1..])
  }

  lemma {:induction false} SubsequenceReflexive<T>(s: seq<T>)
    ensures Subsequence(s, s)
  {
    if s != [] {
      SubsequenceReflexive(s[1..]);
    }
  }

  lemma {:induction false} SubsequenceTransitive<T>(a: seq<T>, b: seq<T>, c: seq<T>)
    requires Subsequence(a, b) && Subsequence(b, c)
    ensures Subsequence(a, c)
    decreases |a| + |b| + |c|
  {
    if a != [] {
      if b[0] == c[0] && Subsequence(b[1..], c[1..]) {
        if a[0] == b[0] && Subsequence(a[1..], b[1..]) {
          SubsequenceTransitive(a[1..], b[1..], c[1..]);
        } else {
          SubsequenceTransitive(a, b[1..], c[1..]);
        }
      } else {
        SubsequenceTransitive(a, b, c[1..]);
      }
    }
  }

  /** A subsequence holds no element more often than the sequence it comes from. */
  lemma {:induction false} SubsequenceMultiset<T>(r: seq<T>, s: seq<T>)
    requires Subsequence(r, s)
    ensures multiset(r) <= multiset(s)
  {
    if r != [] {
      assert s == [s[0]] + s[1..];
      if r[0] == s[0] && Subsequence(r[1..], s[1..]) {
        SubsequenceMultiset(r[1..], s[1..]);
        assert r == [r[0]] + r[1..];
      } else {
        SubsequenceMultiset(r, s[1..]);
      }
    }
  }

  /** `Array.prototype.filter`: the elements of `s` that satisfy `p`, in
      their order in `s`, each as often as in `s`. */
  function Filter<T>(s: seq<T>, p: T -> bool): (r: seq<T>)
    ensures Subsequence(r, s)
  {
    if s == [] then []
    else
      var rest := Filter(s[1..], p);
      if p(s[0]) then
        assert ([s[0]] + rest)[1..] == rest;
        [s[0]] + rest
      else
        rest
  }

  /** Equal multisets stay equal once a common first element is dropped. */
  lemma MultisetSameHead<T>(r: seq<T>, t: seq<T>)
    requires r != [] && t != [] && r[0] == t[0]
    requires multiset(r) == multiset(t)
    ensures multiset(r[1..]) == multiset(t[1..])
  {
    assert r == [r[0]] + r[1..] && t == [t[0]] + t[1..];
    assert multiset(r) == multiset{r[0]} + multiset(r[1..]);
    assert multiset(t) == multiset{r[0]} + multiset(t[1..]);
    forall x ensures multiset(r[1..])[x] == multiset(t[1..])[x] {
      assert multiset(r)[x] == multiset{r[0]}[x] + multiset(r[1..])[x];
      assert multiset(t)[x] == multiset{r[0]}[x] + multiset(t[1..])[x];
    }
  }

  /** One step of `Filter`: the first element is kept exactly when it satisfies `p`. */
  lemma FilterCons<T>(s: seq<T>, p: T -> bool)
    requires s != []
    ensures Filter(s, p) == if p(s[0]) then [s[0]] + Filter(s[1..], p) else Filter(s[1..], p)
  {
  }

  /** Two sequences with the same first element and the same filtrate
      have the same filtrate after that element. */
  lemma FilterSameHead<T>(r: seq<T>, t: seq<T>, p: T -> bool)
    requires r != [] && t != [] && r[0] == t[0]
    requires Filter(r, p) == Filter(t, p)
    ensures Filter(r[1..], p) == Filter(t[1..], p)
  {
    FilterCons(r, p);
    FilterCons(t, p);
    if p(r[0]) {
      assert Filter(r[1..], p) == Filter(r, p)[1..];
      assert Filter(t[1..], p) == Filter(t, p)[1..];
    }
  }

  /** `Filter` keeps each element satisfying `p` as often as it occurs in
      `s`, and drops every other element. */
  lemma {:induction false} FilterMultiset<T(!new)>(s: seq<T>, p: T -> bool)
    ensures forall x :: multiset(Filter(s, p))[x] == if p(x) then multiset(s)[x] else 0
  {
    if s != [] {
      FilterMultiset(s[1..], p);
      assert s == [s[0]] + s[1..];
    }
  }

  /** Filtering distributes over concatenation. */
  lemma {:induction false} FilterAppend<T>(a: seq<T>, b: seq<T>, p: T -> bool)
    ensures Filter(a + b, p) == Filter(a, p) + Filter(b, p)
  {
    if a != [] {
      var ab := a + b;
      assert ab[0] == a[0] && ab[1..] == a[1..] + b;
      FilterAppend(a[1..], b, p);
      if p(a[0]) {
        assert Filter(ab, p) == [a[0]] + Filter(a[1..] + b, p);
        assert Filter(a, p) == [a[0]] + Filter(a[1..], p);
      } else {
        assert Filter(ab, p) == Filter(a[1..] + b, p);
        assert Filter(a, p) == Filter(a[1..], p);
      }
    } else {
      assert a + b == b;
    }
  }

  /** The contract of `Filter` determines its result: the only subsequence
      of `s` that holds every element satisfying `p` and nothing else. */
  lemma {:induction false} FilterUnique<T(!new)>(s: seq<T>, p: T -> bool, r: seq<T>)
    requires Subsequence(r, s)
    requires forall x :: multiset(r)[x] == if p(x) then multiset(s)[x] else 0
    ensures r == Filter(s, p)
  {
    FilterMultiset(s, p);
    if s == [] {
      assert r == [];
    } else {
      var a, s' := s[0], s[1..];
      assert s == [a] + s';
      if p(a) {
        if r == [] || !(r[0] == a && Subsequence(r[1..], s')) {
          assert r != [] ==> Subsequence(r, s');
          SubsequenceMultiset(r, s');
          assert false;
        }
        assert r == [a] + r[1..];
        FilterUnique(s', p, r[1..]);
      } else {
        if r != [] {
          assert multiset(r)[r[0]] > 0;
          assert r[0] != a;
        }
        FilterUnique(s', p, r);
      }
    }
  }

  /** Two filters commute. */
  lemma {:induction false} FilterCommutes<T>(s: seq<T>, p: T -> bool, q: T -> bool)
    ensures Filter(Filter(s, p), q) == Filter(Filter(s, q), p)
  {
    if s != [] {
      FilterCommutes(s[1..], p, q);
      var a := s[0];
      var fp, fq := Filter(s[1..], p), Filter(s[1..], q);
      if p(a) {
        assert Filter(s, p) == [a] + fp;
        assert ([a] + fp)[1..] == fp;
      }
      if q(a) {
        assert Filter(s, q) == [a] + fq;
        assert ([a] + fq)[1..] == fq;
      }
    }
  }

  /** The category filter's test: the derived category is the selection. */
  function InCategory(selected: string): Entry -> bool {
    e => CategoryOf(e) == selected
  }

  /** The category filter: an empty selection keeps every entry; otherwise
      exactly the entries whose derived category is the selection, in order. */
  function ByCategory(entries: seq<Entry>, selected: string): (r: seq<Entry>)
    ensures selected == [] ==> r == entries
    ensures Subsequence(r, entries)
    ensures forall e :: multiset(r)[e] ==
                        if selected == [] || CategoryOf(e) == selected then multiset(entries)[e] else 0
  {
    if selected == [] then
      SubsequenceReflexive(entries);
      entries
    else
      FilterMultiset(entries, InCategory(selected));
      Filter(entries, InCategory(selected))
  }

  /** The search term as the source prepares it: trimmed, then lower-cased. */
  function SearchTerm(raw: string): (t: string)
    ensures t == [] <==> AllWhiteSpace(raw)
    ensures |t| == |Trim(raw)|
    ensures forall i :: 0 <= i < |t| ==> t[i] == LowerChar(Trim(raw)[i])
  {
    TrimEmptyIff(raw);
    ToLowerCase(Trim(raw))
  }

  /** An entry matches a (prepared) term when the term is part of its
      lower-cased name, description or schedule. */
  predicate MatchesSearch(e: Entry, term: string) {
    || Includes(ToLowerCase(e.0), term)
    || Includes(ToLowerCase(e.1.description), term)
    || Includes(ToLowerCase(e.1.schedule), term)
  }

  /** The search filter's test. */
  function MatchesTerm(term: string): Entry -> bool {
    e => MatchesSearch(e, term)
  }

  /** The search filter: a blank search keeps every entry; otherwise exactly
      the entries that match the prepared term, in order. */
  function Search(entries: seq<Entry>, raw: string): (r: seq<Entry>)
    ensures AllWhiteSpace(raw) ==> r == entries
    ensures Subsequence(r, entries)
    ensures forall e :: multiset(r)[e] ==
                        if AllWhiteSpace(raw) || MatchesSearch(e, SearchTerm(raw)) then multiset(entries)[e] else 0
  {
    var term := SearchTerm(raw);
    if term == [] then
      SubsequenceReflexive(entries);
      entries
    else
      FilterMultiset(entries, MatchesTerm(term));
      Filter(entries, MatchesTerm(term))
  }

  /** Applying the category filter and the search in either order gives the
      same list. */
  lemma FiltersCommute(entries: seq<Entry>, selected: string, raw: string)
    ensures ByCategory(Search(entries, raw), selected) == Search(ByCategory(entries, selected), raw)
  {
    if selected != [] && SearchTerm(raw) != [] {
      var term := SearchTerm(raw);
      FilterCommutes(entries, InCategory(selected), MatchesTerm(term));
    }
  }

  /** A search term is found in an entry exactly when it occurs at some
      position of its lower-cased name, description or schedule. */
  lemma MatchesSearchIff(e: Entry, term: string)
    ensures MatchesSearch(e, term) <==>
      || (exists i :: 0 <= i <= |e.0| && OccursAt(ToLowerCase(e.0), term, i))
      || (exists i :: 0 <= i <= |e.1.description| && OccursAt(ToLowerCase(e.1.description), term, i))
      || (exists i :: 0 <= i <= |e.1.schedule| && OccursAt(ToLowerCase(e.1.schedule), term, i))
  {
    IncludesIff(ToLowerCase(e.0), term);
    IncludesIff(ToLowerCase(e.1.description), term);
    IncludesIff(ToLowerCase(e.1.schedule), term);
  }
}
