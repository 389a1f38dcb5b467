/**
 * The sort step of `renderActivities`: `Array.prototype.sort` (stable)
 * with the comparator that orders by name, by schedule, or not at all.
 * `localeCompare` is modelled as lexicographic order on code points.
 */
module Sorting {
  import opened Activities
  import opened Pipeline

  /** Three-way lexicographic comparison of code points: negative, zero or
      positive as `a` comes before, equals or comes after `b`. */
  function StrCompare(a: string, b: string): (c: int)
    ensures -1 <= c <= 1
    ensures c == 0 <==> a == b
  {
    if a == [] then (if b == [] then 0 else -1)
    else if b == [] then 1
    else if a[0] < b[0] then -1
    else if a[0] > b[0] then 1
    else
      assert a == [a[0]] + a[1..] && b == [b[0]] + b[1..];
      StrCompare(a[1..], b[1..])
  }

  /** Swapping the arguments negates the comparison. */
  lemma {:induction false} StrCompareFlip(a: string, b: string)
    ensures StrCompare(a, b) == -StrCompare(b, a)
  {
    if a != [] && b != [] && a[0] == b[0] {
      StrCompareFlip(a[1..], b[1..]);
    }
  }

  /** "Not after" is transitive. */
  lemma {:induction false} StrCompareTransitive(a: string, b: string, c: string)
    requires StrCompare(a, b) <= 0 && StrCompare(b, c) <= 0
    ensures StrCompare(a, c) <= 0
  {
    if a != [] && b != [] && c != [] && a[0] == b[0] == c[0] {
      StrCompareTransitive(a[1..], b[1..], c[1..]);
    }
  }

  /** The source's comparator: by name, by schedule, or 0 for any other
      sort value. */
  function Compare(sortBy: string, a: Entry, b: Entry): int {
    if sortBy == "name" then StrCompare(a.0, b.0)
    else if sortBy == "schedule" then StrCompare(a.1.schedule, b.1.schedule)
    else 0
  }

  /** The comparator is antisymmetric. */
  lemma CompareFlip(sortBy: string, a: Entry, b: Entry)
    ensures Compare(sortBy, a, b) == -Compare(sortBy, b, a)
  {
    StrCompareFlip(a.0, b.0);
    StrCompareFlip(a.1.schedule, b.1.schedule);
  }

  /** The comparator's "not after" is transitive. */
  lemma CompareTransitive(sortBy: string, a: Entry, b: Entry, c: Entry)
    requires Compare(sortBy, a, b) <= 0 && Compare(sortBy, b, c) <= 0
    ensures Compare(sortBy, a, c) <= 0
  {
    if sortBy == "name" {
      StrCompareTransitive(a.0, b.0, c.0);
    } else if sortBy == "schedule" {
      StrCompareTransitive(a.1.schedule, b.1.schedule, c.1.schedule);
    }
  }

  /** Entries the comparator ties are interchangeable in every comparison. */
  lemma CompareTie(sortBy: string, x: Entry, e: Entry, y: Entry)
    requires Compare(sortBy, x, e) == 0
    ensures Compare(sortBy, y, x) == Compare(sortBy, y, e)
  {
  }

  /** `s` is in the comparator's order. */
  ghost predicate Sorted(sortBy: string, s: seq<Entry>) {
    forall i, j :: 0 <= i < j < |s| ==> Compare(sortBy, s[i], s[j]) <= 0
  }

  /** One step of a stable insertion sort: `x` goes after every element of
      `s` that does not compare greater than it. */
  function Insert(sortBy: string, s: seq<Entry>, x: Entry): seq<Entry> {
    if s == [] then [x]
    else if Compare(sortBy, s[|s| - 1], x) <= 0 then s + [x]
    else Insert(sortBy, s[..|s| - 1], x) + [s[|s| - 1]]
  }

  /** Inserting adds `x` and nothing else. */
  lemma {:induction false} InsertPermutes(sortBy: string, s: seq<Entry>, x: Entry)
    ensures multiset(Insert(sortBy, s, x)) == multiset(s) + multiset{x}
  {
    if s != [] && Compare(sortBy, s[|s| - 1], x) > 0 {
      InsertPermutes(sortBy, s[..|s| - 1], x);
      assert s == s[..|s| - 1] + [s[|s| - 1]];
    }
  }

  lemma {:induction false} InsertSorted(sortBy: string, s: seq<Entry>, x: Entry)
    requires Sorted(sortBy, s)
    ensures Sorted(sortBy, Insert(sortBy, s, x))
  {
    if s != [] {
      var last := s[|s| - 1];
      if Compare(sortBy, last, x) <= 0 {
        forall i | 0 <= i < |s| ensures Compare(sortBy, s[i], x) <= 0 {
          if i < |s| - 1 {
            CompareTransitive(sortBy, s[i], last, x);
          }
        }
      } else {
        var front := s[..|s| - 1];
        InsertSorted(sortBy, front, x);
        var t := Insert(sortBy, front, x);
        InsertPermutes(sortBy, front, x);
        CompareFlip(sortBy, last, x);
        forall i | 0 <= i < |t| ensures Compare(sortBy, t[i], last) <= 0 {
          assert t[i] in multiset(t);
          if t[i] != x {
            assert t[i] in multiset(front);
            var k :| 0 <= k < |front| && front[k] == t[i];
          }
        }
      }
    }
  }

  /** The sort: a stable insertion sort by the comparator. */
  function SortBy(sortBy: string, s: seq<Entry>): seq<Entry> {
    if s == [] then [] else Insert(sortBy, SortBy(sortBy, s[..|s| - 1]), s[|s| - 1])
  }

  /** Sorting adds and drops nothing. */
  lemma {:induction false} SortByPermutes(sortBy: string, s: seq<Entry>)
    ensures multiset(SortBy(sortBy, s)) == multiset(s)
  {
    if s != [] {
      var front := s[..|s| - 1];
      assert s == front + [s[|s| - 1]];
      SortByPermutes(sortBy, front);
      InsertPermutes(sortBy, SortBy(sortBy, front), s[|s| - 1]);
    }
  }

  /** The sort's result is in the comparator's order. */
  lemma {:induction false} SortBySorted(sortBy: string, s: seq<Entry>)
    ensures Sorted(sortBy, SortBy(sortBy, s))
  {
    if s != [] {
      var front := s[..|s| - 1];
      SortBySorted(sortBy, front);
      InsertSorted(sortBy, SortBy(sortBy, front), s[|s| - 1]);
    }
  }

  /** Sorting by "name" leaves the names in non-decreasing order. */
  lemma SortByNameOrdersNames(s: seq<Entry>)
    ensures forall i, j :: 0 <= i < j < |SortBy("name", s)| ==>
      StrCompare(SortBy("name", s)[i].0, SortBy("name", s)[j].0) <= 0
  {
    var r := SortBy("name", s);
    SortBySorted("name", s);
    assert forall i, j :: 0 <= i < j < |r| ==> Compare("name", r[i], r[j]) <= 0;
  }

  /** Sorting by "schedule" leaves the schedules in non-decreasing order. */
  lemma SortByScheduleOrdersSchedules(s: seq<Entry>)
    ensures forall i, j :: 0 <= i < j < |SortBy("schedule", s)| ==>
      StrCompare(SortBy("schedule", s)[i].1.schedule, SortBy("schedule", s)[j].1.schedule) <= 0
  {
    var r := SortBy("schedule", s);
    SortBySorted("schedule", s);
    assert forall i, j :: 0 <= i < j < |r| ==> Compare("schedule", r[i], r[j]) <= 0;
  }

  /** With any other sort value every comparison is 0, and a stable sort
      returns its input unchanged. */
  lemma {:induction false} SortUnchangedOtherwise(sortBy: string, s: seq<Entry>)
    requires sortBy != "name" && sortBy != "schedule"
    ensures SortBy(sortBy, s) == s
  {
    if s != [] {
      var front, last := s[..|s| - 1], s[|s| - 1];
      SortUnchangedOtherwise(sortBy, front);
      assert SortBy(sortBy, s) == Insert(sortBy, front, last);
      assert s == front + [last];
    }
  }

  /** The entries the comparator ties with `e`. */
  function TiedWith(sortBy: string, e: Entry): Entry -> bool {
    x => Compare(sortBy, x, e) == 0
  }

  lemma {:induction false} FilterInsert(sortBy: string, s: seq<Entry>, x: Entry, e: Entry)
    ensures Filter(Insert(sortBy, s, x), TiedWith(sortBy, e))
         == Filter(s, TiedWith(sortBy, e)) + Filter([x], TiedWith(sortBy, e))
  {
    var p := TiedWith(sortBy, e);
    if s != [] {
      var front, last := s[..|s| - 1], s[|s| - 1];
      assert s == front + [last];
      if Compare(sortBy, last, x) <= 0 {
        FilterAppend(s, [x], p);
      } else {
        FilterInsert(sortBy, front, x, e);
        FilterAppend(Insert(sortBy, front, x), [last], p);
        FilterAppend(front, [last], p);
        if p(x) {
          CompareTie(sortBy, x, e, last);
          assert !p(last);
        }
      }
    }
  }

  /** Stability: the entries tied with any `e` keep their relative order. */
  lemma {:induction false} SortStable(sortBy: string, s: seq<Entry>, e: Entry)
    ensures Filter(SortBy(sortBy, s), TiedWith(sortBy, e)) == Filter(s, TiedWith(sortBy, e))
  {
    if s != [] {
      var front, last := s[..|s| - 1], s[|s| - 1];
      assert s == front + [last];
      SortStable(sortBy, front, e);
      FilterInsert(sortBy, SortBy(sortBy, front), last, e);
      FilterAppend(front, [last], TiedWith(sortBy, e));
    }
  }

  /** The first elements of two orderings of the same entries tie. */
  lemma HeadsTie(sortBy: string, r: seq<Entry>, t: seq<Entry>)
    requires Sorted(sortBy, r) && Sorted(sortBy, t)
    requires multiset(r) == multiset(t) && r != [] && t != []
    ensures Compare(sortBy, r[0], t[0]) == 0
  {
    assert t[0] in multiset(r) && r[0] in multiset(t);
    var k :| 0 <= k < |r| && r[k] == t[0];
    var m :| 0 <= m < |t| && t[m] == r[0];
    CompareFlip(sortBy, r[0], t[0]);
  }

  /** Dropping the first element keeps the comparator's order. */
  lemma SortedTail(sortBy: string, r: seq<Entry>)
    requires Sorted(sortBy, r) && r != []
    ensures Sorted(sortBy, r[1..])
  {
    forall i, j | 0 <= i < j < |r| - 1 ensures Compare(sortBy, r[1..][i], r[1..][j]) <= 0 {
      assert r[1..][i] == r[i + 1] && r[1..][j] == r[j + 1];
    }
  }

  /** Two orderings of the same entries that keep the first entry's tie
      class in the same order start with the same entry. */
  lemma HeadsEqual(sortBy: string, r: seq<Entry>, t: seq<Entry>)
    requires Sorted(sortBy, r) && Sorted(sortBy, t)
    requires multiset(r) == multiset(t) && r != [] && t != []
    requires Filter(r, TiedWith(sortBy, r[0])) == Filter(t, TiedWith(sortBy, r[0]))
    ensures r[0] == t[0]
  {
    HeadsTie(sortBy, r, t);
    CompareFlip(sortBy, r[0], t[0]);
    var p := TiedWith(sortBy, r[0]);
    FilterCons(r, p);
    FilterCons(t, p);
    assert Filter(r, p)[0] == r[0] && Filter(t, p)[0] == t[0];
  }

  /** Equal tie-class orders stay equal once a common first entry is dropped. */
  lemma TieOrderSameHead(sortBy: string, r: seq<Entry>, t: seq<Entry>)
    requires r != [] && t != [] && r[0] == t[0]
    requires forall e :: Filter(r, TiedWith(sortBy, e)) == Filter(t, TiedWith(sortBy, e))
    ensures forall e :: Filter(r[1..], TiedWith(sortBy, e)) == Filter(t[1..], TiedWith(sortBy, e))
  {
    forall e ensures Filter(r[1..], TiedWith(sortBy, e)) == Filter(t[1..], TiedWith(sortBy, e)) {
      FilterSameHead(r, t, TiedWith(sortBy, e));
    }
  }

  /** Two sequences in the comparator's order, with the same elements and
      the same relative order within every tie class, are equal. */
  lemma {:induction false} SortedStableUnique(sortBy: string, r: seq<Entry>, t: seq<Entry>)
    requires Sorted(sortBy, r) && Sorted(sortBy, t)
    requires multiset(r) == multiset(t)
    requires forall e :: Filter(r, TiedWith(sortBy, e)) == Filter(t, TiedWith(sortBy, e))
    ensures r == t
  {
    if r == [] {
      assert |t| == |multiset(t)| == 0;
    } else {
      assert |t| == |multiset(t)| == |r|;
      HeadsEqual(sortBy, r, t);
      MultisetSameHead(r, t);
      TieOrderSameHead(sortBy, r, t);
      SortedTail(sortBy, r);
      SortedTail(sortBy, t);
      SortedStableUnique(sortBy, r[1..], t[1..]);
    }
  }

  /** The sort is the only stable one: any rearrangement of `s` that is in
      the comparator's order and keeps every tie class in its order in `s`
      is exactly `SortBy(sortBy, s)`. */
  lemma SortByIsStableSort(sortBy: string, s: seq<Entry>, t: seq<Entry>)
    requires multiset(t) == multiset(s) && Sorted(sortBy, t)
    requires forall e :: Filter(t, TiedWith(sortBy, e)) == Filter(s, TiedWith(sortBy, e))
    ensures t == SortBy(sortBy, s)
  {
    var r := SortBy(sortBy, s);
    SortByPermutes(sortBy, s);
    SortBySorted(sortBy, s);
    forall e ensures Filter(r, TiedWith(sortBy, e)) == Filter(t, TiedWith(sortBy, e)) {
      SortStable(sortBy, s, e);
    }
    SortedStableUnique(sortBy, r, t);
  }

  /** Where the insertion loop stops, `Insert` puts `x`. */
  lemma {:induction false} InsertAt(sortBy: string, s: seq<Entry>, x: Entry, j: nat)
    requires j <= |s|
    requires forall k :: j <= k < |s| ==> Compare(sortBy, s[k], x) > 0
    requires j == 0 || Compare(sortBy, s[j - 1], x) <= 0
    ensures Insert(sortBy, s, x) == s[..j] + [x] + s[j..]
  {
    if j == |s| {
      assert s[..j] == s && s[j..] == [];
    } else {
      var front, last := s[..|s| - 1], s[|s| - 1];
      assert Compare(sortBy, last, x) > 0;
      assert Insert(sortBy, s, x) == Insert(sortBy, front, x) + [last];
      assert forall k :: j <= k < |front| ==> front[k] == s[k];
      assert j > 0 ==> front[j - 1] == s[j - 1];
      InsertAt(sortBy, front, x, j);
      assert front[..j] == s[..j];
      assert s[j..] == front[j..] + [last];
    }
  }

  /** One pass of the insertion sort: shifts the elements of `a[..i]` that
      compare greater than `a[i]` one place right and drops `a[i]` into the gap. */
  method InsertInPlace(sortBy: string, a: array<Entry>, i: nat)
    requires i < a.Length
    modifies a
    ensures a[..i + 1] == Insert(sortBy, old(a[..i]), old(a[i]))
    ensures a[i + 1..] == old(a[i + 1..])
  {
    ghost var sorted := a[..i];
    var x := a[i];
    var j := i;
    while j > 0 && Compare(sortBy, a[j - 1], x) > 0
      invariant 0 <= j <= i
      invariant forall k :: 0 <= k < j ==> a[k] == sorted[k]
      invariant forall k :: j < k <= i ==> a[k] == sorted[k - 1]
      invariant forall k :: i < k < a.Length ==> a[k] == old(a[k])
      invariant forall k :: j <= k < i ==> Compare(sortBy, sorted[k], x) > 0
    {
      a[j] := a[j - 1];
      j := j - 1;
    }
    assert j > 0 ==> a[j - 1] == sorted[j - 1];
    a[j] := x;
    ShiftedIsInsert(sortBy, sorted, x, j, a[..i + 1]);
  }

  /** The array after the shifting loop holds `Insert`'s result. */
  lemma ShiftedIsInsert(sortBy: string, sorted: seq<Entry>, x: Entry, j: nat, r: seq<Entry>)
    requires j <= |sorted| && |r| == |sorted| + 1
    requires forall k :: j <= k < |sorted| ==> Compare(sortBy, sorted[k], x) > 0
    requires j == 0 || Compare(sortBy, sorted[j - 1], x) <= 0
    requires forall k :: 0 <= k < j ==> r[k] == sorted[k]
    requires r[j] == x
    requires forall k :: j < k < |r| ==> r[k] == sorted[k - 1]
    ensures r == Insert(sortBy, sorted, x)
  {
    InsertAt(sortBy, sorted, x, j);
    ghost var inserted := sorted[..j] + [x] + sorted[j..];
    forall k | 0 <= k < |r| ensures r[k] == inserted[k] {
      if k < j {
        assert inserted[k] == sorted[k];
      } else if k > j {
        assert inserted[k] == sorted[k - 1];
      }
    }
  }

  /** `activities.sort(...)` in place, as an insertion sort on the array. */
  method SortInPlace(sortBy: string, a: array<Entry>)
    modifies a
    ensures a[..] == SortBy(sortBy, old(a[..]))
  {
    ghost var orig := a[..];
    for i := 0 to a.Length
      invariant a[..i] == SortBy(sortBy, orig[..i])
      invariant a[i..] == orig[i..]
    {
      assert orig[..i + 1] == orig[..i] + [orig[i]];
      InsertInPlace(sortBy, a, i);
    }
    assert orig[..a.Length] == orig;
  }
}
