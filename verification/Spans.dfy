/** Sorting spans by where they begin and comparing neighbours, for any kind of record with a begin and an end. */
module Spans {
  import opened Sorting

  type Bound<!T> = T -> int

  predicate NonEmptySpans<T>(s: seq<T>, begin: Bound<T>, end: Bound<T>) {
    forall i :: 0 <= i < |s| ==> begin(s[i]) < end(s[i])
  }

  predicate ApartSpans<T>(s: seq<T>, begin: Bound<T>, end: Bound<T>) {
    forall i, j :: 0 <= i < j < |s| ==> end(s[i]) <= begin(s[j]) || end(s[j]) <= begin(s[i])
  }

  predicate NeighbourSpans<T>(s: seq<T>, begin: Bound<T>, end: Bound<T>) {
    forall i :: 1 <= i < |s| ==> end(s[i - 1]) <= begin(s[i])
  }

  lemma {:induction false} NeighboursSuffice<T>(s: seq<T>, begin: Bound<T>, end: Bound<T>, i: nat, j: nat)
    requires NeighbourSpans(s, begin, end) && NonEmptySpans(s, begin, end) && i < j < |s|
    ensures end(s[i]) <= begin(s[j])
    decreases j - i
  {
    if i + 1 < j {
      NeighboursSuffice(s, begin, end, i, j - 1);
      assert begin(s[j - 1]) < end(s[j - 1]);
    }
  }

  /** Being pairwise apart does not depend on the order. */
  lemma {:induction false} ApartUnordered<T(!new)>(s: seq<T>, r: seq<T>, begin: Bound<T>, end: Bound<T>)
    requires multiset(s) == multiset(r) && NonEmptySpans(s, begin, end) && ApartSpans(s, begin, end)
    ensures ApartSpans(r, begin, end)
  {
    DistinctCounts(s);
    DistinctCounts(r);
    assert Distinct(s) by {
      forall i, j | 0 <= i < j < |s| ensures s[i] != s[j] {
        assert begin(s[i]) < end(s[i]);
      }
    }
    forall i, j | 0 <= i < j < |r| ensures end(r[i]) <= begin(r[j]) || end(r[j]) <= begin(r[i]) {
      assert r[i] in multiset(r) && r[j] in multiset(r);
      assert r[i] in s && r[j] in s && r[i] != r[j];
    }
  }

  /** The sort-and-compare-neighbours check is exactly pairwise disjointness. */
  lemma {:induction false} NeighbourCheck<T(!new)>(r: seq<T>, begin: Bound<T>, end: Bound<T>)
    requires NonEmptySpans(r, begin, end)
    ensures NeighbourSpans(SortBy(r, begin), begin, end) <==> ApartSpans(r, begin, end)
  {
    var s := SortBy(r, begin);
    assert NonEmptySpans(s, begin, end) by {
      forall i | 0 <= i < |s| ensures begin(s[i]) < end(s[i]) {
        assert s[i] in r;
      }
    }
    if NeighbourSpans(s, begin, end) {
      forall i, j | 0 <= i < j < |s| ensures end(s[i]) <= begin(s[j]) {
        NeighboursSuffice(s, begin, end, i, j);
      }
      ApartUnordered(s, r, begin, end);
    }
    if ApartSpans(r, begin, end) {
      ApartUnordered(r, s, begin, end);
      forall i | 1 <= i < |s| ensures end(s[i - 1]) <= begin(s[i]) {
        assert begin(s[i - 1]) <= begin(s[i]) && begin(s[i]) < end(s[i]);
      }
    }
  }
}
