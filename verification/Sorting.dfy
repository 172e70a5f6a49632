/** std::sort by an integer key: some ascending rearrangement. */
module Sorting {

  predicate Ascending<T>(s: seq<T>, key: T -> int) {
    forall i, j :: 0 <= i < j < |s| ==> key(s[i]) <= key(s[j])
  }

  function Insert<T(!new)>(x: T, s: seq<T>, key: T -> int): (r: seq<T>)
    ensures multiset(r) == multiset(s) + multiset{x}
  {
    if s == [] || key(x) <= key(s[0]) then
      [x] + s
    else
      assert s == [s[0]] + s[1..];
      [s[0]] + Insert(x, s[1..], key)
  }

  lemma {:induction false} AscendingCons<T>(x: T, s: seq<T>, key: T -> int)
    requires Ascending(s, key) && forall i :: 0 <= i < |s| ==> key(x) <= key(s[i])
    ensures Ascending([x] + s, key)
  {
  }

  lemma {:induction false} InsertAscends<T(!new)>(x: T, s: seq<T>, key: T -> int)
    requires Ascending(s, key)
    ensures Ascending(Insert(x, s, key), key)
    decreases |s|
  {
    if s != [] && key(x) > key(s[0]) {
      var more := Insert(x, s[1..], key);
      InsertAscends(x, s[1..], key);
      forall i | 0 <= i < |more| ensures key(s[0]) <= key(more[i]) {
        assert more[i] in multiset(more);
        assert more[i] == x || more[i] in s[1..];
      }
      AscendingCons(s[0], more, key);
    }
  }

  function SortBy<T(!new)>(s: seq<T>, key: T -> int): (r: seq<T>)
    ensures multiset(r) == multiset(s) && |r| == |s|
    ensures Ascending(r, key)
    ensures forall y :: y in r <==> y in s
  {
    if s == [] then [] else
      assert s == [s[0]] + s[1..];
      var r := Insert(s[0], SortBy(s[1..], key), key);
      InsertAscends(s[0], SortBy(s[1..], key), key);
      SameMembers(r, s);
      r
  }

  lemma {:induction false} SameMembers<T(!new)>(r: seq<T>, s: seq<T>)
    requires multiset(r) == multiset(s)
    ensures |r| == |s| && forall y :: y in r <==> y in s
  {
    assert |multiset(r)| == |multiset(s)|;
    assert forall y :: (y in r <==> y in multiset(r)) && (y in s <==> y in multiset(s));
  }

  /** Every element occurs at one position only. */
  predicate Distinct<T(==)>(s: seq<T>) { forall i, j :: 0 <= i < j < |s| ==> s[i] != s[j] }

  lemma {:induction false} DistinctCounts<T(!new)>(s: seq<T>)
    ensures Distinct(s) <==> forall x :: x in multiset(s) ==> multiset(s)[x] == 1
    decreases |s|
  {
    if s != [] {
      var init, last := s[..|s| - 1], s[|s| - 1];
      assert s == init + [last];
      DistinctCounts(init);
      assert multiset(s) == multiset(init) + multiset{last};
      if Distinct(s) {
        assert Distinct(init) && last !in init;
      } else if Distinct(init) {
        assert last in init;
        assert multiset(s)[last] >= 2;
      } else {
        var x :| x in multiset(init) && multiset(init)[x] != 1;
        assert multiset(s)[x] != 1;
      }
    }
  }

  lemma {:induction false} SortedDistinct<T(!new)>(s: seq<T>, key: T -> int)
    requires Distinct(s)
    ensures Distinct(SortBy(s, key))
  {
    DistinctCounts(s);
    DistinctCounts(SortBy(s, key));
  }
}
