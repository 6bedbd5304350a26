/** Insertion sort, for the orders the shell's sort and Python's sorted() are asked for. */
module Sorting {

  ghost predicate TotalPreorder<T(!new)>(atMost: (T, T) -> bool) {
    && (forall x, y :: atMost(x, y) || atMost(y, x))
    && (forall x, y, z :: atMost(x, y) && atMost(y, z) ==> atMost(x, z))
  }

  ghost predicate SortedBy<T>(s: seq<T>, atMost: (T, T) -> bool) {
    forall i, j :: 0 <= i < j < |s| ==> atMost(s[i], s[j])
  }

  function InsertBy<T>(x: T, s: seq<T>, atMost: (T, T) -> bool): seq<T> {
    if s == [] || atMost(x, s[0]) then [x] + s else [s[0]] + InsertBy(x, s[1..], atMost)
  }

  function SortBy<T>(s: seq<T>, atMost: (T, T) -> bool): seq<T> {
    if s == [] then [] else InsertBy(s[0], SortBy(s[1..], atMost), atMost)
  }

  lemma {:induction false} InsertKeepsSorted<T(!new)>(x: T, s: seq<T>, atMost: (T, T) -> bool)
    requires TotalPreorder(atMost) && SortedBy(s, atMost)
    ensures SortedBy(InsertBy(x, s, atMost), atMost)
    ensures forall y :: y in InsertBy(x, s, atMost) ==> y == x || y in s
  {
    if s == [] {
    } else if atMost(x, s[0]) {
      assert forall j :: 0 < j < |s| ==> atMost(s[0], s[j]);
    } else {
      InsertKeepsSorted(x, s[1..], atMost);
      var rest := InsertBy(x, s[1..], atMost);
      forall j | 0 <= j < |rest| ensures atMost(s[0], rest[j]) {
        assert rest[j] in rest;
        if rest[j] != x {
          var i :| 0 <= i < |s[1..]| && s[1..][i] == rest[j];
          assert atMost(s[0], s[i + 1]);
        }
      }
    }
  }

  lemma {:induction false} InsertIsPermutation<T>(x: T, s: seq<T>, atMost: (T, T) -> bool)
    ensures multiset(InsertBy(x, s, atMost)) == multiset{x} + multiset(s)
  {
    if !(s == [] || atMost(x, s[0])) {
      InsertIsPermutation(x, s[1..], atMost);
      assert s == [s[0]] + s[1..];
    }
  }

  /** Sorting orders and loses or adds nothing. */
  lemma {:induction false} SortSorts<T(!new)>(s: seq<T>, atMost: (T, T) -> bool)
    requires TotalPreorder(atMost)
    ensures SortedBy(SortBy(s, atMost), atMost) && multiset(SortBy(s, atMost)) == multiset(s)
  {
    if s != [] {
      SortSorts(s[1..], atMost);
      InsertKeepsSorted(s[0], SortBy(s[1..], atMost), atMost);
      InsertIsPermutation(s[0], SortBy(s[1..], atMost), atMost);
      assert s == [s[0]] + s[1..];
    }
  }
}
