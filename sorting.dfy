/**
 * `sorted()` over a set of integer ids: the elements in strictly ascending order, each once.
 */
module Sorting {

  /** Strictly ascending. */
  predicate Increasing(s: seq<int>) {
    forall i, j :: 0 <= i < j < |s| ==> s[i] < s[j]
  }

  lemma EmptyByMembers(s: set<int>)
    ensures (forall y :: y !in s) ==> s == {}
  {
    if forall y :: y !in s {
      assert forall y :: y in s <==> y in {};
    }
  }

  /** `m` is the least element of `s`. */
  predicate IsMin(m: int, s: set<int>) {
    m in s && forall y :: y in s ==> m <= y
  }

  /** A non-empty set of integers has a least element. */
  lemma {:induction false} MinExists(s: set<int>)
    requires s != {}
    ensures exists m :: IsMin(m, s)
  {
    EmptyByMembers(s);
    var x :| x in s;
    var rest := s - {x};
    if rest == {} {
      forall y | y in s
        ensures x <= y
      {
        assert y !in rest;
      }
      assert IsMin(x, s);
    } else {
      MinExists(rest);
      var m :| IsMin(m, rest);
      var least := if x < m then x else m;
      forall y | y in s
        ensures least <= y
      {
        if y != x {
          assert y in rest;
        }
      }
      assert IsMin(least, s);
    }
  }

  /** `sorted(s)`: the elements of `s`, each once, in strictly ascending order. */
  function SortedIds(s: set<int>): (r: seq<int>)
    ensures |r| == |s| && Increasing(r)
    ensures forall x :: x in r <==> x in s
    decreases |s|
  {
    if s == {} then []
    else
      MinExists(s);
      var m :| IsMin(m, s);
      var rest := SortedIds(s - {m});
      assert forall i :: 0 <= i < |rest| ==> rest[i] in s - {m};
      [m] + rest
  }

  /** The sorted sequence starts with the least element and continues with the sorted rest. */
  lemma SortedIdsMin(s: set<int>, m: int)
    requires IsMin(m, s)
    ensures SortedIds(s) == [m] + SortedIds(s - {m})
  {
    var r := SortedIds(s);
    assert r[0] in s;
    assert forall i :: 0 < i < |r| ==> r[0] < r[i];
    assert r[0] == m by {
      assert m in r;
    }
  }
}
