/** Sequence helpers the read queries are built from: a WHERE filter, the
    distinct values of a column in order of first appearance, and a
    LIMIT-ed page of a filtered, ordered scan. */
module Sequences {

  /** The elements of `s` that satisfy `keep`, in their original order. */
  function Filter<T(!new)>(s: seq<T>, keep: T -> bool): (r: seq<T>)
    ensures forall x :: x in r <==> x in s && keep(x)
    ensures |r| <= |s|
  {
    if s == [] then []
    else (if keep(s[0]) then [s[0]] else []) + Filter(s[1..], keep)
  }

  /** Filtering keeps a strictly ordered sequence strictly ordered. */
  lemma {:induction false} FilterKeepsOrder<T(!new)>(s: seq<T>, keep: T -> bool, less: (T, T) -> bool)
    ensures (forall i, j :: 0 <= i < j < |s| ==> less(s[i], s[j])) ==>
      forall i, j :: 0 <= i < j < |Filter(s, keep)| ==> less(Filter(s, keep)[i], Filter(s, keep)[j])
  {
    if s != [] && forall i, j :: 0 <= i < j < |s| ==> less(s[i], s[j]) {
      var tail := s[1..];
      assert forall i, j :: 0 <= i < j < |tail| ==> less(tail[i], tail[j]) by {
        forall i, j | 0 <= i < j < |tail| ensures less(tail[i], tail[j]) {
          assert tail[i] == s[i + 1] && tail[j] == s[j + 1];
        }
      }
      FilterKeepsOrder(tail, keep, less);
      var rest := Filter(tail, keep);
      var r := Filter(s, keep);
      if !keep(s[0]) {
        assert r == rest;
        forall i, j | 0 <= i < j < |r| ensures less(r[i], r[j]) {
          assert r[i] == rest[i] && r[j] == rest[j];
        }
      } else {
        assert r == [s[0]] + rest;
        forall i, j | 0 <= i < j < |r| ensures less(r[i], r[j]) {
          if i == 0 {
            assert r[j] == rest[j - 1];
            assert r[j] in tail;
            var k :| 0 <= k < |tail| && tail[k] == r[j];
            assert s[k + 1] == r[j];
          } else {
            assert r[i] == rest[i - 1] && r[j] == rest[j - 1];
          }
        }
      }
    }
  }

  /** The distinct elements of `s`, each where it first occurs (a GROUP BY
      key column). */
  function Distinct<T(==,!new)>(s: seq<T>): (r: seq<T>)
    ensures forall x :: x in r <==> x in s
    ensures forall i, j :: 0 <= i < j < |r| ==> r[i] != r[j]
  {
    if s == [] then []
    else
      var rest := Distinct(s[..|s| - 1]);
      assert s == s[..|s| - 1] + [s[|s| - 1]];
      if s[|s| - 1] in rest then rest else rest + [s[|s| - 1]]
  }

  /** `ORDER BY ... LIMIT first` applied after a WHERE: the first `first`
      elements of `s` that satisfy `keep`. */
  function Page<T(!new)>(s: seq<T>, keep: T -> bool, first: nat): (r: seq<T>)
    ensures |r| <= first
    ensures forall x :: x in r ==> x in s && keep(x)
  {
    var kept := Filter(s, keep);
    if |kept| <= first then kept else kept[..first]
  }

  /** Over a strictly ordered scan a page is ordered, and it is the least
      qualifying elements: any qualifying element left out comes after every
      element of a full page. */
  lemma PageIsLeastPrefix<T(!new)>(s: seq<T>, keep: T -> bool, first: nat, less: (T, T) -> bool)
    requires forall i, j :: 0 <= i < j < |s| ==> less(s[i], s[j])
    ensures var r := Page(s, keep, first);
      && (forall i, j :: 0 <= i < j < |r| ==> less(r[i], r[j]))
      && (forall x :: x in s && keep(x) && x !in r ==> |r| == first && forall y :: y in r ==> less(y, x))
  {
    var kept := Filter(s, keep);
    FilterKeepsOrder(s, keep, less);
    var r := Page(s, keep, first);
    assert r == kept[..|r|];
    assert forall i :: 0 <= i < |r| ==> r[i] == kept[i];
    forall x | x in s && keep(x) && x !in r ensures |r| == first && forall y :: y in r ==> less(y, x) {
      var j :| 0 <= j < |kept| && kept[j] == x;
      assert j >= |r|;
      forall y | y in r ensures less(y, x) {
        var i :| 0 <= i < |r| && r[i] == y;
        assert kept[i] == y && i < j;
      }
    }
  }
}
