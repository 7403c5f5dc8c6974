/** Lexicographic order on strings, used wherever the catalog compares
    identifiers: `min(BRAND_ID)`, `ORDER BY BRAND.ID` and `BRAND.ID > after`.
    Dafny's own `<` on sequences means "proper prefix", so the order is
    defined here character by character (by code point). */
module StringOrder {

  /** `a` sorts strictly before `b`. */
  predicate LexLess(a: string, b: string)
  {
    |b| > 0 && (|a| == 0 || a[0] < b[0] || (a[0] == b[0] && LexLess(a[1..], b[1..])))
  }

  predicate LexLe(a: string, b: string)
  {
    a == b || LexLess(a, b)
  }

  lemma {:induction false} LexLessIrreflexive(a: string)
    ensures !LexLess(a, a)
  {
    if |a| > 0 {
      LexLessIrreflexive(a[1..]);
    }
  }

  lemma {:induction false} LexLessTransitive(a: string, b: string, c: string)
    requires LexLess(a, b) && LexLess(b, c)
    ensures LexLess(a, c)
  {
    if |a| > 0 && a[0] == b[0] && b[0] == c[0] {
      LexLessTransitive(a[1..], b[1..], c[1..]);
    }
  }

  /** Any two different strings are ordered one way or the other. */
  lemma {:induction false} LexLessTotal(a: string, b: string)
    requires a != b
    ensures LexLess(a, b) || LexLess(b, a)
  {
    if |a| > 0 && |b| > 0 && a[0] == b[0] {
      assert a == [a[0]] + a[1..] && b == [b[0]] + b[1..];
      LexLessTotal(a[1..], b[1..]);
    }
  }

  lemma LexLessAsymmetric(a: string, b: string)
    requires LexLess(a, b)
    ensures !LexLess(b, a)
  {
    if LexLess(b, a) {
      LexLessTransitive(a, b, a);
      LexLessIrreflexive(a);
    }
  }

  /** `LexLe` is a total order: the facts the minimum and the sort below need. */
  lemma LexLeTotalOrder(a: string, b: string, c: string)
    ensures LexLe(a, b) || LexLe(b, a)
    ensures LexLe(a, b) && LexLe(b, a) ==> a == b
    ensures LexLe(a, b) && LexLe(b, c) ==> LexLe(a, c)
  {
    if a != b {
      LexLessTotal(a, b);
      if LexLess(a, b) {
        LexLessAsymmetric(a, b);
      }
    }
    if LexLess(a, b) && LexLess(b, c) {
      LexLessTransitive(a, b, c);
    }
  }

  /** The least string of a non-empty sequence (SQL `MIN` over a column). */
  function Least(s: seq<string>): (m: string)
    requires |s| > 0
    ensures m in s
    ensures forall x :: x in s ==> LexLe(m, x)
  {
    if |s| == 1 then s[0]
    else
      var rest := Least(s[1..]);
      LexLeTotalOrder(s[0], rest, rest);
      var m := if LexLess(s[0], rest) then s[0] else rest;
      assert forall x :: x in s[1..] ==> LexLe(rest, x);
      assert forall x :: x in s[1..] ==> LexLe(m, x) by {
        forall x | x in s[1..] ensures LexLe(m, x) {
          LexLeTotalOrder(m, rest, x);
        }
      }
      assert s == [s[0]] + s[1..];
      m
  }

  /** The least element of a non-empty finite set of strings. */
  lemma {:induction false} LeastInSet(s: set<string>) returns (m: string)
    requires s != {}
    ensures m in s && forall y :: y in s ==> LexLe(m, y)
  {
    var x :| x in s;
    if s == {x} {
      m := x;
    } else {
      var rest := s - {x};
      var m' := LeastInSet(rest);
      LexLeTotalOrder(x, m', m');
      m := if LexLess(x, m') then x else m';
      forall y | y in s ensures LexLe(m, y) {
        if y != x {
          assert y in rest;
          LexLeTotalOrder(m, m', y);
        }
      }
    }
  }

  /** A non-empty finite set of strings has a least element. */
  lemma LeastInSetExists(s: set<string>)
    requires s != {}
    ensures exists m :: m in s && forall y :: y in s ==> LexLe(m, y)
  {
    var m := LeastInSet(s);
  }

  /** The least element of a set of strings is unique. */
  lemma LeastInSetUnique(s: set<string>)
    ensures forall m, m' :: m in s && m' in s && (forall y :: y in s ==> LexLe(m, y)) && (forall y :: y in s ==> LexLe(m', y)) ==> m == m'
  {
    forall m, m' | m in s && m' in s && (forall y :: y in s ==> LexLe(m, y)) && (forall y :: y in s ==> LexLe(m', y))
      ensures m == m'
    {
      LexLeTotalOrder(m, m', m);
    }
  }

  /** The least string of a non-empty set. */
  function LeastOf(s: set<string>): (m: string)
    requires s != {}
    ensures m in s && forall y :: y in s ==> LexLe(m, y)
  {
    LeastInSetExists(s);
    LeastInSetUnique(s);
    var m :| m in s && forall y :: y in s ==> LexLe(m, y);
    m
  }

  /** The strings of `s` in ascending order (`ORDER BY` on a string key). */
  function Sorted(s: set<string>): (r: seq<string>)
    ensures forall x :: x in r <==> x in s
    ensures forall i, j :: 0 <= i < j < |r| ==> LexLess(r[i], r[j])
    decreases s
  {
    if s == {} then []
    else
      var m := LeastOf(s);
      var rest := Sorted(s - {m});
      LeastThenSorted(s, m, rest);
      [m] + rest
  }

  /** The least string of `s` followed by the rest of `s` in ascending order
      is `s` in ascending order. */
  lemma LeastThenSorted(s: set<string>, m: string, rest: seq<string>)
    requires m in s && forall y :: y in s ==> LexLe(m, y)
    requires forall x :: x in rest <==> x in s - {m}
    requires forall i, j :: 0 <= i < j < |rest| ==> LexLess(rest[i], rest[j])
    ensures forall x :: x in [m] + rest <==> x in s
    ensures forall i, j :: 0 <= i < j < |[m] + rest| ==> LexLess(([m] + rest)[i], ([m] + rest)[j])
  {
    var r := [m] + rest;
    forall i, j | 0 <= i < j < |r| ensures LexLess(r[i], r[j]) {
      assert r[j] == rest[j - 1];
      if i > 0 {
        assert r[i] == rest[i - 1];
      } else {
        assert r[j] in rest;
      }
    }
  }
}
