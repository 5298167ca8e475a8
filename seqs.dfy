/** Sequence helpers shared by the query and the on-delete rules: a table
    filtered by a row predicate keeps the surviving rows in their order. */
module Seqs {

  /** The rows of `s` that satisfy `keep`, in their original order. */
  function Filter<T(!new)>(s: seq<T>, keep: T -> bool): (r: seq<T>)
    ensures |r| <= |s|
    ensures forall x :: x in r <==> x in s && keep(x)
  {
    if s == [] then []
    else
      assert s == [s[0]] + s[1..];
      if keep(s[0]) then [s[0]] + Filter(s[1..], keep) else Filter(s[1..], keep)
  }

  /** Filtering keeps every copy of a surviving row and drops every copy
      of the others. */
  lemma {:induction false} FilterCount<T(!new)>(s: seq<T>, keep: T -> bool, x: T)
    ensures multiset(Filter(s, keep))[x] == if keep(x) then multiset(s)[x] else 0
  {
    if s != [] {
      FilterCount(s[1..], keep, x);
      assert s == [s[0]] + s[1..];
    }
  }

  /** No row occurs twice: what a unique constraint over the whole row gives. */
  ghost predicate NoDuplicates<T>(s: seq<T>)
  {
    forall i, j :: 0 <= i < j < |s| ==> s[i] != s[j]
  }

  /** Filtering keeps the relative order of the surviving rows, so a
      property of every ordered pair of a table holds of the filtered one. */
  lemma {:induction false} FilterKeepsPairs<T(!new)>(s: seq<T>, keep: T -> bool, rel: (T, T) -> bool)
    requires forall i, j :: 0 <= i < j < |s| ==> rel(s[i], s[j])
    ensures forall i, j :: 0 <= i < j < |Filter(s, keep)| ==> rel(Filter(s, keep)[i], Filter(s, keep)[j])
  {
    if s != [] {
      FilterKeepsPairs(s[1..], keep, rel);
      var t := Filter(s[1..], keep);
      if keep(s[0]) {
        var r := [s[0]] + t;
        assert Filter(s, keep) == r;
        forall i, j | 0 <= i < j < |r| ensures rel(r[i], r[j]) {
          if i == 0 {
            assert r[j] in s[1..];
            var k :| 0 <= k < |s[1..]| && s[1..][k] == r[j];
            assert rel(s[0], s[k + 1]);
          } else {
            assert rel(t[i - 1], t[j - 1]);
          }
        }
      }
    }
  }

  /** A filtered table without duplicates has no duplicates either. */
  lemma FilterNoDuplicates<T(!new)>(s: seq<T>, keep: T -> bool)
    requires NoDuplicates(s)
    ensures NoDuplicates(Filter(s, keep))
  {
    FilterKeepsPairs(s, keep, (x, y) => x != y);
  }

  /** `s` without any copy of `x`, the other rows in their order. */
  function Remove<T(!new,==)>(s: seq<T>, x: T): (r: seq<T>)
    ensures forall y :: y in r <==> y in s && y != x
  {
    if s == [] then []
    else
      assert s == [s[0]] + s[1..];
      if s[0] == x then Remove(s[1..], x) else [s[0]] + Remove(s[1..], x)
  }

  lemma {:induction false} RemoveAbsent<T(!new)>(s: seq<T>, x: T)
    requires x !in s
    ensures Remove(s, x) == s
  {
    if s != [] {
      RemoveAbsent(s[1..], x);
    }
  }

  /** On a duplicate-free table removing a present row takes away exactly
      that one row and keeps every other. */
  lemma {:induction false} RemoveOne<T(!new)>(s: seq<T>, x: T)
    requires NoDuplicates(s) && x in s
    ensures var r := Remove(s, x);
      NoDuplicates(r) && |r| == |s| - 1 && multiset(r) == multiset(s) - multiset{x}
  {
    assert s == [s[0]] + s[1..];
    assert NoDuplicates(s[1..]);
    assert s[0] !in s[1..];
    if s[0] == x {
      RemoveAbsent(s[1..], x);
    } else {
      RemoveOne(s[1..], x);
      var r := Remove(s[1..], x);
      assert Remove(s, x) == [s[0]] + r;
      assert NoDuplicates([s[0]] + r) by {
        forall i, j | 0 <= i < j < |[s[0]] + r| ensures ([s[0]] + r)[i] != ([s[0]] + r)[j] {
          if i == 0 {
            assert ([s[0]] + r)[j] in r;
          } else {
            assert r[i - 1] != r[j - 1];
          }
        }
      }
    }
  }

  /** In a duplicate-free sequence every member occurs exactly once. */
  lemma {:induction false} NoDuplicatesCount<T>(s: seq<T>, x: T)
    requires NoDuplicates(s) && x in s
    ensures multiset(s)[x] == 1
  {
    assert s == [s[0]] + s[1..];
    assert NoDuplicates(s[1..]);
    if s[0] == x {
      assert x !in s[1..];
    } else {
      NoDuplicatesCount(s[1..], x);
    }
  }
}
