/**
 Facts about sequences that the password generator relies on: pairwise
 distinctness, the set of elements of a sequence, and joining a list of
 strings (Python's `"".join`).
 */
module Sequences {

  /** No value occurs at two different positions of `s`. */
  predicate Distinct<T(==)>(s: seq<T>) {
    forall i, j :: 0 <= i < j < |s| ==> s[i] != s[j]
  }

  /** The values occurring in `s`, as Python's `set(s)` gives them. */
  function Elements<T(!new)>(s: seq<T>): (r: set<T>)
    ensures forall x :: x in r <==> x in s
  {
    set x | x in s
  }

  /** Concatenation of a list of sequences in order, as `"".join(parts)`. */
  function Concat<T(!new)>(parts: seq<seq<T>>): (r: seq<T>)
    ensures forall x :: x in r <==> exists i :: 0 <= i < |parts| && x in parts[i]
  {
    if parts == [] then []
    else
      var rest := Concat(parts[1..]);
      assert forall i :: 1 <= i < |parts| ==> parts[i] == parts[1..][i - 1];
      parts[0] + rest
  }

  /** Distinctness is the same as every value occurring at most once. */
  lemma {:induction false} DistinctIffAtMostOnce<T>(s: seq<T>)
    ensures Distinct(s) <==> forall x :: multiset(s)[x] <= 1
  {
    if s != [] {
      var t := s[1..];
      assert s == [s[0]] + t;
      DistinctIffAtMostOnce(t);
      if Distinct(s) {
        assert s[0] !in t;
        assert Distinct(t) by {
          forall i, j | 0 <= i < j < |t| ensures t[i] != t[j] {
            assert t[i] == s[i + 1] && t[j] == s[j + 1];
          }
        }
      }
      if forall x :: multiset(s)[x] <= 1 {
        assert forall x :: multiset(t)[x] <= 1 by {
          forall x ensures multiset(t)[x] <= 1 {
            assert multiset(s)[x] == multiset{s[0]}[x] + multiset(t)[x];
          }
        }
        assert multiset(t)[s[0]] == 0 by {
          assert multiset(s)[s[0]] == 1 + multiset(t)[s[0]];
        }
        forall i, j | 0 <= i < j < |s| ensures s[i] != s[j] {
          if i == 0 {
            assert s[j] == t[j - 1];
          } else {
            assert s[i] == t[i - 1] && s[j] == t[j - 1];
          }
        }
      }
    }
  }

  /** Rearranging a sequence keeps it distinct (or not). */
  lemma DistinctUnderPermutation<T>(s: seq<T>, t: seq<T>)
    requires multiset(s) == multiset(t)
    ensures Distinct(s) <==> Distinct(t)
  {
    DistinctIffAtMostOnce(s);
    DistinctIffAtMostOnce(t);
  }

  /** A distinct sequence has as many different values as it has positions. */
  lemma {:induction false} DistinctElementsCount<T(!new)>(s: seq<T>)
    requires Distinct(s)
    ensures |Elements(s)| == |s|
  {
    if s != [] {
      var t := s[1..];
      assert Distinct(t) by {
        forall i, j | 0 <= i < j < |t| ensures t[i] != t[j] {
          assert t[i] == s[i + 1] && t[j] == s[j + 1];
        }
      }
      DistinctElementsCount(t);
      assert s[0] !in t;
      assert Elements(s) == {s[0]} + Elements(t);
    }
  }

  /** `s + t` is distinct exactly when both parts are and they share no value. */
  lemma DistinctAppend<T>(s: seq<T>, t: seq<T>)
    ensures Distinct(s + t) <==> Distinct(s) && Distinct(t) && forall x :: x in s ==> x !in t
  {
    var u := s + t;
    if Distinct(u) {
      assert Distinct(s) by {
        forall i, j | 0 <= i < j < |s| ensures s[i] != s[j] {
          assert s[i] == u[i] && s[j] == u[j];
        }
      }
      assert Distinct(t) by {
        forall i, j | 0 <= i < j < |t| ensures t[i] != t[j] {
          assert t[i] == u[|s| + i] && t[j] == u[|s| + j];
        }
      }
      forall x | x in s ensures x !in t {
        var i :| 0 <= i < |s| && s[i] == x;
        assert u[i] == x;
        assert forall j :: 0 <= j < |t| ==> t[j] == u[|s| + j] && u[i] != u[|s| + j];
      }
    }
    if Distinct(s) && Distinct(t) && forall x :: x in s ==> x !in t {
      forall i, j | 0 <= i < j < |u| ensures u[i] != u[j] {
        if j < |s| {
          assert u[i] == s[i] && u[j] == s[j];
        } else if i >= |s| {
          assert u[i] == t[i - |s|] && u[j] == t[j - |s|];
        } else {
          assert u[i] == s[i] && u[j] == t[j - |s|];
          assert s[i] in s && t[j - |s|] in t;
        }
      }
    }
  }

  /** Joining pairwise-disjoint distinct parts gives a distinct whole. */
  lemma {:induction false} ConcatDistinct<T(!new)>(parts: seq<seq<T>>)
    requires forall i :: 0 <= i < |parts| ==> Distinct(parts[i])
    requires forall i, j, x :: 0 <= i < j < |parts| && x in parts[i] ==> x !in parts[j]
    ensures Distinct(Concat(parts))
  {
    if parts != [] {
      var rest := parts[1..];
      assert forall i :: 0 <= i < |rest| ==> rest[i] == parts[i + 1];
      ConcatDistinct(rest);
      assert forall x :: x in parts[0] ==> x !in Concat(rest);
      DistinctAppend(parts[0], Concat(rest));
    }
  }

  /** The length of a join is the sum of the lengths of its parts. */
  function TotalLength<T>(parts: seq<seq<T>>): nat {
    if parts == [] then 0 else |parts[0]| + TotalLength(parts[1..])
  }

  lemma {:induction false} ConcatLength<T(!new)>(parts: seq<seq<T>>)
    ensures |Concat(parts)| == TotalLength(parts)
  {
    if parts != [] {
      ConcatLength(parts[1..]);
    }
  }
}
