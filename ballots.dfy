/**
 * Shared vocabulary of the vote engine: option labels, ballots, elections,
 * and the few array built-ins (indexOf, filter) the engine relies on.
 */
module Ballots {

  /** An option (alternative) is identified by its label; equality is exact. */
  type Label = string

  datatype Option<T> = None | Some(value: T)

  /** No element occurs twice. */
  predicate Distinct<T(==)>(s: seq<T>)
  {
    forall i, j :: 0 <= i < j < |s| ==> s[i] != s[j]
  }

  /** `Array.prototype.indexOf`: the first position holding `x`, or -1. */
  function IndexOf(s: seq<Label>, x: Label): (i: int)
    ensures -1 <= i < |s|
    ensures i == -1 <==> x !in s
    ensures 0 <= i ==> s[i] == x && x !in s[..i]
  {
    if |s| == 0 then -1
    else if s[0] == x then 0
    else
      var k := IndexOf(s[1..], x);
      assert 0 <= k ==> s[..k + 1] == [s[0]] + s[1..][..k];
      if k == -1 then -1 else k + 1
  }

  lemma IndexOfDistinct(s: seq<Label>, i: int)
    requires Distinct(s) && 0 <= i < |s|
    ensures IndexOf(s, s[i]) == i
  {
  }

  /** A ballot ranks every option exactly once: a full, strict permutation. */
  predicate IsPermutation(r: seq<Label>, options: seq<Label>)
  {
    && |r| == |options|
    && Distinct(r)
    && (forall x :: x in r ==> x in options)
    && (forall x :: x in options ==> x in r)
  }

  /** A well-formed election: distinct option labels, every ballot a permutation of them. */
  predicate Election(options: seq<Label>, rankings: seq<seq<Label>>)
  {
    && Distinct(options)
    && forall i :: 0 <= i < |rankings| ==> IsPermutation(rankings[i], options)
  }

  /** `s.filter(o => o !== x)`: every other element, in their original order. */
  function Without(s: seq<Label>, x: Label): (r: seq<Label>)
    ensures forall y :: y in r <==> y in s && y != x
    ensures |r| <= |s|
  {
    if |s| == 0 then []
    else (if s[0] == x then [] else [s[0]]) + Without(s[1..], x)
  }

  /** On a duplicate-free sequence, filtering out one label removes exactly one entry when present. */
  lemma {:induction false} WithoutDistinct(s: seq<Label>, x: Label)
    requires Distinct(s)
    ensures Distinct(Without(s, x))
    ensures |Without(s, x)| == if x in s then |s| - 1 else |s|
  {
    if |s| > 0 {
      assert Distinct(s[1..]);
      WithoutDistinct(s[1..], x);
      var rest := Without(s[1..], x);
      if s[0] == x {
        assert x !in s[1..];
      } else {
        assert s[0] !in rest;
        assert x in s <==> x in s[1..];
        var r := [s[0]] + rest;
        forall i, j | 0 <= i < j < |r| ensures r[i] != r[j] {
          if i > 0 {
            assert r[i] == rest[i - 1] && r[j] == rest[j - 1];
          } else {
            assert r[j] in rest;
          }
        }
      }
    }
  }

  /**
   * On a duplicate-free sequence, filtering out a label that occurs deletes
   * exactly the entry at its position and keeps the others in their order;
   * filtering out a label that does not occur changes nothing.
   */
  lemma {:induction false} WithoutDeletesEntry(s: seq<Label>, x: Label)
    requires Distinct(s)
    ensures x !in s ==> Without(s, x) == s
    ensures x in s ==> Without(s, x) == s[..IndexOf(s, x)] + s[IndexOf(s, x) + 1..]
  {
    if |s| > 0 {
      assert Distinct(s[1..]);
      WithoutDeletesEntry(s[1..], x);
      if s[0] == x {
        assert x !in s[1..];
      } else if x in s {
        var k := IndexOf(s[1..], x);
        assert IndexOf(s, x) == k + 1;
        assert s[..k + 1] == [s[0]] + s[1..][..k];
        assert s[k + 2..] == s[1..][k + 1..];
      } else {
        assert s == [s[0]] + s[1..];
      }
    }
  }

  /** Appending one element and then a tail is appending the tail with the element in front. */
  lemma AppendCons<T>(front: seq<T>, x: T, tail: seq<T>)
    ensures front + ([x] + tail) == (front + [x]) + tail
  {
  }

  function Sum(s: seq<int>): int
  {
    if |s| == 0 then 0 else Sum(s[..|s| - 1]) + s[|s| - 1]
  }

  /** Adding `d` to one entry adds `d` to the total. */
  lemma {:induction false} SumUpdate(s: seq<int>, i: int, d: int)
    requires 0 <= i < |s|
    ensures Sum(s[i := s[i] + d]) == Sum(s) + d
  {
    var t := s[i := s[i] + d];
    var n := |s|;
    if i == n - 1 {
      assert t[..n - 1] == s[..n - 1];
    } else {
      assert t[..n - 1] == s[..n - 1][i := s[i] + d];
      SumUpdate(s[..n - 1], i, d);
    }
  }

  /** Two distinct entries of a sequence of naturals add up to no more than the total. */
  lemma {:induction false} SumBoundsPair(s: seq<nat>, i: int, j: int)
    requires 0 <= i < |s| && 0 <= j < |s| && i != j
    ensures s[i] + s[j] <= Sum(s)
  {
    var n := |s|;
    var p := s[..n - 1];
    SumNonNegative(p);
    if i == n - 1 {
      SumBoundsOne(p, j);
    } else if j == n - 1 {
      SumBoundsOne(p, i);
    } else {
      SumBoundsPair(p, i, j);
    }
  }

  lemma {:induction false} SumBoundsOne(s: seq<nat>, i: int)
    requires 0 <= i < |s|
    ensures s[i] <= Sum(s)
  {
    var n := |s|;
    SumNonNegative(s[..n - 1]);
    if i < n - 1 {
      SumBoundsOne(s[..n - 1], i);
    }
  }

  lemma {:induction false} SumNonNegative(s: seq<nat>)
    ensures Sum(s) >= 0
  {
    if |s| > 0 {
      SumNonNegative(s[..|s| - 1]);
    }
  }
}
