/**
 * `[...options].sort((a, b) => key[b] - key[a])`: a stable sort by decreasing
 * key. Stability means options with equal keys keep their declared order, so
 * the result is the order of positions by (key descending, position ascending).
 * The sort is modelled on positions into the option list, and the sorted
 * labels are read off those positions.
 */
module Ordering {
  import opened Ballots

  /** Position `i` goes before position `j`: higher key, or equal key and declared earlier. */
  predicate Outranks(key: seq<int>, i: int, j: int)
    requires 0 <= i < |key| && 0 <= j < |key|
  {
    key[i] > key[j] || (key[i] == key[j] && i < j)
  }

  /** Valid positions, each placed before every position that follows it. */
  predicate SortedBy(key: seq<int>, s: seq<int>)
  {
    && (forall i :: 0 <= i < |s| ==> 0 <= s[i] < |key|)
    && (forall i, j :: 0 <= i < j < |s| ==> Outranks(key, s[i], s[j]))
  }

  function Insert(key: seq<int>, x: int, s: seq<int>): (r: seq<int>)
    requires 0 <= x < |key| && SortedBy(key, s) && x !in s
    ensures |r| == |s| + 1
    ensures forall y :: y in r <==> y in s || y == x
    ensures SortedBy(key, r)
  {
    if |s| == 0 then [x]
    else if Outranks(key, x, s[0]) then
      var r := [x] + s;
      assert forall j :: 1 <= j < |r| ==> r[j] == s[j - 1];
      r
    else
      var rest := Insert(key, x, s[1..]);
      var r := [s[0]] + rest;
      assert forall j :: 1 <= j < |r| ==> r[j] == rest[j - 1] && r[j] in rest;
      assert forall y :: y in s[1..] ==> Outranks(key, s[0], y);
      r
  }

  /** The positions `0 .. m - 1` in sorted order. */
  function SortPrefix(key: seq<int>, m: nat): (r: seq<int>)
    requires m <= |key|
    ensures |r| == m && SortedBy(key, r)
    ensures forall y :: y in r <==> 0 <= y < m
  {
    if m == 0 then [] else Insert(key, m - 1, SortPrefix(key, m - 1))
  }

  /**
   * Every position exactly once, ordered by decreasing key with ties in
   * declared order.
   */
  function StableDescending(key: seq<int>): (order: seq<int>)
    ensures |order| == |key| && SortedBy(key, order)
    ensures forall y :: y in order <==> 0 <= y < |key|
  {
    SortPrefix(key, |key|)
  }

  /** The `i`-th position of the sorted order goes before every position not among the first `i + 1`. */
  lemma OutranksLater(key: seq<int>, i: int, j: int)
    requires 0 <= i < |key| && 0 <= j < |key|
    requires j !in StableDescending(key)[..i + 1]
    ensures Outranks(key, StableDescending(key)[i], j)
  {
    var order := StableDescending(key);
    forall q | 0 <= q <= i
      ensures order[q] != j
    {
      assert order[q] == order[..i + 1][q];
    }
    assert j in order;
    var q :| 0 <= q < |order| && order[q] == j;
    assert Outranks(key, order[i], order[q]);
  }

  /**
   * `[...options].sort((a, b) => key[b] - key[a])` on labels: the options
   * listed in the stable descending order of their keys.
   */
  function RankingBy(options: seq<Label>, key: seq<int>): (ranking: seq<Label>)
    requires |key| == |options|
    ensures |ranking| == |options|
  {
    var order := StableDescending(key);
    seq(|options|, i requires 0 <= i < |options| => options[order[i]])
  }

  /**
   * The ranking is a permutation of the options, in non-increasing key
   * order, and options with equal keys keep their declared order.
   */
  lemma RankingIsStableDescending(options: seq<Label>, key: seq<int>)
    requires Distinct(options) && |key| == |options|
    ensures IsPermutation(RankingBy(options, key), options)
    ensures forall i :: 0 <= i < |options| ==> IndexOf(options, RankingBy(options, key)[i]) == StableDescending(key)[i]
    ensures forall i, j :: 0 <= i < j < |options| ==>
              var p, q := IndexOf(options, RankingBy(options, key)[i]), IndexOf(options, RankingBy(options, key)[j]);
              0 <= p && 0 <= q && (key[p] > key[q] || (key[p] == key[q] && p < q))
  {
    var order := StableDescending(key);
    var ranking := RankingBy(options, key);
    forall i | 0 <= i < |options|
      ensures IndexOf(options, ranking[i]) == order[i]
    {
      IndexOfDistinct(options, order[i]);
    }
    forall i, j | 0 <= i < j < |ranking|
      ensures ranking[i] != ranking[j]
    {
      assert Outranks(key, order[i], order[j]);
    }
    forall x | x in options
      ensures x in ranking
    {
      var p := IndexOf(options, x);
      assert p in order;
      var i :| 0 <= i < |order| && order[i] == p;
      assert ranking[i] == x;
    }
    forall i, j | 0 <= i < j < |options|
      ensures Outranks(key, order[i], order[j])
    {
    }
  }

  /** The first option of the ranking has the highest key. */
  lemma LeaderHasTopKey(options: seq<Label>, key: seq<int>)
    requires Distinct(options) && 0 < |key| == |options|
    ensures forall j :: 0 <= j < |options| ==> key[j] <= key[IndexOf(options, RankingBy(options, key)[0])]
  {
    var order := StableDescending(key);
    IndexOfDistinct(options, order[0]);
    forall j | 0 <= j < |options| && j != order[0]
      ensures key[j] <= key[order[0]]
    {
      OutranksLater(key, 0, j);
    }
  }

  /**
   * The sorted order is unique: two sequences of the same positions that are
   * both sorted are equal. So any stable sort by decreasing key, whatever its
   * algorithm, returns `StableDescending`.
   */
  lemma {:induction false} SortedIsUnique(key: seq<int>, a: seq<int>, b: seq<int>)
    requires SortedBy(key, a) && SortedBy(key, b)
    requires forall y :: y in a <==> y in b
    ensures a == b
  {
    assert |a| > 0 ==> a[0] in b;
    assert |b| > 0 ==> b[0] in a;
    if |a| > 0 && |b| > 0 {
      if a[0] != b[0] {
        assert false;
      }
      assert a == [a[0]] + a[1..] && b == [b[0]] + b[1..];
      forall y
        ensures y in a[1..] <==> y in b[1..]
      {
        assert y in a <==> y == a[0] || y in a[1..];
        assert y in b <==> y == b[0] || y in b[1..];
        if y in a[1..] {
          assert y != a[0] by {
            var j :| 1 <= j < |a| && a[j] == y;
            assert Outranks(key, a[0], a[j]);
          }
        }
        if y in b[1..] {
          assert y != b[0] by {
            var j :| 1 <= j < |b| && b[j] == y;
            assert Outranks(key, b[0], b[j]);
          }
        }
      }
      SortedIsUnique(key, a[1..], b[1..]);
    }
  }
}
