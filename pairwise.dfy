/**
 * `pairwiseMatrix`: for every ordered pair of options, how many rankings put
 * the first ahead of the second. The matrix is indexed by option position.
 */
module Pairwise {
  import opened Ballots
  import opened Counting
  import opened Plurality

  /**
   * Ranking `r` places `a` strictly before `b`. Within a permutation this is the
   * comparison of the two positions (`pos[a] < pos[b]`, `r.indexOf(a) < r.indexOf(b)`).
   */
  predicate RanksAhead(r: seq<Label>, a: Label, b: Label)
  {
    IndexOf(r, a) < IndexOf(r, b)
  }

  /** How many rankings place `a` strictly before `b`. */
  function Prefers(rankings: seq<seq<Label>>, a: Label, b: Label): (c: nat)
    ensures c <= |rankings|
  {
    if |rankings| == 0 then 0
    else
      var n := |rankings| - 1;
      Prefers(rankings[..n], a, b) + (if RanksAhead(rankings[n], a, b) then 1 else 0)
  }

  lemma PrefersStep(rankings: seq<seq<Label>>, k: int, a: Label, b: Label)
    requires 0 <= k < |rankings|
    ensures Prefers(rankings[..k + 1], a, b)
         == Prefers(rankings[..k], a, b) + (if RanksAhead(rankings[k], a, b) then 1 else 0)
  {
    assert rankings[..k + 1][..k] == rankings[..k];
  }

  /**
   * Ballots are total orders: for two different options, every ballot prefers
   * exactly one of them, so the two head-to-head counts add up to the ballot count.
   */
  lemma {:induction false} PrefersComplement(options: seq<Label>, rankings: seq<seq<Label>>, a: Label, b: Label)
    requires Election(options, rankings)
    requires a in options && b in options && a != b
    ensures Prefers(rankings, a, b) + Prefers(rankings, b, a) == |rankings|
  {
    if |rankings| > 0 {
      var n := |rankings| - 1;
      assert Election(options, rankings[..n]);
      PrefersComplement(options, rankings[..n], a, b);
      var r := rankings[n];
      assert IsPermutation(r, options);
      assert IndexOf(r, a) != IndexOf(r, b);
    }
  }

  /** Every ballot that ranks `a` first ranks `a` ahead of any other option. */
  lemma {:induction false} PrefersCoversFirstChoices(options: seq<Label>, rankings: seq<seq<Label>>, a: Label, b: Label)
    requires Election(options, rankings) && |options| > 0
    requires b in options && a != b
    ensures Prefers(rankings, a, b) >= Occurrences(FirstChoices(rankings), a)
  {
    if |rankings| > 0 {
      var n := |rankings| - 1;
      assert Election(options, rankings[..n]);
      PrefersCoversFirstChoices(options, rankings[..n], a, b);
      assert FirstChoices(rankings)[..n] == FirstChoices(rankings[..n]);
      var r := rankings[n];
      assert IsPermutation(r, options) && b in r;
      if r[0] == a {
        assert IndexOf(r, a) == 0;
      }
    }
  }

  lemma {:induction false} NoOptionBeatsItself(rankings: seq<seq<Label>>, a: Label)
    ensures Prefers(rankings, a, a) == 0
  {
    if |rankings| > 0 {
      NoOptionBeatsItself(rankings[..|rankings| - 1], a);
    }
  }

  /** Matrix with `n` rows of `n` entries. */
  predicate IsSquare<T>(m: seq<seq<T>>, n: nat)
  {
    |m| == n && forall i :: 0 <= i < n ==> |m[i]| == n
  }

  /** `m` holds the head-to-head counts over the first `k` ballots. */
  predicate CountsBallots(options: seq<Label>, rankings: seq<seq<Label>>, m: seq<seq<nat>>, k: int)
    requires 0 <= k <= |rankings|
  {
    IsSquare(m, |options|) &&
    forall x, y :: 0 <= x < |options| && 0 <= y < |options| ==>
      m[x][y] == Prefers(rankings[..k], options[x], options[y])
  }

  /** Adding ballot `k`'s pairs to the counts over the first `k` ballots counts the first `k + 1`. */
  lemma CountsBallotsStep(options: seq<Label>, rankings: seq<seq<Label>>, m: seq<seq<nat>>, m': seq<seq<nat>>, k: int)
    requires 0 <= k < |rankings| && CountsBallots(options, rankings, m, k)
    requires IsSquare(m', |options|)
    requires forall x, y :: 0 <= x < |options| && 0 <= y < |options| ==>
               m'[x][y] == m[x][y] + (if RanksAhead(rankings[k], options[x], options[y]) then 1 else 0)
    ensures CountsBallots(options, rankings, m', k + 1)
  {
    forall x, y | 0 <= x < |options| && 0 <= y < |options|
      ensures m'[x][y] == Prefers(rankings[..k + 1], options[x], options[y])
    {
      PrefersStep(rankings, k, options[x], options[y]);
    }
  }

  method PairwiseMatrix(options: seq<Label>, rankings: seq<seq<Label>>) returns (m: seq<seq<nat>>)
    requires Election(options, rankings)
    ensures IsSquare(m, |options|)
    ensures forall a, b :: 0 <= a < |options| && 0 <= b < |options| ==>
              m[a][b] == Prefers(rankings, options[a], options[b])
    ensures forall a, b :: 0 <= a < |options| && 0 <= b < |options| && a != b ==>
              m[a][b] + m[b][a] == |rankings|
    ensures forall a :: 0 <= a < |options| ==> m[a][a] == 0
  {
    var n := |options|;
    m := seq(n, _ => seq(n, _ => 0));
    var k := 0;
    while k < |rankings|
      invariant 0 <= k <= |rankings|
      invariant CountsBallots(options, rankings, m, k)
    {
      var m' := CountBallot(options, rankings[k], m);
      CountsBallotsStep(options, rankings, m, m', k);
      m := m';
      k := k + 1;
    }
    assert rankings[..k] == rankings;
    forall a, b | 0 <= a < n && 0 <= b < n && a != b
      ensures m[a][b] + m[b][a] == |rankings|
    {
      PrefersComplement(options, rankings, options[a], options[b]);
    }
    forall a | 0 <= a < n
      ensures m[a][a] == 0
    {
      NoOptionBeatsItself(rankings, options[a]);
    }
  }

  /** The loop over rows for one ballot `r`. */
  method CountBallot(options: seq<Label>, r: seq<Label>, m: seq<seq<nat>>) returns (m': seq<seq<nat>>)
    requires IsSquare(m, |options|)
    ensures IsSquare(m', |options|)
    ensures forall x, y :: 0 <= x < |options| && 0 <= y < |options| ==>
              m'[x][y] == m[x][y] + (if RanksAhead(r, options[x], options[y]) then 1 else 0)
  {
    var n := |options|;
    m' := m;
    var a := 0;
    while a < n
      invariant 0 <= a <= n
      invariant IsSquare(m', n)
      invariant forall x :: a <= x < n ==> m'[x] == m[x]
      invariant forall x, y :: 0 <= x < a && 0 <= y < n ==>
                  m'[x][y] == m[x][y] + (if RanksAhead(r, options[x], options[y]) then 1 else 0)
    {
      var row := CountBallotRow(options, r, a, m'[a]);
      m' := m'[a := row];
      a := a + 1;
    }
  }

  /** The innermost loop for one ballot and one row `a`: `M[a][b] += 1` wherever the ballot puts `a` before `b`. */
  method CountBallotRow(options: seq<Label>, r: seq<Label>, a: int, row: seq<nat>) returns (row': seq<nat>)
    requires 0 <= a < |options| && |row| == |options|
    ensures |row'| == |row|
    ensures forall y :: 0 <= y < |row| ==> row'[y] == row[y] + (if RanksAhead(r, options[a], options[y]) then 1 else 0)
  {
    row' := row;
    var b := 0;
    while b < |options|
      invariant 0 <= b <= |options| && |row'| == |row|
      invariant forall y :: 0 <= y < b ==> row'[y] == row[y] + (if RanksAhead(r, options[a], options[y]) then 1 else 0)
      invariant forall y :: b <= y < |row| ==> row'[y] == row[y]
    {
      if options[a] != options[b] && IndexOf(r, options[a]) < IndexOf(r, options[b]) {
        row' := row'[b := row'[b] + 1];
      }
      b := b + 1;
    }
  }
}
