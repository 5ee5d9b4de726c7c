/**
 * `borda`: classic positional scoring. With `n` options a ballot gives its
 * first choice `n - 1` points, its second `n - 2`, and so on down to 0 for
 * its last; the options are then ranked by total score, highest first, with
 * ties kept in declared order.
 */
module Borda {
  import opened Ballots
  import opened Counting
  import opened Ordering

  /** The points ballot `r` gives option `o` when there are `n` options: `n - 1` minus its position. */
  function Points(r: seq<Label>, o: Label, n: int): int
  {
    n - 1 - IndexOf(r, o)
  }

  /** The total score of option `o` over all ballots. */
  function BordaScore(rankings: seq<seq<Label>>, o: Label, n: int): int
  {
    if |rankings| == 0 then 0
    else BordaScore(rankings[..|rankings| - 1], o, n) + Points(rankings[|rankings| - 1], o, n)
  }

  /** In an election every ballot gives every option between 0 and `n - 1` points. */
  lemma {:induction false} BordaScoreBounds(options: seq<Label>, rankings: seq<seq<Label>>, o: Label)
    requires Election(options, rankings) && o in options
    ensures 0 <= BordaScore(rankings, o, |options|) <= |rankings| * (|options| - 1)
  {
    if |rankings| > 0 {
      var n := |options|;
      var last := rankings[|rankings| - 1];
      assert IsPermutation(last, options);
      assert 0 <= IndexOf(last, o) < n;
      BordaScoreBounds(options, rankings[..|rankings| - 1], o);
      MulSucc(|rankings| - 1, n - 1);
    }
  }

  /**
   * An option every ballot ranks first scores the most possible, and every
   * other option scores strictly less as soon as there is a ballot.
   */
  lemma {:induction false} UnanimousFirstScoresMost(options: seq<Label>, rankings: seq<seq<Label>>, a: Label, b: Label)
    requires Election(options, rankings) && a in options && b in options && a != b
    requires forall k :: 0 <= k < |rankings| ==> rankings[k][0] == a
    ensures BordaScore(rankings, a, |options|) == |rankings| * (|options| - 1)
    ensures |rankings| > 0 ==> BordaScore(rankings, b, |options|) < BordaScore(rankings, a, |options|)
  {
    if |rankings| > 0 {
      var n := |options|;
      var front := rankings[..|rankings| - 1];
      var last := rankings[|rankings| - 1];
      assert IsPermutation(last, options);
      assert IndexOf(last, a) == 0;
      assert IndexOf(last, b) > 0;
      UnanimousFirstScoresMost(options, front, a, b);
      BordaScoreBounds(options, front, b);
      MulSucc(|rankings| - 1, n - 1);
    }
  }

  /** Each option's score, by option position. */
  function Scores(options: seq<Label>, rankings: seq<seq<Label>>): (score: seq<int>)
    ensures |score| == |options|
  {
    seq(|options|, j requires 0 <= j < |options| => BordaScore(rankings, options[j], |options|))
  }

  /** Ballot `r` has handed out the points of its first `i` entries. */
  function PartialPoints(r: seq<Label>, o: Label, n: int, i: int): int
  {
    if 0 <= IndexOf(r, o) < i then Points(r, o, n) else 0
  }

  /** The running scores hold `base` plus the points of the first `i` entries of ballot `r`. */
  predicate PartlyScored(options: seq<Label>, r: seq<Label>, base: seq<int>, score: seq<int>, i: int)
  {
    |base| == |options| && |score| == |options| &&
    forall j {:trigger PartialPoints(r, options[j], |options|, i)} :: 0 <= j < |options| ==>
      score[j] == base[j] + PartialPoints(r, options[j], |options|, i)
  }

  /** Reading entry `i` of a ballot without repeats gives that entry's option its points, and no other. */
  lemma PartialPointsStep(r: seq<Label>, x: Label, n: int, i: int)
    requires Distinct(r) && 0 <= i < |r|
    ensures PartialPoints(r, x, n, i + 1) == PartialPoints(r, x, n, i) + (if x == r[i] then n - 1 - i else 0)
  {
    if x == r[i] {
      IndexOfDistinct(r, i);
    }
  }

  /** Entry `i` of the ballot gives its points to its own option and to no other. */
  lemma PartlyScoredStep(options: seq<Label>, r: seq<Label>, base: seq<int>, score: seq<int>, i: int, p: int)
    requires Distinct(options) && Distinct(r) && 0 <= i < |r|
    requires 0 <= p < |options| && options[p] == r[i]
    requires PartlyScored(options, r, base, score, i)
    ensures PartlyScored(options, r, base, score[p := score[p] + (|options| - 1 - i)], i + 1)
  {
    var n := |options|;
    forall j | 0 <= j < n
      ensures score[p := score[p] + (n - 1 - i)][j] == base[j] + PartialPoints(r, options[j], n, i + 1)
    {
      PartialPointsStep(r, options[j], n, i);
    }
  }

  /** The inner loop's state: the pointwise progress and the points handed out so far. */
  predicate Reading(options: seq<Label>, r: seq<Label>, base: seq<int>, score: seq<int>, i: nat)
  {
    PartlyScored(options, r, base, score, i) && Sum(score) == Sum(base) + Handed(|options|, i)
  }

  lemma ReadingStep(options: seq<Label>, r: seq<Label>, base: seq<int>, score: seq<int>, i: nat, p: int)
    requires Distinct(options) && Distinct(r) && i < |r|
    requires 0 <= p < |options| && options[p] == r[i]
    requires Reading(options, r, base, score, i)
    ensures Reading(options, r, base, score[p := score[p] + (|options| - 1 - i)], i + 1)
  {
    PartlyScoredStep(options, r, base, score, i, p);
    SumUpdate(score, p, |options| - 1 - i);
  }

  /** Once the whole ballot is read every option has all its points. */
  lemma PartlyScoredDone(options: seq<Label>, r: seq<Label>, base: seq<int>, score: seq<int>)
    requires IsPermutation(r, options) && PartlyScored(options, r, base, score, |r|)
    ensures forall j :: 0 <= j < |options| ==> score[j] == base[j] + Points(r, options[j], |options|)
  {
    forall j | 0 <= j < |options|
      ensures PartialPoints(r, options[j], |options|, |r|) == Points(r, options[j], |options|)
    {
      assert options[j] in r;
    }
  }

  /** The inner loop: ballot `r` adds its points to the running scores. */
  method AddBallot(options: seq<Label>, r: seq<Label>, score: seq<int>) returns (score': seq<int>)
    requires Distinct(options) && IsPermutation(r, options) && |score| == |options|
    ensures |score'| == |options|
    ensures forall j :: 0 <= j < |options| ==> score'[j] == score[j] + Points(r, options[j], |options|)
    ensures Sum(score') == Sum(score) + BallotPoints(|options|)
  {
    var n := |options|;
    score' := score;
    var i := 0;
    while i < |r|
      invariant 0 <= i <= |r|
      invariant Reading(options, r, score, score', i)
    {
      assert r[i] in r;
      var p := IndexOf(options, r[i]);
      ReadingStep(options, r, score, score', i, p);
      score' := score'[p := score'[p] + (n - 1 - i)];
      i := i + 1;
    }
    PartlyScoredDone(options, r, score, score');
  }

  /** The points handed out by the first `i` positions of a ballot over `n` options. */
  function Handed(n: int, i: nat): int
  {
    if i == 0 then 0 else Handed(n, i - 1) + (n - i)
  }

  /** The first `i` positions hand out `i * (2n - 1 - i) / 2` points. */
  lemma {:induction false} HandedTotal(n: int, i: nat)
    ensures 2 * Handed(n, i) == i * (2 * n - 1 - i)
  {
    if i > 0 {
      HandedTotal(n, i - 1);
      assert i * (2 * n - 1 - i) == (i - 1) * (2 * n - 1 - (i - 1)) + 2 * (n - i);
    }
  }

  /** The points one ballot hands out in all when there are `n` options. */
  function BallotPoints(n: nat): int
  {
    Handed(n, n)
  }

  /** A whole ballot hands out `n * (n - 1) / 2` points. */
  lemma BallotHandsOut(n: nat)
    ensures 2 * BallotPoints(n) == n * (n - 1)
  {
    HandedTotal(n, n);
  }

  lemma MulSucc(k: int, m: int)
    ensures (k + 1) * m == k * m + m
  {
  }

  /** The outer loop's state: `score` holds the scores over the first `k` ballots. */
  predicate ScoredUpTo(options: seq<Label>, rankings: seq<seq<Label>>, score: seq<int>, k: nat)
    requires k <= |rankings|
  {
    && |score| == |options|
    && (forall j {:trigger BordaScore(rankings[..k], options[j], |options|)} :: 0 <= j < |options| ==>
          score[j] == BordaScore(rankings[..k], options[j], |options|))
    && Sum(score) == k * BallotPoints(|options|)
  }

  /** Adding ballot `k`'s points scores one ballot more. */
  lemma ScoredStep(options: seq<Label>, rankings: seq<seq<Label>>, score: seq<int>, next: seq<int>, k: nat)
    requires k < |rankings| && ScoredUpTo(options, rankings, score, k)
    requires |next| == |options|
    requires forall j :: 0 <= j < |options| ==> next[j] == score[j] + Points(rankings[k], options[j], |options|)
    requires Sum(next) == Sum(score) + BallotPoints(|options|)
    ensures ScoredUpTo(options, rankings, next, k + 1)
  {
    var n := |options|;
    assert rankings[..k + 1][..k] == rankings[..k];
    assert rankings[..k + 1][k] == rankings[k];
    forall j | 0 <= j < n
      ensures next[j] == BordaScore(rankings[..k + 1], options[j], n)
    {
      assert score[j] == BordaScore(rankings[..k], options[j], n);
    }
    MulSucc(k, BallotPoints(n));
  }

  method Borda(options: seq<Label>, rankings: seq<seq<Label>>) returns (score: seq<int>, ranking: seq<Label>, winner: Option<Label>)
    requires Election(options, rankings)
    ensures score == Scores(options, rankings)
    ensures Sum(score) == |rankings| * BallotPoints(|options|)
    ensures ranking == RankingBy(options, score)
    ensures winner.None? <==> |options| == 0
    ensures winner.Some? ==>
              && winner.value == ranking[0]
              && forall j :: 0 <= j < |options| ==> score[j] <= score[IndexOf(options, winner.value)]
  {
    var n := |options|;
    score := seq(n, i => 0);
    AllZeroSum(n);
    var k := 0;
    while k < |rankings|
      invariant 0 <= k <= |rankings|
      invariant ScoredUpTo(options, rankings, score, k)
    {
      assert IsPermutation(rankings[k], options);
      var next := AddBallot(options, rankings[k], score);
      ScoredStep(options, rankings, score, next, k);
      score := next;
      k := k + 1;
    }
    assert rankings[..k] == rankings;
    ranking := RankingBy(options, score);
    if n > 0 {
      winner := Some(ranking[0]);
      LeaderHasTopKey(options, score);
    } else {
      winner := None;
    }
  }
}
