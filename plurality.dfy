/**
 * `pluralityCounts` and `majorityAbsoluteWinner`: first-choice counting and the
 * strict-majority check over it.
 */
module Plurality {
  import opened Ballots
  import opened Counting

  /** The first entry of every ranking, in ballot order. */
  function FirstChoices(rankings: seq<seq<Label>>): seq<Label>
    requires forall i :: 0 <= i < |rankings| ==> |rankings[i]| > 0
  {
    seq(|rankings|, i requires 0 <= i < |rankings| => rankings[i][0])
  }

  /** The first-choice count of every option; how many rankings put `o` first. */
  function FirstCounts(options: seq<Label>, rankings: seq<seq<Label>>): seq<nat>
    requires forall i :: 0 <= i < |rankings| ==> |rankings[i]| > 0
  {
    Tally(options, FirstChoices(rankings))
  }

  /**
   * In an election every ballot's first choice is one of the options, so the
   * first-choice counts add up to the number of ballots.
   */
  lemma PluralityTotal(options: seq<Label>, rankings: seq<seq<Label>>)
    requires Election(options, rankings) && (|rankings| > 0 ==> |options| > 0)
    ensures Sum(FirstCounts(options, rankings)) == |rankings|
  {
    var picks := FirstChoices(rankings);
    forall i | 0 <= i < |picks|
      ensures picks[i] in options
    {
      assert IsPermutation(rankings[i], options) && rankings[i][0] in rankings[i];
    }
    TallyTotal(options, picks);
  }

  method PluralityCounts(options: seq<Label>, rankings: seq<seq<Label>>) returns (counts: seq<nat>)
    requires Election(options, rankings) && (|rankings| > 0 ==> |options| > 0)
    ensures counts == FirstCounts(options, rankings)
    ensures |counts| == |options|
    ensures forall i :: 0 <= i < |options| ==> counts[i] == Occurrences(FirstChoices(rankings), options[i])
    ensures Sum(counts) == |rankings|
  {
    counts := seq(|options|, _ => 0);
    var k := 0;
    while k < |rankings|
      invariant 0 <= k <= |rankings|
      invariant counts == FirstCounts(options, rankings[..k])
    {
      var r := rankings[k];
      assert IsPermutation(r, options) && r[0] in r;
      var i := IndexOf(options, r[0]);
      TallyStep(options, FirstChoices(rankings[..k]), r[0]);
      assert FirstChoices(rankings[..k + 1]) == FirstChoices(rankings[..k]) + [r[0]];
      counts := counts[i := counts[i] + 1];
      k := k + 1;
    }
    assert rankings[..k] == rankings;
    PluralityTotal(options, rankings);
  }

  method MajorityAbsoluteWinner(options: seq<Label>, rankings: seq<seq<Label>>)
    returns (winner: Option<Label>, counts: seq<nat>)
    requires Election(options, rankings) && (|rankings| > 0 ==> |options| > 0)
    ensures counts == FirstCounts(options, rankings)
    ensures winner == MajorityWinner(options, counts, |rankings|)
    ensures winner.Some? ==> winner.value in options
    ensures forall i :: 0 <= i < |options| ==>
              (IsMajority(counts[i], |rankings|) <==> winner == Some(options[i]))
  {
    counts := PluralityCounts(options, rankings);
    var n := |rankings|;
    var k := 0;
    while k < |options|
      invariant 0 <= k <= |options|
      invariant forall j :: 0 <= j < k ==> !IsMajority(counts[j], n)
    {
      if IsMajority(counts[k], n) {
        winner := Some(options[k]);
        MajorityWinnerIsFirst(options, counts, n, k);
        forall j | 0 <= j < |options| && IsMajority(counts[j], n)
          ensures j == k
        {
          MajorityIsUnique(options, FirstChoices(rankings), j, k);
        }
        forall j | 0 <= j < |options| && winner == Some(options[j])
          ensures IsMajority(counts[j], n)
        {
          IndexOfDistinct(options, j);
          IndexOfDistinct(options, k);
        }
        return;
      }
      k := k + 1;
    }
    winner := None;
  }

  /** A majority at position `k` with none before it is what `MajorityWinner` finds. */
  lemma {:induction false} MajorityWinnerIsFirst(candidates: seq<Label>, counts: seq<nat>, total: nat, k: int)
    requires |counts| == |candidates| && 0 <= k < |counts|
    requires IsMajority(counts[k], total)
    requires forall j :: 0 <= j < k ==> !IsMajority(counts[j], total)
    ensures MajorityWinner(candidates, counts, total) == Some(candidates[k])
  {
    if k > 0 {
      MajorityWinnerIsFirst(candidates[1..], counts[1..], total, k - 1);
    }
  }
}
