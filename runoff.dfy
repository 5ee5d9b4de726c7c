/**
 * `runoffTop2`: the two options with the most first choices (equal counts in
 * declared order) go to a head-to-head runoff, decided by the ballots'
 * relative order of the two.
 */
module Runoff {
  import opened Ballots
  import opened Counting
  import opened Plurality
  import opened Pairwise
  import opened Ordering

  /** `sorted.slice(0, 2)`: the first two options of the stable descending order, or all when fewer. */
  function Top2(options: seq<Label>, counts: seq<nat>): (top2: seq<Label>)
    requires |counts| == |options|
    ensures |top2| == if |options| < 2 then |options| else 2
  {
    RankingBy(options, counts)[..if |options| < 2 then |options| else 2]
  }

  /**
   * `const [x, y] = top2`: a finalist, or `undefined` (here `None`) when
   * `top2` has no entry at that index.
   */
  function Finalist(top2: seq<Label>, i: nat): Option<Label>
  {
    if i < |top2| then Some(top2[i]) else None
  }

  /** `r.indexOf(x)`; a missing finalist is found nowhere (-1). */
  function PositionOf(r: seq<Label>, x: Option<Label>): int
  {
    if x.Some? then IndexOf(r, x.value) else -1
  }

  /** How many ballots the test `ix < iy` credits to `x`; every other ballot goes to `y`. */
  function XWins(rankings: seq<seq<Label>>, x: Option<Label>, y: Option<Label>): (c: nat)
    ensures c <= |rankings|
  {
    if |rankings| == 0 then 0
    else
      var n := |rankings| - 1;
      XWins(rankings[..n], x, y) + (if PositionOf(rankings[n], x) < PositionOf(rankings[n], y) then 1 else 0)
  }

  /** Between two present finalists, `x`'s wins are the ballots ranking `x` ahead of `y`. */
  lemma {:induction false} XWinsArePreferences(rankings: seq<seq<Label>>, a: Label, b: Label)
    ensures XWins(rankings, Some(a), Some(b)) == Prefers(rankings, a, b)
  {
    if |rankings| > 0 {
      XWinsArePreferences(rankings[..|rankings| - 1], a, b);
    }
  }

  /** Without a second finalist no ballot is credited to `x`: `indexOf` never goes below -1. */
  lemma {:induction false} NoRivalNoWins(rankings: seq<seq<Label>>, x: Option<Label>)
    ensures XWins(rankings, x, None) == 0
  {
    if |rankings| > 0 {
      NoRivalNoWins(rankings[..|rankings| - 1], x);
    }
  }

  /**
   * With two or more options the finalists are two different options: the
   * first goes before the second in the stable descending order of first-choice
   * counts, and the second before every other option.
   */
  lemma Top2Leads(options: seq<Label>, counts: seq<nat>)
    requires Distinct(options) && |counts| == |options| >= 2
    ensures var top2 := Top2(options, counts);
      && top2[0] in options && top2[1] in options && top2[0] != top2[1]
      && var p, q := IndexOf(options, top2[0]), IndexOf(options, top2[1]);
         && 0 <= p && 0 <= q && Outranks(counts, p, q)
         && forall j :: 0 <= j < |options| && j != p && j != q ==> Outranks(counts, q, j)
  {
    var order := StableDescending(counts);
    RankingIsStableDescending(options, counts);
    var ranking := RankingBy(options, counts);
    assert ranking[0] in ranking && ranking[1] in ranking;
    assert order[..2] == [order[0], order[1]];
    forall j | 0 <= j < |options| && j != order[0] && j != order[1]
      ensures Outranks(counts, order[1], j)
    {
      OutranksLater(counts, 1, j);
    }
  }

  /** The ballot loop: each ballot goes to `x` when `ix < iy`, and to `y` otherwise. */
  method HeadToHead(rankings: seq<seq<Label>>, x: Option<Label>, y: Option<Label>) returns (xWins: nat, yWins: nat)
    ensures xWins == XWins(rankings, x, y)
    ensures xWins + yWins == |rankings|
  {
    xWins, yWins := 0, 0;
    var k := 0;
    while k < |rankings|
      invariant 0 <= k <= |rankings|
      invariant xWins == XWins(rankings[..k], x, y) && xWins + yWins == k
    {
      var r := rankings[k];
      var ix := PositionOf(r, x);
      var iy := PositionOf(r, y);
      if ix < iy {
        xWins := xWins + 1;
      } else {
        yWins := yWins + 1;
      }
      assert rankings[..k + 1][..k] == rankings[..k];
      k := k + 1;
    }
    assert rankings[..k] == rankings;
  }

  method RunoffTop2(options: seq<Label>, rankings: seq<seq<Label>>)
    returns (top2: seq<Label>, counts: seq<nat>, xWins: nat, yWins: nat, winner: Option<Label>)
    requires Election(options, rankings) && (|rankings| > 0 ==> |options| > 0)
    ensures counts == FirstCounts(options, rankings)
    ensures top2 == Top2(options, counts)
    ensures xWins == XWins(rankings, Finalist(top2, 0), Finalist(top2, 1))
    ensures xWins + yWins == |rankings|
    ensures |options| >= 2 ==>
              && xWins == Prefers(rankings, top2[0], top2[1])
              && yWins == Prefers(rankings, top2[1], top2[0])
              && (winner.None? <==> xWins == yWins)
              && (winner == Some(top2[0]) <==> xWins > yWins)
              && (winner == Some(top2[1]) <==> yWins > xWins)
    ensures |options| < 2 ==> xWins == 0 && yWins == |rankings| && winner.None?
  {
    counts := PluralityCounts(options, rankings);
    var sorted := RankingBy(options, counts);
    top2 := sorted[..if |sorted| < 2 then |sorted| else 2];
    var x := Finalist(top2, 0);
    var y := Finalist(top2, 1);
    xWins, yWins := HeadToHead(rankings, x, y);
    winner := if xWins > yWins then x else if yWins > xWins then y else None;
    if |options| >= 2 {
      Top2Leads(options, counts);
      XWinsArePreferences(rankings, top2[0], top2[1]);
      PrefersComplement(options, rankings, top2[0], top2[1]);
    } else {
      NoRivalNoWins(rankings, x);
    }
  }

  /**
   * An option a strict majority of ballots rank first has the most first
   * choices, so it is the first finalist, and it wins the runoff outright.
   */
  lemma RunoffHonoursMajority(options: seq<Label>, rankings: seq<seq<Label>>, a: int)
    requires Election(options, rankings) && |options| >= 2 && 0 <= a < |options|
    requires IsMajority(Occurrences(FirstChoices(rankings), options[a]), |rankings|)
    ensures var top2 := Top2(options, FirstCounts(options, rankings));
      && top2[0] == options[a]
      && 2 * XWins(rankings, Some(top2[0]), Some(top2[1])) > |rankings|
  {
    var counts := FirstCounts(options, rankings);
    var top2 := Top2(options, counts);
    Top2Leads(options, counts);
    forall j | 0 <= j < |options| && j != a
      ensures counts[j] < counts[a]
    {
      OccurrencesOfTwo(FirstChoices(rankings), options[a], options[j]);
    }
    LeaderHasTopKey(options, counts);
    assert top2[0] == RankingBy(options, counts)[0];
    assert IndexOf(options, top2[0]) == a;
    PrefersCoversFirstChoices(options, rankings, options[a], top2[1]);
    XWinsArePreferences(rankings, top2[0], top2[1]);
  }
}
