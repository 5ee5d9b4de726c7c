/**
 * `coombs`: each round counts every ballot's first and last still-active
 * options; a strict majority of first choices wins, otherwise the option most
 * often ranked last is dropped (ties: first in code-unit order).
 */
module Coombs {
  import opened Ballots
  import opened Counting
  import opened Plurality
  import opened Elimination
  import opened Strings

  /** What one round records: who was still in, their first- and last-place counts, and the majority found (if any). */
  datatype CoombsRound = CoombsRound(active: seq<Label>, firstCounts: seq<nat>, lastCounts: seq<nat>, winner: Option<Label>)

  /** The round played with the options in `active` (at least one, each on every ballot). */
  function CoombsRoundOf(rankings: seq<seq<Label>>, active: seq<Label>): (round: CoombsRound)
    requires |active| > 0 && Covers(rankings, active)
    ensures round.active == active && |round.firstCounts| == |active| && |round.lastCounts| == |active|
  {
    ActiveIsMentioned(rankings, active);
    var firstCounts := Tally(active, Picks(rankings, active, Front));
    var lastCounts := Tally(active, Picks(rankings, active, Back));
    CoombsRound(active, firstCounts, lastCounts, MajorityWinner(active, firstCounts, |rankings|))
  }

  /** The options still in after a round drops its eliminee: most often last, first in code-unit order. */
  function Survivors(round: CoombsRound): seq<Label>
    requires |round.active| > 0 && |round.lastCounts| == |round.active|
  {
    Without(round.active, Eliminee(round.active, round.lastCounts, MaxCount(round.lastCounts)))
  }

  lemma SurvivorsShrink(rankings: seq<seq<Label>>, round: CoombsRound)
    requires Distinct(round.active) && Covers(rankings, round.active)
    requires |round.active| > 0 && |round.lastCounts| == |round.active|
    ensures Distinct(Survivors(round)) && Covers(rankings, Survivors(round))
    ensures |Survivors(round)| == |round.active| - 1
  {
    EliminationShrinks(rankings, round.active, round.lastCounts, MaxCount(round.lastCounts));
  }

  /** The rounds, round by round, from a given list of still-active options. */
  function CoombsFrom(rankings: seq<seq<Label>>, active: seq<Label>): Outcome<CoombsRound>
    requires Distinct(active) && Covers(rankings, active)
    decreases |active|
  {
    if |active| <= 1 then Outcome(if |active| == 1 then Some(active[0]) else None, [])
    else
      var round := CoombsRoundOf(rankings, active);
      if Truthy(round.winner) then Outcome(round.winner, [round])
      else
        SurvivorsShrink(rankings, round);
        var rest := CoombsFrom(rankings, Survivors(round));
        Outcome(rest.winner, [round] + rest.rounds)
  }

  /** One round's counts: every ballot's first and last active options, and the majority check. */
  method PlayRound(rankings: seq<seq<Label>>, active: seq<Label>) returns (round: CoombsRound)
    requires |active| > 0 && Distinct(active) && Covers(rankings, active)
    ensures round == CoombsRoundOf(rankings, active)
    ensures Sum(round.firstCounts) == |rankings| && Sum(round.lastCounts) == |rankings|
  {
    ActiveIsMentioned(rankings, active);
    var firstCounts := CountActivePicks(active, rankings, Front);
    var majWinner := MajorityWinner(active, firstCounts, |rankings|);
    var lastCounts := CountActivePicks(active, rankings, Back);
    round := CoombsRound(active, firstCounts, lastCounts, majWinner);
  }

  /** The loop's state: `rounds` played so far, and the count from `active` on completes the whole count. */
  predicate CoombsPrefix(rankings: seq<seq<Label>>, options: seq<Label>, rounds: seq<CoombsRound>, active: seq<Label>)
  {
    Distinct(options) && Covers(rankings, options) && Distinct(active) && Covers(rankings, active) &&
    CoombsFrom(rankings, options) == Outcome(CoombsFrom(rankings, active).winner, rounds + CoombsFrom(rankings, active).rounds)
  }

  lemma CoombsPrefixStart(rankings: seq<seq<Label>>, options: seq<Label>)
    requires Distinct(options) && Covers(rankings, options)
    ensures CoombsPrefix(rankings, options, [], options)
  {
    assert [] + CoombsFrom(rankings, options).rounds == CoombsFrom(rankings, options).rounds;
  }

  /** Recording one more round keeps the record a prefix of the whole count. */
  lemma CoombsRecordRound(rankings: seq<seq<Label>>, options: seq<Label>, rounds: seq<CoombsRound>, active: seq<Label>)
    requires CoombsPrefix(rankings, options, rounds, active) && |active| > 1
    ensures var round := CoombsRoundOf(rankings, active);
      if Truthy(round.winner) then
        CoombsFrom(rankings, options) == Outcome(round.winner, rounds + [round])
      else
        |Survivors(round)| < |active| && CoombsPrefix(rankings, options, rounds + [round], Survivors(round))
  {
    var round := CoombsRoundOf(rankings, active);
    if Truthy(round.winner) {
      CoombsFromStops(rankings, active);
    } else {
      CoombsFromStep(rankings, active);
      AppendCons(rounds, round, CoombsFrom(rankings, Survivors(round)).rounds);
    }
  }

  /** With at most one option left the record is complete. */
  lemma CoombsPrefixDone(rankings: seq<seq<Label>>, options: seq<Label>, rounds: seq<CoombsRound>, active: seq<Label>)
    requires CoombsPrefix(rankings, options, rounds, active) && |active| <= 1
    ensures CoombsFrom(rankings, options) == Outcome(if |active| > 0 then Some(active[0]) else None, rounds)
  {
    assert rounds + [] == rounds;
  }

  method Coombs(options: seq<Label>, rankings: seq<seq<Label>>) returns (winner: Option<Label>, rounds: seq<CoombsRound>)
    requires Election(options, rankings)
    ensures Covers(rankings, options)
    ensures Outcome(winner, rounds) == CoombsFrom(rankings, options)
  {
    ElectionCovers(options, rankings, options);
    CoombsPrefixStart(rankings, options);
    var active := options;
    rounds := [];
    while |active| > 1
      invariant Distinct(active) && Covers(rankings, active)
      invariant CoombsPrefix(rankings, options, rounds, active)
      decreases |active|
    {
      var round := PlayRound(rankings, active);
      CoombsRecordRound(rankings, options, rounds, active);
      rounds := rounds + [round];
      if Truthy(round.winner) {
        return round.winner, rounds;
      }
      active := DropFirstTied(active, round.lastCounts, MaxCount(round.lastCounts));
    }
    CoombsPrefixDone(rankings, options, rounds, active);
    winner := if |active| > 0 then Some(active[0]) else None;
  }

  /**
   * What a round's record holds: one first-active and one last-active vote per
   * ballot, each tally adding up to the number of ballots, and the first option
   * holding a strict majority of first choices.
   */
  lemma CoombsRoundCounts(rankings: seq<seq<Label>>, active: seq<Label>)
    requires |active| > 0 && Distinct(active) && Covers(rankings, active)
    ensures AllMention(rankings, active)
    ensures CoombsRoundOf(rankings, active).firstCounts == Tally(active, Picks(rankings, active, Front))
    ensures CoombsRoundOf(rankings, active).lastCounts == Tally(active, Picks(rankings, active, Back))
    ensures Sum(CoombsRoundOf(rankings, active).firstCounts) == |rankings|
    ensures Sum(CoombsRoundOf(rankings, active).lastCounts) == |rankings|
    ensures CoombsRoundOf(rankings, active).winner
         == MajorityWinner(active, CoombsRoundOf(rankings, active).firstCounts, |rankings|)
  {
    ActiveIsMentioned(rankings, active);
    TallyTotal(active, Picks(rankings, active, Front));
    TallyTotal(active, Picks(rankings, active, Back));
  }

  /** A count from two or more options plays a first round on exactly those options. */
  lemma CoombsFirstRound(rankings: seq<seq<Label>>, active: seq<Label>)
    requires Distinct(active) && Covers(rankings, active)
    ensures |active| <= 1 <==> CoombsFrom(rankings, active).rounds == []
    ensures |active| > 1 ==> CoombsFrom(rankings, active).rounds[0] == CoombsRoundOf(rankings, active)
  {
  }

  /** A round with a truthy majority is the last one, and its majority is the winner. */
  lemma CoombsFromStops(rankings: seq<seq<Label>>, active: seq<Label>)
    requires Distinct(active) && Covers(rankings, active) && |active| > 1
    requires Truthy(CoombsRoundOf(rankings, active).winner)
    ensures CoombsFrom(rankings, active) == Outcome(CoombsRoundOf(rankings, active).winner, [CoombsRoundOf(rankings, active)])
  {
  }

  /** A round without a truthy majority is followed by the count over its survivors. */
  lemma CoombsFromStep(rankings: seq<seq<Label>>, active: seq<Label>)
    requires Distinct(active) && Covers(rankings, active) && |active| > 1
    requires !Truthy(CoombsRoundOf(rankings, active).winner)
    ensures Distinct(Survivors(CoombsRoundOf(rankings, active)))
    ensures Covers(rankings, Survivors(CoombsRoundOf(rankings, active)))
    ensures |Survivors(CoombsRoundOf(rankings, active))| == |active| - 1
    ensures CoombsFrom(rankings, active)
         == Outcome(CoombsFrom(rankings, Survivors(CoombsRoundOf(rankings, active))).winner,
                    [CoombsRoundOf(rankings, active)] + CoombsFrom(rankings, Survivors(CoombsRoundOf(rankings, active))).rounds)
  {
    SurvivorsShrink(rankings, CoombsRoundOf(rankings, active));
  }

  /** A round as `coombs` plays it: two or more distinct options, each on every ballot, and the round they give. */
  predicate ValidCoombsRound(rankings: seq<seq<Label>>, round: CoombsRound)
  {
    |round.active| >= 2 && Distinct(round.active) && Covers(rankings, round.active) &&
    round == CoombsRoundOf(rankings, round.active)
  }

  /** Every recorded round is a round played as above. */
  lemma {:induction false} CoombsRoundAt(rankings: seq<seq<Label>>, active: seq<Label>, i: int)
    requires Distinct(active) && Covers(rankings, active)
    requires 0 <= i < |CoombsFrom(rankings, active).rounds|
    ensures ValidCoombsRound(rankings, CoombsFrom(rankings, active).rounds[i])
    decreases |active|, 1
  {
    if i == 0 {
      CoombsFirstRound(rankings, active);
    } else {
      CoombsLaterRound(rankings, active, i);
    }
  }

  lemma {:induction false} CoombsLaterRound(rankings: seq<seq<Label>>, active: seq<Label>, i: int)
    requires Distinct(active) && Covers(rankings, active)
    requires 0 < i < |CoombsFrom(rankings, active).rounds|
    ensures ValidCoombsRound(rankings, CoombsFrom(rankings, active).rounds[i])
    decreases |active|, 0
  {
    CoombsFromStep(rankings, active);
    var next := Survivors(CoombsRoundOf(rankings, active));
    CoombsRoundAt(rankings, next, i - 1);
    ValidAtCons(rankings, CoombsFrom(rankings, active).rounds, CoombsRoundOf(rankings, active), CoombsFrom(rankings, next).rounds, i);
  }

  lemma ValidAtCons(rankings: seq<seq<Label>>, all: seq<CoombsRound>, round: CoombsRound, rest: seq<CoombsRound>, i: int)
    requires all == [round] + rest && 0 < i < |all|
    requires ValidCoombsRound(rankings, rest[i - 1])
    ensures ValidCoombsRound(rankings, all[i])
  {
    assert all[i] == rest[i - 1];
  }

  /** Every recorded round's two tallies each add up to the number of ballots. */
  lemma CoombsRoundsTallied(rankings: seq<seq<Label>>, active: seq<Label>, i: int)
    requires Distinct(active) && Covers(rankings, active)
    requires 0 <= i < |CoombsFrom(rankings, active).rounds|
    ensures Sum(CoombsFrom(rankings, active).rounds[i].firstCounts) == |rankings|
    ensures Sum(CoombsFrom(rankings, active).rounds[i].lastCounts) == |rankings|
  {
    CoombsRoundAt(rankings, active, i);
    CoombsRoundCounts(rankings, CoombsFrom(rankings, active).rounds[i].active);
  }

  /** Round `b` follows round `a`: `a` found no truthy majority, and `b` plays its survivors. */
  predicate Linked(a: CoombsRound, b: CoombsRound)
  {
    |a.active| > 0 && |a.lastCounts| == |a.active| && !Truthy(a.winner) && b.active == Survivors(a)
  }

  /** Every round of `rounds` but the last is followed by the round its survivors play. */
  predicate Chained(rounds: seq<CoombsRound>)
  {
    forall j :: 0 <= j < |rounds| - 1 ==> Linked(rounds[j], rounds[j + 1])
  }

  lemma ChainedCons(round: CoombsRound, rest: seq<CoombsRound>)
    requires Chained(rest) && (|rest| > 0 ==> Linked(round, rest[0]))
    ensures Chained([round] + rest)
  {
    var all := [round] + rest;
    forall j | 0 <= j < |all| - 1
      ensures Linked(all[j], all[j + 1])
    {
      if j > 0 {
        assert all[j] == rest[j - 1] && all[j + 1] == rest[j];
      }
    }
  }

  /**
   * Consecutive rounds: a round that did not end the count found no truthy
   * majority, and the next round plays its options less its eliminee.
   */
  lemma {:induction false} CoombsChained(rankings: seq<seq<Label>>, active: seq<Label>)
    requires Distinct(active) && Covers(rankings, active)
    ensures Chained(CoombsFrom(rankings, active).rounds)
    decreases |active|
  {
    if |active| > 1 {
      if Truthy(CoombsRoundOf(rankings, active).winner) {
        CoombsFromStops(rankings, active);
      } else {
        CoombsChainedStep(rankings, active);
      }
    }
  }

  lemma {:induction false} CoombsChainedStep(rankings: seq<seq<Label>>, active: seq<Label>)
    requires Distinct(active) && Covers(rankings, active) && |active| > 1
    requires !Truthy(CoombsRoundOf(rankings, active).winner)
    ensures Chained(CoombsFrom(rankings, active).rounds)
    decreases |active|, 0
  {
    var round := CoombsRoundOf(rankings, active);
    CoombsFromStep(rankings, active);
    var next := Survivors(round);
    CoombsChained(rankings, next);
    CoombsFirstRound(rankings, next);
    ChainedCons(round, CoombsFrom(rankings, next).rounds);
  }

  lemma CoombsChainAt(rankings: seq<seq<Label>>, active: seq<Label>, i: int)
    requires Distinct(active) && Covers(rankings, active)
    requires 0 <= i < |CoombsFrom(rankings, active).rounds| - 1
    ensures Linked(CoombsFrom(rankings, active).rounds[i], CoombsFrom(rankings, active).rounds[i + 1])
  {
    CoombsChained(rankings, active);
  }

  /** Each round that does not end the count removes exactly one option. */
  lemma CoombsRemovesOne(rankings: seq<seq<Label>>, active: seq<Label>, i: int)
    requires Distinct(active) && Covers(rankings, active)
    requires 0 <= i < |CoombsFrom(rankings, active).rounds| - 1
    ensures var rounds := CoombsFrom(rankings, active).rounds;
      |rounds[i + 1].active| == |rounds[i].active| - 1 &&
      forall x :: x in rounds[i + 1].active ==> x in rounds[i].active
  {
    CoombsRoundAt(rankings, active, i);
    CoombsChainAt(rankings, active, i);
    SurvivorsShrink(rankings, CoombsFrom(rankings, active).rounds[i]);
  }

  /**
   * The option a round eliminates is active, was ranked last most often, and
   * comes first in code-unit order among the options tied at that count.
   */
  lemma SurvivorsDropMostLast(round: CoombsRound)
    requires |round.active| > 0 && |round.lastCounts| == |round.active|
    ensures var e := Eliminee(round.active, round.lastCounts, MaxCount(round.lastCounts));
      && e in round.active
      && Survivors(round) == Without(round.active, e)
      && (exists j :: 0 <= j < |round.active| && round.active[j] == e &&
            forall k :: 0 <= k < |round.lastCounts| ==> round.lastCounts[k] <= round.lastCounts[j])
      && (forall k :: 0 <= k < |round.active| && round.lastCounts[k] == MaxCount(round.lastCounts) && round.active[k] != e ==>
            LexLess(e, round.active[k]))
  {
    ElimineeIsFirstOfTied(round.active, round.lastCounts, MaxCount(round.lastCounts));
  }

  /**
   * How a count ends: with the last round's truthy majority, or, when that
   * round found none, with the one option its elimination left.
   */
  predicate EndsWell(o: Outcome<CoombsRound>)
  {
    |o.rounds| > 0 &&
    var last := o.rounds[|o.rounds| - 1];
    |last.active| > 0 && |last.lastCounts| == |last.active| &&
    (Truthy(last.winner) ==> o.winner == last.winner) &&
    (!Truthy(last.winner) ==> |last.active| == 2 && |Survivors(last)| == 1 && o.winner == Some(Survivors(last)[0]))
  }

  /** Every count that plays a round ends as above. */
  lemma {:induction false} CoombsEnding(rankings: seq<seq<Label>>, active: seq<Label>)
    requires Distinct(active) && Covers(rankings, active) && |active| >= 2
    ensures EndsWell(CoombsFrom(rankings, active))
    decreases |active|, 1
  {
    if Truthy(CoombsRoundOf(rankings, active).winner) {
      CoombsFromStops(rankings, active);
    } else if |active| == 2 {
      CoombsFromStep(rankings, active);
    } else {
      CoombsEndingLater(rankings, active);
    }
  }

  lemma {:induction false} CoombsEndingLater(rankings: seq<seq<Label>>, active: seq<Label>)
    requires Distinct(active) && Covers(rankings, active) && |active| > 2
    requires !Truthy(CoombsRoundOf(rankings, active).winner)
    ensures EndsWell(CoombsFrom(rankings, active))
    decreases |active|, 0
  {
    CoombsFromStep(rankings, active);
    var next := Survivors(CoombsRoundOf(rankings, active));
    CoombsEnding(rankings, next);
    EndsAtCons(CoombsFrom(rankings, active), CoombsRoundOf(rankings, active), CoombsFrom(rankings, next));
  }

  lemma EndsAtCons(all: Outcome<CoombsRound>, round: CoombsRound, rest: Outcome<CoombsRound>)
    requires all == Outcome(rest.winner, [round] + rest.rounds)
    requires EndsWell(rest)
    ensures EndsWell(all)
  {
    assert all.rounds[|all.rounds| - 1] == rest.rounds[|rest.rounds| - 1];
  }

  /** The winner is one of the options still in, there is one whenever any option is, and rounds are fewer than options. */
  lemma {:induction false} CoombsWinnerIsActive(rankings: seq<seq<Label>>, active: seq<Label>)
    requires Distinct(active) && Covers(rankings, active)
    ensures var o := CoombsFrom(rankings, active);
      (o.winner.Some? <==> |active| > 0) &&
      (o.winner.Some? ==> o.winner.value in active) &&
      (|active| > 0 ==> |o.rounds| < |active|)
    decreases |active|
  {
    if |active| > 1 {
      var round := CoombsRoundOf(rankings, active);
      if Truthy(round.winner) {
        CoombsFromStops(rankings, active);
        assert exists i :: 0 <= i < |round.firstCounts| && active[i] == round.winner.value;
      } else {
        CoombsFromStep(rankings, active);
        CoombsWinnerIsActive(rankings, Survivors(round));
      }
    }
  }

  /**
   * An option (with a non-empty label) that a strict majority of ballots rank
   * first wins in the very first round, before any elimination by last places.
   */
  lemma CoombsHonoursMajority(options: seq<Label>, rankings: seq<seq<Label>>, a: int)
    requires Election(options, rankings) && |options| >= 2 && 0 <= a < |options| && options[a] != ""
    requires IsMajority(Occurrences(FirstChoices(rankings), options[a]), |rankings|)
    ensures Covers(rankings, options)
    ensures CoombsFrom(rankings, options).winner == Some(options[a])
    ensures |CoombsFrom(rankings, options).rounds| == 1
  {
    ElectionCovers(options, rankings, options);
    CoombsRoundCounts(rankings, options);
    var picks := Picks(rankings, options, Front);
    forall k | 0 <= k < |rankings|
      ensures picks[k] == FirstChoices(rankings)[k]
    {
      FrontPickIsFirstChoice(options, rankings[k]);
    }
    assert picks == FirstChoices(rankings);
    var round := CoombsRoundOf(rankings, options);
    var counts := round.firstCounts;
    assert IsMajority(counts[a], |rankings|);
    var j :| 0 <= j < |counts| && options[j] == round.winner.value && IsMajority(counts[j], |rankings|);
    MajorityIsUnique(options, picks, a, j);
    CoombsFromStops(rankings, options);
  }
}
