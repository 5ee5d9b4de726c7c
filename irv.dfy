/**
 * `irv` (instant-runoff, the alternative vote): each round counts every
 * ballot for its first still-active option; a strict majority wins, otherwise
 * the option with the fewest votes is dropped (ties: first in code-unit order).
 */
module Irv {
  import opened Ballots
  import opened Counting
  import opened Plurality
  import opened Elimination
  import opened Strings

  /** What one round records: who was still in, their counts, and the majority found (if any). */
  datatype IrvRound = IrvRound(active: seq<Label>, counts: seq<nat>, winner: Option<Label>)

  /** The round played with the options in `active` (at least one, each on every ballot). */
  function IrvRoundOf(rankings: seq<seq<Label>>, active: seq<Label>): (round: IrvRound)
    requires |active| > 0 && Covers(rankings, active)
    ensures round.active == active && |round.counts| == |active|
  {
    ActiveIsMentioned(rankings, active);
    var counts := Tally(active, Picks(rankings, active, Front));
    IrvRound(active, counts, MajorityWinner(active, counts, |rankings|))
  }

  /** The options still in after a round drops its eliminee: the fewest votes, first in code-unit order. */
  function Survivors(round: IrvRound): seq<Label>
    requires |round.active| > 0 && |round.counts| == |round.active|
  {
    Without(round.active, Eliminee(round.active, round.counts, MinCount(round.counts)))
  }

  lemma SurvivorsShrink(rankings: seq<seq<Label>>, round: IrvRound)
    requires Distinct(round.active) && Covers(rankings, round.active)
    requires |round.active| > 0 && |round.counts| == |round.active|
    ensures Distinct(Survivors(round)) && Covers(rankings, Survivors(round))
    ensures |Survivors(round)| == |round.active| - 1
  {
    EliminationShrinks(rankings, round.active, round.counts, MinCount(round.counts));
  }

  /** The rounds, round by round, from a given list of still-active options. */
  function IrvFrom(rankings: seq<seq<Label>>, active: seq<Label>): Outcome<IrvRound>
    requires Distinct(active) && Covers(rankings, active)
    decreases |active|
  {
    if |active| <= 1 then Outcome(if |active| == 1 then Some(active[0]) else None, [])
    else
      var round := IrvRoundOf(rankings, active);
      if Truthy(round.winner) then Outcome(round.winner, [round])
      else
        SurvivorsShrink(rankings, round);
        var rest := IrvFrom(rankings, Survivors(round));
        Outcome(rest.winner, [round] + rest.rounds)
  }

  /** One round's count: every ballot's first active option, and the majority check. */
  method PlayRound(rankings: seq<seq<Label>>, active: seq<Label>) returns (round: IrvRound)
    requires |active| > 0 && Distinct(active) && Covers(rankings, active)
    ensures round == IrvRoundOf(rankings, active)
    ensures Sum(round.counts) == |rankings|
  {
    ActiveIsMentioned(rankings, active);
    var counts := CountActivePicks(active, rankings, Front);
    var w := MajorityWinner(active, counts, |rankings|);
    round := IrvRound(active, counts, w);
  }

  /** The loop's state: `rounds` played so far, and the count from `active` on completes the whole count. */
  predicate IrvPrefix(rankings: seq<seq<Label>>, options: seq<Label>, rounds: seq<IrvRound>, active: seq<Label>)
  {
    Distinct(options) && Covers(rankings, options) && Distinct(active) && Covers(rankings, active) &&
    IrvFrom(rankings, options) == Outcome(IrvFrom(rankings, active).winner, rounds + IrvFrom(rankings, active).rounds)
  }

  lemma IrvPrefixStart(rankings: seq<seq<Label>>, options: seq<Label>)
    requires Distinct(options) && Covers(rankings, options)
    ensures IrvPrefix(rankings, options, [], options)
  {
    assert [] + IrvFrom(rankings, options).rounds == IrvFrom(rankings, options).rounds;
  }

  /** Recording one more round keeps the record a prefix of the whole count. */
  lemma IrvRecordRound(rankings: seq<seq<Label>>, options: seq<Label>, rounds: seq<IrvRound>, active: seq<Label>)
    requires IrvPrefix(rankings, options, rounds, active) && |active| > 1
    ensures var round := IrvRoundOf(rankings, active);
      if Truthy(round.winner) then
        IrvFrom(rankings, options) == Outcome(round.winner, rounds + [round])
      else
        |Survivors(round)| < |active| && IrvPrefix(rankings, options, rounds + [round], Survivors(round))
  {
    var round := IrvRoundOf(rankings, active);
    if Truthy(round.winner) {
      IrvFromStops(rankings, active);
    } else {
      IrvFromStep(rankings, active);
      AppendCons(rounds, round, IrvFrom(rankings, Survivors(round)).rounds);
    }
  }

  /** With at most one option left the record is complete. */
  lemma IrvPrefixDone(rankings: seq<seq<Label>>, options: seq<Label>, rounds: seq<IrvRound>, active: seq<Label>)
    requires IrvPrefix(rankings, options, rounds, active) && |active| <= 1
    ensures IrvFrom(rankings, options) == Outcome(if |active| > 0 then Some(active[0]) else None, rounds)
  {
    assert rounds + [] == rounds;
  }

  method Irv(options: seq<Label>, rankings: seq<seq<Label>>) returns (winner: Option<Label>, rounds: seq<IrvRound>)
    requires Election(options, rankings)
    ensures Covers(rankings, options)
    ensures Outcome(winner, rounds) == IrvFrom(rankings, options)
  {
    ElectionCovers(options, rankings, options);
    IrvPrefixStart(rankings, options);
    var active := options;
    rounds := [];
    while |active| > 1
      invariant Distinct(active) && Covers(rankings, active)
      invariant IrvPrefix(rankings, options, rounds, active)
      decreases |active|
    {
      var round := PlayRound(rankings, active);
      IrvRecordRound(rankings, options, rounds, active);
      rounds := rounds + [round];
      if Truthy(round.winner) {
        return round.winner, rounds;
      }
      active := DropFirstTied(active, round.counts, MinCount(round.counts));
    }
    IrvPrefixDone(rankings, options, rounds, active);
    winner := if |active| > 0 then Some(active[0]) else None;
  }

  /**
   * What a round's record holds: one first-active vote per ballot, counts that
   * add up to the number of ballots, and the first option holding a strict
   * majority of them.
   */
  lemma IrvRoundCounts(rankings: seq<seq<Label>>, active: seq<Label>)
    requires |active| > 0 && Distinct(active) && Covers(rankings, active)
    ensures AllMention(rankings, active)
    ensures IrvRoundOf(rankings, active).counts == Tally(active, Picks(rankings, active, Front))
    ensures Sum(IrvRoundOf(rankings, active).counts) == |rankings|
    ensures IrvRoundOf(rankings, active).winner
         == MajorityWinner(active, IrvRoundOf(rankings, active).counts, |rankings|)
  {
    ActiveIsMentioned(rankings, active);
    TallyTotal(active, Picks(rankings, active, Front));
  }

  /** A count from two or more options plays a first round on exactly those options. */
  lemma IrvFirstRound(rankings: seq<seq<Label>>, active: seq<Label>)
    requires Distinct(active) && Covers(rankings, active)
    ensures |active| <= 1 <==> IrvFrom(rankings, active).rounds == []
    ensures |active| > 1 ==> IrvFrom(rankings, active).rounds[0] == IrvRoundOf(rankings, active)
  {
  }

  /** A round with a truthy majority is the last one, and its majority is the winner. */
  lemma IrvFromStops(rankings: seq<seq<Label>>, active: seq<Label>)
    requires Distinct(active) && Covers(rankings, active) && |active| > 1
    requires Truthy(IrvRoundOf(rankings, active).winner)
    ensures IrvFrom(rankings, active) == Outcome(IrvRoundOf(rankings, active).winner, [IrvRoundOf(rankings, active)])
  {
  }

  /** A round without a truthy majority is followed by the count over its survivors. */
  lemma IrvFromStep(rankings: seq<seq<Label>>, active: seq<Label>)
    requires Distinct(active) && Covers(rankings, active) && |active| > 1
    requires !Truthy(IrvRoundOf(rankings, active).winner)
    ensures Distinct(Survivors(IrvRoundOf(rankings, active)))
    ensures Covers(rankings, Survivors(IrvRoundOf(rankings, active)))
    ensures |Survivors(IrvRoundOf(rankings, active))| == |active| - 1
    ensures IrvFrom(rankings, active)
         == Outcome(IrvFrom(rankings, Survivors(IrvRoundOf(rankings, active))).winner,
                    [IrvRoundOf(rankings, active)] + IrvFrom(rankings, Survivors(IrvRoundOf(rankings, active))).rounds)
  {
    SurvivorsShrink(rankings, IrvRoundOf(rankings, active));
  }

  /** A round as `irv` plays it: two or more distinct options, each on every ballot, and the round they give. */
  predicate ValidIrvRound(rankings: seq<seq<Label>>, round: IrvRound)
  {
    |round.active| >= 2 && Distinct(round.active) && Covers(rankings, round.active) &&
    round == IrvRoundOf(rankings, round.active)
  }

  /** Every recorded round is a round played as above. */
  lemma {:induction false} IrvRoundAt(rankings: seq<seq<Label>>, active: seq<Label>, i: int)
    requires Distinct(active) && Covers(rankings, active)
    requires 0 <= i < |IrvFrom(rankings, active).rounds|
    ensures ValidIrvRound(rankings, IrvFrom(rankings, active).rounds[i])
    decreases |active|, 1
  {
    if i == 0 {
      IrvFirstRound(rankings, active);
    } else {
      IrvLaterRound(rankings, active, i);
    }
  }

  lemma {:induction false} IrvLaterRound(rankings: seq<seq<Label>>, active: seq<Label>, i: int)
    requires Distinct(active) && Covers(rankings, active)
    requires 0 < i < |IrvFrom(rankings, active).rounds|
    ensures ValidIrvRound(rankings, IrvFrom(rankings, active).rounds[i])
    decreases |active|, 0
  {
    IrvFromStep(rankings, active);
    var next := Survivors(IrvRoundOf(rankings, active));
    IrvRoundAt(rankings, next, i - 1);
    ValidAtCons(rankings, IrvFrom(rankings, active).rounds, IrvRoundOf(rankings, active), IrvFrom(rankings, next).rounds, i);
  }

  lemma ValidAtCons(rankings: seq<seq<Label>>, all: seq<IrvRound>, round: IrvRound, rest: seq<IrvRound>, i: int)
    requires all == [round] + rest && 0 < i < |all|
    requires ValidIrvRound(rankings, rest[i - 1])
    ensures ValidIrvRound(rankings, all[i])
  {
    assert all[i] == rest[i - 1];
  }

  /** Every recorded round's counts add up to the number of ballots. */
  lemma IrvRoundsTallied(rankings: seq<seq<Label>>, active: seq<Label>, i: int)
    requires Distinct(active) && Covers(rankings, active)
    requires 0 <= i < |IrvFrom(rankings, active).rounds|
    ensures Sum(IrvFrom(rankings, active).rounds[i].counts) == |rankings|
  {
    IrvRoundAt(rankings, active, i);
    IrvRoundCounts(rankings, IrvFrom(rankings, active).rounds[i].active);
  }

  /** Round `b` follows round `a`: `a` found no truthy majority, and `b` plays its survivors. */
  predicate Linked(a: IrvRound, b: IrvRound)
  {
    |a.active| > 0 && |a.counts| == |a.active| && !Truthy(a.winner) && b.active == Survivors(a)
  }

  /** Every round of `rounds` but the last is followed by the round its survivors play. */
  predicate Chained(rounds: seq<IrvRound>)
  {
    forall j :: 0 <= j < |rounds| - 1 ==> Linked(rounds[j], rounds[j + 1])
  }

  lemma ChainedCons(round: IrvRound, rest: seq<IrvRound>)
    requires Chained(rest) && (|rest| > 0 ==> Linked(round, rest[0]))
    ensures Chained([round] + rest)
  {
    var all := [round] + rest;
    forall j | 0 <= j < |all| - 1
      ensures Linked(all[j], all[j + 1])
    {
      if j > 0 {
        assert all[j] == rest[j - 1] && all[j + 1] == rest[j];
      }
    }
  }

  /**
   * Consecutive rounds: a round that did not end the count found no truthy
   * majority, and the next round plays its options less its eliminee.
   */
  lemma {:induction false} IrvChained(rankings: seq<seq<Label>>, active: seq<Label>)
    requires Distinct(active) && Covers(rankings, active)
    ensures Chained(IrvFrom(rankings, active).rounds)
    decreases |active|
  {
    if |active| > 1 {
      if Truthy(IrvRoundOf(rankings, active).winner) {
        IrvFromStops(rankings, active);
      } else {
        IrvChainedStep(rankings, active);
      }
    }
  }

  lemma {:induction false} IrvChainedStep(rankings: seq<seq<Label>>, active: seq<Label>)
    requires Distinct(active) && Covers(rankings, active) && |active| > 1
    requires !Truthy(IrvRoundOf(rankings, active).winner)
    ensures Chained(IrvFrom(rankings, active).rounds)
    decreases |active|, 0
  {
    var round := IrvRoundOf(rankings, active);
    IrvFromStep(rankings, active);
    var next := Survivors(round);
    IrvChained(rankings, next);
    IrvFirstRound(rankings, next);
    ChainedCons(round, IrvFrom(rankings, next).rounds);
  }

  lemma IrvChainAt(rankings: seq<seq<Label>>, active: seq<Label>, i: int)
    requires Distinct(active) && Covers(rankings, active)
    requires 0 <= i < |IrvFrom(rankings, active).rounds| - 1
    ensures Linked(IrvFrom(rankings, active).rounds[i], IrvFrom(rankings, active).rounds[i + 1])
  {
    IrvChained(rankings, active);
  }

  /** Each round that does not end the count removes exactly one option. */
  lemma IrvRemovesOne(rankings: seq<seq<Label>>, active: seq<Label>, i: int)
    requires Distinct(active) && Covers(rankings, active)
    requires 0 <= i < |IrvFrom(rankings, active).rounds| - 1
    ensures var rounds := IrvFrom(rankings, active).rounds;
      |rounds[i + 1].active| == |rounds[i].active| - 1 &&
      forall x :: x in rounds[i + 1].active ==> x in rounds[i].active
  {
    IrvRoundAt(rankings, active, i);
    IrvChainAt(rankings, active, i);
    SurvivorsShrink(rankings, IrvFrom(rankings, active).rounds[i]);
  }

  /**
   * The option a round eliminates is active, received the fewest votes, and
   * comes first in code-unit order among the options tied at that count.
   */
  lemma SurvivorsDropFewest(round: IrvRound)
    requires |round.active| > 0 && |round.counts| == |round.active|
    ensures var e := Eliminee(round.active, round.counts, MinCount(round.counts));
      && e in round.active
      && Survivors(round) == Without(round.active, e)
      && (exists j :: 0 <= j < |round.active| && round.active[j] == e &&
            forall k :: 0 <= k < |round.counts| ==> round.counts[j] <= round.counts[k])
      && (forall k :: 0 <= k < |round.active| && round.counts[k] == MinCount(round.counts) && round.active[k] != e ==>
            LexLess(e, round.active[k]))
  {
    ElimineeIsFirstOfTied(round.active, round.counts, MinCount(round.counts));
  }

  /**
   * How a count ends: with the last round's truthy majority, or, when that
   * round found none, with the one option its elimination left.
   */
  predicate EndsWell(o: Outcome<IrvRound>)
  {
    |o.rounds| > 0 &&
    var last := o.rounds[|o.rounds| - 1];
    |last.active| > 0 && |last.counts| == |last.active| &&
    (Truthy(last.winner) ==> o.winner == last.winner) &&
    (!Truthy(last.winner) ==> |last.active| == 2 && |Survivors(last)| == 1 && o.winner == Some(Survivors(last)[0]))
  }

  /** Every count that plays a round ends as above. */
  lemma {:induction false} IrvEnding(rankings: seq<seq<Label>>, active: seq<Label>)
    requires Distinct(active) && Covers(rankings, active) && |active| >= 2
    ensures EndsWell(IrvFrom(rankings, active))
    decreases |active|, 1
  {
    if Truthy(IrvRoundOf(rankings, active).winner) {
      IrvFromStops(rankings, active);
    } else if |active| == 2 {
      IrvFromStep(rankings, active);
    } else {
      IrvEndingLater(rankings, active);
    }
  }

  lemma {:induction false} IrvEndingLater(rankings: seq<seq<Label>>, active: seq<Label>)
    requires Distinct(active) && Covers(rankings, active) && |active| > 2
    requires !Truthy(IrvRoundOf(rankings, active).winner)
    ensures EndsWell(IrvFrom(rankings, active))
    decreases |active|, 0
  {
    IrvFromStep(rankings, active);
    var next := Survivors(IrvRoundOf(rankings, active));
    IrvEnding(rankings, next);
    EndsAtCons(IrvFrom(rankings, active), IrvRoundOf(rankings, active), IrvFrom(rankings, next));
  }

  lemma EndsAtCons(all: Outcome<IrvRound>, round: IrvRound, rest: Outcome<IrvRound>)
    requires all == Outcome(rest.winner, [round] + rest.rounds)
    requires EndsWell(rest)
    ensures EndsWell(all)
  {
    assert all.rounds[|all.rounds| - 1] == rest.rounds[|rest.rounds| - 1];
  }

  /** The winner is one of the options still in, there is one whenever any option is, and rounds are fewer than options. */
  lemma {:induction false} IrvWinnerIsActive(rankings: seq<seq<Label>>, active: seq<Label>)
    requires Distinct(active) && Covers(rankings, active)
    ensures var o := IrvFrom(rankings, active);
      (o.winner.Some? <==> |active| > 0) &&
      (o.winner.Some? ==> o.winner.value in active) &&
      (|active| > 0 ==> |o.rounds| < |active|)
    decreases |active|
  {
    if |active| > 1 {
      var round := IrvRoundOf(rankings, active);
      if Truthy(round.winner) {
        IrvFromStops(rankings, active);
        assert exists i :: 0 <= i < |round.counts| && active[i] == round.winner.value;
      } else {
        IrvFromStep(rankings, active);
        IrvWinnerIsActive(rankings, Survivors(round));
      }
    }
  }

  /**
   * An option (with a non-empty label) that a strict majority of ballots rank
   * first wins in the very first round.
   */
  lemma IrvHonoursMajority(options: seq<Label>, rankings: seq<seq<Label>>, a: int)
    requires Election(options, rankings) && |options| >= 2 && 0 <= a < |options| && options[a] != ""
    requires IsMajority(Occurrences(FirstChoices(rankings), options[a]), |rankings|)
    ensures Covers(rankings, options)
    ensures IrvFrom(rankings, options).winner == Some(options[a])
    ensures |IrvFrom(rankings, options).rounds| == 1
  {
    ElectionCovers(options, rankings, options);
    IrvRoundCounts(rankings, options);
    var picks := Picks(rankings, options, Front);
    forall k | 0 <= k < |rankings|
      ensures picks[k] == FirstChoices(rankings)[k]
    {
      FrontPickIsFirstChoice(options, rankings[k]);
    }
    assert picks == FirstChoices(rankings);
    var round := IrvRoundOf(rankings, options);
    var counts := round.counts;
    assert IsMajority(counts[a], |rankings|);
    var j :| 0 <= j < |counts| && options[j] == round.winner.value && IsMajority(counts[j], |rankings|);
    MajorityIsUnique(options, picks, a, j);
    IrvFromStops(rankings, options);
  }
}
