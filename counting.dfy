/**
 * Vote tallies: one pick per ballot (its first choice, its first still-active
 * option, its last still-active option), counted per option. Counts are kept
 * as a sequence aligned with the options they count.
 */
module Counting {
  import opened Ballots

  /** How many of the picks are `x`. */
  function Occurrences(picks: seq<Label>, x: Label): nat
  {
    if |picks| == 0 then 0
    else Occurrences(picks[..|picks| - 1], x) + (if picks[|picks| - 1] == x then 1 else 0)
  }

  /** The count of each candidate among the picks, in candidate order. */
  function Tally(candidates: seq<Label>, picks: seq<Label>): seq<nat>
  {
    seq(|candidates|, i requires 0 <= i < |candidates| => Occurrences(picks, candidates[i]))
  }

  /** One more pick for `x` adds one to the count of `x` and changes no other count. */
  lemma TallyStep(candidates: seq<Label>, picks: seq<Label>, x: Label)
    requires Distinct(candidates) && x in candidates
    ensures IndexOf(candidates, x) >= 0
    ensures Tally(candidates, picks + [x])
         == Tally(candidates, picks)[IndexOf(candidates, x) := Tally(candidates, picks)[IndexOf(candidates, x)] + 1]
  {
    var k := IndexOf(candidates, x);
    assert (picks + [x])[..|picks|] == picks;
    forall i | 0 <= i < |candidates| && i != k
      ensures candidates[i] != x
    {
      IndexOfDistinct(candidates, i);
    }
  }

  /** Every pick goes to some candidate, so the counts add up to the number of picks. */
  lemma {:induction false} TallyTotal(candidates: seq<Label>, picks: seq<Label>)
    requires Distinct(candidates)
    requires forall i :: 0 <= i < |picks| ==> picks[i] in candidates
    ensures Sum(Tally(candidates, picks)) == |picks|
  {
    if |picks| == 0 {
      assert Tally(candidates, picks) == seq(|candidates|, i => 0);
      AllZeroSum(|candidates|);
    } else {
      var p := picks[..|picks| - 1];
      var x := picks[|picks| - 1];
      assert picks == p + [x];
      TallyTotal(candidates, p);
      TallyStep(candidates, p, x);
      SumUpdate(Tally(candidates, p), IndexOf(candidates, x), 1);
    }
  }

  lemma {:induction false} AllZeroSum(n: nat)
    ensures Sum(seq(n, i => 0)) == 0
  {
    if n > 0 {
      assert seq(n, i => 0)[..n - 1] == seq(n - 1, i => 0);
      AllZeroSum(n - 1);
    }
  }

  /** Two different labels cannot together receive more picks than there are. */
  lemma {:induction false} OccurrencesOfTwo(picks: seq<Label>, a: Label, b: Label)
    requires a != b
    ensures Occurrences(picks, a) + Occurrences(picks, b) <= |picks|
  {
    if |picks| > 0 {
      OccurrencesOfTwo(picks[..|picks| - 1], a, b);
    }
  }

  /** A strict majority of `total`: `count > total / 2` in the source, exactly `2 * count > total` on integers. */
  predicate IsMajority(count: int, total: int)
  {
    2 * count > total
  }

  /**
   * `candidates.find(o => counts[o] > total / 2) ?? null`: the first candidate,
   * in the given order, whose count is a strict majority, if any.
   */
  function MajorityWinner(candidates: seq<Label>, counts: seq<nat>, total: nat): (w: Option<Label>)
    requires |counts| == |candidates|
    ensures w.None? <==> forall i :: 0 <= i < |counts| ==> !IsMajority(counts[i], total)
    ensures w.Some? ==> exists i :: 0 <= i < |counts| && candidates[i] == w.value && IsMajority(counts[i], total)
  {
    if |candidates| == 0 then None
    else if IsMajority(counts[0], total) then Some(candidates[0])
    else
      var w := MajorityWinner(candidates[1..], counts[1..], total);
      assert forall i :: 1 <= i < |counts| ==> counts[i] == counts[1..][i - 1];
      w
  }

  /**
   * When the counts are a tally of `total` picks among distinct candidates, at
   * most one candidate holds a strict majority, so the winner found is the only one.
   */
  lemma MajorityIsUnique(candidates: seq<Label>, picks: seq<Label>, i: int, j: int)
    requires Distinct(candidates)
    requires 0 <= i < |candidates| && 0 <= j < |candidates|
    requires IsMajority(Occurrences(picks, candidates[i]), |picks|)
    requires IsMajority(Occurrences(picks, candidates[j]), |picks|)
    ensures i == j
  {
    if i != j {
      OccurrencesOfTwo(picks, candidates[i], candidates[j]);
    }
  }
}
