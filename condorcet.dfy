/**
 * `condorcetWinner`: the option that beats every other option head to head,
 * scanned in declared order.
 */
module Condorcet {
  import opened Ballots
  import opened Counting
  import opened Plurality
  import opened Pairwise

  /** Option `a` beats every other option head to head in matrix `m`. */
  predicate BeatsAll(m: seq<seq<nat>>, a: int)
    requires IsSquare(m, |m|) && 0 <= a < |m|
  {
    forall b :: 0 <= b < |m| && b != a ==> m[a][b] > m[b][a]
  }

  method CondorcetWinner(options: seq<Label>, m: seq<seq<nat>>) returns (winner: Option<Label>)
    requires Distinct(options) && IsSquare(m, |options|)
    ensures winner.None? <==> forall a :: 0 <= a < |options| ==> !BeatsAll(m, a)
    ensures forall a :: 0 <= a < |options| && BeatsAll(m, a) ==> winner == Some(options[a])
    ensures winner.Some? ==> winner.value in options
  {
    var n := |options|;
    var a := 0;
    while a < n
      invariant 0 <= a <= n
      invariant forall x :: 0 <= x < a ==> !BeatsAll(m, x)
    {
      var beatsAll := true;
      var b := 0;
      while b < n
        invariant 0 <= b <= n
        invariant beatsAll <==> forall y :: 0 <= y < b && y != a ==> m[a][y] > m[y][a]
      {
        if options[a] != options[b] {
          if m[a][b] <= m[b][a] {
            beatsAll := false;
            break;
          }
        }
        b := b + 1;
      }
      if beatsAll {
        assert b == n && BeatsAll(m, a);
        return Some(options[a]);
      }
      a := a + 1;
    }
    return None;
  }

  /**
   * An option ranked first by a strict majority of the ballots beats every
   * other option head to head: it is the Condorcet winner.
   */
  lemma MajorityWinnerBeatsAll(options: seq<Label>, rankings: seq<seq<Label>>, m: seq<seq<nat>>, a: int)
    requires Election(options, rankings) && 0 <= a < |options|
    requires IsSquare(m, |options|)
    requires forall x, y :: 0 <= x < |options| && 0 <= y < |options| ==>
               m[x][y] == Prefers(rankings, options[x], options[y])
    requires IsMajority(Occurrences(FirstChoices(rankings), options[a]), |rankings|)
    ensures BeatsAll(m, a)
  {
    forall b | 0 <= b < |options| && b != a
      ensures m[a][b] > m[b][a]
    {
      assert options[a] != options[b];
      PrefersCoversFirstChoices(options, rankings, options[a], options[b]);
      PrefersComplement(options, rankings, options[a], options[b]);
    }
  }
}
