/**
 * The editing state of the simulator page: the list of options and, for each
 * voter, a ranking of those options. The edit operations keep every voter's
 * ranking a permutation of the options, so the rankings the page hands to the
 * vote engine are ballots of a well-formed election.
 */
module App {
  import opened Ballots
  import opened Strings
  import opened Validation

  /** `[r[i], r[j]] = [r[j], r[i]]`: exchange two entries of a ranking. */
  function Swap(r: seq<Label>, i: int, j: int): seq<Label>
    requires 0 <= i < |r| && 0 <= j < |r|
  {
    r[i := r[j]][j := r[i]]
  }

  /** A swap moves each of the two entries to the other's place and keeps the multiset of entries. */
  lemma SwapKeepsEntries(r: seq<Label>, i: int, j: int)
    requires 0 <= i < |r| && 0 <= j < |r|
    ensures |Swap(r, i, j)| == |r|
    ensures multiset(Swap(r, i, j)) == multiset(r)
    ensures Swap(r, i, j)[i] == r[j] && Swap(r, i, j)[j] == r[i]
    ensures forall k :: 0 <= k < |r| && k != i && k != j ==> Swap(r, i, j)[k] == r[k]
  {
  }

  /** Exchanging two entries of a permutation leaves a permutation. */
  lemma SwapKeepsPermutation(r: seq<Label>, options: seq<Label>, i: int, j: int)
    requires IsPermutation(r, options) && 0 <= i < |r| && 0 <= j < |r|
    ensures IsPermutation(Swap(r, i, j), options)
  {
    var s := Swap(r, i, j);
    forall a, b | 0 <= a < b < |s|
      ensures s[a] != s[b]
    {
      var a' := if a == i then j else if a == j then i else a;
      var b' := if b == i then j else if b == j then i else b;
      assert s[a] == r[a'] && s[b] == r[b'];
    }
    forall x | x in s
      ensures x in r
    {
      var k :| 0 <= k < |s| && s[k] == x;
      assert x == r[if k == i then j else if k == j then i else k];
    }
    forall x | x in r
      ensures x in s
    {
      var k :| 0 <= k < |r| && r[k] == x;
      assert x == s[if k == i then j else if k == j then i else k];
    }
  }

  /** Appending a new option to a ranking and to the options keeps the ranking a permutation. */
  lemma AppendKeepsPermutation(r: seq<Label>, options: seq<Label>, v: Label)
    requires IsPermutation(r, options) && v !in options
    ensures IsPermutation(r + [v], options + [v])
  {
    assert v !in r;
  }

  /** Filtering the same label out of a ranking and out of the options keeps the ranking a permutation. */
  lemma WithoutKeepsPermutation(r: seq<Label>, options: seq<Label>, x: Label)
    requires Distinct(options) && IsPermutation(r, options)
    ensures IsPermutation(Without(r, x), Without(options, x))
  {
    WithoutDistinct(r, x);
    WithoutDistinct(options, x);
  }

  /**
   * `Array.prototype.splice(idx, 1)`: where the one deleted element sits. A
   * negative `idx` counts from the end; the result is `len` when nothing is deleted.
   */
  function SpliceStart(len: nat, idx: int): (s: nat)
    ensures s <= len
  {
    if idx < 0 then (if len + idx < 0 then 0 else len + idx)
    else if idx > len then len
    else idx
  }

  /** `voters.splice(idx, 1)` on a list: the entry at the start position is removed, if there is one. */
  function SpliceOne<T>(s: seq<T>, idx: int): (r: seq<T>)
    ensures var p := SpliceStart(|s|, idx);
      && (p < |s| ==> r == s[..p] + s[p + 1..])
      && (p == |s| ==> r == s)
  {
    var p := SpliceStart(|s|, idx);
    if p < |s| then s[..p] + s[p + 1..] else s
  }

  /** Removing a ballot from an election leaves an election. */
  lemma SpliceKeepsElection(options: seq<Label>, rankings: seq<seq<Label>>, idx: int)
    requires Election(options, rankings)
    ensures Election(options, SpliceOne(rankings, idx))
    ensures |SpliceOne(rankings, idx)| == if SpliceStart(|rankings|, idx) < |rankings| then |rankings| - 1 else |rankings|
  {
    var p := SpliceStart(|rankings|, idx);
    var r := SpliceOne(rankings, idx);
    if p < |rankings| {
      forall k | 0 <= k < |r|
        ensures IsPermutation(r[k], options)
      {
        assert r[k] == rankings[if k < p then k else k + 1];
      }
    }
  }

  /**
   * A state the edits keep: at least two options, and every voter's ranking a
   * permutation of them. Once there is a voter, such rankings pass every check
   * of the validator.
   */
  lemma ElectionPassesValidation(options: seq<Label>, rankings: seq<seq<Label>>)
    requires Election(options, rankings) && |options| >= 2 && |rankings| >= 1
    ensures PassesValidation(options, rankings)
  {
    forall j | 0 <= j < |rankings|
      ensures RankingPasses(options, rankings[j])
    {
      assert IsPermutation(rankings[j], options);
    }
  }

  class VoteState {
    /** The options, in declared order. */
    var options: seq<Label>
    /** Each voter's ranking, best first, in voter order. */
    var voters: seq<seq<Label>>

    predicate Valid()
      reads this
    {
      |options| >= 2 && Election(options, voters)
    }

    /** The initial state: options A, B and C, no voters. */
    constructor ()
      ensures options == ["A", "B", "C"] && voters == []
      ensures Valid()
    {
      options := ["A", "B", "C"];
      voters := [];
    }

    /** `getRankings`: the voters' rankings, in voter order, as the engine reads them. */
    function GetRankings(): (rankings: seq<seq<Label>>)
      reads this
      ensures |rankings| == |voters|
      ensures Valid() ==> Election(options, rankings)
      ensures Valid() && |voters| >= 1 ==> PassesValidation(options, rankings)
    {
      if Valid() && |voters| >= 1 then
        ElectionPassesValidation(options, voters);
        voters
      else
        voters
    }

    /**
     * `addOption`: the trimmed label, unless empty or already an option, is
     * appended to the options and to the end of every voter's ranking.
     */
    method AddOption(opt: string)
      modifies this
      ensures var v := Trim(opt);
        if v == "" || v in old(options) then
          options == old(options) && voters == old(voters)
        else
          && options == old(options) + [v]
          && |voters| == |old(voters)|
          && forall k :: 0 <= k < |voters| ==> voters[k] == old(voters)[k] + [v]
      ensures old(Valid()) ==> Valid()
    {
      var v := Trim(opt);
      if v == "" {
        return;
      }
      if v in options {
        return;
      }
      ghost var before := voters;
      options := options + [v];
      var i := 0;
      while i < |voters|
        invariant 0 <= i <= |voters| == |before|
        invariant options == old(options) + [v]
        invariant forall k :: 0 <= k < i ==> voters[k] == before[k] + [v]
        invariant forall k :: i <= k < |voters| ==> voters[k] == before[k]
      {
        voters := voters[i := voters[i] + [v]];
        i := i + 1;
      }
      if old(Valid()) {
        forall k | 0 <= k < |voters|
          ensures IsPermutation(voters[k], options)
        {
          AppendKeepsPermutation(before[k], old(options), v);
        }
      }
    }

    /**
     * `removeOption`: nothing happens while there are two options or fewer;
     * otherwise the label is filtered out of the options and out of every
     * voter's ranking.
     */
    method RemoveOption(opt: Label)
      modifies this
      ensures old(|options|) <= 2 ==> options == old(options) && voters == old(voters)
      ensures old(|options|) > 2 ==>
                && options == Without(old(options), opt)
                && |voters| == |old(voters)|
                && forall k :: 0 <= k < |voters| ==> voters[k] == Without(old(voters)[k], opt)
      ensures old(Valid()) ==> Valid()
    {
      if |options| <= 2 {
        return;
      }
      ghost var before := voters;
      options := Without(options, opt);
      var i := 0;
      while i < |voters|
        invariant 0 <= i <= |voters| == |before|
        invariant options == Without(old(options), opt)
        invariant forall k :: 0 <= k < i ==> voters[k] == Without(before[k], opt)
        invariant forall k :: i <= k < |voters| ==> voters[k] == before[k]
      {
        voters := voters[i := Without(voters[i], opt)];
        i := i + 1;
      }
      if old(Valid()) {
        WithoutDistinct(old(options), opt);
        forall k | 0 <= k < |voters|
          ensures IsPermutation(voters[k], options)
        {
          WithoutKeepsPermutation(before[k], old(options), opt);
        }
      }
    }

    /** `addVoter`: one more voter, whose ranking is the options in declared order. */
    method AddVoter()
      modifies this
      ensures options == old(options) && voters == old(voters) + [old(options)]
      ensures old(Valid()) ==> Valid()
    {
      voters := voters + [options];
    }

    /** `removeVoter`: `voters.splice(idx, 1)`. */
    method RemoveVoter(idx: int)
      modifies this
      ensures options == old(options) && voters == SpliceOne(old(voters), idx)
      ensures old(Valid()) ==> Valid()
    {
      if old(Valid()) {
        SpliceKeepsElection(options, voters, idx);
      }
      voters := SpliceOne(voters, idx);
    }

    /**
     * `updateVoterRank`: when `newOpt` is in voter `idx`'s ranking, it trades
     * places with the entry at `pos`; otherwise nothing changes.
     */
    method UpdateVoterRank(idx: int, pos: int, newOpt: Label)
      requires 0 <= idx < |voters| && 0 <= pos < |voters[idx]|
      modifies this
      ensures options == old(options) && |voters| == |old(voters)|
      ensures newOpt !in old(voters)[idx] ==> voters == old(voters)
      ensures newOpt in old(voters)[idx] ==>
                && voters == old(voters)[idx := Swap(old(voters)[idx], pos, IndexOf(old(voters)[idx], newOpt))]
                && voters[idx][pos] == newOpt
                && multiset(voters[idx]) == multiset(old(voters)[idx])
      ensures old(Valid()) ==> Valid()
    {
      var r := voters[idx];
      var j := IndexOf(r, newOpt);
      if j == -1 {
        return;
      }
      SwapKeepsEntries(r, pos, j);
      if old(Valid()) {
        SwapKeepsPermutation(r, options, pos, j);
      }
      voters := voters[idx := Swap(r, pos, j)];
    }
  }
}
