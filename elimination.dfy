/**
 * What the two elimination methods (`irv` and `coombs`) share: the set of
 * still-active options, each ballot's first or last active option, the
 * per-option tally of those picks, and the choice of the option to drop.
 */
module Elimination {
  import opened Ballots
  import opened Counting
  import opened Strings

  /** Every ballot contains every active option. */
  predicate Covers(rankings: seq<seq<Label>>, active: seq<Label>)
  {
    forall k, x :: 0 <= k < |rankings| && x in active ==> x in rankings[k]
  }

  /** In an election every ballot holds every option, so any list drawn from the options is covered. */
  lemma ElectionCovers(options: seq<Label>, rankings: seq<seq<Label>>, active: seq<Label>)
    requires Election(options, rankings)
    requires forall x :: x in active ==> x in options
    ensures Covers(rankings, active)
  {
    forall k, x | 0 <= k < |rankings| && x in active
      ensures x in rankings[k]
    {
      assert IsPermutation(rankings[k], options);
    }
  }

  /** Ranking `r` mentions at least one active option. */
  predicate Mentions(r: seq<Label>, active: seq<Label>)
  {
    exists j :: 0 <= j < |r| && r[j] in active
  }

  predicate AllMention(rankings: seq<seq<Label>>, active: seq<Label>)
  {
    forall k :: 0 <= k < |rankings| ==> Mentions(rankings[k], active)
  }

  /** While some option is active, every covering ballot mentions one. */
  lemma ActiveIsMentioned(rankings: seq<seq<Label>>, active: seq<Label>)
    requires Covers(rankings, active) && |active| > 0
    ensures AllMention(rankings, active)
  {
    forall k | 0 <= k < |rankings|
      ensures Mentions(rankings[k], active)
    {
      var r := rankings[k];
      assert active[0] in active;
      assert active[0] in r;
      var j := IndexOf(r, active[0]);
      assert r[j] in active;
    }
  }

  /** `r.find(o => active.includes(o))`, as a position: the first active entry, or -1. */
  function FirstActiveIndex(r: seq<Label>, active: seq<Label>): (i: int)
    ensures -1 <= i < |r|
    ensures i == -1 <==> !Mentions(r, active)
    ensures 0 <= i ==> r[i] in active && forall j :: 0 <= j < i ==> r[j] !in active
  {
    if |r| == 0 then -1
    else if r[0] in active then 0
    else
      var k := FirstActiveIndex(r[1..], active);
      assert forall j :: 1 <= j < |r| ==> r[j] == r[1..][j - 1];
      assert k >= 0 ==> r[k + 1] == r[1..][k];
      if k == -1 then -1 else k + 1
  }

  /** `[...r].reverse().find(o => active.includes(o))`, as a position: the last active entry, or -1. */
  function LastActiveIndex(r: seq<Label>, active: seq<Label>): (i: int)
    ensures -1 <= i < |r|
    ensures i == -1 <==> !Mentions(r, active)
    ensures 0 <= i ==> r[i] in active && forall j :: i < j < |r| ==> r[j] !in active
  {
    if |r| == 0 then -1
    else if r[|r| - 1] in active then |r| - 1
    else
      var k := LastActiveIndex(r[..|r| - 1], active);
      assert forall j :: 0 <= j < |r| - 1 ==> r[j] == r[..|r| - 1][j];
      k
  }

  /** Which end of a ballot a tally reads: IRV counts first choices, Coombs also last ones. */
  datatype End = Front | Back

  function ActiveIndex(r: seq<Label>, active: seq<Label>, end: End): int
  {
    if end == Front then FirstActiveIndex(r, active) else LastActiveIndex(r, active)
  }

  /** Each ballot's first (or last) active option, in ballot order. */
  function Picks(rankings: seq<seq<Label>>, active: seq<Label>, end: End): (picks: seq<Label>)
    requires AllMention(rankings, active)
    ensures |picks| == |rankings|
    ensures forall k :: 0 <= k < |picks| ==> picks[k] in active && picks[k] in rankings[k]
  {
    seq(|rankings|, k requires 0 <= k < |rankings| => rankings[k][ActiveIndex(rankings[k], active, end)])
  }

  /** With every option active, a ballot's first active pick is its first choice. */
  lemma FrontPickIsFirstChoice(options: seq<Label>, r: seq<Label>)
    requires IsPermutation(r, options) && |r| > 0
    ensures FirstActiveIndex(r, options) == 0
  {
    assert r[0] in r;
  }

  /** The tally loop of one round: one vote for each ballot's first (or last) active option. */
  method CountActivePicks(active: seq<Label>, rankings: seq<seq<Label>>, end: End) returns (counts: seq<nat>)
    requires Distinct(active) && AllMention(rankings, active)
    ensures counts == Tally(active, Picks(rankings, active, end))
    ensures Sum(counts) == |rankings|
  {
    ghost var picks := Picks(rankings, active, end);
    counts := seq(|active|, _ => 0);
    assert counts == Tally(active, picks[..0]);
    var k := 0;
    while k < |rankings|
      invariant 0 <= k <= |rankings|
      invariant counts == Tally(active, picks[..k])
    {
      var r := rankings[k];
      var x := r[ActiveIndex(r, active, end)];
      var i := IndexOf(active, x);
      TallyStep(active, picks[..k], x);
      assert picks[..k + 1] == picks[..k] + [x];
      counts := counts[i := counts[i] + 1];
      k := k + 1;
    }
    assert picks[..k] == picks;
    TallyTotal(active, picks);
  }

  /** `Math.min(...counts)` over a non-empty tally. */
  function MinCount(counts: seq<nat>): (v: nat)
    requires |counts| > 0
    ensures v in counts && forall i :: 0 <= i < |counts| ==> v <= counts[i]
  {
    if |counts| == 1 then counts[0]
    else
      var m := MinCount(counts[..|counts| - 1]);
      assert m in counts;
      if counts[|counts| - 1] < m then counts[|counts| - 1] else m
  }

  /** `Math.max(...counts)` over a non-empty tally. */
  function MaxCount(counts: seq<nat>): (v: nat)
    requires |counts| > 0
    ensures v in counts && forall i :: 0 <= i < |counts| ==> counts[i] <= v
  {
    if |counts| == 1 then counts[0]
    else
      var m := MaxCount(counts[..|counts| - 1]);
      assert m in counts;
      if counts[|counts| - 1] > m then counts[|counts| - 1] else m
  }

  /** The active options whose count is `v`, in active order. */
  function TiedAt(active: seq<Label>, counts: seq<nat>, v: nat): (r: seq<Label>)
    requires |counts| == |active|
    ensures forall x :: x in r ==> exists i :: 0 <= i < |active| && active[i] == x && counts[i] == v
    ensures forall i :: 0 <= i < |active| && counts[i] == v ==> active[i] in r
  {
    if |active| == 0 then []
    else
      var n := |active| - 1;
      var r := TiedAt(active[..n], counts[..n], v);
      assert forall i :: 0 <= i < n ==> active[..n][i] == active[i] && counts[..n][i] == counts[i];
      r + (if counts[n] == v then [active[n]] else [])
  }

  /**
   * `losers.sort()[0]`: of the options tied at count `v`, the one that comes
   * first in code-unit order.
   */
  function Eliminee(active: seq<Label>, counts: seq<nat>, v: nat): Label
    requires |counts| == |active| && v in counts
  {
    var i := IndexOfCount(counts, v);
    assert active[i] in TiedAt(active, counts, v);
    LexMin(TiedAt(active, counts, v))
  }

  function IndexOfCount(counts: seq<nat>, v: nat): (i: int)
    requires v in counts
    ensures 0 <= i < |counts| && counts[i] == v
  {
    if counts[0] == v then 0 else 1 + IndexOfCount(counts[1..], v)
  }

  /**
   * The option eliminated is active, has count `v`, and precedes every other
   * option tied at `v` in code-unit order.
   */
  lemma ElimineeIsFirstOfTied(active: seq<Label>, counts: seq<nat>, v: nat)
    requires |counts| == |active| && v in counts
    ensures Eliminee(active, counts, v) in active
    ensures exists i :: 0 <= i < |active| && active[i] == Eliminee(active, counts, v) && counts[i] == v
    ensures forall i :: 0 <= i < |active| && counts[i] == v && active[i] != Eliminee(active, counts, v) ==>
              LexLess(Eliminee(active, counts, v), active[i])
  {
    var tied := TiedAt(active, counts, v);
    assert active[IndexOfCount(counts, v)] in tied;
    LexMinIsLeast(tied);
  }

  /** `losers.sort()[0]` and the `filter` that follows: drop the first of the options tied at `v`. */
  method DropFirstTied(active: seq<Label>, counts: seq<nat>, v: nat) returns (rest: seq<Label>)
    requires |counts| == |active| && v in counts
    ensures rest == Without(active, Eliminee(active, counts, v))
    ensures exists i :: 0 <= i < |active| && counts[i] == v && rest == Without(active, active[i]) &&
              forall j :: 0 <= j < |active| && counts[j] == v && active[j] != active[i] ==> LexLess(active[i], active[j])
  {
    var losers := TiedAt(active, counts, v);
    assert active[IndexOfCount(counts, v)] in losers;
    var eliminated := LexMin(losers);
    rest := Without(active, eliminated);
    ElimineeIsFirstOfTied(active, counts, v);
  }

  /**
   * A tie between U+1F600 and U+FF61 eliminates U+1F600, whose code point is
   * the larger: the tie-break follows code units.
   */
  lemma ElimineeByCodeUnits()
    ensures Eliminee(["\U{1F600}", "\U{FF61}"], [1, 1], 1) == "\U{1F600}"
  {
    var active, counts := ["\U{1F600}", "\U{FF61}"], [1, 1];
    ElimineeIsFirstOfTied(active, counts, 1);
    AstralSortsBeforeHighPlane();
    var e := Eliminee(active, counts, 1);
    if e != active[0] {
      assert e == active[1];
      LexTransitive(active[1], active[0], active[1]);
      LexIrreflexive(active[1]);
    }
  }

  /** Dropping the eliminee leaves one option fewer, still distinct and still covered. */
  lemma EliminationShrinks(rankings: seq<seq<Label>>, active: seq<Label>, counts: seq<nat>, v: nat)
    requires Distinct(active) && Covers(rankings, active)
    requires |counts| == |active| && v in counts
    ensures Distinct(Without(active, Eliminee(active, counts, v)))
    ensures Covers(rankings, Without(active, Eliminee(active, counts, v)))
    ensures |Without(active, Eliminee(active, counts, v))| == |active| - 1
  {
    ElimineeIsFirstOfTied(active, counts, v);
    WithoutDistinct(active, Eliminee(active, counts, v));
  }

  /** JavaScript truthiness of a winner: `null` and the empty label do not end the rounds. */
  predicate Truthy(w: Option<Label>)
  {
    w.Some? && w.value != ""
  }

  /** A resolver's answer: the winner (or none) and the record of every round played. */
  datatype Outcome<R> = Outcome(winner: Option<Label>, rounds: seq<R>)
}
