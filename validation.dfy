/**
 * `assertValidElection`: the pre-flight check run before any resolver. It
 * returns the first failing check, or nothing when all pass.
 */
module Validation {
  import opened Ballots

  datatype ValidationError =
    | TooFewOptions       // fewer than 2 options
    | NoVoters            // no ranking at all
    | IncompleteRanking   // a ranking whose length differs from the option count
    | DuplicateOrMissing  // a ranking with a repeated entry

  /** The message the user sees for each failure. */
  function Message(e: ValidationError): string
  {
    match e
    case TooFewOptions => "Servono almeno 2 alternative."
    case NoVoters => "Aggiungi almeno 1 votante."
    case IncompleteRanking => "Ogni votante deve ordinare tutte le alternative."
    case DuplicateOrMissing => "Nelle preferenze ci sono duplicati o valori mancanti."
  }

  /** `new Set(r)`: the labels a ranking mentions. */
  function ToSet(r: seq<Label>): set<Label>
  {
    set x | x in r
  }

  /** A ranking passes both per-ranking checks: full length and no repeated entry. */
  predicate RankingPasses(options: seq<Label>, r: seq<Label>)
  {
    |r| == |options| && Distinct(r)
  }

  /** Every ranking before position `i` passes. */
  predicate PassesBefore(options: seq<Label>, rankings: seq<seq<Label>>, i: int)
    requires 0 <= i <= |rankings|
  {
    forall j :: 0 <= j < i ==> RankingPasses(options, rankings[j])
  }

  /** Everything the validator checks holds. */
  predicate PassesValidation(options: seq<Label>, rankings: seq<seq<Label>>)
  {
    |options| >= 2 && |rankings| >= 1 && PassesBefore(options, rankings, |rankings|)
  }

  /**
   * The set of a ranking has as many elements as the ranking has entries
   * exactly when no entry repeats; this is what the size comparison detects.
   */
  lemma {:induction false} SetSizeDetectsRepeats(r: seq<Label>)
    ensures |ToSet(r)| <= |r|
    ensures |ToSet(r)| == |r| <==> Distinct(r)
  {
    if |r| > 0 {
      var p := r[..|r| - 1];
      var x := r[|r| - 1];
      SetSizeDetectsRepeats(p);
      assert r == p + [x];
      assert ToSet(r) == ToSet(p) + {x};
      if x in p {
        var i :| 0 <= i < |p| && p[i] == x;
        assert r[i] == r[|r| - 1];
        assert ToSet(r) == ToSet(p);
      } else {
        assert x !in ToSet(p);
        assert Distinct(p) ==> Distinct(r);
      }
    }
  }

  method AssertValidElection(options: seq<Label>, rankings: seq<seq<Label>>)
    returns (err: Option<ValidationError>)
    ensures err == None <==> PassesValidation(options, rankings)
    ensures err == Some(TooFewOptions) <==> |options| < 2
    ensures err == Some(NoVoters) <==> |options| >= 2 && |rankings| == 0
    ensures err == Some(IncompleteRanking) <==>
      |options| >= 2 &&
      exists i :: 0 <= i < |rankings| && PassesBefore(options, rankings, i) && |rankings[i]| != |options|
    ensures err == Some(DuplicateOrMissing) <==>
      |options| >= 2 &&
      exists i :: 0 <= i < |rankings| && PassesBefore(options, rankings, i)
                  && |rankings[i]| == |options| && !Distinct(rankings[i])
  {
    if |options| < 2 {
      return Some(TooFewOptions);
    }
    if |rankings| < 1 {
      return Some(NoVoters);
    }
    var k := 0;
    while k < |rankings|
      invariant 0 <= k <= |rankings|
      invariant PassesBefore(options, rankings, k)
    {
      var r := rankings[k];
      if |r| != |options| {
        FirstFailureIsUnique(options, rankings, k);
        return Some(IncompleteRanking);
      }
      var size := |ToSet(r)|;
      SetSizeDetectsRepeats(r);
      if size != |options| {
        FirstFailureIsUnique(options, rankings, k);
        return Some(DuplicateOrMissing);
      }
      k := k + 1;
    }
    return None;
  }

  /** The first failing ranking is the only one all of whose predecessors pass. */
  lemma FirstFailureIsUnique(options: seq<Label>, rankings: seq<seq<Label>>, k: int)
    requires 0 <= k < |rankings| && PassesBefore(options, rankings, k)
    requires !RankingPasses(options, rankings[k])
    ensures forall i :: 0 <= i < |rankings| ==>
              (PassesBefore(options, rankings, i) && !RankingPasses(options, rankings[i]) ==> i == k)
  {
  }

  /**
   * What validation leaves out: it never looks at which labels a ranking
   * holds. A ranking that passes is a permutation of the options exactly when
   * its entries are drawn from the options.
   */
  lemma PassingRankingIsPermutation(options: seq<Label>, r: seq<Label>)
    requires Distinct(options) && RankingPasses(options, r)
    requires forall x :: x in r ==> x in options
    ensures IsPermutation(r, options)
  {
    SetSizeDetectsRepeats(r);
    SetSizeDetectsRepeats(options);
    assert ToSet(r) <= ToSet(options);
    SubsetOfEqualSize(ToSet(r), ToSet(options));
    forall x | x in options
      ensures x in r
    {
      assert x in ToSet(options);
    }
  }

  lemma SubsetOfEqualSize(a: set<Label>, b: set<Label>)
    requires a <= b && |a| == |b|
    ensures a == b
  {
    assert |b - a| == |b| - |a|;
  }

  /** The ranking ["A", "C"] over options ["A", "B"] passes validation without being a permutation. */
  lemma ValidationAdmitsForeignLabel()
    ensures PassesValidation(["A", "B"], [["A", "C"]])
    ensures !IsPermutation(["A", "C"], ["A", "B"])
  {
    assert "C" in ["A", "C"] && "C" !in ["A", "B"];
  }
}
