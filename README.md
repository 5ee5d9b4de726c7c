# Vote simulator: counting engine and editing state, in Dafny

This project models the vote simulator's counting engine (`engine.js`) and the
state edits of its editing page (`app.js`), and proves what they compute.

An election is an ordered list of distinct option labels plus a list of
ballots. Each ballot is a ranking, best first, that holds every option exactly
once. Counts and matrices are sequences indexed by option position, in
declared order; they replace the engine's JavaScript objects keyed by label.
The engine's functions never mutate their inputs, but each one works by
step-by-step updates. So each is a `method` with loops and invariants, and its
`ensures` ties the result to a pure specification function. The lemmas then
state the voting properties about those functions. The page state is a class
`App.VoteState` whose methods update `options` and `voters` in place.

Modules, one per file:

- `Ballots` (ballots.dfy): labels, `indexOf`, `filter`, permutations, elections, sums.
- `Strings` (strings.dfy): the UTF-16 code-unit order that `Array.prototype.sort()` uses without a comparator, and `String.prototype.trim`.
- `Counting` (counting.dfy): tallies and the strict-majority test.
- `Ordering` (ordering.dfy): the stable descending order that `.sort((a, b) => key[b] - key[a])` produces.
- `Validation`: `assertValidElection`.
- `Plurality`: `pluralityCounts` and `majorityAbsoluteWinner`.
- `Runoff`: `runoffTop2`.
- `Pairwise`: `pairwiseMatrix`.
- `Condorcet`: `condorcetWinner`.
- `Schulze`: `schulzeWinner`.
- `Elimination`: the machinery `irv` and `coombs` share.
- `Irv` and `Coombs`: the two elimination methods.
- `Borda`: `borda`.
- `App` (app.dfy): the page state and its edits.

Two places where the code does something other than what its description or comments suggest. The model follows the code in both:

- **Tie-break in `irv` and `coombs`.** The comment at engine.js:138 says the
  alphabetically last tied option is eliminated. The code sorts the tied options
  ascending and removes the first, so the alphabetically first option goes
  (`Elimination.Eliminee`, `Irv.SurvivorsDropFewest`, `Coombs.SurvivorsDropMostLast`).
- **What `assertValidElection` checks.** The election is described as each ballot
  being a permutation of the options. `assertValidElection` checks only each
  ballot's length and that it has no repeats. A ballot naming a label that is not
  an option passes (`Validation.ValidationAdmitsForeignLabel`). Every resolver
  therefore requires `Election(options, rankings)`. `App.VoteState.GetRankings`
  shows that the page's edits always supply such ballots.

## Model

| member | source | states |
|---|---|---|
| Ballots.IndexOf | engine.js:40-41 | `indexOf`: -1 exactly when the label is absent; otherwise the position of its first occurrence |
| Ballots.Without | engine.js:142 | `filter(o => o !== x)`: the result holds exactly the entries other than `x` |
| Ballots.WithoutDistinct | engine.js:142 | filtering a label out of a list without repeats leaves a list without repeats, one shorter when the label was present |
| Ballots.WithoutDeletesEntry | engine.js:142 | on a list without repeats, filtering out a present label removes exactly its one entry, and an absent label changes nothing |
| Strings.CodeUnitsInjective | engine.js:140 | two strings with the same UTF-16 encoding are the same string, so comparing encodings loses nothing |
| Strings.LexIrreflexive | engine.js:140 | code-unit order never puts a string before itself |
| Strings.LexTransitive | engine.js:140 | code-unit order is transitive |
| Strings.LexTotal | engine.js:140 | of two different strings, one comes first |
| Strings.AstralSortsBeforeHighPlane | engine.js:140 | U+1F600 sorts before U+FF61 although its code point is larger: the order follows code units, not code points |
| Strings.LexMinIsLeast | engine.js:140-141 | `sort()[0]` is one of the strings and comes before every other one |
| Strings.Trim | app.js:36 | `trim()` is empty exactly when the input is all white space; otherwise it starts and ends with a non-space |
| Counting.TallyTotal | engine.js:18 | when every pick is a candidate, the tally sums to the number of picks |
| Counting.OccurrencesOfTwo | engine.js:26 | two different labels together occur at most as often as there are picks |
| Counting.MajorityWinner | engine.js:25-28 | `None` exactly when no count is a strict majority; otherwise a candidate whose count is a strict majority |
| Counting.MajorityIsUnique | engine.js:26 | at most one candidate has a strict majority of the picks |
| Plurality.PluralityCounts | engine.js:16-20 | `counts[i]` is the number of ballots whose first choice is option `i`, and the counts sum to the number of ballots |
| Plurality.PluralityTotal | engine.js:16-20 | the first-choice counts of an election sum to the number of ballots |
| Plurality.MajorityAbsoluteWinner | engine.js:22-29 | the winner is the first option in declared order with `2*count > n`, and `null` when there is none |
| Plurality.MajorityWinnerIsFirst | engine.js:25-27 | the first option in declared order with a strict majority is the one returned |
| Validation.AssertValidElection | engine.js:4-13 | no error exactly when the election passes every check; otherwise each error exactly when its check is the first to fail, in the source's order |
| Validation.SetSizeDetectsRepeats | engine.js:9-10 | `new Set(r).size` equals `r.length` exactly when `r` has no repeated entry |
| Validation.FirstFailureIsUnique | engine.js:7-11 | the ranking reported is the unique first one that fails |
| Validation.PassingRankingIsPermutation | engine.js:8-10 | a ranking that passes and names only options is a permutation of the options |
| Validation.ValidationAdmitsForeignLabel | engine.js:8-10 | `[["A","C"]]` over options `["A","B"]` passes validation though it is not a permutation |
| Ordering.StableDescending | engine.js:34 | the sorted positions are a permutation of all positions, ordered by key descending, with ties in declared order |
| Ordering.SortedIsUnique | engine.js:34 | two orderings of the same positions that are both sorted this way are equal: the sort result is determined |
| Ordering.RankingIsStableDescending | engine.js:34 | the sorted options are a permutation of the options; keys are non-increasing along it, and equal keys keep declared order |
| Ordering.LeaderHasTopKey | engine.js:191-192 | the first sorted option has the largest key |
| Runoff.HeadToHead | engine.js:38-44 | `xWins` counts the ballots with `ix < iy`, and `xWins + yWins` is the number of ballots |
| Runoff.RunoffTop2 | engine.js:32-48 | `top2` is the first two of the stable descending first-choice order. Each finalist's wins are the ballots ranking it above the other. The winner is `null` exactly on a tie, and otherwise the finalist with more wins. With fewer than two options every ballot goes to `y` |
| Runoff.Top2Leads | engine.js:34-35 | the two finalists are different options; the first has at least the second's count, and the second at least every other option's, with ties in declared order |
| Runoff.XWinsArePreferences | engine.js:39-44 | between two present finalists, `x`'s wins are the ballots ranking `x` ahead of `y` |
| Runoff.RunoffHonoursMajority | engine.js:32-46 | an option with a strict majority of first choices is the first finalist and wins the runoff outright |
| Pairwise.PairwiseMatrix | engine.js:51-67 | `M[a][b]` is the number of ballots ranking `a` before `b`; `M[a][b] + M[b][a]` is the number of ballots for `a != b`; the diagonal is 0 |
| Pairwise.CountBallot | engine.js:59-65 | one ballot adds 1 to exactly the entries `M[a][b]` with `a` ahead of `b` on it |
| Pairwise.CountBallotRow | engine.js:61-64 | the row of `a` gains 1 in exactly the columns that the ballot ranks behind `a` |
| Pairwise.PrefersComplement | engine.js:63 | for two different options, the ballots preferring one plus those preferring the other are all the ballots |
| Pairwise.PrefersCoversFirstChoices | engine.js:63 | every ballot with `a` first prefers `a` to any other option |
| Pairwise.NoOptionBeatsItself | engine.js:55 | no ballot ranks an option ahead of itself |
| Condorcet.CondorcetWinner | engine.js:71-81 | `null` exactly when no option beats every other head to head; otherwise the option that does, first in declared order |
| Condorcet.MajorityWinnerBeatsAll | engine.js:71-81 | an option with a strict majority of first choices beats every other option head to head |
| Schulze.DirectStrengths | engine.js:86-93 | `p[a][b]` is `M[a][b]` when `a` wins that pair and 0 otherwise; of two opposite entries at least one is 0 |
| Schulze.RelaxRow | engine.js:97-101 | the `k` loop for row `j` computes that row of one closure pass |
| Schulze.RelaxPass | engine.js:96-103 | the `j` loop computes one whole closure pass through the intermediate `i` |
| Schulze.RelaxExtendsClosure | engine.js:95-104 | a pass through `t` keeps `p[j][k] >= min(p[j][i], p[i][k])` for every earlier intermediate `i` and adds it for `t` |
| Schulze.RelaxRaises | engine.js:100 | a pass never lowers an entry and never raises one above a bound all entries respect |
| Schulze.RelaxKeepsZeroColumn | engine.js:100 | a pass keeps a column of zeros at zero |
| Schulze.ClosureClosedThrough | engine.js:95-104 | after the passes for the first `t` intermediates, `p[j][k] >= min(p[j][i], p[i][k])` holds for each of them |
| Schulze.ClosureBounded | engine.js:95-104 | the passes never lower an entry below its initial strength, nor raise it above a bound on the initial strengths |
| Schulze.ClosureKeepsZeroColumn | engine.js:95-104 | the passes keep a zero column of the initial strengths zero |
| Schulze.RelaxBelow | engine.js:100 | a pass stays below any closed matrix that already bounds its input |
| Schulze.ClosureIsLeast | engine.js:95-104 | every stage of the closure lies below each closed matrix above the initial strengths |
| Schulze.ClosureProperties | engine.js:95-104 | the full closure is closed, lies between the initial strengths and the largest of them, and keeps zero columns zero |
| Schulze.ClosureIsStrongestPaths | engine.js:84-104 | the full closure is the least closed matrix above the initial strengths, so it is the one strongest-path matrix |
| Schulze.StrongestPaths | engine.js:95-104 | the result is exactly the passes for every intermediate applied in order (`Closure`); it is closed, each entry lies between its initial strength and the largest initial strength, and zero columns stay zero |
| Schulze.BeatsTransitive | engine.js:106-115 | on a closed matrix, beating on strongest paths is transitive |
| Schulze.UnbeatenMember | engine.js:106-115 | any non-empty list of options on a closed matrix holds one that no other listed option beats |
| Schulze.ClosedHasDominant | engine.js:106-115 | a closed matrix over at least one option has an option whose strongest path to every rival is at least as strong as the way back |
| Schulze.Qualifies | engine.js:108-113 | `ok` is true exactly when `p[a][b] >= p[b][a]` for every `b != a` |
| Schulze.QualifyingInOrder | engine.js:106-115 | the qualifying list holds only options already scanned, in declared order |
| Schulze.QualifyingMembers | engine.js:106-115 | an option is listed exactly when it has been scanned and qualifies |
| Schulze.WinnerSet | engine.js:106-115 | `winners` holds exactly the qualifying options, in declared order |
| Schulze.StrengthMatrix | engine.js:85-104 | the strengths are exactly the closure of the initial strengths, closed and bounded; a Condorcet winner qualifies and no other option does |
| Schulze.SchulzeWinner | engine.js:85-118 | `p` is exactly the closure of the initial strengths. `winners` is exactly the qualifying options in declared order, and is non-empty when there are options. `winner` is `winners[0]`, or `null` when there is none. A Condorcet winner is the sole winner |
| Schulze.CondorcetWinnerAloneDominant | engine.js:85-115 | a Condorcet winner keeps a zero column and a positive entry over every rival through the closure |
| Schulze.WinnerListFacts | engine.js:106-117 | on a closed matrix some option qualifies, and a Condorcet winner heads the list and is alone on it |
| Schulze.OnlyDominantListed | engine.js:106-117 | when exactly one option qualifies, the winner list is that option alone |
| Elimination.ElectionCovers | engine.js:121-122 | in an election every ballot holds every active option |
| Elimination.FirstActiveIndex | engine.js:128 | `r.find(o => active.includes(o))`: the first entry of the ballot that is still active, or none |
| Elimination.LastActiveIndex | engine.js:166 | `[...r].reverse().find(...)`: the last active entry of the ballot, or none |
| Elimination.FrontPickIsFirstChoice | engine.js:128 | with every option active, a ballot's pick is its first choice |
| Elimination.CountActivePicks | engine.js:126-130 | each active option's count is the number of ballots picking it, and the counts sum to the number of ballots |
| Elimination.MinCount | engine.js:139 | `Math.min(...)`: one of the counts and at most every count |
| Elimination.MaxCount | engine.js:173 | `Math.max(...)`: one of the counts and at least every count |
| Elimination.TiedAt | engine.js:140 | an option is listed exactly when it is active and has the given count |
| Elimination.ElimineeIsFirstOfTied | engine.js:140-141 | the eliminated option is active, has the given count, and comes before every other option at that count in code-unit order |
| Elimination.DropFirstTied | engine.js:139-142 | the result is the active options without one option that has the given count and comes before every other option at that count in code-unit order |
| Elimination.ElimineeByCodeUnits | engine.js:140-141 | of U+1F600 and U+FF61 tied, U+1F600 is eliminated: the tie-break follows code units |
| Elimination.EliminationShrinks | engine.js:142 | dropping the eliminee leaves one option fewer, without repeats, each still on every ballot |
| Irv.PlayRound | engine.js:126-134 | the round records the active options, their first-active-choice counts, which sum to the number of ballots, and the strict-majority winner |
| Irv.Irv | engine.js:121-146 | the winner and rounds are those of the recursive specification `IrvFrom` |
| Irv.IrvRoundCounts | engine.js:126-133 | a round's counts tally the ballots' first active choices and sum to the number of ballots; its winner is the strict-majority option |
| Irv.IrvFirstRound | engine.js:125 | no round is played exactly when at most one option is active |
| Irv.IrvFromStops | engine.js:136 | a round with a truthy winner ends the count with that winner |
| Irv.IrvFromStep | engine.js:136-142 | a round without one goes on with the eliminee dropped |
| Irv.IrvRoundsTallied | engine.js:126-130 | every recorded round's counts sum to the number of ballots |
| Irv.IrvRemovesOne | engine.js:142 | each round after the first has exactly one active option fewer than the round before, all drawn from it |
| Irv.SurvivorsDropFewest | engine.js:139-142 | the eliminee has the fewest first choices and is first in code-unit order among the options tied there |
| Irv.IrvEnding | engine.js:125-145 | the count ends with the last round's truthy majority winner, or with the one option the last elimination left |
| Irv.IrvWinnerIsActive | engine.js:121-145 | there is a winner exactly when there are options; it is one of them, and there are fewer rounds than options |
| Irv.IrvHonoursMajority | engine.js:133-136 | an option with a strict majority of first choices wins in the first round |
| Coombs.PlayRound | engine.js:155-170 | the round records the active options, their first-choice and last-place counts (each summing to the number of ballots), and the strict-majority winner |
| Coombs.Coombs | engine.js:149-180 | the winner and rounds are those of the recursive specification `CoombsFrom` |
| Coombs.CoombsRoundCounts | engine.js:155-168 | a round's first counts tally first active choices and its last counts last active places; both sum to the number of ballots |
| Coombs.CoombsFirstRound | engine.js:153 | no round is played exactly when at most one option is active |
| Coombs.CoombsFromStops | engine.js:171 | a round with a truthy majority winner ends the count with it |
| Coombs.CoombsFromStep | engine.js:171-176 | a round without one goes on with the eliminee dropped |
| Coombs.CoombsRoundsTallied | engine.js:155-168 | every recorded round's first and last counts sum to the number of ballots |
| Coombs.CoombsRemovesOne | engine.js:176 | each round after the first has exactly one active option fewer than the round before, all drawn from it |
| Coombs.SurvivorsDropMostLast | engine.js:173-176 | the eliminee is most often last and is first in code-unit order among the options tied there |
| Coombs.CoombsEnding | engine.js:153-179 | the count ends with the last round's truthy majority winner, or with the one option the last elimination left |
| Coombs.CoombsWinnerIsActive | engine.js:149-179 | there is a winner exactly when there are options; it is one of them, and there are fewer rounds than options |
| Coombs.CoombsHonoursMajority | engine.js:161-171 | an option with a strict majority of first choices wins in the first round |
| Borda.AddBallot | engine.js:187-189 | one ballot adds `n - 1 - position` points to each option, `n(n-1)/2` points in all |
| Borda.Borda | engine.js:183-193 | `score` is each option's total points, summing to the number of ballots times `n(n-1)/2`. `ranking` is the stable descending order of the scores. `winner` is its first option, with the top score, and is `null` only without options |
| Borda.BordaScoreBounds | engine.js:188 | every score lies between 0 and `(n-1)` times the number of ballots |
| Borda.UnanimousFirstScoresMost | engine.js:188 | an option every ballot ranks first scores the most possible, and every other option strictly less |
| Borda.HandedTotal | engine.js:187-189 | the first `i` positions of a ballot hand out `i(2n-1-i)/2` points |
| Borda.BallotHandsOut | engine.js:187-189 | a whole ballot hands out `n(n-1)/2` points |
| App.VoteState.constructor | app.js:5-9 | the initial state has options A, B, C and no voters, and satisfies the invariant |
| App.VoteState.GetRankings | app.js:89-91 | the rankings in voter order. Under the invariant they form an election, and with at least one voter they pass validation |
| App.VoteState.AddOption | app.js:35-49 | an empty or existing trimmed label changes nothing. Otherwise it is appended to the options and to the end of every ranking. The invariant is kept |
| App.VoteState.RemoveOption | app.js:51-62 | nothing changes with two options or fewer. Otherwise the label is filtered out of the options and every ranking. The invariant is kept |
| App.VoteState.AddVoter | app.js:64-69 | one voter is appended whose ranking is the current options; the invariant is kept |
| App.VoteState.RemoveVoter | app.js:71-75 | `splice(idx, 1)`: exactly the voter at the normalised index goes, when there is one; the invariant is kept |
| App.VoteState.UpdateVoterRank | app.js:77-87 | an absent label changes nothing. Otherwise the entries at `pos` and at `indexOf(newOpt)` swap, so `newOpt` is at `pos` and the multiset of entries is unchanged. Other voters are untouched and the invariant is kept |
| App.SwapKeepsPermutation | app.js:83 | swapping two entries of a permutation leaves a permutation |
| App.AppendKeepsPermutation | app.js:40-45 | appending a new label to a ranking and to the options keeps the ranking a permutation |
| App.WithoutKeepsPermutation | app.js:53-58 | filtering a label out of a ranking and out of the options keeps the ranking a permutation |
| App.SpliceOne | app.js:72 | removing one element at a normalised index leaves the others in order; an index past the end removes nothing |
| App.SpliceKeepsElection | app.js:72 | removing a ballot from an election leaves an election |
| App.ElectionPassesValidation | app.js:89-91 | rankings that are permutations of at least two options pass every check of the validator once there is one |

## Left out

- The `window.VoteEngine` export table (engine.js:196-207) is a global binding. The functions are modules here.
- Counts, matrices and results are sequences indexed by option position, not JavaScript objects keyed by label. Property-name coercion and prototype keys are not modelled.
- `undefined` (a missing finalist in `runoffTop2`, `winners[0]` in `schulzeWinner`, `active[0]` in `irv`/`coombs`) and `null` are both `None`.
- Validation.AssertValidElection: returns the failing check as a `ValidationError`; `Validation.Message` maps it to the source's text. A missing (`!r`) ballot cannot arise, since ballots are sequences.
- Plurality.PluralityCounts, Plurality.MajorityAbsoluteWinner, Runoff.RunoffTop2, Pairwise.PairwiseMatrix, Irv.Irv, Coombs.Coombs, Borda.Borda: require a well-formed election (distinct options, each ballot a permutation of them). The source runs them on whatever it is given, and on ballots naming foreign labels it would count under unexpected keys or `NaN`.
- Condorcet.CondorcetWinner, Schulze.SchulzeWinner: require distinct options and a square matrix of that size.
- Irv.IrvHonoursMajority, Coombs.CoombsHonoursMajority: require the majority option's label to be non-empty, because the source's `if (winner)` treats the empty label as no winner.
- Labels are sequences of Unicode scalar values (`char`). Their order is computed on the UTF-16 encoding (`Strings.CodeUnits`), as JavaScript compares strings. Lone surrogates, which a JavaScript string may hold, cannot be expressed. There is no Unicode normalisation or locale-aware comparison.
- The page's `title`, `save`, `load`, `resetAll`, all rendering, and the `localStorage`/`JSON` persistence (app.js:11-33, 93-404) are I/O and markup.
- App.VoteState.UpdateVoterRank: requires `idx` and `pos` to be in range. The source would throw on a missing voter and would grow the ranking array for a `pos` past its end.
- App.VoteState.RemoveVoter: `idx` is an integer; the source's coercion of non-integer or missing indices in `splice` is not modelled.
- Voters are values in `App.VoteState.voters`, not objects with a shared `ranking` array, so aliasing between voters' rankings is not modelled.
