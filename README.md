# some-wordle-stuff, modelled in Dafny

This project models the strategy core of a Wordle solver. The model works on two ordered word banks: a guess bank and a solution bank. A word is identified by its index in a bank. The pieces are:

- **Grading** (`Grading`). Grading gives a five-letter guess five marks (Grey, Yellow or Green) against a solution. It uses a two-pass, in-place algorithm over a five-slot mark array.
- **Bucketing** (`Buckets`). A bucket keeps the candidate solutions that earn, against a guess, the same grade as the hidden solution. One variant also flags every kept word in a `used` array.
- **Guess selection** (`Selection`). `sm_word` folds a per-guess accumulator over the candidates. It then returns the first guess holding the smallest non-zero accumulated value.
- **Game simulator** (`Game`). `FixedWordle` is a game whose hidden solution is held fixed. The first turn plays a hard-coded opener (guess 132). Later turns play the selector's guess, and each turn keeps only the bucket around the hidden solution.
- **Batch loops** (`Simulation`). One loop counts the turns a simulated game takes. The other scans every solution for the largest bucket the opener leaves.

Each module has a pure reference definition. It is `Score` for grading and `BucketOf` for buckets. For selection it is `Fold`/`Accumulator`/`SelectGuess`. For the game it is `Candidates`/`FirstSingle`, and for the opener scan it is `OpenerBuckets`/`Longest`/`FirstArgMax`. The imperative methods follow the source's loops and are proved to compute these definitions. The properties the source relies on are proved as lemmas about the reference definitions.

### How the model reads the grading code

A comment above `solution_compare` (src/main.rs:49-50) says the duplicate-letter handling does not quite match the real game. The code, however, does not differ from canonical marking. `Score` is the frequency-counted rule: an out-of-place guess letter is Yellow when it is among the first *k* unmatched copies of that letter in the guess, where *k* is the number of unmatched copies in the solution. `Grading.SolutionCompare` is the two-pass algorithm exactly as written, and it is proved equal to `Score` for all five-letter words. The model follows the code. The discrepancy the comment describes does not exist on five-letter words, so the model reports no bug in the source.

`Grade` is a length-5 `seq<Mark>` and `Word` a length-5 string. The source never checks word lengths. Five letters is only implied by the five-slot mark array `[Mark; 5]` (src/main.rs:53-67). The model builds that length into the types.

## Model

| member | source | states |
|---|---|---|
| Grading.Score | src/main.rs:51-73 | The reference grade: position j is Green exactly when the letters at j agree. A Yellow position always has differing letters. |
| Grading.GradeEq | src/main.rs:26-33 | Position-by-position comparison of two grades holds exactly when the grades are equal. |
| Grading.SolutionCompare | src/main.rs:51-73 | The two-pass algorithm over the mark array returns exactly `Score(gbank[guess], sbank[solution])`. |
| Grading.ClaimFirstGrey | src/main.rs:65-70 | The inner search turns the first Grey position holding letter `c` Yellow and returns it. Every earlier position is not a Grey `c`. When there is no such position it returns 5 and changes nothing. |
| Grading.SkipStep | src/main.rs:62-64 | A Green solution position claims nothing: the mark buffer after it equals the reference marks for one more processed position. |
| Grading.ClaimStep | src/main.rs:65-70 | Claiming the first Grey guess position holding the solution letter makes the buffer equal the reference marks for one more processed position. |
| Grading.NoClaimStep | src/main.rs:65-70 | When no Grey guess position holds the solution letter, the unchanged buffer equals the reference marks for one more processed position. |
| Grading.UnmatchedMonotone | src/main.rs:65-70 | The count of unmatched copies of a letter never decreases as the prefix grows. |
| Grading.LastUnmatched | src/main.rs:65-70 | A positive count of unmatched copies has a last counted position, and the count just below it is one less. |
| Grading.ScoreSelf | src/main.rs:56-63 | A word graded against itself is all Green. |
| Grading.AllGreenIffSameWord | src/main.rs:56-60 | A grade is all Green exactly when the guess and the solution are the same word (both directions). |
| Grading.YellowsOfPrefix | src/main.rs:61-71 | Up to any prefix, the Yellows on a letter are the unmatched guess copies in that prefix, capped by the unmatched solution copies. |
| Grading.YellowsPerLetter | src/main.rs:61-71 | Per letter, the Yellows equal min(unmatched guess copies, unmatched solution copies). So each non-Green solution position claims at most one guess position, as the `break` ensures. |
| Grading.YellowsPrefixBound | src/main.rs:61-71 | Up to any prefix, Yellow positions are at most the non-Green positions. |
| Grading.YellowsAtMostMismatches | src/main.rs:61-71 | A grade never has more Yellow positions than non-Green positions. |
| Grading.YellowHasSource | src/main.rs:65-69 | A Yellow guess position is out of place, and some non-Green solution position holds its letter. |
| Grading.CompareMarioSlane | src/main.rs:80-85 | Guess "mario" against solution "slane" grades [Grey, Yellow, Grey, Grey, Grey]. |
| Grading.CompareEarefMaree | src/main.rs:86-97 | Guess "earef" against solution "maree" grades [Yellow, Green, Green, Green, Grey]. |
| Grading.CompareSpeedErase | src/main.rs:61-71 | Guess "speed" against solution "erase" grades [Yellow, Grey, Yellow, Yellow, Grey]. Repeated letters are not over-marked. |
| Buckets.BucketOf | src/main.rs:136-156 | The bucket is no longer than `left` and every id it holds indexes the solution bank. |
| Buckets.BucketMember | src/main.rs:148-154 | A word is in the bucket exactly when it is in `left` and earns the solution's grade. A solution in `left` is in its own bucket. |
| Buckets.BucketIsPick | src/main.rs:148-154 | The bucket is `left` filtered by the same-grade mask, keeping order. |
| Buckets.BucketIsSubsequence | src/main.rs:148-154 | The bucket is a subsequence of `left`. |
| Buckets.SameGradeSameBucket | src/main.rs:146-154 | Two solutions with the same grade against the guess draw the same bucket. |
| Buckets.BucketsPartition | src/main.rs:136-156 | Every candidate lies in its own bucket. Any two buckets of one guess are equal or disjoint. |
| Buckets.Bucket | src/main.rs:136-156 | The filter loop returns exactly `BucketOf`. |
| Buckets.BucketAndUpdate | src/main.rs:107-129 | Returns exactly `BucketOf`. Afterwards `used[w]` is its old value or-ed with "w is in the bucket", for every w; no other entry changes. |
| Selection.Max | src/main.rs:191 | The larger of the two values, which is one of them. |
| Selection.Zeros | src/main.rs:167 | The initial accumulator is one zero per guess. |
| Selection.Merge | src/main.rs:199-207 | Element-wise maximum keeps the length. |
| Selection.FirstMatchLen | src/main.rs:188-194 | The scan over buckets yields 0 exactly when no bucket's first word earns the target grade. Otherwise it yields the length of a bucket whose first word does. `FirstMatchLenAt` shows that this is the first such bucket. |
| Selection.FirstMatchIndex | src/main.rs:188-193 | The index of the first bucket at or after `from` whose first word earns the target grade: every bucket before it misses the grade. When none matches it is `|bkts|`. |
| Selection.FirstMatchLenAt | src/main.rs:188-193 | The scan yields the length of the bucket at `FirstMatchIndex`, or 0 when there is none. The `break` after the first match gives this. |
| Selection.FirstMatchLenUnfold | src/main.rs:188-193 | One step of the scan: a matching first bucket gives its length, and otherwise the scan moves on to the next bucket. |
| Selection.SolutionBuckets | src/main.rs:172-182 | One bucket per candidate `left[k]`, with the solution bank in both roles. |
| Selection.SolutionBucketsClaimable | src/main.rs:172-182 | Each of those buckets is non-empty and indexes the solution bank, so `bkt[0]` exists. |
| Selection.Contribution | src/main.rs:186-195 | A candidate contributes one value per guess. |
| Selection.Fold | src/main.rs:164-198 | The sequential fold keeps one accumulated value per guess. |
| Selection.Accumulator | src/main.rs:164-207 | The accumulator has one value per guess. |
| Selection.MinNonZero | src/main.rs:211-213 | None exactly when all values are zero. Otherwise a non-zero entry no larger than any non-zero entry. |
| Selection.FirstPosition | src/main.rs:211-213 | None exactly when the value is absent. Otherwise the first index holding it. |
| Selection.SelectGuess | src/main.rs:163-214 | For non-empty candidates: an index below `|gbank|` whose accumulated value is non-zero and the smallest non-zero one. No earlier index holds that value. |
| Selection.MergeCommutes | src/main.rs:199-207 | The merge is commutative. |
| Selection.MergeAssociates | src/main.rs:199-207 | The merge is associative. |
| Selection.MergeZeros | src/main.rs:199-207 | The all-zero accumulator is the unit of the merge. |
| Selection.FoldSplit | src/main.rs:164-207 | Folding `a + b` equals merging the folds of `a` and `b`. So any split into folded chunks reduced by the merge gives the sequential fold. |
| Selection.ContributionPositive | src/main.rs:186-195 | Every guess gets at least 1 from a candidate, because the candidate's own bucket matches. |
| Selection.FoldPositive | src/main.rs:164-198 | After at least one candidate, every accumulated value is at least 1. |
| Selection.AccumulatorPositive | src/main.rs:211-213 | For non-empty candidates every accumulated value is positive, so the non-zero minimum exists and `unwrap` cannot fail. |
| Selection.DrawBuckets | src/main.rs:172-182 | The bucket-drawing loop returns exactly `SolutionBuckets`. |
| Selection.RaiseGuess | src/main.rs:187-194 | Raises entry g to the maximum of itself and the first matching bucket's length; no other entry changes. |
| Selection.FoldStep | src/main.rs:167-197 | One fold step returns the merge of the accumulator with the candidate's contribution. |
| Selection.SmWord | src/main.rs:163-214 | The method returns exactly `SelectGuess`, an index below `|gbank|`. |
| Game.NextGuess | src/main.rs:268-275 | The guess of a turn indexes the guess bank. |
| Game.FixedWordle.WithState | src/main.rs:249-263 | The new game holds exactly the given solution, candidates, banks and flag. |
| Game.FixedWordle.Guess | src/main.rs:268-275 | On the first call it returns the opener 132, otherwise the selector's guess for the current candidates. It leaves the flag cleared either way. |
| Game.FixedWordle.Solution | src/main.rs:276-278 | Always returns the fixed hidden solution. |
| Game.FixedWordle.Update | src/main.rs:279-288 | The new candidates are the bucket of this turn's guess around the solution. They are a subsequence of the old ones and keep the solution if it was there. It returns None exactly when one candidate remains, else the candidates. |
| Simulation.AllIds | src/main.rs:314 | The ids 0 .. n-1, in order. |
| Simulation.Candidates | src/main.rs:311-331 | Candidates after t updates always contain the hidden solution and index the solution bank. |
| Simulation.SingleCandidateIsSolution | src/main.rs:326 | A single remaining candidate is the hidden solution. |
| Simulation.CandidatesStep | src/main.rs:279-288 | One more update takes the candidates to the bucket of that turn's guess. |
| Simulation.CandidateCounts | src/main.rs:322 | The count after t updates is the number of candidates left. |
| Simulation.FirstSingle | src/main.rs:320-330 | A reported turn lies in the window and leaves exactly one candidate. |
| Simulation.FirstSingleIsFirst | src/main.rs:320-330 | Every turn of the window before the reported one leaves more than one candidate. With no report, every turn of the window does. |
| Simulation.SimGameWithSolution | src/main.rs:311-331 | Returns the number of `update` calls made: the first turn, starting from 1, that leaves one candidate. That candidate is the solution. Inside the loop, every reported bucket contains the solution. |
| Simulation.OpenerBuckets | src/main.rs:357-365 | One opener bucket per solution, in solution order. |
| Simulation.OpenerBucketsAt | src/main.rs:357-365 | Entry `i` of the opener buckets is the bucket for hidden solution `i`. |
| Simulation.Lengths | src/main.rs:366 | One length per bucket, entry by entry. |
| Simulation.LongestIsFirstMax | src/main.rs:366-369 | Keeping a bucket only when it is strictly longer than the one kept so far ends with the bucket at the first maximum of the lengths. |
| Simulation.DrawOpenerBucket | src/main.rs:358-365 | The bucket computed for solution `i` is entry `i` of the opener buckets. |
| Simulation.FirstArgMax | src/main.rs:366-369 | The chosen index lies in range. |
| Simulation.FirstArgMaxIsFirstMax | src/main.rs:366-369 | No size exceeds the chosen one, and every earlier size is strictly smaller. That is the first maximum, as the strict `>` keeps. |
| Simulation.MaxOpenerBucket | src/main.rs:355-370 | Returns the opener bucket at the first maximum of the bucket lengths (`FirstArgMax` of `Lengths(OpenerBuckets(...))`), with its length. For an empty solution bank it returns the empty bucket. |

## Left out

- Word-list loading (the embedded data files and their split/trim/filter parsing) is file input: the banks are parameters.
- All console output (`println!`) is logging and is not modelled.
- The parallel fold/reduce of `sm_word` is modelled as a sequential fold over the candidates. `Selection.FoldSplit` plus the merge lemmas show that any chunking reduced by the merge agrees with it; thread scheduling itself is not modelled.
- The printout inside `sm_word` for each candidate whose id is a multiple of 50 and the unused `used` vector there are dropped.
- The `Game` trait has one implementation and is modelled only as the `FixedWordle` class.
- The `compare` parameter of `bucket` and `bucket_and_update` is fixed to the grading function, the only one the program passes.
- Panics on out-of-range indices, on an empty candidate list in `sm_word`, and on a guess bank of 132 words or fewer become `requires` clauses. The `|gbank| > 0` of `sm_word` stands for the `position(...).unwrap()` that panics on an empty accumulator (src/main.rs:211-213).
- Words of other lengths: the length-5 `Word` type excludes them. In the source, a solution longer than five letters panics at `r[i]`, and shorter words are graded without a panic (src/main.rs:53-67).
- Simulation.SimGameWithSolution: the source loop may never end, because a guess need not shrink the candidates. The model gives the loop a `fuel` bound and returns None when the bound runs out. The turn count is an unbounded `nat`, not the source's 16-bit counter.
- Simulation.MaxOpenerBucket: the result is tied to the first maximum of the opener bucket sizes through `FirstArgMax`; printing the bucket and words is left out.
- Selection.SelectGuess: the model makes no claim that the chosen guess is a minimax-optimal guess. The accumulated value for a guess is the length of a bucket drawn for another candidate word, which is what the code computes.
- The alternative `get_smw` driver and the commented-out code in `main` are not part of this model.
