# RSEM's EM engine, modelled in Dafny

RSEM estimates how much of each transcript a sequencing sample contains. Each
sequenced fragment may align to several transcripts, or to none ("noise",
index 0). The EM engine in `EM.cpp` does the following:

- It cuts the N1 alignable fragments into one contiguous shard per thread.
- It iterates EM rounds:
  - every shard's E-step turns the current proportions `theta` into
    fractional counts;
  - the shards' counts and the N0 unaligned reads are reduced into one
    count vector;
  - the M-step normalises that vector into the new `theta`.
- It stops after at least MIN_ROUND rounds once no eligible entry moves by a
  relative STOP_CRITERIA or more, and after MAX_ROUND rounds in any case.
- It then corrects `theta`:
  - it drops transcripts without expected effective length;
  - it runs a final expected-weight E-step pass, which rewrites the stored
    scores as responsibilities;
  - it converts `theta` by the mappability weights.
- It computes tau (theta per effective length) and per-gene totals.

The project models this core imperatively, as the source is written:

- **Store.** The alignment store is a class `HitStore`:
  - its per-fragment hit offsets and transcript ids are fixed;
  - its score arrays `conPrb` and `ncpv` are mutable;
  - `Hits` is its value view.
- **Arrays.** `theta`, `probv`, the shard count vectors, `eel`, `tau` and
  the gene totals are arrays.
- **Methods.** Every loop of the source is a method with loop invariants,
  proved against a specification function on sequences. The properties of
  the engine are lemmas about those functions.
- **Numbers.** `double` is modelled as `real`.
- **Constants.** `EPSILON` and `MINEEL` come from a header outside the
  model. They are arbitrary positive constants, so no proof depends on
  their value.
- **Failures.** Every fatal exit and every aborting `assert` of the core is
  an `Err` of the `Outcome.Fatal` type.

Modules:

| module | file | contents |
|---|---|---|
| Constants | constants.dfy | STOP_CRITERIA, MAX_ROUND, MIN_ROUND, the 1e-7 and 1e-8 floors, EPSILON, MINEEL |
| Outcome | outcome.dfy | the fatal errors and `Result` |
| RealSeq | real_seq.dfy | sums, non-negativity, distributions over `seq<real>` |
| Vectors | vectors.dfy | the array loops: sum, copy, add, divide |
| CompatStore | compat_store.dfy | the fragment and hit store and its score overwrites |
| EStep | e_step.dfy | `E_STEP` |
| Sharding | partition.dfy | the partition loop of `init` |
| Rounds | rounds.dfy | initial theta, reduction, M-step, convergence test, relearning schedule |
| EffectiveLength | effective_length.dfy | `calcExpectedEffectiveLengths` |
| Corrections | corrections.dfy | theta correction, mappability conversion, tau, gene totals |
| Engine | engine.dfy | `init`, the round loop, the final pass, and `EM` as a whole |

Two details of the source shape the model:

- **Final pass.** The final expected-weight E-step runs with `probv` as the
  last round left it, which is theta at the start of that round. It does
  not use the corrected theta, because the source never copies theta into
  `probv` before that pass (EM.cpp:565-583). The final counts are therefore
  those of one more round under the last round's proportions
  (`Engine.FinalPass`).
- **Mappability conversion.** When the converted mass is below EPSILON the
  source aborts through `assert(sum >= EPSILON)` (EM.cpp:602). The model
  reports this as the error `NoMappableMass`.

## Model

| member | source | states |
|---|---|---|
| Sharding.TruncDiv | EM.cpp:122 | the hit threshold is the C++ quotient, truncated toward zero: for a >= 0, q >= 0 and q*b <= a < q*b + b; for a < 0, q <= 0 and q*b - b < a <= q*b |
| Sharding.TakeShard | EM.cpp:128-137 | one thread's read loop: the range taken follows the greedy rule (continue while more fragments than later threads remain and, for a non-last thread, the hit count is below the threshold). At least one fragment per later thread is left, and the last thread leaves none. A stream that ends early is `TruncatedAlignments` |
| Sharding.Partition | EM.cpp:115-143 | wrong read count, wrong read type or a short stream fail, in the source's order and with its error. Otherwise the starts are exactly the greedy partition for threshold `nHits / nThreads` |
| Sharding.GreedyExtend | EM.cpp:126-143 | a range taken by the greedy rule from where the previous thread stopped extends a greedy prefix |
| Sharding.GreedyRoom | EM.cpp:128-132 | before thread k starts, at least one fragment per remaining thread is left |
| Sharding.GreedyContiguous | EM.cpp:121-143 | the greedy ranges are consecutive, start at 0 and end at N1 |
| Sharding.Monotone | EM.cpp:140 | shard starts never decrease |
| Sharding.OneShardPerFragment | EM.cpp:121-143 | every fragment 0..N1-1 lies in exactly one shard |
| Sharding.GreedyUnique | EM.cpp:121-143 | the greedy rule determines the partition: two partitions that follow it are equal |
| Sharding.NonEmptyShards | EM.cpp:132 | the last shard is never empty, and with a positive threshold no shard is |
| CompatStore.SetScores | EM.cpp:216-231 | writing one fragment's scores changes its noise score and its own hits' scores to the given values and nothing else |
| CompatStore.OverwriteNoise | EM.cpp:216-227 | after a run of fragment writes, each written fragment carries its new noise score and every other fragment keeps its own |
| CompatStore.OverwriteHits | EM.cpp:223-230 | after a run of fragment writes, each written fragment's hits carry the new scores, and hits outside the run keep theirs |
| CompatStore.OverwriteCompose | EM.cpp:185-233 | writing fragments a..lo-1 then lo..hi-1 is the same as writing a..hi-1 |
| EStep.ClampCases | EM.cpp:201-208 | a clamped weight is 0 exactly when the raw weight is below EPSILON, and otherwise it is the raw weight |
| EStep.Weights | EM.cpp:195-210 | one weight for noise plus one per hit, all non-negative |
| EStep.NoiseWeight | EM.cpp:200-201 | the noise weight is `probv[0] * ncpv[i]` clamped |
| EStep.HitWeight | EM.cpp:207-208 | the weight of hit j is `probv[sid] * conPrb` clamped |
| EStep.Responsibilities | EM.cpp:212-224 | for a fragment with weight sum at least EPSILON, the responsibilities lie in [0,1] and sum to 1 |
| EStep.NewScores | EM.cpp:212-232 | the scores the expected-weight mode stores: a distribution for a live fragment, all zero for a degenerate one |
| EStep.DepositTotal | EM.cpp:212-224 | a live fragment adds exactly 1 to the count vector's total, a degenerate one adds nothing, and counts stay non-negative |
| EStep.ShardCountsTotal | EM.cpp:184-233 | a shard's counts are non-negative and total the number of its live fragments |
| EStep.ZeroTargetWeight | EM.cpp:200-208 | a target whose proportion is 0 gets weight 0 |
| EStep.ZeroFragmentNoCount | EM.cpp:212-224 | a fragment adds nothing to a transcript whose proportion is 0 |
| EStep.ZeroProportionNoCount | EM.cpp:184-233 | a transcript whose proportion is 0 gets count 0 from a shard |
| EStep.RewrittenScores | EM.cpp:216-231 | after an expected-weight pass over a range, each fragment in it holds its new scores and every score outside it is unchanged |
| EStep.WeightsFrame | EM.cpp:200-207 | a fragment's weights depend only on its own scores |
| EStep.RewrittenKeepsLater | EM.cpp:185-233 | rewriting earlier fragments leaves a later fragment's weights unchanged |
| EStep.ShardCountsAfterPass | EM.cpp:185-233 | a shard counts the same after earlier shards rewrote their scores, so the shards do not interfere |
| EStep.PassesCompose | EM.cpp:185-233 | rewriting shard after shard is one rewrite of the whole range |
| EStep.LiveFragment | EM.cpp:212-224 | a live fragment deposits and stores its weights divided by their sum |
| EStep.PassStep | EM.cpp:185-233 | one fragment of a pass counts the same whether or not earlier fragments were rewritten, and extends the rewrite by one fragment |
| EStep.ComputeWeights | EM.cpp:195-210 | the fracs loop fills the fragment's clamped weights, and `sum` is their sum |
| EStep.FillWeight | EM.cpp:199-209 | one step of the fracs loop extends the weights by one entry |
| EStep.Distribute | EM.cpp:212-224 | a live fragment's normalised weights are added into the count vector at its targets, and stored in expected-weight mode |
| EStep.DistributeHit | EM.cpp:217-224 | one hit's weight is normalised into its responsibility, the count vector gains that hit's responsibility at its transcript, and in expected-weight mode the hit's score becomes it |
| EStep.DistributeHits | EM.cpp:217-224 | the hit loop counts every hit's responsibility and stores the responsibilities in expected-weight mode |
| EStep.ZeroScores | EM.cpp:226-232 | a degenerate fragment's noise score and hit scores become 0 |
| EStep.ProcessFragment | EM.cpp:193-232 | one fragment's deposit into the count vector, and its stored scores in expected-weight mode |
| EStep.ZeroCounts | EM.cpp:184 | the count vector starts at zero |
| EStep.EStep | EM.cpp:163-236 | the shard's count vector is its shard counts: non-negative, totalling its live fragments. The store is rewritten over the shard in expected-weight mode and unchanged otherwise |
| Rounds.NoiseShare | EM.cpp:435 | the initial noise share is `N0/(N_tot-N2)`, or 1e-8 when that is smaller |
| Rounds.NoiseShareAtMostOne | EM.cpp:435 | the noise share is at most 1 when N0 does not exceed `N_tot - N2` |
| Rounds.SpreadRest | EM.cpp:436-437 | the noise share plus M equal shares of the rest sum to 1 |
| Rounds.StartTheta | EM.cpp:435-437 | the starting proportions have one entry per transcript plus noise, begin with the noise share and sum to 1 |
| Rounds.InitTheta | EM.cpp:434-437 | `N_tot <= N2` is fatal. Otherwise theta is `StartTheta`: the noise share followed by M equal shares, summing to 1 |
| Rounds.ColumnSumsTotal | EM.cpp:478-482 | adding the shards' vectors elementwise keeps their total mass and non-negativity |
| Rounds.ReducedTotal | EM.cpp:478-485 | the reduced vector holds the shards' mass plus N0 |
| Rounds.Reduce | EM.cpp:478-485 | the reduction loop leaves countvs[0] as the elementwise sum of all shards plus N0 at index 0 |
| Rounds.MStep | EM.cpp:488-491 | a count total below EPSILON is fatal. Otherwise theta is the counts over their total, a distribution when the counts are non-negative |
| Rounds.SettledMeans | EM.cpp:500-509 | no entry counted as unsettled exactly when every entry with prior at least 1e-7 changed relatively by less than STOP_CRITERIA |
| Rounds.BiggestChangeIsMax | EM.cpp:500-506 | bChange is the largest relative change among eligible entries, or 0 |
| Rounds.ConvergedByBiggestChange | EM.cpp:500-509 | nothing is unsettled exactly when bChange is below STOP_CRITERIA |
| Rounds.RelativeChange | EM.cpp:500-506 | the loop computes totNum and bChange as specified |
| Rounds.DoesUpdateModel | EM.cpp:397-400 | the model is relearned in every round up to MIN_ROUND. That the relearning rounds are exactly rounds 1..20 and the multiples of 100 is stated by the count in RelearnCount |
| Rounds.RelearnCount | EM.cpp:397-400 | in r rounds the model is relearned `min(r, 20) + r / 100` times |
| Vectors.SumArray | EM.cpp:488-489 | the loop's result is the sum of the array |
| Vectors.DivideInto | EM.cpp:491 | the destination becomes the source divided elementwise |
| Vectors.DivideInPlace | EM.cpp:570 | the array is divided elementwise in place |
| Vectors.CopyInto | EM.cpp:461 | probv becomes a copy of theta |
| Vectors.AddInto | EM.cpp:478-482 | one shard's vector is added elementwise into another |
| EffectiveLength.PosBounds | EM.cpp:288-289 | pos1 and pos2 lie in [0, ub-lb], and pos1 <= pos2 when fullLen >= 1 |
| EffectiveLength.ExpectedStartsNonNeg | EM.cpp:294 | the expected number of start positions is non-negative for a non-negative length distribution |
| EffectiveLength.ClosedForm | EM.cpp:288-294 | the prefix-sum formula equals the expected number of start positions, sum over lengths L of pdf(L) times min(fullLen, totLen-L+1) clipped at 0. It is 0 when pos2 is 0 and never negative, which is what the source asserts |
| EffectiveLength.Floor | EM.cpp:295 | an effective length is 0 or at least MINEEL |
| EffectiveLength.LengthMass | EM.cpp:277-281 | clen[i] is the sum of pdf[j] * (lb + j) for 1 <= j <= i |
| EffectiveLength.LenSumStep | EM.cpp:280 | one step of the clen recurrence |
| EffectiveLength.EelValue | EM.cpp:293 | the value the source computes from cdf and clen is the expected number of start positions |
| EffectiveLength.TranscriptEel | EM.cpp:286-295 | one transcript's eel is the expected number of start positions, forced to 0 below MINEEL |
| EffectiveLength.CalcExpectedEffectiveLengths | EM.cpp:272-301 | eel[0] is 0, and each eel[i] is transcript i's expected number of start positions, floored at MINEEL (`ExpectedLengths`) |
| Corrections.EffectiveMass | EM.cpp:565-568 | the correction keeps the noise and every transcript with eel >= EPSILON, zeroes the rest, and does not increase the mass |
| Corrections.CorrectTheta | EM.cpp:565-570 | remaining mass below EPSILON is fatal. Otherwise theta is the kept entries over their sum, a distribution |
| Corrections.MappableInverse | EM.cpp:599 | multiplying a converted entry by its mappability weight gives back theta'. Entries with weight below EPSILON are 0, and non-negativity is kept |
| Corrections.ApplyMappability | EM.cpp:596-603 | converted mass below EPSILON is fatal. Otherwise theta is the converted entries over their sum, a distribution |
| Corrections.CalcTau | EM.cpp:313-326 | a non-positive denominator is fatal. Otherwise tau is theta/eel (for eel >= EPSILON, index >= 1) over its sum |
| Corrections.TauDistribution | EM.cpp:313-326 | tau is a distribution: 0 at index 0 and wherever eel < EPSILON, summing to 1 over 1..M |
| Corrections.FinalTheta | EM.cpp:565-603 | what the corrections make of theta': the first fatal error among no effective length, no mappable mass and no alignable reads, or a final theta with a positive tau denominator |
| Corrections.FinalThetaCases | EM.cpp:565-603 | NoEffectiveLength exactly when the kept mass is below EPSILON; NoMappableMass exactly when it is not but the converted mass is; NoAlignableReads exactly when both pass but the final theta gives no positive tau denominator; otherwise the final theta is the converted entries over their sum |
| Corrections.FinalThetaDistribution | EM.cpp:565-603 | from a distribution theta', the final theta is a distribution, zero wherever eel or mw is below EPSILON |
| Corrections.DroppedStayZero | EM.cpp:565-603 | an entry zeroed by either correction stays 0 through the other, whatever the rescaling |
| Corrections.GeneTotals | EM.cpp:352-363 | gene g's total is the sum of the vector over [sp[g], sp[g+1]) |
| Corrections.GeneSumsTotal | EM.cpp:352-363 | the gene totals together sum the vector over [sp[0], sp[last]) |
| Corrections.GeneTauTotals | EM.cpp:358-363 | when the genes cover transcripts 1..M, the gene tau totals sum to 1 |
| Engine.PartitionCuts | EM.cpp:121-143 | the partition gives ordered cuts from 0 to N1 |
| Engine.ShardRows | EM.cpp:464-474 | one count vector per shard, each of length M+1 |
| Engine.LiveCountSplit | EM.cpp:464-482 | live-fragment counts over adjacent ranges add up |
| Engine.ShardRowsPrefix | EM.cpp:464-474 | dropping the last cut drops the last shard's vector and keeps the others |
| Engine.ShardRowsTotal | EM.cpp:464-482 | over all shards, each live fragment is counted exactly once |
| Engine.ShardRowsNonNeg | EM.cpp:464-474 | no shard count is negative |
| Engine.RoundCountsTotal | EM.cpp:464-485 | a round's reduced counts total the live fragments plus N0, and are non-negative |
| Engine.EStepPass | EM.cpp:461-474 | shard k's count vector holds its counts under probv. In expected-weight mode the whole range is rewritten; otherwise the store is unchanged |
| Engine.Round | EM.cpp:457-506 | probv becomes the old theta. A reduced total below EPSILON is fatal. Otherwise theta is the reduced counts over their total, a distribution, and totNum counts the unsettled entries. The outcome is `Step` of probv |
| Engine.Step | EM.cpp:461-491 | one round on values: from proportions theta, NoCountMass when the reduced counts total below EPSILON, otherwise a distribution of the same length |
| Engine.Iterate | EM.cpp:455-509 | the proportions after t rounds from the starting theta, or NoCountMass from the first round that fails; every result has the starting length |
| Engine.IterateStep | EM.cpp:457-491 | round t starts from the proportions that round t-1 left |
| Engine.ContinuedStep | EM.cpp:509 | a round that succeeds and meets the loop condition extends the run of rounds that kept going |
| Engine.EndBounds | EM.cpp:455-509 | the loop stops after between MIN_ROUND and MAX_ROUND rounds, and a failure comes within MAX_ROUND rounds |
| Engine.EndUnique | EM.cpp:455-509 | the loop condition decides the run: it ends after one number of rounds only, either stopping or failing, never both |
| Engine.FinalCounts | EM.cpp:573-591 | the counts of the pass after the loop stops in round t (the reduced counts of an E-step under the proportions round t started from, with N0 at index 0) have one entry per transcript plus noise, are non-negative and total between N0 and N0 plus the reads of the shards |
| Engine.LearnTheta | EM.cpp:455-509 | the do-while loop from the initial theta. It stops after round t exactly when `StopsAt`: rounds 1..t-1 all succeeded and met the loop condition, and round t succeeded and does not. Theta is then `Iterate` of t rounds and probv `Iterate` of t-1 rounds. It fails only in a round `FailsAt` picks, after the earlier ones kept going. The loop runs between MIN_ROUND and MAX_ROUND rounds, the model is relearned `RelearnRounds` times, the store is unchanged, and theta is the last M-step's distribution |
| Engine.NextRound | EM.cpp:457-509 | one pass of the loop body, tied to the rounds on values: a failure is `FailsAt` this round, and otherwise theta and probv are the proportions after this round and the one before, with either `StopsAt` this round or the earlier rounds kept going |
| Engine.FinalPass | EM.cpp:573-590 | the final pass rewrites every fragment's scores as responsibilities under probv. countvs[0] holds that round's reduced counts, totalling between N0 and N0 plus the fragments |
| Engine.WriteResults | EM.cpp:313-363 | tau, or the fatal error exactly when the denominator is not positive. tau is theta/eel (zero where eel is below EPSILON) divided by its sum, a distribution zero at index 0; the gene totals are the per-gene sums of the counts and of tau (`Written` bundles these), and gene tau totals sum to 1 when the ranges cover all transcripts |
| Engine.Adjust | EM.cpp:565-611 | the correction, the final pass, the mappability conversion and the results. The run fails exactly when `FinalTheta` of the learned theta fails, with its error. On success theta is `FinalTheta`'s value, a distribution zero where eel or mw is below EPSILON; the store holds the final pass's responsibilities, the counts are that pass's reduced counts, tau is theta/eel normalised, and the gene totals follow the gene ranges |
| Engine.Finish | EM.cpp:561-611 | as Adjust, with eel the expected effective lengths of the length distribution (`ExpectedLengths`) |
| Engine.HitsInOffsets | EM.cpp:131-133 | the hits the partition counts for fragments s..e-1 are exactly the alignments the store holds for them, offsets[e] - offsets[s] |
| Engine.Init | EM.cpp:115-156 | header mismatches and a short alignment stream fail in the source's order. Otherwise the shards are the greedy partition, each shard's hit count is the store's alignments for its fragments, and the arrays are fresh, distinct and of length M+1 |
| Engine.Start | EM.cpp:428-437 | `init` and the initial theta: header and stream failures, then `N_tot <= N2`, in the source's order and both ways. Otherwise the shards are the greedy partition, theta is `StartTheta`, and the engine's arrays are fresh and distinct |
| Engine.Complete | EM.cpp:455-611 | the rounds and everything after. NoCountMass comes exactly when theta' is empty. `RoundsEnd` ties the outcome to the rounds from the initial theta: NoCountMass comes from a round that `FailsAt` picks, a non-empty theta' is what a round that `StopsWith` leaves, and on success that round is `rounds` and the counts are `FinalCounts`, those of the final pass. With theta' non-empty, the run fails exactly when `FinalTheta(theta', eel, mw)` fails, with its error. On success `Reports` holds: theta is its value, eel the expected lengths, and tau and the gene totals are exactly as writeResults computes them (`Written`). The round bounds, the relearn count and the distribution properties of theta, the counts and tau are stated as well |
| Engine.RunEM | EM.cpp:404-611 | the whole engine. Header, stream and noise-denominator failures happen exactly under their conditions and in the source's order. Past them, the ghost result `shards` is the greedy partition, and `RoundsEnd` holds for the rounds from `StartTheta` over it. So NoCountMass comes only with N0 < EPSILON, from a failing round; theta' (the first line of the .theta file) is what the stopping round leaves; and on success the counts are `FinalCounts`, the reduced counts of the final pass. The outcome is then exactly `FinalTheta(theta', eel, mw)`: its error, or `Reports`. That means the final theta, eel the expected lengths, tau theta/eel normalised and the gene totals the per-gene sums of the counts and of tau. Also stated: the round bounds and relearn count, the counts between N0 and N0+N1, tau a distribution, and gene tau totals summing to 1 |
| CompatStore.HitStore.constructor | EM.cpp:131-137 | the store's value is exactly the given fragments, hits and scores, held in fresh score arrays |

## Left out

- Threads (EM.cpp:419-475, 574-583) are not modelled: the shards' E-steps run one after another. Shards own disjoint fragments, scores and count vectors, which `EStep.ShardCountsAfterPass` and `EStep.PassesCompose` make precise. Thread creation and join failures are not modelled.
- Per-thread `HitContainer`s are one store of fragments, and shard k is the slice `[starts[k], starts[k+1])` of it.
- File I/O is not modelled:
  - the `.dat` header and alignments become parameters (`nReads`, `nHits`, `rt`, the store, the per-fragment hit counts);
  - the `.theta`, `.iso_res`, `.gene_res` and `.ofg` files, `model.write` and the BAM writer (EM.cpp:309-310, 328-371, 514-559, 604-623) are not written; `Engine.RunEM` returns theta', the first line of the `.theta` file, and the final theta;
  - `writeResults` is modelled only for the values it prints.
- `ReadReader`/`ReadIndex` positioning (`locate`, `next`; EM.cpp:129, 181-192) is not modelled, nor are the errors they report.
- The probability model is foreign code: `getConPrb`, `getNoiseConPrb`, `calcConProbs`, `getGLD().copyTo` and `getMW`.
  - The scores are already stored, as when `needCalcConPrb` is false.
  - The length distribution and the mappability weights are inputs.
- Engine.LearnTheta: model relearning (`mhp->update`, `updateNoise`, `collect`, `finish`) is only counted through `DoesUpdateModel`. Relearning does not change the scores the E-step reads in this model, whereas in the source a relearned model feeds later rounds only through `getConPrb`, which is out of scope.
- Floating point is modelled as exact `real` arithmetic. Rounding, NaN and overflow are not modelled.
- In specification functions, a product of a real by an integer is written as repeated addition (`EffectiveLength.Times`). `EffectiveLength.TimesProduct` proves it equal to the product.
- The `main` front end and argument parsing (EM.cpp:628-723) are not modelled, nor is the template dispatch on the read type.
- Memory allocation and `release` (EM.cpp:378-395) are not modelled.
- The aborting `assert`s at EM.cpp:434, 490 and 602 are modelled as the errors `NoNoiseDenominator`, `NoCountMass` and `NoMappableMass`. The assertion `eel[i] >= 0` (EM.cpp:294) is proved instead (`EffectiveLength.ClosedForm`).
- The convergence warning at EM.cpp:512 and the verbose progress output are not modelled.
- RunEM requires `1 <= nThreads <= N1`, which the front end ensures before the engine starts (EM.cpp:698). It requires at least one transcript (`|totLen| >= 2`, so M >= 1), because the initial theta divides the rest of the mass by M (EM.cpp:436). It also requires every transcript to have `fullLen >= 1`, a property of the reference.
- The length distribution is taken on lengths `lb+1..ub`: `cdf[0] = 0` and `cdf` holds the prefix sums of a non-negative `pdf` over entries 1..k. `pdf[0]` is never read.
- Corrections.CalcTau divides entries 0..M by the denominator, where the source divides only 1..M. Entry 0 is zero, so the result is the same.
