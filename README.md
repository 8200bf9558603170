# Adaptive tau-leaping engine: a Dafny model

This project models `CStochasticEqns` in `CoreClm/AdaptiveTau/adaptivetau.cpp`,
the simulator behind `simAdaptiveTau` and `simExact`. It simulates a
continuous-time Markov chain over integer state variables. Each transition
`j` has a sparse change list `nu[j]`: firing it adds a magnitude to some
variables. A rate function gives one nonnegative rate per transition.

The exact simulator (Gillespie's direct method) fires one transition per step.
The adaptive simulator (Cao, Gillespie and Petzold) classifies the
transitions on each step:

- A *critical* transition is a normal one within `nCritical` firings of
  driving a variable negative. Halting transitions are always critical.
- The other normal transitions are leapt over an interval `tau`. A leap is
  explicit, or implicit when the system is stiff.
- At most one critical transition fires per leap.

A leap that would make a variable negative is undone, and the step is
retried with half the `tau`. Below a threshold the engine falls back to a
burst of exact steps.

The model is split into modules:

- `Types`: categories, step kinds, change entries, extended reals
  (`+inf`), time points, errors and parameters.
- `Decimal`: parsing a `short` from a state name, and rendering the
  default column names.
- `TransitionTable`: building the sparse table from a dense matrix or a
  named sparse list. It also has the `x_SetCat` flagging, the
  all-deterministic check, balanced pairs, real-valued variables and the
  initial-value check.
- `Construction`: the whole table construction of the constructor, as a
  value.
- `Parameters`: `SetTLParams` over a list of named settings.
- `Stoichiometry`: applying change lists and leaps to a state, and rate
  sums.
- `Partition`: `minTimes`, the critical/normal split, and the two
  roulette wheels with their cumulative sums.
- `Controller`: the mode choice, the `tau` caps, the sub-step timing and
  the proof that halving `tau` ends in the exact fallback.
- `Output`: the result object, the column names and the column-major time
  series matrix.
- `Draws`: `Rng`, the random stream. Each draw reads the next position of a
  fixed stream of exponential, uniform, Poisson-count and implicit-leap
  outcomes.
- `Simulator`: the engine as a class `StochasticEqns`. Its state buffer is
  an `array<int>`, and the rates, category lists and time series are fields
  that the methods reassign. It also has the two entry points.

The rate function, the explicit and implicit tau selectors, the optional
user max-tau function and the user-interrupt poll are callbacks in the
`Env` datatype. Every result is stated in terms of the values those
callbacks return.

## Model

| member | source | states |
|---|---|---|
| TransitionTable.DenseToSparse | CoreClm/AdaptiveTau/adaptivetau.cpp:105-117 | one change list per matrix column, each being `Column` of that column, all referring to existing variables |
| TransitionTable.ColumnExact | CoreClm/AdaptiveTau/adaptivetau.cpp:105-117 | a column's change list holds exactly its nonzero entries with their magnitudes, in strictly increasing state order |
| TransitionTable.FirstIndex | CoreClm/AdaptiveTau/adaptivetau.cpp:138-141 | the index of the first variable carrying the name, or the number of names when none does |
| TransitionTable.FindName | CoreClm/AdaptiveTau/adaptivetau.cpp:138-142 | the name search loop stops at the first match, or at the end of the names |
| TransitionTable.ResolveNumber | CoreClm/AdaptiveTau/adaptivetau.cpp:143-155 | a numeric name resolves only to an existing 0-based variable |
| TransitionTable.ResolveState | CoreClm/AdaptiveTau/adaptivetau.cpp:130-157 | the state a sparse entry's name resolves to: a matching variable name below the state count, else a 1-based number, else an error |
| TransitionTable.ResolveSpecFails | CoreClm/AdaptiveTau/adaptivetau.cpp:133-155 | resolution fails exactly when the name is empty, or when it neither names a variable below the state count nor reads as a whole 1-based number between 1 and the state count that fits a `short` |
| TransitionTable.ResolveByName | CoreClm/AdaptiveTau/adaptivetau.cpp:137-142 | a name equal to variable `i` (and to no earlier one) resolves to `i` |
| TransitionTable.ResolveByNumber | CoreClm/AdaptiveTau/adaptivetau.cpp:143-151 | without names, the decimal rendering of `i+1` resolves to `i` when it fits a `short`, and fails otherwise |
| TransitionTable.ResolveEntriesOk | CoreClm/AdaptiveTau/adaptivetau.cpp:130-158 | a sparse column converts exactly when every entry's name resolves |
| TransitionTable.ResolveEntriesBuilt | CoreClm/AdaptiveTau/adaptivetau.cpp:130-158 | a converted column keeps its length, and entry `i` becomes the resolved state with the entry's magnitude |
| TransitionTable.ResolveEntriesStops | CoreClm/AdaptiveTau/adaptivetau.cpp:152-155 | the first unresolvable entry decides the error; later entries cannot change it |
| TransitionTable.ResolveColumn | CoreClm/AdaptiveTau/adaptivetau.cpp:127-158 | a sparse column converts exactly when all its names resolve, into in-bounds changes with the given magnitudes |
| TransitionTable.SparseToNu | CoreClm/AdaptiveTau/adaptivetau.cpp:118-159 | the sparse list converts exactly when every column is numeric and resolvable, giving one in-bounds change list per column |
| TransitionTable.TrueIndicesExact | CoreClm/AdaptiveTau/adaptivetau.cpp:677-688 | the indices taken from a logical flag vector are exactly its true positions, in increasing order |
| TransitionTable.ZeroBased | CoreClm/AdaptiveTau/adaptivetau.cpp:689-703 | each 1-based flag index becomes the same index minus one |
| TransitionTable.SetCat | CoreClm/AdaptiveTau/adaptivetau.cpp:675-704 | flagging fails exactly when the flags do not fit the transitions; otherwise the flagged transitions take the category and the list grows by the flagged indices |
| TransitionTable.SetCatByMask | CoreClm/AdaptiveTau/adaptivetau.cpp:677-688 | a logical vector longer than the transition count is an error; otherwise every true position is flagged and appended in order |
| TransitionTable.SetCatByIndex | CoreClm/AdaptiveTau/adaptivetau.cpp:689-703 | an index above the transition count is an error; otherwise each index from 1 is flagged and appended 0-based, repeats included |
| TransitionTable.IndexCatsAre | CoreClm/AdaptiveTau/adaptivetau.cpp:689-703 | the categories the index loop leaves are those of flagging every listed index |
| TransitionTable.CheckStochastic | CoreClm/AdaptiveTau/adaptivetau.cpp:164-169 | reports exactly when every transition is deterministic (the corrected check) |
| TransitionTable.RepeatedIndexRejectsStochasticTable | CoreClm/AdaptiveTau/adaptivetau.cpp:164-169 | index flags `[1, 1]` on two transitions make the length test as written report "all deterministic", yet transition 2 stays stochastic |
| TransitionTable.RepeatedIndexAcceptsDeterministicTable | CoreClm/AdaptiveTau/adaptivetau.cpp:164-169 | index flags `[1, 2, 2]` on two transitions escape the length test as written, yet every transition is deterministic |
| TransitionTable.RowPairsSound | CoreClm/AdaptiveTau/adaptivetau.cpp:655-668 | every pair found for one row is a later transition whose change list is that row's negation |
| TransitionTable.RowPairsComplete | CoreClm/AdaptiveTau/adaptivetau.cpp:655-668 | every later transition balancing the row is found |
| TransitionTable.PairsUpToSound | CoreClm/AdaptiveTau/adaptivetau.cpp:652-670 | every recorded balanced pair `(j1, j2)` has `j1 < j2` and opposite change lists |
| TransitionTable.PairsUpToSorted | CoreClm/AdaptiveTau/adaptivetau.cpp:652-670 | the pairs come out in lexicographic order, hence without repeats |
| TransitionTable.PairsUpToComplete | CoreClm/AdaptiveTau/adaptivetau.cpp:652-670 | every balanced pair of transitions is recorded |
| TransitionTable.Balanced | CoreClm/AdaptiveTau/adaptivetau.cpp:657-664 | two change lists balance exactly when they have the same length and each entry has the same state and the opposite magnitude |
| TransitionTable.IdentifyBalancedPairs | CoreClm/AdaptiveTau/adaptivetau.cpp:652-670 | the pair list is the sorted list of all balanced pairs (with the three lemmas above) |
| TransitionTable.IdentifyRealValuedVariables | CoreClm/AdaptiveTau/adaptivetau.cpp:710-721 | a variable is real-valued exactly when some deterministic transition changes it |
| TransitionTable.CheckInitialValues | CoreClm/AdaptiveTau/adaptivetau.cpp:217-222 | accepted exactly when no initial value is negative; otherwise the error names the first negative variable |
| Construction.DetCats | CoreClm/AdaptiveTau/adaptivetau.cpp:161-164 | the categories after the deterministic flags, one per transition |
| Construction.FlagListFlagged | CoreClm/AdaptiveTau/adaptivetau.cpp:675-704 | every listed index exists and carries the flagged category |
| Construction.MaskCheckAgrees | CoreClm/AdaptiveTau/adaptivetau.cpp:164-169 | with a logical flag vector the length test as written agrees with "every transition deterministic" |
| Construction.TrueIndicesCount | CoreClm/AdaptiveTau/adaptivetau.cpp:677-688 | a logical vector yields as many indices as its length exactly when all entries are true |
| Construction.BuildNu | CoreClm/AdaptiveTau/adaptivetau.cpp:105-159 | the change-list table is built exactly when the sparse input resolves, and is the table of the input |
| Construction.AssembledValid | CoreClm/AdaptiveTau/adaptivetau.cpp:160-178 | the flagged table meets the engine's table invariant |
| Construction.BuildCats | CoreClm/AdaptiveTau/adaptivetau.cpp:160-174 | flagging succeeds exactly when both flag sets fit and some transition stays stochastic; the result is the halting flags over the deterministic ones plus the two index lists |
| Construction.Assemble | CoreClm/AdaptiveTau/adaptivetau.cpp:160-222 | from a built change-list table, succeeds exactly when the flags fit, a transition stays stochastic and no initial value is negative; the table carries the flags, all balanced pairs and the real-valued variables |
| Construction.Build | CoreClm/AdaptiveTau/adaptivetau.cpp:83-222 | the whole table construction succeeds exactly on buildable input, and then yields a valid table with the input's change lists, flags, balanced pairs and real-valued variables |
| Parameters.ApplyAll | CoreClm/AdaptiveTau/adaptivetau.cpp:254-305 | applying settings changes only the five settable parameters and keeps the parameters valid |
| Parameters.ApplyAllRejects | CoreClm/AdaptiveTau/adaptivetau.cpp:257-299 | a settings list is rejected exactly when some entry carries one of the five known names with a value of the wrong type or a length other than one (unknown names are ignored), and the error names the first such entry |
| Parameters.ApplyAllLastWins | CoreClm/AdaptiveTau/adaptivetau.cpp:257-299 | each parameter takes the last value given for it, or keeps its old value; so `maxtau` becomes finite once given |
| Parameters.ApplyAllStops | CoreClm/AdaptiveTau/adaptivetau.cpp:257-299 | the run of settings stops at the first invalid one |
| Parameters.SetTLParams | CoreClm/AdaptiveTau/adaptivetau.cpp:254-305 | the loop over the settings computes `ApplyAll` |
| Controller.ChooseMode | CoreClm/AdaptiveTau/adaptivetau.cpp:1174-1180 | the step is implicit exactly when `tauEx * nStiff < tauIm`, with the chosen kind's tau; never exact |
| Controller.ModeNeverShortens | CoreClm/AdaptiveTau/adaptivetau.cpp:1174-1180 | for a stiffness ratio of at least 1, the chosen tau is never below the explicit one, and an implicit choice is more than `nStiff` times it |
| Controller.CapTau | CoreClm/AdaptiveTau/adaptivetau.cpp:1181-1190 | the capped tau is at most the remaining time and the chosen tau; below `maxtau` it is their minimum; above it, with a user function it is the minimum with the user's value, and otherwise at most `maxtau` |
| Controller.CapTauPositive | CoreClm/AdaptiveTau/adaptivetau.cpp:1181-1195 | with positive remaining time, tau, `maxtau` and user value, the capped tau is positive |
| Controller.UserMaxTauOverridesParameter | CoreClm/AdaptiveTau/adaptivetau.cpp:1184-1185 | one instance of `CapTau`'s user clause: with `maxtau` 1, 10 time units left and no tau bound, a user value of 3 gives a trial tau of 3 and no user function gives 1 |
| Controller.LeapTau | CoreClm/AdaptiveTau/adaptivetau.cpp:1229 | the explicit sub-step never exceeds the trial tau |
| Controller.SubStepTiming | CoreClm/AdaptiveTau/adaptivetau.cpp:1221-1236 | a critical transition fires exactly when its waiting time is below tau, and the explicit leap then lasts that waiting time; an implicit step goes explicit only when `tau2 <= tauEx` |
| Controller.HalvingDecreases | CoreClm/AdaptiveTau/adaptivetau.cpp:1193-1274 | each halving of a tau at or above the exact threshold strictly lowers its multiple of the threshold, so the retry loop ends |
| Controller.Halved | CoreClm/AdaptiveTau/adaptivetau.cpp:1271 | the trial tau after `k` halvings stays positive and never exceeds the starting tau |
| Controller.HalvedOnce | CoreClm/AdaptiveTau/adaptivetau.cpp:1271 | halving `k + 1` times is halving the halved tau `k` times |
| Controller.HalvingsBelow | CoreClm/AdaptiveTau/adaptivetau.cpp:1193-1274 | for a positive exact threshold, some number of halvings brings any trial tau below it: the retry loop makes at most that many passes after the first |
| Stoichiometry.ApplyChanges | CoreClm/AdaptiveTau/adaptivetau.cpp:794-796 | applying a change list keeps the number of variables |
| Stoichiometry.ApplyChangesAt | CoreClm/AdaptiveTau/adaptivetau.cpp:794-796 | firing a transition `k` times adds `k` times its net change to each variable |
| Stoichiometry.ApplyZero | CoreClm/AdaptiveTau/adaptivetau.cpp:1082-1084 | zero firings leave the state unchanged |
| Stoichiometry.ApplyChangesUntouched | CoreClm/AdaptiveTau/adaptivetau.cpp:794-796 | a variable the change list does not mention is unchanged |
| Stoichiometry.LeapAt | CoreClm/AdaptiveTau/adaptivetau.cpp:1069-1087 | a leap adds, per variable, the sum over the leapt transitions of firings times net change |
| Stoichiometry.SumRatesConcat | CoreClm/AdaptiveTau/adaptivetau.cpp:1117-1153 | the rate sum over two lists is the sum of their rate sums |
| Stoichiometry.SumRatesNonneg | CoreClm/AdaptiveTau/adaptivetau.cpp:1117-1153 | sums of nonnegative rates are nonnegative |
| Stoichiometry.StepwiseNonnegEnds | CoreClm/AdaptiveTau/adaptivetau.cpp:1246-1254 | a critical firing that passes the per-entry negativity test ends in a nonnegative state |
| Partition.MinTimes | CoreClm/AdaptiveTau/adaptivetau.cpp:1138-1144 | the remaining-firings count fits an `unsigned int` |
| Partition.MinTimesIsMinimum | CoreClm/AdaptiveTau/adaptivetau.cpp:1138-1144 | `minTimes` is the least headroom over the negative entries, or `UINT_MAX` when there is none |
| Partition.CriticalIff | CoreClm/AdaptiveTau/adaptivetau.cpp:1138-1145 | a transition is critical exactly when some consuming entry has fewer than `nCritical` firings of headroom |
| Partition.DynListExact | CoreClm/AdaptiveTau/adaptivetau.cpp:1131-1152 | the rebuilt critical (normal) list holds exactly the normal transitions that are (are not) critical, in increasing order |
| Partition.PartitionExact | CoreClm/AdaptiveTau/adaptivetau.cpp:1131-1152 | each normal transition is in exactly one of the two lists; no other transition is in either |
| Partition.StochRateNonneg | CoreClm/AdaptiveTau/adaptivetau.cpp:766-773 | the summed stochastic rate is nonnegative |
| Partition.CumIsRatio | CoreClm/AdaptiveTau/adaptivetau.cpp:778-788 | the roulette's running sum of `rate/stochRate` is the partial stochastic rate over the total |
| Partition.CumReachesOne | CoreClm/AdaptiveTau/adaptivetau.cpp:778-788 | over all transitions the running sum reaches exactly 1, so a draw below 1 always stops the walk |
| Partition.CumMonotone | CoreClm/AdaptiveTau/adaptivetau.cpp:778-788 | the roulette's running sum never decreases |
| Partition.ExactChoiceProperties | CoreClm/AdaptiveTau/adaptivetau.cpp:778-790 | the chosen transition is stochastic with a positive rate, is chosen with probability `rate/stochRate`, and is the only one the draw selects |
| Partition.CritCumIsRatio | CoreClm/AdaptiveTau/adaptivetau.cpp:729-737 | the critical roulette's running sum is the partial critical rate over the total |
| Partition.CritCumTotal | CoreClm/AdaptiveTau/adaptivetau.cpp:729-739 | over the whole critical list the running sum reaches 1, so a draw below 1 always selects a transition |
| Partition.CritCumMonotone | CoreClm/AdaptiveTau/adaptivetau.cpp:729-737 | the critical running sum never decreases |
| Partition.CritPickProperties | CoreClm/AdaptiveTau/adaptivetau.cpp:726-739 | the picked critical transition has a positive rate, is picked with probability `rate/criticalRate`, and its list position is the only one the draw selects |
| Decimal.SkipSpace | CoreClm/AdaptiveTau/adaptivetau.cpp:144-145 | formatted input drops a prefix of white space and stops at the first other character |
| Decimal.SkippedSpace | CoreClm/AdaptiveTau/adaptivetau.cpp:144-145 | everything formatted input skips before the number is white space |
| Decimal.SkipSpaceOf | CoreClm/AdaptiveTau/adaptivetau.cpp:144-145 | white space in front of a non-space character is skipped entirely, and nothing more |
| Decimal.SignedParsed | CoreClm/AdaptiveTau/adaptivetau.cpp:145-146 | a successful read after the white space is an optional sign followed by a nonempty digit string running to the end, and yields the digits' signed value |
| Decimal.SignedSpelled | CoreClm/AdaptiveTau/adaptivetau.cpp:145-146 | conversely, an optional sign followed by a nonempty digit string reads as the digits' signed value |
| Decimal.ParsedSpelling | CoreClm/AdaptiveTau/adaptivetau.cpp:144-150 | a successful `iss >> state` read of a whole name comes from a spelling as white space, an optional sign and digits up to the end, and has the digits' signed value |
| Decimal.ParseSpelled | CoreClm/AdaptiveTau/adaptivetau.cpp:144-150 | every such spelling reads, as the signed value of its digits; with `ParsedSpelling`, the read succeeds exactly on those spellings |
| Decimal.NatToDecimal | CoreClm/AdaptiveTau/adaptivetau.cpp:387-389 | a rendered number is a digit string without a leading zero |
| Decimal.DigitsOfDecimal | CoreClm/AdaptiveTau/adaptivetau.cpp:387-389 | a rendered number's digits have its value |
| Decimal.ParseRendered | CoreClm/AdaptiveTau/adaptivetau.cpp:144-150 | reading back a rendered number gives the number |
| Output.ResultOf | CoreClm/AdaptiveTau/adaptivetau.cpp:349-364 | the result is the bare time series exactly when no transition halts, and otherwise carries it as its dynamics |
| Output.HaltingFieldIsLastTransition | CoreClm/AdaptiveTau/adaptivetau.cpp:357-359 | the halting field is present exactly when the last transition is a halting one, and is its 1-based number |
| Output.ColumnNames | CoreClm/AdaptiveTau/adaptivetau.cpp:377-391 | "time" then one name per variable: its own name when given, else `x<i+1>` |
| Output.DefaultNamesDistinct | CoreClm/AdaptiveTau/adaptivetau.cpp:386-389 | default column names are pairwise distinct and never "time" |
| Output.EntryLayout | CoreClm/AdaptiveTau/adaptivetau.cpp:370-374 | in the column-major matrix, row `t` of column 0 is time point `t`'s time and of column `i+1` its variable `i` |
| Output.FillRow | CoreClm/AdaptiveTau/adaptivetau.cpp:371-374 | writing one time point fills exactly its row and leaves the others |
| Output.TimeSeriesMatrix | CoreClm/AdaptiveTau/adaptivetau.cpp:366-375 | a fresh matrix of `points * (states + 1)` cells, each the entry its layout prescribes |
| Simulator.DrawnCounts | CoreClm/AdaptiveTau/adaptivetau.cpp:1070-1080 | one Poisson count per leapt transition |
| Simulator.ApplyInPlace | CoreClm/AdaptiveTau/adaptivetau.cpp:794-796 | the state buffer becomes the change list applied `k` times |
| Simulator.CheckOrRestore | CoreClm/AdaptiveTau/adaptivetau.cpp:1095-1101 | a negative variable is reported exactly when one exists, and then the state before the leap is restored |
| Simulator.LeapStep | CoreClm/AdaptiveTau/adaptivetau.cpp:1069-1087 | leaping one more transition applies that transition's drawn count to the leap so far |
| Simulator.FireDrawn | CoreClm/AdaptiveTau/adaptivetau.cpp:1072-1087 | one transition fires its drawn count of times |
| Simulator.LeapInPlace | CoreClm/AdaptiveTau/adaptivetau.cpp:1069-1087 | the buffer becomes the leap with one fresh Poisson draw per normal transition, in list order |
| Simulator.FireInPlace | CoreClm/AdaptiveTau/adaptivetau.cpp:1246-1254 | a critical firing succeeds exactly when no entry leaves its variable negative; on failure the error names the first such entry and the buffer holds the entries applied so far |
| Simulator.MinTimesOf | CoreClm/AdaptiveTau/adaptivetau.cpp:1138-1144 | the loop computes `minTimes` of the transition on the buffer |
| Simulator.SumOver | CoreClm/AdaptiveTau/adaptivetau.cpp:1120-1129 | the loop sums the rates over a transition list |
| Simulator.CritAdvance | CoreClm/AdaptiveTau/adaptivetau.cpp:1134-1152 | one more transition extends the critical list and rate exactly when it is a critical normal one |
| Simulator.NormAdvance | CoreClm/AdaptiveTau/adaptivetau.cpp:1134-1152 | one more transition extends the normal list and rate exactly when it is a non-critical normal one |
| Simulator.SplitTransitions | CoreClm/AdaptiveTau/adaptivetau.cpp:1117-1153 | the critical list is the halting list followed by the critical normal transitions; the normal list is the rest of the normal ones; the two rates sum their lists, the deterministic ones counted as non-critical |
| Simulator.StochasticRate | CoreClm/AdaptiveTau/adaptivetau.cpp:766-773 | the loop sums the rates of the non-deterministic transitions |
| Simulator.Roulette | CoreClm/AdaptiveTau/adaptivetau.cpp:778-788 | the roulette walk returns the transition the uniform draw selects |
| Simulator.ExactFire | CoreClm/AdaptiveTau/adaptivetau.cpp:777-797 | the selected transition fires once on the buffer |
| Simulator.ExactMove | CoreClm/AdaptiveTau/adaptivetau.cpp:762-805 | with no stochastic rate or an exponential wait beyond `tf`, time jumps to `tf` with no firing; otherwise time advances by the wait and the selected transition fires once |
| Simulator.CritRoulette | CoreClm/AdaptiveTau/adaptivetau.cpp:729-737 | the walk over the critical list returns the position the draw selects |
| Simulator.PickCritical | CoreClm/AdaptiveTau/adaptivetau.cpp:726-739 | the returned transition is the critical one at the selected position |
| Simulator.ExplicitLeap | CoreClm/AdaptiveTau/adaptivetau.cpp:1061-1105 | the explicit leap draws once per normal transition; "tau too big" is reported exactly when the leap would leave a variable negative, and then the state is left as it was |
| Simulator.ImplicitLeap | CoreClm/AdaptiveTau/adaptivetau.cpp:812-1055 | the implicit leap takes its outcome from one draw; "tau too big" exactly when it is negative somewhere, and then the state stays |
| Simulator.DrawWait | CoreClm/AdaptiveTau/adaptivetau.cpp:1221-1222 | the critical waiting time is infinite with no critical rate and otherwise an exponential draw at that rate, never negative |
| Simulator.Leap | CoreClm/AdaptiveTau/adaptivetau.cpp:1223-1235 | the explicit or implicit leap, as chosen, with the same too-big contract |
| Simulator.CritFire | CoreClm/AdaptiveTau/adaptivetau.cpp:1236-1256 | the picked critical transition fires entry by entry, failing at the first negative variable |
| Simulator.LeapMove | CoreClm/AdaptiveTau/adaptivetau.cpp:1220-1256 | one leap attempt: its duration is the critical wait or the trial tau, whichever the sub-step rule gives; a too-big leap changes nothing; otherwise the leap lands and, when the wait was shorter, one critical transition fires |
| Simulator.BurstExtend | CoreClm/AdaptiveTau/adaptivetau.cpp:1202-1211 | a further exact step from where the burst stands, after a step that did not halt, extends the chain of steps from the burst's start |
| Simulator.StochasticEqns.constructor | CoreClm/AdaptiveTau/adaptivetau.cpp:173-238 | the engine starts from the built table with the critical list seeded by the halting transitions, default parameters, time 0, no last transition and exact as previous step kind |
| Simulator.StochasticEqns.SetTLParams | CoreClm/AdaptiveTau/adaptivetau.cpp:254-305 | valid settings replace the parameters as `ApplyAll` prescribes; an invalid one is reported and leaves them as they were |
| Simulator.StochasticEqns.GetResult | CoreClm/AdaptiveTau/adaptivetau.cpp:349-364 | the time series alone without halting transitions; otherwise with the halting field, which is present exactly when the run halted and holds the 1-based last transition |
| Simulator.StochasticEqns.UpdateRates | CoreClm/AdaptiveTau/adaptivetau.cpp:445-490 | rates are the rate function's value exactly when the state passes the extra checks and the vector is accepted; otherwise the error is the first negative variable, a count mismatch or the first negative rate, and the rates stay |
| Simulator.StochasticEqns.Classify | CoreClm/AdaptiveTau/adaptivetau.cpp:1117-1153 | the engine's lists become the classification of the current state, and the two rates their sums |
| Simulator.StochasticEqns.ExactStep | CoreClm/AdaptiveTau/adaptivetau.cpp:762-805 | an exact step on the engine, no later than `tf`, after which the new point is recorded |
| Simulator.StochasticEqns.TryLeap | CoreClm/AdaptiveTau/adaptivetau.cpp:1220-1272 | one leap attempt on the engine, as `LeapDone` states over the state, time, stream position, record and last transition it began from: the leap's outcome is `LeapOutcome`'s; too big leaves time and record unchanged; otherwise time advances by the step's duration and, unless the critical firing failed, the new point is recorded |
| Simulator.StochasticEqns.AdvanceTo | CoreClm/AdaptiveTau/adaptivetau.cpp:1158-1161 | time moves forward to the given time, optionally recording the point, and the record stays in time order |
| Simulator.StochasticEqns.ExactBurst | CoreClm/AdaptiveTau/adaptivetau.cpp:1196-1218 | `BurstDone` from the given start: between one and `numExactSteps[previous kind]` chained exact steps, the first on the rates it began with and every later one after a rate update at the point the step before recorded, each point recorded and the stream carried on; `halted` exactly when the last transition halts; it stops early only at `tf`, a halting transition or a failed state check or rate update, whose error it returns |
| Simulator.StochasticEqns.BurstEnds | CoreClm/AdaptiveTau/adaptivetau.cpp:1196-1211 | glue between the burst loop and `BurstDoneAt`: a burst under way whose loop test (steps left, time left, no error, no halt) fails is done |
| Simulator.StochasticEqns.BurstGrow | CoreClm/AdaptiveTau/adaptivetau.cpp:1202-1216 | one exact step of the burst under way (`BurstSoFar`), which has room for a step before `tf`: an error leaves the engine as it was and names the failed check, which the first step cannot meet; otherwise the burst grows by the step, its point recorded, and is still under way, halted exactly when the step's transition halts |
| Simulator.StochasticEqns.BurstMove | CoreClm/AdaptiveTau/adaptivetau.cpp:1203-1206 | every step but the first recomputes the rates and fails, changing nothing, exactly when the state check or update fails; then one exact step from the given point, as `BurstStep` states, with its point recorded |
| Simulator.StochasticEqns.ControlPass | CoreClm/AdaptiveTau/adaptivetau.cpp:1193-1273 | one pass of the retry loop from the given start: a nonpositive tau is the logic error; a positive tau below the exact threshold is an exact burst as `BurstDoneAt` states it; at or above it the step keeps the mode's kind and the rates and is `TryLeap`'s leap as `LeapDoneAt` states it, retried with nothing changed exactly when it was too big; all of it bundled, when not retried, as `PassDoneAt` |
| Simulator.StochasticEqns.ControlLoop | CoreClm/AdaptiveTau/adaptivetau.cpp:1192-1274 | the retry loop halves tau `halvings` times, each while it was still at or above the exact threshold, down to the final tau, whose pass is `PassDoneAt`: nonpositive, the logic error; positive and below the threshold, the exact burst from the start state; otherwise a leap of the mode's kind at that tau that was not too big, over the unchanged rates |
| Simulator.StochasticEqns.PhaseFromPass | CoreClm/AdaptiveTau/adaptivetau.cpp:1181-1274 | glue, unfolding definitions: the final pass of the control loop, begun from the phase's trial tau halved past taus at or above the threshold, is the phase's outcome `PhaseDoneAt` |
| Simulator.StochasticEqns.LeapPhase | CoreClm/AdaptiveTau/adaptivetau.cpp:1167-1276 | `PhaseDoneAt` from the state it began in to the engine `s` it leaves: the trial tau is `TrialTau`, every halving before the last was at or above `exactThreshold / total`, and the final one gives the error, the exact burst of `numExactSteps[previous kind]` steps at most, or `LeapMode`'s leap; a leap records exactly one point; `KindRememberedAt`: the previous step kind becomes the step's kind unless the pass failed or a halting transition ended the burst (the `return` at 1216) |
| Simulator.LeapMode | CoreClm/AdaptiveTau/adaptivetau.cpp:1169-1180 | the mode chosen from the two tau selectors at the current state is explicit or implicit, never exact |
| Simulator.TrialTau | CoreClm/AdaptiveTau/adaptivetau.cpp:1181-1190 | the capped trial tau never passes the final time |
| Simulator.StochasticEqns.SingleStepATL | CoreClm/AdaptiveTau/adaptivetau.cpp:1112-1276 | `StepDoneAt` from the engine it began with to the snapshot `s1` of the engine it leaves: the lists become the classification of the state; a zero total rate jumps to `tf`, records the point and changes nothing else; otherwise `LeapPhase`'s account of the step, over the rates and state it began with |
| Simulator.StochasticEqns.PhaseCompletesStep | CoreClm/AdaptiveTau/adaptivetau.cpp:1112-1276 | glue, unfolding `StepDoneAt`: at a positive total rate, from a classified state, the leap phase's outcome is the step's |
| Simulator.StochasticEqns.AdaptiveIteration | CoreClm/AdaptiveTau/adaptivetau.cpp:315-316 | `AdaptiveStepped` from the snapshot `s0` it began with to the snapshot `s1` it leaves: a failed state check or rate update is returned and `s1 == s0`, rates, lists, previous kind and last transition included; otherwise the step is `StepDoneAt` from the rates the rate function gives at the state and time the pass began with |
| Simulator.StochasticEqns.AdaptiveLoop | CoreClm/AdaptiveTau/adaptivetau.cpp:312-321 | `AdaptiveRun` over the snapshots `run` and step accounts `acts`: `run` starts at the engine the loop began with and ends at the engine it leaves; every step `k` began at `run[k]` with the loop test true (time left, the cap not reached, no halting last transition) and took the engine to `run[k + 1]` as `AdaptiveStepped` states, so no step follows a halting transition; there are `steps` of them plus the failed one; the loop stops on the test failing, an error, an interrupt polled every tenth step, or the fuel bound; no poll before the last reported an interrupt; when the test fails on entry nothing changes |
| Simulator.StochasticEqns.EvaluateATLUntil | CoreClm/AdaptiveTau/adaptivetau.cpp:307-326 | records the initial point at time 0, then runs `AdaptiveLoop`, with the same `AdaptiveRun` account, starting from the engine as it was with that point recorded; when the loop test fails at the start the run ends after the initial point with the state and time unchanged |
| Simulator.StochasticEqns.ExactIteration | CoreClm/AdaptiveTau/adaptivetau.cpp:336-337 | `ExactStepped` from `s0` to `s1`: the pass fails exactly when the state check or rate update does, and then `s1 == s0`; otherwise the rates are the rate function's at the old state, the lists and previous kind stay, and the step is `ExactOutcome`'s exact step from there, its point recorded |
| Simulator.StochasticEqns.AdaptiveRunExtend | CoreClm/AdaptiveTau/adaptivetau.cpp:312-317 | a step begun with the loop test true at the last snapshot of an adaptive run that has not failed, and related to its successor by `AdaptiveStepped`, extends the run: every earlier step keeps its test and its relation, and only the new last step may carry an error |
| Simulator.StochasticEqns.AdaptivePass | CoreClm/AdaptiveTau/adaptivetau.cpp:312-317 | a pass begun with the loop test true at the last snapshot of the run so far extends the run (`AdaptiveRun`) by the snapshot of the engine it leaves and the account of its step |
| Simulator.StochasticEqns.ExactRunExtend | CoreClm/AdaptiveTau/adaptivetau.cpp:333-338 | as `AdaptiveRunExtend` for the exact run and `ExactStepped` |
| Simulator.StochasticEqns.ExactPass | CoreClm/AdaptiveTau/adaptivetau.cpp:333-338 | as `AdaptivePass` for the exact run (`ExactRun`), failing only with a rate-update error |
| Simulator.StochasticEqns.ExactLoop | CoreClm/AdaptiveTau/adaptivetau.cpp:333-342 | as `AdaptiveLoop` with `ExactRun` and exact passes, failing only with a rate-update error |
| Simulator.StochasticEqns.EvaluateExactUntil | CoreClm/AdaptiveTau/adaptivetau.cpp:327-347 | records the initial point and clears the last transition, then runs `ExactLoop`: the same `ExactRun` account, starting from the engine with that point recorded and no last transition, failing only with a rate-update error, and ending after the initial point with the state and time unchanged when no time is left at the start |
| Simulator.RecordIsTrajectory | CoreClm/AdaptiveTau/adaptivetau.cpp:307-347 | a record that starts from the initial point, is in time order and is bounded by the final time is a trajectory |
| Simulator.NewEngine | CoreClm/AdaptiveTau/adaptivetau.cpp:83-240 | construction succeeds exactly on buildable input, giving a fresh, valid engine in its initial state over the input's table and flags |
| Simulator.RunAdaptive | CoreClm/AdaptiveTau/adaptivetau.cpp:1318-1330 | a run that ends without error returns a trajectory from the initial state, of the halting shape exactly when halting transitions exist |
| Simulator.RunExact | CoreClm/AdaptiveTau/adaptivetau.cpp:1351-1362 | as `RunAdaptive` for the exact simulator, whose only errors are rate-update errors |
| Simulator.SimAdaptiveTau | CoreClm/AdaptiveTau/adaptivetau.cpp:1282-1331 | a matrix whose row count is not the state count is rejected; unbuildable input is an error; success means buildable input, valid settings and a trajectory from the initial state, with the halting field exactly when halting flags were given |
| Simulator.SimExact | CoreClm/AdaptiveTau/adaptivetau.cpp:1335-1363 | the same without flags or settings: success is a bare trajectory, and on buildable input the only errors are rate-update errors |

## Left out

- Floating point: state values are integers and rates, times and taus are
  exact reals, so NaN and infinity checks, including `!R_finite` on the
  total rate (adaptivetau.cpp:1163-1164), are not modelled. Nor is the
  tolerance of the integer-initial-value test (223-233).
- Deterministic transitions and real-valued variables: `x_AdvanceDeterministic`
  (745-760) leaves integer state space and is not modelled. Deterministic
  rates are counted in the non-critical rate and the real-valued flags are
  computed, but no step advances them.
- The internals of `x_SingleStepITL` (812-1055), its Newton iteration, the
  Jacobian and the balanced-pair handling become one draw `implicitAt` of the
  random stream. `x_TauEx` and `x_TauIm` (494-605), the rate function and the
  user max-tau function are callbacks in `Env`.
- Random numbers: `rexp`, `unif_rand` and `rpois` (`rnorm` for large means,
  1073-1077) are positions of a fixed stream in `Draws.Rng`. R's RNG state
  save and restore is left out.
- R marshalling (`SEXP`, `PROTECT`, `coerceVector`), the entry points'
  argument type checks other than the matrix shape, `IsMatrix` on dense input,
  and the destructor are not modelled. Verbose and debug tracing are left out.
- `m_State` and `m_Mag` are `short int`: the name-search counter and the
  magnitudes are unbounded here, so 16-bit truncation of magnitudes is
  not modelled. The `short` range of a numeric name is modelled.
- The run loops carry a `fuel` step bound so that they terminate; a run that
  exhausts it returns the partial trajectory. The unsigned step counter's
  wrap-around is not modelled.
- Interrupts and `throwEarlyExit` (317-320): an interrupted run returns the
  trajectory so far, as the entry points do after their warning.
- Simulator.StochasticEqns.UpdateRates: rejects a negative rate even with extra
  checks off, where the source checks rates only under `m_ExtraChecks`. The
  engine relies on nonnegative rates throughout.
- Simulator.StochasticEqns.SetTLParams: leaves the parameters unchanged when a
  setting is invalid, while the source has already stored the earlier
  settings; the error ends the run either way.
- Simulator.StochasticEqns.ControlLoop: states the draws of the final pass only,
  from the stream position `pos` it began at; a too-big leap before it is
  stated by its halving alone, not by the draws it consumed.
- Simulator.StochasticEqns.LeapPhase: the same, through `ControlLoop`.
- Simulator.StochasticEqns.SingleStepATL: the same, through `LeapPhase`.
- Simulator.StochasticEqns.AdaptiveIteration: the same, through `SingleStepATL`.
- Simulator.StochasticEqns.AdaptivePass: the same, through `AdaptiveIteration`.
- Simulator.StochasticEqns.AdaptiveLoop: the same for each step of the run,
  through `AdaptivePass`.
- Simulator.StochasticEqns.EvaluateATLUntil: the same, through `AdaptiveLoop`.
- Index flags below 1 write outside the category vector in the source
  (700); the model requires every index flag to be at least 1.
- Construction.BuildCats: rejects a table as all deterministic by the
  corrected test (every transition flagged deterministic), not by the length
  comparison at 164-169 (see Findings). With index flags `[1, 1]` on two
  transitions the source throws and the model builds; with `[1, 2, 2]` on
  two transitions the source builds an engine with no stochastic transition
  and the model returns `AllDeterministic`.
- Construction.Assemble: the same corrected test, through `BuildCats`.
- Construction.Build: the same corrected test, through `BuildCats`.
- Simulator.NewEngine: the same corrected test, through `Build`.
- Simulator.SimAdaptiveTau: the same corrected test, through `NewEngine`.
- The unreachable `detRate` branch of the exact step and the ITL's private copy
  of the rates are not modelled.
- Balanced pairs are computed over all transitions, whatever their category,
  as the code does (652-670).
- Only the five settings the code parses (`epsilon`, `delta`, `maxtau`,
  `extraChecks`, `verbose`) are settable. The user max-tau value is
  consulted only when the capped tau exceeds `maxtau`, and then replaces it
  (1184-1185).
- The critical list is the halting list followed by the critical normal
  transitions, so it is not increasing in general. A transition flagged both
  deterministic and halting appears in both index lists. A halting
  transition fired as the critical one of a leap still sets the previous
  step kind (1276).

## Findings

| source | as written | input that shows it | evidently intended | confidence | as-written member | corrected member |
|---|---|---|---|---|---|---|
| CoreClm/AdaptiveTau/adaptivetau.cpp:164-169 | "all transitions deterministic" is tested by comparing the length of the deterministic index list with the transition count, and the list keeps repeated indices | index flags `[1, 1]` on two transitions make the constructor fail with "all transitions deterministic" although transition 2 is stochastic; `[1, 2, 2]` flags every transition yet passes the test | reject exactly when every transition is deterministic | not executed | TransitionTable.RepeatedIndexRejectsStochasticTable | TransitionTable.CheckStochastic |
