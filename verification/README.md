# A verified model of CoQuiAAS

CoQuiAAS answers queries about Dung-style argumentation frameworks: it encodes a framework into
clauses, and reads extensions off unit propagation, satisfying assignments, or maximal satisfiable
subsets of soft clauses. This project models that chain in Dafny, from the conflict-driven solver at
the bottom to the semantics solvers at the top, and proves that the extensions it lists are those of
the textbook definitions.

| layer | modules | what is modelled |
|---|---|---|
| solver | `Trail`, `Watch`, `Database`, `Analysis`, `ImplicationGraph`, `Clauses`, `Progress`, `Derivation`, `CdclSolver` | two-watched-literal propagation, first-UIP learning with recursive minimisation, backjumping, clause removal, restarts, assumptions |
| maximal sets | `Selectors`, `SoftMss`, `CoMssExtractor`, `CoMssEnumerator`, `MssSolver` | soft clauses as selectors, linear-search extraction, enumeration by blocking clauses |
| frameworks | `Argumentation`, `AttackStore` | the definitions of the semantics; the stored attacks and their changes |
| encodings | `Encoding`, `EncodingModels`, `EncodingBuilder`, `Encoders`, `DynamicEncoding` | complete, stable and conflict-free clauses with switches for changing attacks |
| semantics | `GroundedSemantics`, `ExtensionWorklist`, `PreferredSemantics`, `TriathlonSolver`, `IdealSemantics`, `SwitchFree`, `ModelEnumeration`, `ExtensionEnumeration`, `RangeSemantics`, `RangeBasedSolver`, `ProblemReducer`, `SemanticsSolvers` | the procedures that list extensions, with their early stops and the merging of equivalent arguments |
| preprocessing | `Subsumption`, `VariableElimination`, `Simplifier` | clauses added under known values, backward subsumption, elimination of variables by resolution, and the replay that extends models |
| memory | `ClauseMemory`, `GarbageCollection` | clauses in a flat region of words, lazy watcher lists, relocation with forwarding references |
| other searches | `StandAloneExtraction`, `ModelRotation`, `WalkSat`, `DeltaDebugging` | extraction without a retained prefix, recursive model rotation, the counters of the local search, the CNF delta debugger |

Nothing in the chain is an oracle: the enumeration of maximal sets calls the modelled extractor, which
calls the modelled solver, and the semantics solvers call both. A theory is the set of the clauses
given so far, each a set of literals; `Satisfiable`, `Entails`, `IsSoftMss` and the definitions in
`Argumentation` are the only notions the main results speak of.

Conventions. Variables are numbered from 0 and literals are pairs of variable and sign, where the
repository numbers variables from 1 and uses signed integers. A framework has its initial attacks and
a list of changes; step `k` is the framework after changes 0 to `k`, and step -1 the initial one.
Preconditions are those the repository relies on: every name in an attack is declared, and soft clauses
are not empty.

Observations on the code, each with the members that prove it:

- The ideal and the range-based solvers read the propagated set without the switches of the step
  (`src/argSolvers/DefaultIdealSemanticsSolver.cc:46`, `src/argSolvers/DefaultRangeBasedSemanticsSolver.cc:40`).
  It consists of what attacks that never change defend against every attack that may come about
  (`SwitchFree.PropagationIsSure`).
  The set may be strictly smaller than the grounded extension (`IdealSemantics.SwitchFreeMisses`), and equals it
  exactly when it contains what it defends after the step (`SwitchFree.SureAfterStep`, `SwitchFree.ForcedIsGrounded`),
  but stopping on it is always right (`IdealSemantics.OnlyForcedLeft`, `RangeBasedSolver.AllRangeBased`).
- In the reducer, the test for a negated variable (`src/utils/SatProblemReducer.cc:70`) never succeeds
  (`ProblemReducer.SatProblemReducer.Derives`). Two variables are merged even if the propagation run of one
  of them met a conflict, which is sound (`ProblemReducer.SatProblemReducer.Search`).
- Relocation copies the rating of learnt clauses only (`resources/comssextractor_ng/glucose/core/SolverTypes.h:269-275`):
  `ClauseMemory.SameClause`, which `GarbageCollection.ClauseAllocator.Reloc` establishes for every clause moved,
  keeps literals, mark and kind of all clauses and the rating of learnt ones; the abstraction of problem clauses is
  computed anew.
- The rotator numbers soft and hard clauses from 0 in one array of visited clauses
  (`resources/comssextractor_ng/cmp/enum/ModelRotator.cc:34-44`), so a hard clause can hide a soft one with
  the same number (`ModelRotation.SharedNumberHides`). What is reported stays right
  (`ModelRotation.RotationFair`), near the start nothing else is missed (`ModelRotation.NearReported`), and nothing
  at all whose number no hard clause can take (`ModelRotation.FreeNumberReported`). Farther away, a clause visited
  from another assignment before also hides what lies behind it (`ModelRotation.EarlierVisitHides`); along chains
  without such clauses nothing is missed (`ModelRotation.ChainReported`).
- A removed clause does not always lose its lock (`resources/comssextractor_ng/glucose/core/Solver.cc:311`): `locked`
  also holds for the reason of the second of two literals, and only the reason of the first is erased. Such a
  clause stays the reason and survives the next collection, and the reason erased is another one
  (`GarbageCollection.ClauseStore.RemoveClause`, `GarbageCollection.RemovedStays`).
- Superset blocking never hides a stable extension or an extension with the same range, because such
  sets do not contain each other (`ExtensionEnumeration.StableAntichain`, `Argumentation.SameRangeAntichain`).

## Model

| member | source | states |
|---|---|---|
| `CdclSolver.Solver.Propagate` | resources/comssextractor_ng/minisat/core/Solver.cc:477-541 | From any reachable state, propagation keeps the trail and reason invariants and every clause watched by its first two literals; without a conflict no clause is left false or unit, and a returned clause is false with a literal of the current level |
| `CdclSolver.Solver.VisitWatcher` | resources/comssextractor_ng/minisat/core/Solver.cc:486-537 | One watcher: kept with a true literal as new blocker, moved to another literal, made the reason of a new literal at index 0, or reported false; clauses only get reordered |
| `Watch.PropagatedIsQuiet` | resources/comssextractor_ng/minisat/core/Solver.cc:477-541 | Settled watches mean that every clause has a true literal or two literals that are not false |
| `Trail.EnqReasons` | resources/comssextractor_ng/minisat/core/Solver.cc:459-466 | Enqueueing an implied literal keeps every reason headed by its literal with all others falsified earlier |
| `Analysis.ResolveStep` | resources/comssextractor_ng/minisat/core/Solver.cc:309-333 | Resolving on the reason of a marked literal keeps the marked literals an entailed clause |
| `CdclSolver.Solver.LitRedundant` | resources/comssextractor_ng/minisat/core/Solver.cc:392-421 | A literal is found redundant if and only if no chain of reasons leads from it, through literals above level 0 without a mark, to one that has no reason or whose level modulo 32 is not among the given ones; what is marked on success is implied by marked literals, and a failed attempt leaves no mark behind |
| `ImplicationGraph.ClosedNotNeeded` | resources/comssextractor_ng/minisat/core/Solver.cc:392-421 | Where the reasons of a literal and of all literals marked on the way are marked, no chain gets out: success is justified by what the walk has marked |
| `ImplicationGraph.GrownNeeded` | resources/comssextractor_ng/minisat/core/Solver.cc:341-346 | The marks left by literals dropped before do not change the answer: a chain gets stuck without meeting any mark if and only if it does without meeting the literals of the clause |
| `CdclSolver.Solver.Minimise` | resources/comssextractor_ng/minisat/core/Solver.cc:338-346 | Exactly those literals are kept that have no reason, or from which a chain of reasons gets stuck before it meets the clause; the levels that cut the search short are those of the clause, modulo 32 |
| `ImplicationGraph.TraceEnd` | resources/comssextractor_ng/minisat/core/Solver.cc:299-335 | When the current level has one marked literal left, it is the first unique implication point, and the literals of lower levels that have been marked are exactly those the conflict or a reason above that point names |
| `Analysis.MinimisedEntailed` | resources/comssextractor_ng/minisat/core/Solver.cc:338-367 | Dropping literals implied by marked ones leaves an entailed clause |
| `CdclSolver.Solver.Analyze` | resources/comssextractor_ng/minisat/core/Solver.cc:299-390 | The learnt clause is entailed and false under the trail; its first literal is the first unique implication point of the conflict level, and the others are exactly the lower literals that cannot be left out (ImplicationGraph.LearntFrom), one of the backtrack level at index 1; all marks are cleared |
| `Clauses.LearntAfterCancel` | resources/comssextractor_ng/minisat/core/Solver.cc:234-252 | After returning to the named level the learnt clause is unit: its first literal has no value and the others are false |
| `CdclSolver.Solver.HandleConflict` | resources/comssextractor_ng/minisat/core/Solver.cc:684-696 | A conflict closes at least one level, keeps all invariants, and puts the implication point of the clause learnt from it on the level returned to; the clause is stored unless it is a unit |
| `CdclSolver.Solver.ReduceDB` | resources/comssextractor_ng/minisat/core/Solver.cc:558-577 | Forgetting learnt clauses changes no other clause, spares binary ones and keeps all invariants |
| `CdclSolver.Solver.Simplify` | resources/comssextractor_ng/minisat/core/Solver.cc:579-643 | At level 0: a conflict of the initial propagation refutes the theory and is reported; otherwise either nothing is removed, or exactly the satisfied learnt clauses are; with a trail propagated before, the call cannot fail and the trail stays |
| `Clauses.RemoveLazy` | resources/comssextractor_ng/minisat/core/Solver.cc:189-221 | A removed clause leaves stale watchers that no longer count |
| `CdclSolver.Solver.PlaceAssumptions` | resources/comssextractor_ng/minisat/core/Solver.cc:722-734 | Assumption levels are opened in order; a false assumption refutes the assumptions |
| `Progress.Luby` | resources/comssextractor_ng/minisat/core/Solver.cc:780-796 | The restart factor is the term of the sequence in which every block is the previous one twice and a new maximum |
| `Progress.RankBacktrack` | resources/comssextractor_ng/minisat/core/Solver.cc:661-753 | Each conflict increases the number whose digits are the sizes of the levels |
| `CdclSolver.Solver.Search` | resources/comssextractor_ng/minisat/core/Solver.cc:661-753 | A run ends with a full trail, with a proof of unsatisfiability, or undecided; undecided only if the budget is not negative and at least that many conflicts have been met. A budget is exceeded by no more than the assumptions and variables (conflicts in a row are not interrupted), and without one the number of conflicts is bounded in terms of assumptions and variables alone |
| `CdclSolver.Solver.SolveLimited` | resources/comssextractor_ng/minisat/core/Solver.cc:808-869 | Restarts end, and the answer is a model of theory and assumptions or their unsatisfiability |
| `CdclSolver.Solver.Solve` | resources/comssextractor_ng/minisat/core/Solver.h:537-542 | Total correctness: true exactly when theory and assumptions are satisfiable, with a model |
| `CdclSolver.Solver.SolveAfter` | resources/comssextractor_ng/minisat/core/Solver.h:544-551 | The same under a prefix of assumptions whose levels stay open from call to call |
| `CdclSolver.Solver.AddClause` | resources/comssextractor_ng/minisat/core/Solver.cc:146-176 | The theory grows by exactly the clause as given, although false and repeated literals are dropped, tautologies skipped and units propagated; also for a theory that a search has refuted before |
| `CdclSolver.Solver.NewVar` | resources/comssextractor_ng/minisat/core/Solver.cc:128-144 | A new variable disturbs no invariant |
| `CdclSolver.Solver.PropagateUnder` | src/satSolvers/BuiltInSatSolverNGGlucose.cc:96-116 | Literals found under assumptions hold in every model of theory and assumptions, and unit resolution derives each of them from the clauses added (Derivation.DerivedFrom); without a conflict they are closed under unit resolution and contain the assumptions; with one, no model exists, and no set closed under unit resolution is consistent |
| `Derivation.TrailBased` | resources/comssextractor_ng/minisat/core/Solver.cc:459-466 | Every set that is closed under the stored clauses and holds the literals enqueued without a reason holds the whole trail |
| `Derivation.FoundAll` | resources/comssextractor_ng/minisat/core/Solver.cc:477-541 | Without a conflict the literals found are all that unit resolution derives, and it meets no conflict: the answer does not depend on the order of propagation |
| `CoMssExtractor.Extractor.AddSoft` | resources/comssextractor_ng/cmp/core/coMSSExtract.cc:28-82 | Each soft clause gets a selector with its meaning: its only literal, its only literal left, its first literal when all are false, a new variable, or none when it always holds |
| `SoftMss.MssIsSoftMss` | resources/comssextractor_ng/cmp/core/coMSSExtract.cc:28-82 | Maximal sets of selectors choose maximal sets of soft clauses, and only they do |
| `SoftMss.ChosenInjective` | resources/comssextractor_ng/cmp/core/coMSSExtract.cc:249-257 | Different selector sets choose different soft clauses |
| `CoMssExtractor.Extractor.In2Ex` | resources/comssextractor_ng/cmp/core/coMSSExtract.cc:249-257 | The reported numbers are exactly those of the soft clauses of the given selectors |
| `CoMssExtractor.Extractor.ShrinkUnknown` | resources/comssextractor_ng/cmp/core/coMSSExtract.cc:188-219 | Every selector is moved once: marked or satisfied ones to the satisfied side, oppositely marked ones to the other; those that stay are unmarked and not satisfied by the last model |
| `CoMssExtractor.Extractor.AssumeBackbone` | resources/comssextractor_ng/cmp/enum/coMSSExtract4Enum.h:200-210 | Afterwards every literal of a rejected soft clause has a value or a mark, the negations of those that had neither being assumed, and nothing else; they follow from what has been accepted, and the search invariant is kept |
| `CoMssExtractor.Extractor.Round` | resources/comssextractor_ng/cmp/enum/constructCoMSSExtract4Enum.cc:26-71 | One round decides at least one selector and keeps accepted ones satisfied by the last model and rejected ones impossible to add; one rejected by the solver is assumed false with the literals of its clause |
| `CoMssExtractor.Extractor.Search` | resources/comssextractor_ng/cmp/enum/constructCoMSSExtract4Enum.cc:8-74 | The two sides partition the selectors, the satisfied side is maximal, and the last model satisfies exactly its clauses |
| `CoMssExtractor.Extractor.Extract` | resources/comssextractor_ng/cmp/core/coMSSExtract.cc:98-139 | One extraction from scratch reports the complement of a maximal set |
| `CoMssEnumerator.Enumerator.BlockDown` | resources/comssextractor_ng/cmp/enum/coMSSEnum.cc:21-35 | Blocking keeps exactly the models that satisfy some literal of the reported set, also when only one literal is left; it reports when all of them are false |
| `CoMssEnumerator.NewMss` | resources/comssextractor_ng/cmp/enum/coMSSEnum.cc:45-104 | A maximal set of the blocked theory is maximal in the original one and not reported before |
| `CoMssEnumerator.NoneMissed` | resources/comssextractor_ng/cmp/enum/coMSSEnum.cc:45-104 | When blocking has exhausted the models every maximal set has been reported |
| `CoMssEnumerator.Enumerator.Run` | resources/comssextractor_ng/cmp/enum/coMSSEnum.cc:45-104 | The run ends, reports complements of maximal sets without repetition, each with a model that satisfies exactly the clauses outside the report, and all of them unless the limit cuts it short |
| `MssSolver.ComputeMsses` | src/satSolvers/BuiltInMssSolverNGGlucose.cc:92-110 | From hard and soft clauses: unsatisfiable hard clauses are recognised, and otherwise all maximal sets of soft clauses under the assumptions are listed once, with models that satisfy exactly them |
| `AttackStore.ReplayLast` | src/specs/Attacks.cc:51-67 | After replaying changes, an attack is present exactly when its last change adds it |
| `AttackStore.Attacks.AddDynAttack` | src/specs/Attacks.cc:51-67 | Every change remembers whether its attack was in the initial framework, however often the same attack changes |
| `AttackStore.Attacks.AddAttack` | src/specs/Attacks.cc:22-29 | An initial attack is stored with the attacked argument; the presence recorded with earlier changes stays right exactly if the attack was initial already or no change is about it |
| `Encoding.DynMeaning` | src/argSolvers/SatEncodingHelper.cc:145-205 | The clauses of a changing attack tie its two stand-ins to the switch |
| `Encoding.DisjMeaning` | src/argSolvers/SatEncodingHelper.cc:38-63 | The clauses make one variable per argument say that some attacker is in |
| `Encoding.CompleteMeaning` | src/argSolvers/SatEncodingHelper.cc:66-89 | The clauses say that an argument is in exactly when all its attackers are answered |
| `Encoding.ConflictFreeMeaning` | src/argSolvers/SatEncodingHelper.cc:92-105 | The clauses exclude an argument and its attacker |
| `Encoding.StableMeaning` | src/argSolvers/SatEncodingHelper.cc:118-138 | The clauses say that an argument is in exactly when no attacker is, self-attackers included |
| `EncodingBuilder.SatEncodingHelper.ReserveDynVars` | src/argSolvers/SatEncodingHelper.cc:146-201 | One set of variables per changing attack, none shared with anything else, and exactly their defining clauses |
| `EncodingBuilder.SatEncodingHelper.CreateAttackersDisjunctionVars` | src/argSolvers/SatEncodingHelper.cc:38-63 | The loop emits exactly the clauses of the specification, in order |
| `EncodingBuilder.SatEncodingHelper.CreateCompleteEncodingConstraints` | src/argSolvers/SatEncodingHelper.cc:66-89 | Likewise for the complete encoding |
| `EncodingBuilder.SatEncodingHelper.CreateStableEncodingConstraints` | src/argSolvers/SatEncodingHelper.cc:118-138 | Likewise for the stable encoding |
| `EncodingBuilder.SatEncodingHelper.DynAssumps` | src/argSolvers/SatEncodingHelper.cc:209-247 | The assumptions hold exactly when every switch shows the framework after the given number of changes, repeats and reversals included |
| `EncodingModels.CompleteModels` | src/argSolvers/SatEncodingHelper.cc:38-89 | Under any setting of the switches, a set is a complete extension exactly when a model of the encoding describes it |
| `EncodingModels.OneModel` | src/argSolvers/SatEncodingHelper.cc:38-89 | Models that describe the same set under the same switches agree on every variable |
| `DynamicEncoding.ModelsAreExtensions` | src/argSolvers/SatEncodingHelper.cc:38-89 | Under any assumptions that select a set of attacks, reading off the true arguments is a one-to-one correspondence between the models over the variables in use and the complete extensions |
| `DynamicEncoding.EncodeStep` | src/argSolvers/SatEncodingHelper.cc:145-247 | From arguments, attacks and changes: the models of the clauses under the assumptions of a step correspond one-to-one to the complete extensions of the framework after replaying the changes up to that step |
| `EncodingModels.ConflictFreeModels` | src/argSolvers/SatEncodingHelper.cc:92-105 | Likewise for conflict-free sets |
| `EncodingModels.StableModels` | src/argSolvers/SatEncodingHelper.cc:118-138 | Likewise for stable extensions |
| `Argumentation.GroundedLeast` | src/utils/ExtensionUtils.cc:16-56 | The least fixed point of the characteristic function is complete and inside every complete extension |
| `Argumentation.PreferredIsMaxComplete` | src/argSolvers/DefaultPreferredSemanticsSolver.cc:55-85 | Preferred extensions are the maximal complete ones |
| `GroundedSemantics.PropagationIsGrounded` | src/argSolvers/DefaultGroundedSemanticsSolver.cc:26-32 | The arguments set by unit propagation on the encoding are the least fixed point |
| `GroundedSemantics.GroundedByPropagation` | src/argSolvers/DefaultGroundedSemanticsSolver.cc:18-32 | From attacks to output: after every step the propagated arguments are the grounded extension |
| `ExtensionWorklist.ExtensionUtils.GroundedExtension` | src/utils/ExtensionUtils.cc:16-56 | The worklist with swap removal ends with the least fixed point, each of its arguments listed once |
| `ExtensionWorklist.ExtensionUtils.IsMaxRange` | src/utils/ExtensionUtils.cc:59-81 | True exactly when every argument is in the set or attacked by it |
| `PreferredSemantics.MssIsPreferred` | src/argSolvers/MssEncodingHelper.cc:17-24 | Maximal sets of unit soft clauses over the complete encoding are exactly the preferred extensions |
| `PreferredSemantics.GroundedAlone` | src/argSolvers/DefaultPreferredSemanticsSolver.cc:67-79 | A grounded extension that is preferred is the only preferred one |
| `PreferredSemantics.AllPreferred` | src/argSolvers/DefaultPreferredSemanticsSolver.cc:55-85 | The listing contains each preferred extension once, although it stops when the first report is the propagated set; an extension lists variables of arguments, each once |
| `TriathlonSolver.FullRangeIsStable` | src/argSolvers/DefaultDungTriathlonSolver.cc:38-53 | Preferred with full range is stable, and conversely |
| `TriathlonSolver.Triathlon` | src/argSolvers/DefaultDungTriathlonSolver.cc:38-53 | Grounded, all preferred and all stable extensions, each once, and each as numbers of arguments without repetition |
| `Argumentation.MaximalCautiousIsIdeal` | src/argSolvers/DefaultIdealSemanticsSolver.cc:40-86 | A maximal admissible set inside all preferred extensions contains every other such set |
| `IdealSemantics.WithinIsIdeal` | src/argSolvers/DefaultIdealSemanticsSolver.cc:78-85 | A maximal set that excludes what some preferred extension lacks is the ideal extension |
| `IdealSemantics.OnlyForcedLeft` | src/argSolvers/DefaultIdealSemanticsSolver.cc:55-75 | When the intersection so far has shrunk to what is forced without any switch, that is the ideal extension |
| `IdealSemantics.SwitchFreeMisses` | src/argSolvers/DefaultIdealSemanticsSolver.cc:46-47 | Two arguments and one removed attack: what is propagated without the switches lies strictly inside the grounded extension after the change |
| `SwitchFree.PropagationIsSure` | src/argSolvers/DefaultIdealSemanticsSolver.cc:46-47 | Without the switches, propagation computes exactly the least fixed point in which every initial or changing attack threatens and only attacks that never change defend; for encodings in which arguments share variables, provided that set and what it attacks for ever respect the sharing |
| `SwitchFree.SwitchFreeArguments` | src/argSolvers/DefaultIdealSemanticsSolver.cc:46-47 | From attacks and changes to output: the propagated variables are those of that least fixed point |
| `SwitchFree.SureAfterStep` | src/argSolvers/DefaultIdealSemanticsSolver.cc:46-68 | It lies inside the grounded extension after every step, and equals it if and only if it contains every argument that it defends in the framework of the step |
| `SwitchFree.SureWithoutChanges` | src/argSolvers/DefaultIdealSemanticsSolver.cc:46-47 | Without changes it always equals the grounded extension |
| `SwitchFree.ForcedIsGrounded` | src/argSolvers/DefaultRangeBasedSemanticsSolver.cc:37-52 | Also where equivalent arguments are merged: what is forced without the switches equals the grounded extension after the step if and only if it contains every argument that it defends then |
| `IdealSemantics.JustComputeOneExtension` | src/argSolvers/DefaultIdealSemanticsSolver.cc:40-86 | All exits return the ideal extension of the framework after the step, as a list of variables without repetition |
| `Argumentation.SameRangeAntichain` | src/argSolvers/DefaultRangeBasedSemanticsSolver.cc:7-16 | Conflict-free sets with the same range do not contain each other properly |
| `RangeSemantics.ReportIsMaxRange` | src/argSolvers/MssEncodingHelper.cc:27-36 | A maximal set of range clauses is the range of an extension of maximal range |
| `RangeSemantics.OthersWithRange` | src/argSolvers/DefaultRangeBasedSemanticsSolver.cc:110-145 | One round finds every other extension with the given range once, and leaves the formula as it was |
| `RangeBasedSolver.EmptyIsFirst` | src/argSolvers/DefaultRangeBasedSemanticsSolver.cc:77-89 | An empty report can only be the first |
| `RangeBasedSolver.AllRangeBased` | src/argSolvers/DefaultRangeBasedSemanticsSolver.cc:67-150 | All semi-stable, or all stage, extensions after a step, each once, early stops included |
| `ModelEnumeration.SatFormula.ComputeAllModels` | src/satSolvers/BuiltInSatSolverNGGlucose.cc:191-240 | Every model is blocked by some report, each report escapes the earlier blocks, the loop ends, and the formula keeps its models over the old variables |
| `ModelEnumeration.ConservativeOff` | src/satSolvers/BuiltInSatSolverNGGlucose.cc:206-210 | Switching all blocking clauses off restores the formula over the old variables |
| `ModelEnumeration.ConservativeSelected` | src/satSolvers/BuiltInSatSolverNGGlucose.cc:76-82 | A blocking clause with its selector keeps every model over the old variables: any of them extends by some value of the selector |
| `ModelEnumeration.NewProjection` | src/satSolvers/BuiltInSatSolverNGGlucose.cc:15-24 | A model that escapes all blocks has a projection not seen before |
| `ExtensionEnumeration.AllComplete` | src/argSolvers/DefaultCompleteSemanticsSolver.cc:43-64 | All complete extensions once, seeded with the propagated one |
| `ExtensionEnumeration.EnumeratedStable` | src/argSolvers/DefaultStableSemanticsSolver.cc:17-23 | Blocking supersets loses no stable extension |
| `ExtensionEnumeration.AllStable` | src/argSolvers/DefaultStableSemanticsSolver.cc:54-69 | All stable extensions once |
| `ProblemReducer.SatProblemReducer.LookForEquivalencesOf` | src/utils/SatProblemReducer.cc:54-78 | The class of a variable gathers the later unmerged ones that it derives and that derive it, all of them unless setting it leads to a conflict; classes stay disjoint, and what was complete stays so |
| `ProblemReducer.SatProblemReducer.PropagatedLits` | src/satSolvers/BuiltInSatSolverNG.cc:92-111 | The list has literals that unit resolution derives under the assumptions, of the admitted signs; without a conflict, all of them |
| `ProblemReducer.SatProblemReducer.ComputePropagationsOf` | src/utils/SatProblemReducer.cc:80-87 | What is kept for a variable are variables in every set that holds it and is closed under the clauses, each once, and without a conflict exactly these |
| `ProblemReducer.MergeClass` | src/utils/SatProblemReducer.cc:54-78 | Adding the class of a first variable keeps it true that variables deriving each other without a conflict share a class once one of them was looked at: no earlier class can have taken one of them |
| `ProblemReducer.SatProblemReducer.Derives` | src/utils/SatProblemReducer.cc:64-73 | The scan finds the variable exactly if it has been derived, and without a conflict exactly if unit resolution derives it; it never meets the negated one |
| `ProblemReducer.SatProblemReducer.Search` | src/utils/SatProblemReducer.cc:9-29 | The classes partition the arguments and members are equivalent in every model, also after a propagation run that met a conflict. Two unfixed variables in one class derive each other by unit resolution, and any two that do, without a conflict, are in one class; a variable is fixed exactly if unit resolution gives it a value, and the fixed ones of one value form a class |
| `ProblemReducer.ModelUniform` | src/utils/SatProblemReducer.cc:90-100 | A set described by a model is a union of merged arguments |
| `ProblemReducer.ReduceBase` | src/utils/SatProblemReducer.cc:9-29 | The merged variables respect the extensions after every step; arguments without a value share a variable exactly if they derive each other in the encoding, unless setting them leads to a conflict, and those with the same value always do |
| `ProblemReducer.ReduceStable` | src/utils/SatProblemReducer.cc:9-29 | The same with the encoding of stable extensions |
| `SemanticsSolvers.Preferred` | src/argSolvers/DefaultPreferredSemanticsSolver.cc:20-39 | With merging: the preferred extensions after any step, each once, as variables of arguments without repetition |
| `SemanticsSolvers.Ideal` | src/argSolvers/DefaultIdealSemanticsSolver.cc:19-29 | With merging: the ideal extension, as variables of arguments without repetition |
| `SemanticsSolvers.SemiStable` | src/argSolvers/DefaultSemistableSemanticsSolver.cc:19-29 | With merging: all semi-stable extensions |
| `SemanticsSolvers.Stage` | src/argSolvers/DefaultStageSemanticsSolver.cc:19-29 | With merging: all stage extensions |
| `VariableElimination.Merge` | resources/comssextractor_ng/glucose/simp/SimpSolver.cc:235-262 | The resolvent has exactly the literals of both clauses over other variables, each once; refused exactly when it would be a tautology |
| `VariableElimination.MergeSize` | resources/comssextractor_ng/glucose/simp/SimpSolver.cc:266-292 | The size variant agrees with the resolvent |
| `Simplifier.SimpSolver.MkElimClause` | resources/comssextractor_ng/glucose/simp/SimpSolver.cc:462-484 | The stored copy has the same literals with the eliminated one first, followed by the length |
| `Simplifier.SimpSolver.EliminateVar` | resources/comssextractor_ng/glucose/simp/SimpSolver.cc:488-547 | Unchanged when the resolvents are too many or too large; otherwise every clause without the variable and every resolvent contains a clause that is left, what is left follows from the clauses before, and the clauses of the smaller side are stored. Without a size limit no variable with a value is left, and no new, queued or changed clause subsumes or strengthens another; false only if the clauses have no model |
| `VariableElimination.EliminationKeeps` | resources/comssextractor_ng/glucose/simp/SimpSolver.cc:488-547 | Resolvents lose no model |
| `VariableElimination.ResolveAndRemove` | resources/comssextractor_ng/glucose/simp/SimpSolver.cc:525-537 | Adding all resolvents under unit propagation and then removing the clauses of the variable eliminates it, also when the propagation went through clauses of the variable |
| `VariableElimination.ChainAdd` | resources/comssextractor_ng/glucose/simp/SimpSolver.cc:135-177 | A clause without eliminated variables added between eliminations counts as if it had been there from the start |
| `Simplifier.SimpSolver.Add` | resources/comssextractor_ng/glucose/simp/SimpSolver.cc:135-177 | A clause holding already is skipped, one with a single literal left becomes a value and is propagated, others are stored without their false literals and every new one queued: the formula is the old one with the clause, in clauses no larger; false only if the two have no model together |
| `Simplifier.SimpSolver.AddClause` | resources/comssextractor_ng/glucose/simp/SimpSolver.cc:135-177 | The original clauses grow by the clause unless it is a tautology, before or between eliminations |
| `Subsumption.Compare` | resources/comssextractor_ng/glucose/core/SolverTypes.h:395-424 | Tells subsumption, or the one literal whose negation can be dropped, exactly: the quick tests on sizes and variable bits reject no related clause, and no relation is missed |
| `Simplifier.SimpSolver.StrengthenClause` | resources/comssextractor_ng/glucose/simp/SimpSolver.cc:195-231 | Dropping a literal that can be dropped keeps the formula; a clause of two literals becomes a value, and a contradiction is found to leave no model |
| `Simplifier.SimpSolver.BackwardSubsumptionCheck` | resources/comssextractor_ng/glucose/simp/SimpSolver.cc:344-408 | The queue of clauses and values ends, although strengthened clauses come back into it; the formula stays the same in smaller clauses. Afterwards no clause that was queued or has changed subsumes or strengthens another, and no value is left in a clause; with a size limit, this is said of the others that were below it at the start |
| `Simplifier.QueueTurn` | resources/comssextractor_ng/glucose/simp/SimpSolver.cc:366-404 | What has been tried stays tried: a clause that loses literals comes into no new relation, and one that was strengthened is queued again |
| `Simplifier.TriedBy` | resources/comssextractor_ng/glucose/simp/SimpSolver.cc:376-393 | Trying only the clauses with one variable of the clause is enough |
| `Simplifier.SimpSolver.Eliminate` | resources/comssextractor_ng/glucose/simp/SimpSolver.cc:601-657 | A run over the variables in any order keeps satisfiability both ways, after a check for subsumption; state by state, a variable is eliminated unless it is frozen, has gone or got a value, or its resolvents are too many or too large then, and in that case nothing happens; false only if the original clauses have no model |
| `VariableElimination.ReplayExtends` | resources/comssextractor_ng/glucose/simp/SimpSolver.cc:584-598 | Replaying the stored clauses of one elimination turns a partial model of what is left, in clauses however much smaller, into one of the clauses before |
| `VariableElimination.ReplayHistory` | resources/comssextractor_ng/glucose/simp/SimpSolver.cc:584-598 | The backward replay over any number of eliminations ends in a model of the original clauses, every variable having a value |
| `VariableElimination.Equisatisfiable` | resources/comssextractor_ng/glucose/simp/SimpSolver.cc:488-598 | Reduced and original clauses are satisfiable together |
| `Simplifier.SimpSolver.ExtendModel` | resources/comssextractor_ng/glucose/simp/SimpSolver.cc:584-598 | The loop over the flat buffer performs this replay: a model of the reduced clauses becomes one of the original clauses in which every variable has a value |
| `StandAloneExtraction.Search` | resources/comssextractor_ng/cmp/core/constructCoMSSExtract.cc:18-72 | Without a retained prefix, and from any selectors that hold together: the two sides partition the selectors, the satisfied side contains the given ones and is maximal for the theory at the start, although the solver keeps the given and accepted selectors and the negated literals of rejected clauses as units |
| `StandAloneExtraction.Accept` | resources/comssextractor_ng/cmp/core/constructCoMSSExtract.cc:40-57 | An accepted selector and all the model satisfies besides become units and assumptions, and the search invariant is kept |
| `StandAloneExtraction.BackboneUnits` | resources/comssextractor_ng/cmp/core/coMSSExtract.cc:226-233 | The negated literals of a rejected clause become units that the accepted selectors imply, until the theory decides every literal of the clause |
| `StandAloneExtraction.SameSolve` | resources/comssextractor_ng/cmp/core/constructCoMSSExtract.cc:39-40 | Solving with the units stored answers the question about theory and whole prefix |
| `GarbageCollection.ClauseAllocator.Reloc` | resources/comssextractor_ng/glucose/core/SolverTypes.h:257-276 | A clause not moved yet is copied to the end of the new region and leaves a forwarding reference; one moved already is found there; every other clause is as before |
| `ClauseMemory.MoveOne` | resources/comssextractor_ng/glucose/core/SolverTypes.h:257-276 | Overwriting the first literal of a moved clause touches no other clause, and the copies do not overlap |
| `ClauseMemory.MovedOrWhole` | resources/comssextractor_ng/glucose/core/SolverTypes.h:191-193 | A clause whose mark says so has its new place in its first word, all others still have their literals |
| `GarbageCollection.OccLists.CleanAll` | resources/comssextractor_ng/glucose/core/SolverTypes.h:316-338 | Every list loses exactly the watchers of removed clauses |
| `GarbageCollection.ClauseStore.RemoveClause` | resources/comssextractor_ng/glucose/core/Solver.cc:305-314 | The clause is marked and its lists become dirty; a locked clause gives up the reason of its first literal's variable, whatever that reason is. It remains the reason of a literal if and only if it has two literals over different variables and was the reason of the second; it is needed afterwards exactly if it remains a reason or is still listed. Its words count as wasted |
| `GarbageCollection.RemovedStays` | resources/comssextractor_ng/glucose/core/Solver.cc:305-314 | A store with two binary clauses where removing the reason of y leaves it locked and needed, while the other clause, the reason of not x, is a reason no more |
| `GarbageCollection.ClauseStore.NewClause` | resources/comssextractor_ng/glucose/core/Solver.cc:261-275 | A new clause gets a reference of its own, a header with its kind and with a field for rating or abstraction where one is kept, and a watcher in each of its two lists |
| `GarbageCollection.ClauseStore.RelocReason` | resources/comssextractor_ng/glucose/core/Solver.cc:1364-1369 | The first literals are only read of a clause that has not gone, and every reason on the trail is found to be needed |
| `GarbageCollection.ClauseStore.RelocAll` | resources/comssextractor_ng/glucose/core/Solver.cc:1343-1380 | Exactly the clauses still needed are moved, and all references are mapped by one function |
| `GarbageCollection.ClauseStore.GarbageCollect` | resources/comssextractor_ng/glucose/core/Solver.cc:1383-1394 | Every reference denotes the clause it did before, equal references stay equal and different ones different, and all invariants hold in the new region, in which problem clauses have their abstraction exactly if it was asked for, and nothing is wasted |
| `WalkSat.LocalSearch.InitVariableRL` | resources/comssextractor_ng/cmp/approx/localSearch.cc:114-173 | From any contents of the arrays, the counters, watches and the list of false clauses come to agree with the assignment |
| `WalkSat.LocalSearch.FlipAtom` | resources/comssextractor_ng/cmp/approx/localSearch.cc:191-279 | A flip changes one variable and keeps all counters in agreement with the assignment; a literal true already changes nothing |
| `WalkSat.LosesTrue` | resources/comssextractor_ng/cmp/approx/localSearch.cc:208-256 | What a clause that loses its literal needs: one true literal less, the watched one if it was the only one |
| `WalkSat.GainsTrue` | resources/comssextractor_ng/cmp/approx/localSearch.cc:258-278 | What a clause that gains its literal needs: one true literal more, watched by none so far |
| `WalkSat.ListRemove` | resources/comssextractor_ng/cmp/approx/localSearch.cc:265-267 | Moving the last false clause into the gap keeps the list and its inverse in agreement |
| `WalkSat.LocalSearch.Recounted` | resources/comssextractor_ng/cmp/approx/localSearch.cc:1188-1258 | In agreement means: make and break counts equal a recount, the list holds exactly the false clauses, and the two counts of a variable are what flipping it changes about the weight of the false clauses |
| `ModelRotation.ModelRotator.Rotate` | resources/comssextractor_ng/cmp/enum/ModelRotator.cc:30-81 | A rotation ends, restores model and marks, and adds to the reports exactly those of the recursive description, the given clause first, under one array of visited numbers that hard and soft clauses share; the description is closed under flips |
| `ModelRotation.ModelRotator.Process` | resources/comssextractor_ng/cmp/enum/ModelRotator.cc:30-81 | From any state inside a rotation, the visited numbers, the reports and their order are those of the recursive description for the clause that has become false |
| `ModelRotation.ModelRotator.UpdateSatCore` | resources/comssextractor_ng/cmp/enum/ModelRotator.cc:113-116 | A new core: exactly its clauses count as active, whatever was active before |
| `ModelRotation.RotationFair` | resources/comssextractor_ng/cmp/enum/ModelRotator.cc:30-81 | The reports are different candidates not visited before, some assignment falsifies each of them and no other hard or active clause, and a candidate whose number has been visited is reported unless a hard clause took the number |
| `ModelRotation.NearReported` | resources/comssextractor_ng/cmp/enum/ModelRotator.cc:30-81 | A candidate one flip away from the start is reported if and only if no hard clause with its number has been visited |
| `ModelRotation.FreeNumberReported` | resources/comssextractor_ng/cmp/enum/ModelRotator.cc:30-81 | From the input alone: such a candidate is reported if its number is that of no hard clause, or of one that no assignment makes the only false clause |
| `ModelRotation.RotationExplores` | resources/comssextractor_ng/cmp/enum/ModelRotator.cc:46-79 | A rotation is closed: each place it visits lies on a chain of flips from the start, each number visited is that of such a place, and whatever clause one more flip of a variable not being flipped makes the only false one has its number visited in the end |
| `ModelRotation.ChainReported` | resources/comssextractor_ng/cmp/enum/ModelRotator.cc:46-79 | A candidate at the end of a chain of flips, whose inner places are the only ones with their numbers, is reported if and only if no hard clause with its number has been visited; and it is, from the input alone, when its number is free |
| `ModelRotation.EarlierVisitHides` | resources/comssextractor_ng/cmp/enum/ModelRotator.cc:55-58 | Three variables and four soft clauses: the candidate at the end of a chain of two flips is not reported, as the clause in between has been visited before from another assignment |
| `ModelRotation.SharedNumberHides` | resources/comssextractor_ng/cmp/enum/ModelRotator.cc:34-44 | Two variables, one hard and two soft clauses: the candidate one flip away is not reported, as the hard clause with its number is visited first |
| `ModelRotation.ModelRotator.SatisfyClS` | resources/comssextractor_ng/cmp/enum/ModelRotator.cc:130-142 | Tells whether the flip falsified no active soft clause, and names the only one if it is one |
| `ModelRotation.FlipEffect` | resources/comssextractor_ng/cmp/enum/ModelRotator.cc:121-124 | A flip falsifies only clauses with the literal that was true |
| `ModelRotation.CriticalInEveryCore` | resources/comssextractor_ng/cmp/enum/ModelRotator.cc:40-45 | A reported clause is in every unsatisfiable set of active clauses |
| `DeltaDebugging.DeltaDebugger.Debug` | resources/comssextractor_ng/dtools/cnfuzzdd2009/cnfdd.c:636-644 | Rounds end, and the saved file is accepted while without any one of its clauses or literals it is not; it is a part of the file read, with variables renamed: there are an injective renaming and an increasing choice of source clauses such that each line is a subsequence of its clause, renamed with signs kept |
| `DeltaDebugging.DeltaDebugger.SavedRenamed` | resources/comssextractor_ng/dtools/cnfuzzdd2009/cnfdd.c:299-328 | Whatever is saved in between is such a part of the file read too |
| `DeltaDebugging.OutPicked` | resources/comssextractor_ng/dtools/cnfuzzdd2009/cnfdd.c:318-325 | The printed line of a clause with removed literals is a subsequence of the clause, renamed with signs kept |
| `DeltaDebugging.DerefSign` | resources/comssextractor_ng/dtools/cnfuzzdd2009/cnfdd.c:231-243 | The negation of a literal is printed as the negation of what the literal is printed as |
| `DeltaDebugging.OriginCompact` | resources/comssextractor_ng/dtools/cnfuzzdd2009/cnfdd.c:447-453 | Closing the gaps between clauses keeps their order and where each comes from |
| `DeltaDebugging.DeltaDebugger.Print` | resources/comssextractor_ng/dtools/cnfuzzdd2009/cnfdd.c:299-328 | The printed file has one line per clause left, renumbered and without removed literals, and its header holds the largest index and the number of these lines |
| `DeltaDebugging.DeltaDebugger.Reduce` | resources/comssextractor_ng/dtools/cnfuzzdd2009/cnfdd.c:361-456 | Windows shrink to single clauses: afterwards there are fewer clauses, or each one has been tried on what is left |
| `DeltaDebugging.DeltaDebugger.Shrink` | resources/comssextractor_ng/dtools/cnfuzzdd2009/cnfdd.c:459-499 | Likewise for literals |
| `DeltaDebugging.DeltaDebugger.Move` | resources/comssextractor_ng/dtools/cnfuzzdd2009/cnfdd.c:502-568 | Renumbering makes the largest index smaller, or there is no gap, or it is not accepted |
| `DeltaDebugging.CountBelowMax` | resources/comssextractor_ng/dtools/cnfuzzdd2009/cnfdd.c:526-538 | There are never more variables than indices in use, so renumbering cannot make the largest index larger |
| `DeltaDebugging.DeltaDebugger.Minimal` | resources/comssextractor_ng/dtools/cnfuzzdd2009/cnfdd.c:299-328 | Nothing to remove among the stored clauses means nothing to remove from the printed file |

## Left out

- Activities, clause scores, the order heap, phase saving and random polarity: decisions and the choice of learnt clauses to forget are arbitrary, so the results hold for every heuristic.
- Interrupts, budgets for propagations, and conflict limits other than those of restarts.
- CdclSolver.Solver.Simplify: when it returns early is arbitrary, where the repository compares counts of units and of work; so is whether the search calls it at level 0.
- `analyzeFinal` and the final conflict clause, which the configured extraction does not use; minimisation modes other than the recursive one.
- Variables that are not decision variables: every variable may be decided, and variables without a value after a search do not arise.
- Clause memory inside the solver model: its references are keys of a map. Memory and collection are modelled by themselves, with the trail as given; activities are real numbers.
- The initial solving call of the extractor is only asked for its answer; the restart position it computes is not modelled.
- CdclSolver.Solver.PropagateUnder: for a theory already refuted it returns the literals of level 0, where the repository propagates again on what is stored.
- One long-lived solver shared by the calls of a semantics solver: each query here builds its solver from the clauses, so learnt clauses are not carried over.
- Callbacks that stop an enumeration: the list of reports is cut at the report where the callback would ask to stop.
- Caching, destructive and approximate extraction, which CoQuiAAS switches off; the translation of selectors to clause numbers around a rotation.
- The acceptance queries for single arguments, which read off the listed extensions or make one call.
- Simplifier.SimpSolver.Propagate: how far it goes is left open, since a clause shrunk in place may be watched by a false literal; the watchers are modelled in the solver.
- Simplifier.SimpSolver.Eliminate: one pass over the variables in any order, where the repository repeats rounds by heap and touched clauses; asymmetric branching and the test for implied clauses, both off by default, are not modelled.
- Of the local search, everything but the counters: the choice of the flip, tabu lists, hard clauses kept apart.
- Of the delta debugger, messages and options; the command is a function of the file.
- The external solvers and the parsers.
- The reducer's own encoding: the helper it uses here also lists range clauses, which it never reads.
