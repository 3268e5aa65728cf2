# cspx: a Dafny model of the checker

cspx checks processes written in CSPM: whether one refines another in the traces,
failures or failures-divergences model, and whether one can deadlock, diverge or
behave nondeterministically. This project models its algorithms and proves what
they decide.

- **Semantics** (`Lts`, `Refinement`, `TauCycles`): a labelled transition system is
  an initial state, a function from states to finite lists of labelled steps, and an
  encoding of states as bytes. Traces, stable failures, divergences and the three
  refinements are defined from runs alone, never from the subset construction.
- **Refinement checker** (`Closures`, `Caches`, `ClosureCycle`, `RefineSearch`,
  `RefineCheck`, `Replay`, `Minimize`, `Genuine`): internal closures with their
  signatures, the breadth-first search over pairs of closures, the node checks of the
  three models, pruning, both caches, the reported events, their replay and their minimisation.
  The outcome is a function of the two systems and the model alone: the first fault
  in the order of shorter and then smaller traces. In model FD minimising can leave
  events that show nothing; `Genuine` says exactly when it does.
- **Property checkers** (`ReachSearch`, `DeadlockCheck`, `Tarjan`, `DivergenceCheck`,
  `Determinism`).
- **CSPM** (`CspmSyntax`, `CspmCompile`, `CspmStep`, `CspmMoves`, `CspmRules`,
  `CspmHide`, `CspmSearch`, `CspmKept`, `CspmSoundness`, `CspmProvider`,
  `CspmGuarded`, `CspmRecursion`, `Numerals`, `Utf8`, `CspmCodec`, `CspmOrder`,
  `CspmEncodable`, `CspmSource`, `CspmBisim`, `CspmMeaning`, `CspmAssertions`,
  `CspmCheck`): the type checker, hash-consed compilation, the resolution of references,
  the steps of a state and when looking for them ends, what every step keeps, the binary
  codec, and the checkers from module to verdict. `CspmSource` says what the processes of
  a module do in terms of their source alone; `CspmBisim` and `CspmMeaning` prove that
  the compiled system does the same, so that the verdicts on modules are about the
  source.
- **Exploration and stores** (`Explore`, `Explorers`, `DiskFormat`, `DiskLaws`,
  `DiskStore`, `DiskRuns`, `HybridStore`); `DiskLaws` says what the files mean in terms
  of their characters.

`Options`, `Seqs`, `Order`, `Sorting`, `Names`, `Shortlex` and `Graphs` hold shared
notions.

Code that computes a value is a function; code that updates something is a method or
a class proved against a specification function or relation, and what matters is
proved about that specification.

## Hypotheses

- `Lts.Bounded`: the searches are given, for the proofs only, a finite set of states
  that holds the initial state and all successors. `P = a -> (P ||| P)` has infinitely
  many states, and on it the searches of the program do not end either. The refinement
  checker, which compares closures by their encodings, needs `Lts.Finite`: encodings
  differ on that set. `CspmEncodable.ProviderIsFinite` shows that compiled programs do.
- `CspmStep.Guarded`: looking for the steps of what the entry of a program mentions,
  directly or not, ends. The program does not check this: it rejects only cycles of bare
  references. `CspmGuarded.GuardedExactly` relates it to the search itself, call by call,
  `CspmRecursion.GuardedModules` says on the declarations of a module which ones compile
  to guarded programs, and `CspmGuarded.AcceptedButEndless` gives one that is accepted
  and is not. The checkers need less: `CspmSearch.HoldsRuns` asks only that the searches
  of the states that do occur come back, within some depth of nested calls. Type
  soundness needs none of this.
- Where labels are told apart as events (`CspmRules.LabelsAreEvents`), channel names
  contain no dot. Labels are strings throughout, as in the program.
- Every process owns its disk files alone, a rename is one step, and the codec of the
  disk store encodes no state as the empty string and reads back what it wrote.

Labels are visited in the order of their bytes. Counters are unbounded.

## Model

| member | source | states |
|---|---|---|
| Closures.ComputeTauClosure | crates/cspx-core/src/check_refine.rs:245-277 | the closure found holds exactly the states reachable from the seeds by internal steps, sorted by encoding |
| Closures.SignatureCanonical | crates/cspx-core/src/check_refine.rs:267-276 | two closures on one side have equal signatures exactly when they hold the same states, and then they are the same closure |
| Closures.ComputeNext | crates/cspx-core/src/check_refine.rs:292-306 | one step of the subset construction, for any label |
| Lts.AfterStep | crates/cspx-core/src/check_refine.rs:292-306 | the states after a trace and one more visible label, defined by runs, are what the subset construction computes |
| Refinement.ExploredOrPruned | crates/cspx-core/src/check_refine.rs:463-526 | when the search finds no fault, every trace of the implementation is explored or runs past a node pruned because the specification diverges |
| Refinement.RefusalSetsMatch | crates/cspx-core/src/check_refine.rs:342-354 | the offer-subset test fails after a trace exactly when some refusal set of the implementation, finite or not, is missing in the specification |
| Refinement.FiniteRefusalsSuffice | crates/cspx-core/src/check_refine.rs:342-354 | a refusal that the specification lacks has a finite part that it lacks already |
| Refinement.FirstFaultUnique | crates/cspx-core/src/check_refine.rs:478-526 | the search order admits at most one first fault |
| Refinement.TracesExact | crates/cspx-core/src/check_refine.rs:539-549 | the search in model T is faultless exactly when all traces of the implementation are traces of the specification |
| Refinement.FailuresExact | crates/cspx-core/src/check_refine.rs:551-582 | the search in model F is faultless exactly when traces and stable failures are included |
| Refinement.FailuresDivergencesExact | crates/cspx-core/src/check_refine.rs:584-664 | the search in model FD, pruning included, is faultless exactly when extension-closed divergences and failures with chaos after divergence are included |
| RefineSearch.RefusalCheck | crates/cspx-core/src/check_refine.rs:559-578 | the loop over offers decides whether some stable implementation state offers no superset of a stable specification offer |
| RefineSearch.NodeCheck | crates/cspx-core/src/check_refine.rs:598-647 | the node check of each model gives the declarative verdict on the two state sets, and in model FD asks the divergence cache exactly twice |
| RefineSearch.ReconstructTrace | crates/cspx-core/src/check_refine.rs:308-320 | the predecessor links spell out the trace that first led to a node |
| RefineSearch.FollowEdges | crates/cspx-core/src/check_refine.rs:488-525 | the labels are followed in ascending order, through the cache or not; it stops at the first one the specification cannot match, and every edge before is followed to a recorded node met at the least trace |
| RefineSearch.BfsRefinement | crates/cspx-core/src/check_refine.rs:437-537 | the search ends, and its outcome is a function of the model and the two systems alone, the same with and without caches: it passes exactly when there is no fault and otherwise reports the first one in the order of shorter, then smaller traces |
| RefineSearch.OutcomeUnique | crates/cspx-core/src/check_refine.rs:437-537 | there is only one outcome that can be right |
| RefineCheck.Check | crates/cspx-core/src/check_refine.rs:138-207 | the checker passes exactly when the refinement holds in the chosen model; otherwise its outcome is the fault met first, with nodes and labels in the order of their characters, and it hands out, always minimised, events that still fail and from which none can be dropped: in model T the trace that comes first of all that the specification lacks, in model F a trace that the specification lacks or after which it lacks a refusal; divergence cache hits and misses add up to the divergence checks |
| Refinement.FirstIsMetFirst | crates/cspx-core/src/check_refine.rs:478-526 | the first fault in the order of bytes is the one met first in the order of characters |
| Names.NameLessIsSpelled | crates/cspx-core/src/check_refine.rs:280-290 | names and labels come in the order of their characters: where they first differ, or the shorter one ends |
| Utf8.BytesAsSpelled | crates/cspx-core/src/check_refine.rs:280-290 | UTF-8 bytes come in the order of the characters |
| Order.LessIsPrecedence | crates/cspx-core/src/check_refine.rs:267-271 | byte strings come in the order of their first difference, or the shorter one first |
| Caches.NextClosureCache.NextByLabel | crates/cspx-core/src/check_refine.rs:77-103 | the cached answer is the one closure the uncached computation yields; hits, misses and entries change accordingly |
| Caches.DivergenceCache.DetectTauCycle | crates/cspx-core/src/check_refine.rs:114-136 | the cached answer is whether the closure has an internal cycle; hits, misses and entries change accordingly |
| ClosureCycle.ClosureHasTauCycle | crates/cspx-core/src/check_refine.rs:356-435 | the depth-first search with explicit stack and three colours decides whether an internal cycle runs through the listed states |
| TauCycles.TauCycleIffDiverges | crates/cspx-core/src/check_refine.rs:356-435 | in a finite closed set an internal cycle exists exactly when an infinite internal run does |
| TauCycles.AcyclicHasStable | crates/cspx-core/src/check_refine.rs:623-626 | a finite non-empty closed set without internal cycle holds a stable state: why pruning loses nothing |
| Replay.ReplayTrace | crates/cspx-core/src/check_refine.rs:673-702 | replay tells whether the implementation can take all events, yields both state sets, and tells whether the specification failed on the way |
| Replay.CounterexampleStillFails | crates/cspx-core/src/check_refine.rs:725-767 | the oracle answers exactly the declarative question whether the events still fail |
| Replay.ReportedStillFails | crates/cspx-core/src/check_refine.rs:198-207 | in every model, the final tau of a divergence included, the oracle accepts what the search reports |
| Replay.LeastInModelT | crates/cspx-core/src/check_refine.rs:489-514 | in model T the reported events are the least, by length and then label by label in byte order, among all traces of the implementation that the specification lacks, and only the last event is the mismatch |
| Replay.ModelTIsOneMinimal | crates/cspx-core/src/check_refine.rs:745-753 | in model T the oracle rejects the reported events with any one of them dropped |
| Replay.MinimizeCounterexample | crates/cspx-core/src/check_refine.rs:198-207 | the deletion loop over the replaying oracle: minimised exactly when the events fail, and then a subsequence that fails and from which no event can be dropped |
| Replay.MinimizedCounterexample | crates/cspx-core/src/check_refine.rs:198-207 | on what the search reports the minimiser always succeeds; in model T it returns the events unchanged |
| Replay.MinimizedIsViolation | crates/cspx-core/src/check_refine.rs:198-207 | in models T and F the minimised events are a real violation |
| Genuine.ViolationsRefute | crates/cspx-core/src/check_refine.rs:584-664 | refinement in model FD holds exactly when no trace is a violation |
| Genuine.FaultIsGenuine | crates/cspx-core/src/check_refine.rs:584-664 | in model FD the events the search reports, before they are minimised, are a real violation |
| Genuine.VisibleIsGenuine | crates/cspx-core/src/check_refine.rs:725-767 | in model FD minimised events without "tau" are a real violation exactly when the specification diverges nowhere along them |
| Genuine.MinimizedPastDivergence | crates/cspx-core/src/check_refine.rs:725-767 | two systems on which minimised events of a trace mismatch lead past a divergence of the specification and show nothing |
| Genuine.DivergenceIsGenuine | crates/cspx-core/src/check_refine.rs:725-767 | in model FD events with a final "tau" name a real divergence exactly when the oracle accepts them by its verdict on divergence, not by a mismatch or a refusal |
| Genuine.MinimizedIsNotGenuine | crates/cspx-core/src/check_refine.rs:725-767 | two systems for which the checker hands out a lone "tau" as a divergence although the implementation does not diverge there |
| Minimize.MinimizeWithOracle | crates/cspx-core/src/minimize_simple.rs:13-50 | for any oracle: minimised exactly when the oracle accepts the input, and then an accepted subsequence that is minimal under single deletions |
| Tarjan.SccSearch.StrongConnect | crates/cspx-core/src/check_divergence.rs:187-226 | one call keeps the invariants of the search over indices, stack and emitted components, leaves what was on the stack in place, and ends with its node either emitted or on the stack with a lowlink below its index |
| Tarjan.SccSearch.Pop | crates/cspx-core/src/check_divergence.rs:216-223 | the loop pops exactly the part of the stack from the node upwards |
| Tarjan.TarjanScc | crates/cspx-core/src/check_divergence.rs:185-251 | each node is emitted exactly once, every component is strongly connected, and no two could be merged |
| Tarjan.FindFirstCycleNode | crates/cspx-core/src/check_divergence.rs:167-183 | the least node that lies on a cycle, or none exactly when the graph has no cycle |
| ClosureCycle.CycleCorrespondence | crates/cspx-core/src/check_divergence.rs:112-127 | cycles of the graph over positions are the internal cycles of the states listed |
| DivergenceCheck.DivergenceFreeCheck | crates/cspx-core/src/check_divergence.rs:64-165 | passes exactly when no infinite internal run is reachable; otherwise the events before the final tau are those of a run to a cycle of internal steps, and no such cycle is reached in fewer raw steps |
| ReachSearch.WalkIsMet | crates/cspx-core/src/check_deadlock.rs:88-106 | in the breadth-first search every state is met at its least number of raw steps |
| ReachSearch.TraceEvents | crates/cspx-core/src/check_deadlock.rs:146-164 | the backward walk yields the visible part of the run that first met the state |
| DeadlockCheck.DeadlockFreeCheck | crates/cspx-core/src/check_deadlock.rs:64-144 | fails exactly when a state without any transition is reachable; the events erase a real run to one, and no deadlock is reachable in fewer raw steps |
| Determinism.ExploreIndexed | crates/cspx-core/src/check_determinism.rs:71-118 | numbering, predecessor links, transitions and internal edges describe exactly the reachable system |
| Determinism.ComputeTauClosures | crates/cspx-core/src/check_determinism.rs:179-202 | for every number the ascending list of the numbers reachable by internal edges |
| Determinism.TraceVisibleEvents | crates/cspx-core/src/check_determinism.rs:204-219 | the links spell out the visible part of a run to the numbered state |
| Determinism.DeterminismCheck | crates/cspx-core/src/check_determinism.rs:64-177 | fails exactly when the closure of some reachable state has a visible label that leads to two different closures; the events are those of a run to such a state with its first such label, and no such state is reached in fewer raw steps |
| Determinism.PassingIsSingleState | crates/cspx-core/src/check_determinism.rs:127-166 | when the check passes, the states after every trace are the closure of a single state |
| CspmSyntax.CollectChannels | crates/cspx-core/src/frontend_simple.rs:89-131 | channels are accepted exactly when no name is declared in two places and no domain is a named type, nor, for the type checker, an empty range; the channels are then the declared names, one without a domain carries nothing and a range carries its numbers from first to last |
| CspmSyntax.TypecheckModule | crates/cspx-core/src/frontend_simple.rs:80-184 | the type checker accepts exactly the modules that are well typed by rules on their declarations: a value on a channel with a range is allowed exactly within the range, an output variable exactly with that range, an input binds a new variable, references, sets and assertions name what is declared |
| CspmCompile.ProgramBuilder.Intern | crates/cspx-core/src/lts_cspm.rs:647-656 | the node is where it was or comes last; the table stays free of duplicates, with children before parents |
| CspmCompile.ProgramBuilder.CompileExpr | crates/cspx-core/src/lts_cspm.rs:658-737 | the table and the position are a function of the table before and the expression; unfolding the position gives back the source expression with names resolved; it fails exactly on expressions without meaning |
| CspmCompile.CompileMeans | crates/cspx-core/src/lts_cspm.rs:658-737 | that function keeps what is in the table and the meaning of the expression |
| CspmCompile.UnfoldInjective | crates/cspx-core/src/lts_cspm.rs:647-656 | sharing is maximal: two positions never stand for the same expression |
| CspmCompile.Resolver.Resolve | crates/cspx-core/src/lts_cspm.rs:773-800 | the memoised walk yields the first expression that is not a reference, or has met references that never end |
| CspmCompile.ComputeResolved | crates/cspx-core/src/lts_cspm.rs:768-816 | resolution fails exactly when some chain of references never ends, and otherwise gives the end of every chain |
| CspmProvider.CompileModule | crates/cspx-core/src/lts_cspm.rs:239-253 | a module compiles exactly when it can be built and no processes are only words for each other in a circle; the table is determined by the module, holds the entry and every process body where its name points, and compilation then fails exactly when a chain of references in that table never ends |
| CspmProvider.CompilesToOne | crates/cspx-core/src/lts_cspm.rs:238-258 | a module compiles to one program at most |
| CspmProvider.TableIsBuilt | crates/cspx-core/src/lts_cspm.rs:239-251 | a module has a table exactly when all its expressions have a meaning, and then the names point to the bodies |
| CspmProvider.FromModule | crates/cspx-core/src/lts_cspm.rs:238-258 | the program of the module and the state its entry starts in, exactly for the modules that compile; the initial position stands for the top-level expression when there is one, and otherwise for the body of the only declaration; with neither nothing compiles |
| CspmProvider.UnresolvableIsRefCycle | crates/cspx-core/src/lts_cspm.rs:768-816 | references that never end come from declarations whose bodies are bare references in a circle of names |
| CspmProvider.RefCycleIsUnresolvable | crates/cspx-core/src/lts_cspm.rs:768-816 | every such circle leaves references that never end |
| CspmProvider.AcceptedIsBuildable | crates/cspx-core/src/frontend_simple.rs:80-151 | what the type checker accepts, with an entry and the sets the parser supplies, can be built |
| CspmProvider.AcceptedModulesAreSound | crates/cspx-core/src/frontend_simple.rs:186-308 | type soundness over every run of every accepted module, guarded or not: each state binds the variables it outputs to values of their domains and is in normal form; the event of every prefix in it, inside parallel and hiding states too, can happen, and the prefix is never found without a step; each label is internal, a unit channel or a value in its channel's range |
| CspmSoundness.EventCheckedExactly | crates/cspx-core/src/frontend_simple.rs:232-324 | an event is accepted exactly when it compiles to a typed pattern that rebinds no variable; only an input extends the variables |
| CspmSoundness.CheckedExactly | crates/cspx-core/src/frontend_simple.rs:186-230 | an expression is accepted exactly when it compiles to a typed tree without rebinding, over declared channels |
| CspmSoundness.CheckedIsTyped | crates/cspx-core/src/frontend_simple.rs:186-308 | the verdict of the type checker carries over to the compiled tree |
| CspmSoundness.CheckedCompiles | crates/cspx-core/src/frontend_simple.rs:186-230 | what the type checker accepts compiles, given the sets the parser always supplies |
| CspmSoundness.StepsAreTyped | crates/cspx-core/src/lts_cspm.rs:275-344 | subject reduction: a typed state in normal form takes only typed steps to such states |
| CspmSoundness.EventOffers | crates/cspx-core/src/lts_cspm.rs:450-483 | a typed event is always offered, only with values in range, and the bindings it leaves have the extended type |
| CspmSearch.SearchEnds | crates/cspx-core/src/lts_cspm.rs:275-344 | in a guarded program the recursion that looks for steps comes back, with a bound on its depth, and yields the specified steps |
| CspmSearch.StuckForever | crates/cspx-core/src/lts_cspm.rs:275-344 | from expressions that each need another one of them the recursion comes back at no depth |
| CspmSearch.MoreDepthRunsTheSame | crates/cspx-core/src/lts_cspm.rs:275-344 | where the searches of a run come back, the transition system does not depend on the depth allowed |
| CspmGuarded.GuardedUnlessEndless | crates/cspx-core/src/lts_cspm.rs:291-344 | weights that make the search for steps end exist exactly when no expressions within reach of the entry each need another one of them |
| CspmGuarded.GuardedExactly | crates/cspx-core/src/lts_cspm.rs:275-344 | a program is guarded exactly when the search from every expression within reach of its entry comes back |
| CspmGuarded.GuardedHoldsRuns | crates/cspx-core/src/lts_cspm.rs:275-344 | on a finite set of states that holds its runs, a guarded program runs, at some depth, as its step function says |
| CspmRecursion.GuardedModules | crates/cspx-core/src/lts_cspm.rs:275-344 | a module compiles to a guarded program exactly when no processes within reach of its entry each refer to another one of them with no prefix or internal choice before |
| CspmGuarded.AcceptedButEndless | crates/cspx-core/src/lts_cspm.rs:768-816 | `P = P [] STOP` is accepted and compiled, and the search for the steps of its entry comes back at no depth |
| CspmRules.StepsFollowRules | crates/cspx-core/src/lts_cspm.rs:275-448 | the computed steps of a state are exactly those that the step rules, stated as a relation, allow |
| CspmRules.EvalsWhatHappens | crates/cspx-core/src/lts_cspm.rs:450-483 | an event pattern yields exactly the labels and bindings with which the event can happen |
| CspmRules.LabelsAreEvents | crates/cspx-core/src/lts_cspm.rs:353-355 | with channel names free of dots, a label gives back its channel, labels of different events differ, and none is a bare channel name |
| CspmRules.ChannelDecides | crates/cspx-core/src/lts_cspm.rs:357-362 | synchronising and hiding look at the channel of a label only, and never at the internal action |
| CspmBisim.OffersSay | crates/cspx-core/src/lts_cspm.rs:450-483 | what is offered for an event with a payload is the channel and, after a dot, a decimal numeral: of the value it outputs, or of one in the range of its channel |
| Numerals.NumeralIsDecimal | crates/cspx-core/src/lts_cspm.rs:457-478 | the digits written are the one numeral worth the number, without a leading zero |
| CspmBisim.OccursAsCompiled | crates/cspx-core/src/lts_cspm.rs:450-483 | a compiled event can happen exactly as the source event can, with ranges taken from the declarations |
| CspmBisim.OnIsSync | crates/cspx-core/src/lts_cspm.rs:353-362 | a label is on a channel of a set exactly when it is the channel, without a dot, alone or with a dot after it, and not "tau" |
| CspmBisim.StepsMatch | crates/cspx-core/src/lts_cspm.rs:275-483 | the steps found for a state and the steps of the source process it stands for answer each other, with the states and processes they lead to standing for each other again: a bisimulation, for every compiled module and every search that comes back |
| CspmMeaning.CompilesFaithfully | crates/cspx-core/src/lts_cspm.rs:238-538 | the system a module compiles to has the traces, failures and divergences of its source from the entry on, deadlocks exactly when the source does and diverges exactly when it does |
| CspmMeaning.RefinesAsSource | crates/cspx-core/src/check_refine.rs:138-171 | refinement between two such systems is refinement between the sources, in all three models |
| CspmMoves.GroupRights | crates/cspx-core/src/lts_cspm.rs:369-380 | the map groups the synchronising steps of the right operand by label, in order, and sets the others aside |
| CspmMoves.PushParallel | crates/cspx-core/src/lts_cspm.rs:346-422 | pushes, after what is there, exactly the steps the specification gives for a parallel state |
| CspmMoves.PushHide | crates/cspx-core/src/lts_cspm.rs:424-448 | pushes exactly the relabelled steps of the inner state |
| CspmMoves.OfferInputs | crates/cspx-core/src/lts_cspm.rs:467-481 | one label and binding per value of the range, in ascending order; none for an unknown or unit channel |
| CspmMoves.PushState | crates/cspx-core/src/lts_cspm.rs:275-344 | the recursive push computes the specified steps and ends on guarded programs |
| CspmMoves.TransitionsFor | crates/cspx-core/src/lts_cspm.rs:260-273 | the steps returned are those computed, each as often, in order of label and encoding |
| CspmMoves.StepLessIsSpelled | crates/cspx-core/src/lts_cspm.rs:263-271 | the order of steps is that of the characters of the labels and then of the bytes of the encodings |
| CspmMoves.OrderIsCanonical | crates/cspx-core/src/lts_cspm.rs:263-271 | for states that fit the codec that order is unique: the same steps are always returned as the same list |
| CspmHide.NormBisimulation | crates/cspx-core/src/lts_cspm.rs:517-538 | merging nested hiding and dropping empty hiding is a strong bisimulation with plain nested hiding |
| CspmKept.SearchKeeps | crates/cspx-core/src/lts_cspm.rs:275-344 | whatever condition carries over from every expression to the ones it mentions holds in all states that steps lead to, guarded or not |
| CspmKept.StepsStayNormal | crates/cspx-core/src/lts_cspm.rs:499-538 | steps lead from normal states to normal states: no empty hiding, no hiding directly inside hiding, no expression at a reference, parallel or hiding node |
| Utf8.RoundTrip | crates/cspx-core/src/lts_cspm.rs:147-153 | names are read back from their bytes |
| Utf8.CodesAreLaidOut | crates/cspx-core/src/lts_cspm.rs:147-153 | every character has the bits that section 3 of RFC 3629 lays out |
| CspmCodec.Encode | crates/cspx-core/src/lts_cspm.rs:85-119 | the loops write tag, counts, lengths and names in byte order as the format says |
| Names.SortedAscends | crates/cspx-core/src/lts_cspm.rs:92-104 | names are listed in strictly ascending order of their bytes |
| CspmCodec.Reader.DecodeState | crates/cspx-core/src/lts_cspm.rs:155-199 | the advancing reader yields what the format prescribes, with the same errors, and leaves the same bytes; it ends because every state consumes some |
| CspmCodec.Decode | crates/cspx-core/src/lts_cspm.rs:201-206 | a state is decoded only when no byte is left over |
| CspmCodec.StateRoundTrip | crates/cspx-core/src/lts_cspm.rs:84-208 | reading an encoding followed by anything yields the state and leaves exactly what follows |
| CspmCodec.RoundTrip | crates/cspx-core/src/lts_cspm.rs:84-208 | a state is decoded from its encoding exactly when all its counts and lengths fit 32 bits |
| CspmCodec.LongNameIsLost | crates/cspx-core/src/lts_cspm.rs:110-114 | no state that hides a channel with a name of 2^32 characters or more is read back |
| CspmCodec.PrefixFree | crates/cspx-core/src/lts_cspm.rs:84-119 | no encoding is a prefix of another one, so encodings are unique |
| CspmCodec.StateWritten | crates/cspx-core/src/lts_cspm.rs:84-119 | a state that fits is written as a byte for its shape and then its fields: four bytes worth the position or the count, the first byte most, names in the order of their characters after four bytes worth their length, values in eight |
| CspmCodec.IntegersAscend | crates/cspx-core/src/lts_cspm.rs:84-119 | numbers that fit are written in their order |
| CspmEncodable.ProviderIsFinite | crates/cspx-core/src/check_refine.rs:246-271 | states of compiled programs with few and short enough names are told apart by their encodings, through every step, whether or not the program is guarded |
| CspmEncodable.FittingModule | crates/cspx-core/src/lts_cspm.rs:658-737 | a module with at most 2^32 expressions and few and short enough names compiles to such a program: the table grows by no more than the size of what is compiled and only by its names |
| CspmCheck.CheckPrograms | crates/cspx-core/src/check_refine.rs:154-207 | on two compiled programs, guarded or not, whose runs are finite and whose searches come back, the checker passes exactly when the refinement holds, and otherwise reports minimised events that fail |
| CspmCheck.CheckModules | crates/cspx-core/src/check_refine.rs:138-207 | from two modules to the verdict: invalid input exactly when one does not compile, pass exactly when the refinement holds between the sources; otherwise events that still fail and from which none can be dropped, in model T the trace of the one source that comes first of all that the other lacks, in model F a trace of it that the other lacks or after which it lacks a refusal |
| CspmCheck.GuardedIsSearchable | crates/cspx-core/src/lts_cspm.rs:260-344 | what the checkers rely on holds of every module without processes that need each other before their first event, on a finite set of its states |
| CspmAssertions.ModuleForPropertyCheck | crates/cspx-core/src/assertion_select.rs:4-42 | the loops compute the module that a property check is about |
| CspmAssertions.ChecksLastAssertion | crates/cspx-core/src/assertion_select.rs:4-42 | in an accepted module without an entry of its own the check is about the process of the last assertion of its kind, and there is no entry exactly when there is no such assertion; the module checked is accepted too |
| CspmCheck.CheckDeadlock | crates/cspx-core/src/check_deadlock.rs:19-40 | from a module to the verdict on the process the assertions select: it holds exactly when nothing the source can come to halts, and otherwise the events are those of a shortest run of the source to where it halts |
| CspmCheck.CheckDivergence | crates/cspx-core/src/check_divergence.rs:19-40 | from a module to the verdict on the process the assertions select: it holds exactly when the source cannot come to an infinite internal run, and otherwise the events are those of a shortest run to a cycle of the system |
| CspmCheck.CheckDeterminism | crates/cspx-core/src/check_determinism.rs:19-40 | from a module to the verdict on determinism of the process the assertions select, with a shortest run to a split |
| Explore.SameCalls | crates/cspx-core/src/explore.rs:236-277 | the explorer with a queue and the one that expands whole levels ask the store the same things in the same order |
| Explorers.ExploreSerial | crates/cspx-core/src/explore.rs:201-283 | it makes exactly the specified insertions, and on an empty store finds the reachable states and counts them and the sum of their out-degrees |
| Explorers.ExploreLevels | crates/cspx-core/src/explore.rs:285-423 | it makes the same insertions as the serial explorer and counts the same |
| Explorers.GatherCandidates | crates/cspx-core/src/explore.rs:475-577 | the merged candidates are the targets of the level in ascending order, whatever the number of workers and the chunks |
| Explorers.ExploreDeterministic | crates/cspx-core/src/explore.rs:425-607 | the insertions are a function of the system and the order alone, independent of workers, and on an empty store it counts the same as the others |
| Explore.SerialCallsDependOnSystem | crates/cspx-core/src/explore.rs:201-423 | what the explorers with a queue and by levels insert depends on the system and the store alone |
| Explore.SortedCallsDependOnSystem | crates/cspx-core/src/explore.rs:425-607 | what the deterministic explorer inserts depends on the system, the order and the store alone |
| CspmOrder.StatesAreOrdered | crates/cspx-core/src/lts_cspm.rs:64-79 | the derived order of states is a strict total order, as the deterministic explorer needs |
| CspmOrder.StateLessIsBefore | crates/cspx-core/src/lts_cspm.rs:64-79 | it puts expressions before parallel before hiding states and then goes field by field, names by their characters and values by size |
| Explorers.OutDegreeOfListing | crates/cspx-core/src/explore.rs:251-252 | summing over the states in the order they are expanded is summing over the set |
| DiskFormat.HexRoundTrip | crates/cspx-core/src/disk_store.rs:450-460 | records are read back from their lines |
| DiskFormat.ScanFinds | crates/cspx-core/src/disk_store.rs:376-418 | the scan of a log finds exactly its complete records and where they end, whatever part of a line follows |
| DiskFormat.HeaderRoundTrip | crates/cspx-core/src/disk_store.rs:368-374 | the header of an index gives back the log length, up to 64 bits |
| DiskFormat.IndexLoads | crates/cspx-core/src/disk_store.rs:327-366 | an index file is loaded exactly for the log length it names, with exactly its records |
| DiskLaws.HexDecodes | crates/cspx-core/src/disk_store.rs:450-460 | text is read as a record exactly when it spells each byte in two hexadecimal digits of either case |
| DiskLaws.LineWritten | crates/cspx-core/src/disk_store.rs:316-325 | a record is written as its digits in lower case and a newline |
| DiskLaws.HeaderExactly | crates/cspx-core/src/disk_store.rs:368-374 | a header is read exactly when it is the fixed text, a plus sign or not, and digits worth a length below 2^64 |
| DiskLaws.HeaderWritten | crates/cspx-core/src/disk_store.rs:420-439 | a header is written as the fixed text and the numeral of the length |
| DiskLaws.ScanExactly | crates/cspx-core/src/disk_store.rs:376-418 | a log is refused exactly for a complete line that, without carriage returns at its end, is neither empty nor a record that the codec takes, and otherwise its records are those of its complete lines |
| DiskLaws.LoadIndexExactly | crates/cspx-core/src/disk_store.rs:327-366 | an index is used exactly when its first line names the length, refused exactly when that line is no UTF-8 text or, being used, a later line is neither empty nor a record, and its records are those of the later lines |
| DiskStore.SaneLoads | crates/cspx-core/src/disk_store.rs:192-201 | after any crash, an index is believed only when it names the whole log, and then it holds all records of it |
| DiskStore.SaneAppend | crates/cspx-core/src/disk_store.rs:316-325 | an append cut at any byte adds the record when its whole line was written and otherwise changes nothing that is ever read |
| DiskStore.LoadIndexFromFile | crates/cspx-core/src/disk_store.rs:339-365 | the loop over lines computes the specified answer, errors included |
| DiskStore.RebuildIndexFromLog | crates/cspx-core/src/disk_store.rs:376-418 | the byte scan collects the records of the complete lines, cuts off what follows the last newline and touches nothing when it reports an error, which it does exactly for a line that is neither empty nor a record; it is only cut short by the death of the process |
| DiskStore.WriteIndexFile | crates/cspx-core/src/disk_store.rs:420-439 | either the new sorted index is in place or the old one is untouched |
| DiskStore.DiskStore.Insert | crates/cspx-core/src/disk_store.rs:275-304 | a process that lives answers as a plain set; a crash leaves the state in or out; the index on disk lags behind by exactly the pending updates and is rewritten when they reach the flush interval |
| DiskStore.DiskStore.FlushIndexSnapshot | crates/cspx-core/src/disk_store.rs:238-255 | after a flush, which always succeeds unless the process dies, the index on disk names the whole log |
| DiskStore.Open | crates/cspx-core/src/disk_store.rs:134-236 | reports exactly the corrupt files, said of their lines; after any crash a process that lives opens it with exactly the records of the log |
| DiskRuns.Run | crates/cspx-core/src/disk_store.rs:126-309 | over every run of openings, insertions, closings and crashes at any byte, each answer and each change of the contents is the one of a plain set; only a process that is to die crashes, and only an insertion that crashes leaves open whether it took place |
| DiskRuns.AckedSurvive | crates/cspx-core/src/disk_store.rs:126-309 | so the store holds all acknowledged insertions and, per crash, at most the one in flight |
| DiskRuns.UncrashedIsPlainSet | crates/cspx-core/src/disk_store.rs:275-304 | before the first crash an insertion is answered as new exactly when the state was not inserted before |
| HybridStore.HybridStore.ActivateSpillIfNeeded | crates/cspx-core/src/store_hybrid.rs:84-99 | spilling starts with every kept state in the spill file exactly when none of the operations on the file fails, and otherwise nothing is spilling |
| HybridStore.HybridStore.Insert | crates/cspx-core/src/store_hybrid.rs:107-127 | answers as a plain set, and fails exactly when an operation it makes on the spill file fails, which leaves the set unchanged; it spills exactly above the threshold and then every kept state is in the file |
| HybridStore.InsertMany | crates/cspx-core/src/store_hybrid.rs:102-132 | over every run with every pattern of failures the answers are those of a plain set without the failed insertions; insertions fail only at the threshold or above, and some fails exactly when some operation on the file does |

## Left out

- Determinism.DeterminismCheck: states the criterion of internal closures that the program uses, which is not failures-based determinism. Which of several states at the least depth is reported depends on the order of steps, and the theorem leaves it open.
- CspmStep.Transitions: any step of a branch of an external choice resolves the choice, an internal one too, as the program has it and textbooks do not.
- CspmCheck.CheckModules: the depth of nested calls stands for the call stack; a program whose search does not come back is outside its hypothesis, as the program does not return on one.
- CspmSyntax.TypecheckModule: says which modules are accepted, not which of several errors is reported first.
- CspmMoves.TransitionsFor: the transition system of the checkers uses the steps before sorting; no theorem about a checker depends on their order.
- DiskStore.Open: one owner; lock files, retries, directories, timings and byte counts are not part of this model, nor is the fallback for systems whose rename does not replace a file.
- DiskRuns.Run: a process that survives a half-written append and goes on appending is outside the crash model.
- HybridStore.HybridStore.Insert: the spill file is a set with an arbitrary pattern of failures before or after an operation took effect, not the disk store itself.
- Explorers.ExploreLevels: parallel maps are order-preserving maps; profiles, timings and errors of the store are not part of this model.
- The two-level maps of the caches are flattened to one map each; explanatory tags, source spans, statistics of the checkers and status codes are left out.
- The lexer and the parser, the command line, the problem runner, reports and schemas, and the simple transition system and in-memory queue: plumbing, or members that would only be easy.
